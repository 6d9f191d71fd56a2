/**
  The bearer-token check every endpoint runs before its handler
  (`token_required`). The `Authorization` header is optional; the configured
  token comes from the environment and is absent when `AUTH_TOKEN` is unset.
*/
module Auth {
  import opened Optional
  import opened Text

  /** How a request fares at the token check; every rejection is answered with HTTP 401. */
  datatype AuthOutcome =
    | MissingToken    // no header, or an empty one
    | BadFormat       // the header does not split into exactly two words
    | BadScheme       // the first word is not `bearer` in any case
    | WrongToken      // the second word is not the configured token
    | Accepted        // the wrapped handler runs

  /** The header splits into a scheme word and a token word. */
  predicate TwoWords(h: string) {
    |Split(h)| == 2
  }

  /** The first of the two words is `bearer`, ignoring case. */
  predicate BearerScheme(h: string)
    requires TwoWords(h)
  {
    Lower(Split(h)[0]) == "bearer"
  }

  /**
    The outcome of the token check. The conditions are evaluated in a fixed
    order, and each outcome holds exactly when every earlier condition held and
    its own did not; a request is accepted only when all four hold.
  */
  function CheckAuthorization(header: Option<string>, configured: Option<string>): (r: AuthOutcome)
    ensures r == MissingToken <==> header.None? || header.value == ""
    ensures r == BadFormat <==> header.Some? && header.value != "" && !TwoWords(header.value)
    ensures r == BadScheme <==>
      header.Some? && TwoWords(header.value) && !BearerScheme(header.value)
    ensures r == WrongToken <==>
      header.Some? && TwoWords(header.value) && BearerScheme(header.value)
      && configured != Some(Split(header.value)[1])
    ensures r == Accepted <==>
      header.Some? && TwoWords(header.value) && BearerScheme(header.value)
      && configured == Some(Split(header.value)[1])
  {
    match header
    case None => MissingToken
    case Some(h) =>
      if h == "" then MissingToken
      else if !TwoWords(h) then BadFormat
      else if !BearerScheme(h) then BadScheme
      else if configured != Some(Split(h)[1]) then WrongToken
      else Accepted
  }

  /** With no token configured, no request is ever accepted. */
  lemma UnconfiguredRejectsAll(header: Option<string>)
    ensures CheckAuthorization(header, None) != Accepted
  {
  }

  /**
    A configured token that is empty or contains whitespace can never equal a
    word of the header, so it rejects every request.
  */
  lemma UnmatchableTokenRejectsAll(header: Option<string>, token: string)
    requires token == "" || !NoSpace(token)
    ensures CheckAuthorization(header, Some(token)) != Accepted
  {
  }

  /** A scheme that lowers to `bearer` is a single non-empty word. */
  lemma BearerIsWord(scheme: string)
    requires Lower(scheme) == "bearer"
    ensures |scheme| > 0 && NoSpace(scheme)
  {
    forall i | 0 <= i < |scheme| ensures !IsSpace(scheme[i]) {
      assert Lower(scheme)[i] == LowerChar(scheme[i]);
      assert "bearer"[i] in "bearer";
    }
  }

  /**
    The header a client is meant to send is accepted: any spelling of
    `Bearer`, one space, then the configured token (non-empty, without
    whitespace).
  */
  lemma WellFormedHeaderAccepted(scheme: string, token: string)
    requires Lower(scheme) == "bearer"
    requires |token| > 0 && NoSpace(token)
    ensures CheckAuthorization(Some(scheme + " " + token), Some(token)) == Accepted
  {
    BearerIsWord(scheme);
    var ws := [scheme, token];
    assert Join(ws) == scheme + " " + token by {
      assert ws[1..] == [token];
    }
    SplitJoin(ws);
  }

  /** Whitespace of any kind and length before a non-empty header changes nothing about the outcome. */
  lemma LeadingSpaceIrrelevant(w: string, h: string, configured: Option<string>)
    requires AllSpace(w) && h != ""
    ensures CheckAuthorization(Some(w + h), configured) == CheckAuthorization(Some(h), configured)
  {
    SplitSkipsSpaces(w, h);
  }

  /** Likewise for whitespace after a non-empty header. */
  lemma TrailingSpaceIrrelevant(h: string, w: string, configured: Option<string>)
    requires AllSpace(w) && h != ""
    ensures CheckAuthorization(Some(h + w), configured) == CheckAuthorization(Some(h), configured)
  {
    SplitTrailingSpaces(h, w);
  }
}
