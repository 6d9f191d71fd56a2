/**
  The handful of Python `str` operations the handlers use: `strip()`,
  `split()` with no separator, `lower()` and single-character `replace`.
  Whitespace is the set of characters for which Python's `str.isspace()`
  holds; case folding covers ASCII letters only.
*/
module Text {

  /** Python's `str.isspace()` for one character. */
  predicate IsSpace(c: char) {
    || c == ' ' || ('\t' <= c <= '\r') || ('\U{1c}' <= c <= '\U{1f}')
    || c == '\U{85}' || c == '\U{a0}' || c == '\U{1680}'
    || ('\U{2000}' <= c <= '\U{200a}') || c == '\U{2028}' || c == '\U{2029}'
    || c == '\U{202f}' || c == '\U{205f}' || c == '\U{3000}'
  }

  predicate AllSpace(s: string) {
    forall i :: 0 <= i < |s| ==> IsSpace(s[i])
  }

  predicate NoSpace(s: string) {
    forall i :: 0 <= i < |s| ==> !IsSpace(s[i])
  }

  /** How many whitespace characters `s` starts with. */
  function LeadingSpaces(s: string): (n: nat)
    ensures n <= |s| && AllSpace(s[..n])
    ensures n < |s| ==> !IsSpace(s[n])
  {
    if |s| == 0 || !IsSpace(s[0]) then 0
    else
      var n := 1 + LeadingSpaces(s[1..]);
      assert s[..n] == [s[0]] + s[1..][..n - 1];
      n
  }

  /** How many whitespace characters `s` ends with. */
  function TrailingSpaces(s: string): (n: nat)
    ensures n <= |s| && AllSpace(s[|s| - n..])
    ensures n < |s| ==> !IsSpace(s[|s| - n - 1])
  {
    if |s| == 0 || !IsSpace(s[|s| - 1]) then 0
    else
      var init := s[..|s| - 1];
      var n := 1 + TrailingSpaces(init);
      assert s[|s| - n..] == init[|init| - (n - 1)..] + [s[|s| - 1]];
      n
  }

  /**
    Python's `s.strip()`: `s` without its leading and trailing whitespace. The
    result is the slice of `s` starting at `LeadingSpaces(s)`, everything cut off
    on either side is whitespace, and the result neither starts nor ends with
    whitespace.
  */
  function Strip(s: string): (r: string)
    ensures LeadingSpaces(s) + |r| <= |s|
    ensures r == s[LeadingSpaces(s)..LeadingSpaces(s) + |r|]
    ensures AllSpace(s[..LeadingSpaces(s)]) && AllSpace(s[LeadingSpaces(s) + |r|..])
    ensures |r| > 0 ==> !IsSpace(r[0]) && !IsSpace(r[|r| - 1])
  {
    var a := LeadingSpaces(s);
    var rest := s[a..];
    var r := rest[..|rest| - TrailingSpaces(rest)];
    assert s[a + |r|..] == rest[|r|..];
    r
  }

  /** A string that neither starts nor ends with whitespace is its own strip. */
  lemma StripTrimmed(s: string)
    requires |s| > 0 ==> !IsSpace(s[0]) && !IsSpace(s[|s| - 1])
    ensures Strip(s) == s
  {
    var r := Strip(s);
    if |s| > 0 {
      assert LeadingSpaces(s) == 0;
    }
  }

  /** Stripping twice is stripping once. */
  lemma StripIdempotent(s: string)
    ensures Strip(Strip(s)) == Strip(s)
  {
    StripTrimmed(Strip(s));
  }

  /** Python's `s.replace(c, d)` for single characters: every `c` becomes `d`. */
  function Replace(s: string, c: char, d: char): string
  {
    seq(|s|, i requires 0 <= i < |s| => if s[i] == c then d else s[i])
  }

  /** After replacing `c` by another character, `c` no longer occurs. */
  lemma ReplaceRemoves(s: string, c: char, d: char)
    requires c != d
    ensures c !in Replace(s, c, d)
  {
    var r := Replace(s, c, d);
    forall i | 0 <= i < |r| ensures r[i] != c {
    }
  }

  /** Replacing `c` by a character `d` that `s` does not contain is undone by replacing `d` by `c`. */
  lemma ReplaceRoundTrip(s: string, c: char, d: char)
    requires d !in s
    ensures Replace(Replace(s, c, d), d, c) == s
  {
    var r := Replace(Replace(s, c, d), d, c);
    forall i | 0 <= i < |s| ensures r[i] == s[i] {
      assert s[i] != d;
    }
  }

  /** ASCII `lower()` of one character. */
  function LowerChar(c: char): char {
    if 'A' <= c <= 'Z' then (c as int + 32) as char else c
  }

  /** Python's `s.lower()`, restricted to ASCII letters. */
  function Lower(s: string): string
  {
    seq(|s|, i requires 0 <= i < |s| => LowerChar(s[i]))
  }

  /** Lowering twice is lowering once. */
  lemma LowerIdempotent(s: string)
    ensures Lower(Lower(s)) == Lower(s)
  {
  }

  /** Two characters are equal, or the same ASCII letter in upper and lower case. */
  predicate CaseVariants(c: char, d: char) {
    || c == d
    || ('A' <= c <= 'Z' && d as int == c as int + 32)
    || ('A' <= d <= 'Z' && c as int == d as int + 32)
  }

  /** Characters lower to the same character exactly when they are case variants. */
  lemma LowerCharEqual(c: char, d: char)
    ensures LowerChar(c) == LowerChar(d) <==> CaseVariants(c, d)
  {
  }

  /**
    Lowered strings are equal exactly when the strings have the same length
    and agree position by position up to ASCII case.
  */
  lemma LowerEqual(a: string, b: string)
    ensures Lower(a) == Lower(b) <==>
      |a| == |b| && forall i :: 0 <= i < |a| ==> CaseVariants(a[i], b[i])
  {
    if |a| == |b| {
      if forall i :: 0 <= i < |a| ==> CaseVariants(a[i], b[i]) {
        forall i | 0 <= i < |a| ensures Lower(a)[i] == Lower(b)[i] {
          LowerCharEqual(a[i], b[i]);
        }
      } else {
        var i :| 0 <= i < |a| && !CaseVariants(a[i], b[i]);
        LowerCharEqual(a[i], b[i]);
        assert Lower(a)[i] != Lower(b)[i];
      }
    }
  }

  /** The length of the run of non-whitespace characters `s` starts with. */
  function WordLength(s: string): (n: nat)
    ensures n <= |s| && NoSpace(s[..n])
    ensures n < |s| ==> IsSpace(s[n])
  {
    if |s| == 0 || IsSpace(s[0]) then 0
    else
      var n := 1 + WordLength(s[1..]);
      assert s[..n] == [s[0]] + s[1..][..n - 1];
      n
  }

  /**
    Python's `s.split()` with no separator: the maximal runs of
    non-whitespace characters, in order. Every word is non-empty and
    contains no whitespace, so leading, trailing and repeated whitespace
    produce no empty words.
  */
  function Split(s: string): (ws: seq<string>)
    ensures forall k :: 0 <= k < |ws| ==> |ws[k]| > 0 && NoSpace(ws[k])
    decreases |s|
  {
    var t := s[LeadingSpaces(s)..];
    if |t| == 0 then []
    else
      var n := WordLength(t);
      [t[..n]] + Split(t[n..])
  }

  /** The words joined by single spaces. */
  function Join(ws: seq<string>): string {
    if |ws| == 0 then ""
    else if |ws| == 1 then ws[0]
    else ws[0] + (" " + Join(ws[1..]))
  }

  /** One whitespace character in front of a string does not change how it splits. */
  lemma SplitSkipsSpace(c: char, s: string)
    requires IsSpace(c)
    ensures Split([c] + s) == Split(s)
  {
    var s' := [c] + s;
    assert s'[1..] == s;
    assert LeadingSpaces(s') == 1 + LeadingSpaces(s);
    assert s'[LeadingSpaces(s')..] == s[LeadingSpaces(s)..];
  }

  /** Any run of whitespace in front of a string is skipped. */
  lemma {:induction false} SplitSkipsSpaces(w: string, s: string)
    requires AllSpace(w)
    ensures Split(w + s) == Split(s)
  {
    if |w| > 0 {
      assert w + s == [w[0]] + (w[1..] + s);
      SplitSkipsSpaces(w[1..], s);
      SplitSkipsSpace(w[0], w[1..] + s);
    } else {
      assert w + s == s;
    }
  }

  /** A string of whitespace only, the empty string included, has no words. */
  lemma SplitAllSpace(s: string)
    requires AllSpace(s)
    ensures Split(s) == []
  {
    SplitSkipsSpaces(s, "");
    assert s + "" == s;
  }

  /** Any run of whitespace after a string is ignored. */
  lemma {:induction false} SplitTrailingSpaces(s: string, w: string)
    requires AllSpace(w)
    ensures Split(s + w) == Split(s)
    decreases |s|
  {
    var a := LeadingSpaces(s);
    var t := s[a..];
    if |t| == 0 {
      assert AllSpace(s) by { assert s == s[..a]; }
      SplitAllSpace(s);
      assert AllSpace(s + w);
      SplitAllSpace(s + w);
    } else {
      var n := WordLength(t);
      var word, rest := t[..n], t[n..];
      assert s == s[..a] + (word + rest);
      assert s + w == s[..a] + (word + (rest + w));
      SplitSkipsSpaces(s[..a], word + rest);
      SplitSkipsSpaces(s[..a], word + (rest + w));
      SplitWord(word, rest);
      SplitWord(word, rest + w);
      SplitTrailingSpaces(rest, w);
    }
  }

  /**
    A word followed by a non-empty run of whitespace splits off as the first
    word, however long the run is and whichever whitespace characters it holds.
  */
  lemma SplitSeparated(w: string, sep: string, rest: string)
    requires |w| > 0 && NoSpace(w)
    requires |sep| > 0 && AllSpace(sep)
    ensures Split(w + sep + rest) == [w] + Split(rest)
  {
    assert w + sep + rest == w + (sep + rest);
    SplitWord(w, sep + rest);
    SplitSkipsSpaces(sep, rest);
  }

  /** A word followed by nothing, or by a space, is read back whole. */
  lemma {:induction false} WordLengthOfWord(w: string, rest: string)
    requires |w| > 0 && NoSpace(w)
    requires |rest| == 0 || IsSpace(rest[0])
    ensures WordLength(w + rest) == |w|
  {
    var s := w + rest;
    assert s[0] == w[0] && s[1..] == w[1..] + rest;
    if |w| > 1 {
      WordLengthOfWord(w[1..], rest);
    } else {
      assert w[1..] + rest == rest;
    }
  }

  /** A leading word, then nothing or whitespace, splits off as the first word. */
  lemma SplitWord(w: string, rest: string)
    requires |w| > 0 && NoSpace(w)
    requires |rest| == 0 || IsSpace(rest[0])
    ensures Split(w + rest) == [w] + Split(rest)
  {
    var s := w + rest;
    assert LeadingSpaces(s) == 0 by { assert s[0] == w[0]; }
    assert s[0..] == s;
    WordLengthOfWord(w, rest);
    assert s[..|w|] == w && s[|w|..] == rest;
  }

  /**
    Splitting inverts joining: words that are non-empty and free of
    whitespace, joined by single spaces, split back into the same words.
  */
  lemma {:induction false} SplitJoin(ws: seq<string>)
    requires forall k :: 0 <= k < |ws| ==> |ws[k]| > 0 && NoSpace(ws[k])
    ensures Split(Join(ws)) == ws
  {
    if |ws| == 1 {
      SplitOneWord(ws[0]);
    } else if |ws| > 1 {
      assert ws == [ws[0]] + ws[1..];
      SplitJoinStep(ws);
      SplitJoin(ws[1..]);
    }
  }

  /** A single word splits into itself. */
  lemma SplitOneWord(w: string)
    requires |w| > 0 && NoSpace(w)
    ensures Split(w) == [w]
  {
    SplitWord(w, "");
    assert w + "" == w;
  }

  /** The first of several joined words splits off in front of the rest. */
  lemma SplitJoinStep(ws: seq<string>)
    requires |ws| > 1 && |ws[0]| > 0 && NoSpace(ws[0])
    ensures Split(Join(ws)) == [ws[0]] + Split(Join(ws[1..]))
  {
    var tail := Join(ws[1..]);
    calc {
      Split(Join(ws));
      Split(ws[0] + (" " + tail));
      { SplitWord(ws[0], " " + tail); }
      [ws[0]] + Split(" " + tail);
      { SplitSkipsSpace(' ', tail); }
      [ws[0]] + Split(tail);
    }
  }
}
