/**
  The `/competitions` endpoint (`get_competitions`): optional numeric
  filters on tournament and season, then for each remaining workbook row a
  competition record whose key is a slug built from the region, tournament
  and season names.
*/
module Competitions {
  import opened Optional
  import opened Seqs
  import opened Text

  /** One row of the tournaments workbook, with the columns the endpoint reads. */
  datatype TournamentRow = TournamentRow(
    tournamentId: int,
    seasonId: int,
    stageId: int,
    stageName: string,
    regionId: int,
    regionName: string,
    tournamentName: string,
    seasonName: string)

  /** One entry of the endpoint's answer. */
  datatype Competition = Competition(
    tournamentId: int,
    seasonId: int,
    stageId: int,
    stageName: string,
    regionId: int,
    tournamentName: string,
    seasonName: string,
    competition: string)

  /**
    The competition key `region-tournament-season`: the three names
    stripped, spaces in the tournament name and slashes in the season name
    turned into dashes, joined by dashes.
  */
  function Slug(region: string, tournament: string, season: string): (r: string)
    ensures var R, T, S := Strip(region), Strip(tournament), Strip(season);
      && |r| == |R| + |T| + |S| + 2
      && r[..|R|] == R && r[|R|] == '-'
      && r[|R| + 1..|R| + 1 + |T|] == Replace(T, ' ', '-') && r[|R| + 1 + |T|] == '-'
      && r[|R| + 2 + |T|..] == Replace(S, '/', '-')
  {
    Dashed(Strip(region), Strip(tournament), Strip(season))
  }

  /**
    The slug of already stripped names. Each segment sits at a fixed offset:
    the region verbatim, a dash, the tournament with every space made a dash
    and every other character kept, a dash, the season with every slash made
    a dash and every other character kept.
  */
  function Dashed(R: string, T: string, S: string): (r: string)
    ensures |r| == |R| + |T| + |S| + 2
    ensures r[..|R|] == R && r[|R|] == '-'
    ensures r[|R| + 1..|R| + 1 + |T|] == Replace(T, ' ', '-') && r[|R| + 1 + |T|] == '-'
    ensures r[|R| + 2 + |T|..] == Replace(S, '/', '-')
  {
    var t, s := Replace(T, ' ', '-'), Replace(S, '/', '-');
    SlugLayout(R, t, s);
    R + "-" + t + "-" + s
  }

  /** Where the three segments of `a-b-c` sit. */
  lemma SlugLayout(a: string, b: string, c: string)
    ensures var r := a + "-" + b + "-" + c;
      && |r| == |a| + |b| + |c| + 2
      && r[..|a|] == a && r[|a|] == '-'
      && r[|a| + 1..|a| + 1 + |b|] == b && r[|a| + 1 + |b|] == '-'
      && r[|a| + 2 + |b|..] == c
  {
    var r := a + "-" + b + "-" + c;
    var p := a + "-" + b;
    assert r == p + ("-" + c);
    assert p[..|a|] == a && p[|a| + 1..] == b;
  }

  /** The tournament segment of a slug is as long as the stripped name and never contains a space. */
  lemma TournamentSegmentHasNoSpace(region: string, tournament: string, season: string)
    ensures var R, T := Strip(region), Strip(tournament);
      var seg := Slug(region, tournament, season)[|R| + 1..|R| + 1 + |T|];
      |seg| == |T| && ' ' !in seg
  {
    ReplaceRemoves(Strip(tournament), ' ', '-');
  }

  /** The season segment of a slug is as long as the stripped name and never contains a slash. */
  lemma SeasonSegmentHasNoSlash(region: string, tournament: string, season: string)
    ensures var R, T, S := Strip(region), Strip(tournament), Strip(season);
      var seg := Slug(region, tournament, season)[|R| + 2 + |T|..];
      |seg| == |S| && '/' !in seg
  {
    ReplaceRemoves(Strip(season), '/', '-');
  }

  /**
    When the stripped tournament name has no dash of its own, turning the
    dashes of its slug segment back into spaces recovers it.
  */
  lemma TournamentRecoverable(region: string, tournament: string, season: string)
    requires '-' !in Strip(tournament)
    ensures var R, T := Strip(region), Strip(tournament);
      Replace(Slug(region, tournament, season)[|R| + 1..|R| + 1 + |T|], '-', ' ') == T
  {
    ReplaceRoundTrip(Strip(tournament), ' ', '-');
  }

  /** Likewise for the season: `2023-2024` comes back as `2023/2024` when the name had no dash. */
  lemma SeasonRecoverable(region: string, tournament: string, season: string)
    requires '-' !in Strip(season)
    ensures var R, T, S := Strip(region), Strip(tournament), Strip(season);
      Replace(Slug(region, tournament, season)[|R| + 2 + |T|..], '-', '/') == S
  {
    ReplaceRoundTrip(Strip(season), '/', '-');
  }

  /**
    The record built for one row: the identifiers copied, the tournament and
    season names stripped but not rewritten, and the slug built from the
    stripped names.
  */
  function CompetitionOf(row: TournamentRow): Competition {
    Competition(
      row.tournamentId, row.seasonId, row.stageId, row.stageName, row.regionId,
      Strip(row.tournamentName), Strip(row.seasonName),
      Slug(row.regionName, row.tournamentName, row.seasonName))
  }

  /**
    What a record says about its row: the tournament and season names are
    the stripped names, not rewritten; the key opens with the stripped
    region and a dash and is as long as the three names plus two dashes;
    and a name with no dash of its own is read back from its key segment by
    turning the dashes back into spaces (tournament) or slashes (season).
  */
  lemma CompetitionRecoversNames(row: TournamentRow)
    ensures var R, T, S := Strip(row.regionName), Strip(row.tournamentName), Strip(row.seasonName);
      var c := CompetitionOf(row);
      && c.tournamentName == T && c.seasonName == S
      && |c.competition| == |R| + |T| + |S| + 2
      && c.competition[..|R| + 1] == R + "-"
      && ('-' !in T ==> Replace(c.competition[|R| + 1..|R| + 1 + |T|], '-', ' ') == T)
      && ('-' !in S ==> Replace(c.competition[|R| + 2 + |T|..], '-', '/') == S)
  {
    var R, T, S := Strip(row.regionName), Strip(row.tournamentName), Strip(row.seasonName);
    assert CompetitionOf(row).competition == Dashed(R, T, S);
    DashedRecovers(R, T, S);
  }

  /** `CompetitionRecoversNames` for already stripped names. */
  lemma DashedRecovers(R: string, T: string, S: string)
    ensures var r := Dashed(R, T, S);
      && r[..|R| + 1] == R + "-"
      && ('-' !in T ==> Replace(r[|R| + 1..|R| + 1 + |T|], '-', ' ') == T)
      && ('-' !in S ==> Replace(r[|R| + 2 + |T|..], '-', '/') == S)
  {
    var r := Dashed(R, T, S);
    assert r[..|R| + 1] == r[..|R|] + [r[|R|]];
    if '-' !in T {
      ReplaceRoundTrip(T, ' ', '-');
    }
    if '-' !in S {
      ReplaceRoundTrip(S, '/', '-');
    }
  }

  /** A numeric query parameter after reading: not given, given and parsed, or given and unparsable. */
  datatype IdParam = Absent | Given(id: int) | Malformed

  /**
    Reads an optional query parameter. An absent or empty parameter filters
    nothing; otherwise `parse` (Python's `int`, not modelled here) decides
    between a number and a 400 answer.
  */
  function ReadIdParam(param: Option<string>, parse: string -> Option<int>): (p: IdParam)
    ensures p == Absent <==> param.None? || param.value == ""
    ensures p == Malformed <==> param.Some? && param.value != "" && parse(param.value).None?
    ensures p.Given? ==> param.Some? && parse(param.value) == Some(p.id)
  {
    match param
    case None => Absent
    case Some(s) =>
      if s == "" then Absent
      else match parse(s)
        case None => Malformed
        case Some(n) => Given(n)
  }

  /** A parameter admits an identifier when it is absent or names exactly that identifier. */
  predicate Admits(p: IdParam, id: int) {
    p.Absent? || (p.Given? && p.id == id)
  }

  /** A row survives both query filters. */
  predicate Selected(row: TournamentRow, tp: IdParam, sp: IdParam) {
    Admits(tp, row.tournamentId) && Admits(sp, row.seasonId)
  }

  /** How `/competitions` answers. */
  datatype ListOutcome =
    | BadTournamentId                       // 400
    | BadSeasonId                           // 400
    | NoneFound                             // 404
    | Listed(competitions: seq<Competition>)

  /** Keeps the rows whose identifier a parameter admits. */
  function Narrow(rows: seq<TournamentRow>, p: IdParam, season: bool): (r: seq<TournamentRow>)
    requires !p.Malformed?
    ensures forall i :: 0 <= i < |r| ==> Admits(p, if season then r[i].seasonId else r[i].tournamentId)
  {
    if p.Absent? then rows
    else
      var r := Filter(rows, Keeps(p, season));
      assert forall i :: 0 <= i < |r| ==> r[i] in r;
      r
  }

  /** The condition `Narrow` filters by. */
  function Keeps(p: IdParam, season: bool): TournamentRow -> bool {
    (row: TournamentRow) => Admits(p, if season then row.seasonId else row.tournamentId)
  }

  /** The condition of being `Selected`. */
  function SelectedBy(tp: IdParam, sp: IdParam): TournamentRow -> bool {
    (row: TournamentRow) => Selected(row, tp, sp)
  }

  /**
    `get_competitions` after the workbook has been read. The tournament
    parameter is validated before the season parameter, so a bad tournament
    identifier wins over a bad season identifier; a successful answer is
    never an empty list.
  */
  function ListCompetitions(rows: seq<TournamentRow>, tp: IdParam, sp: IdParam): (r: ListOutcome)
    ensures r == BadTournamentId <==> tp.Malformed?
    ensures r == BadSeasonId <==> !tp.Malformed? && sp.Malformed?
    ensures r.Listed? ==> |r.competitions| > 0
  {
    if tp.Malformed? then BadTournamentId
    else
      var kept := Narrow(rows, tp, false);
      if sp.Malformed? then BadSeasonId
      else
        var kept' := Narrow(kept, sp, true);
        if |kept'| == 0 then NoneFound
        else Listed(seq(|kept'|, i requires 0 <= i < |kept'| => CompetitionOf(kept'[i])))
  }

  /** Narrowing by the tournament and then by the season keeps exactly the selected rows, in order. */
  lemma NarrowTwice(rows: seq<TournamentRow>, tp: IdParam, sp: IdParam)
    requires !tp.Malformed? && !sp.Malformed?
    ensures Narrow(Narrow(rows, tp, false), sp, true) == Filter(rows, SelectedBy(tp, sp))
  {
    var sel, byT, byS := SelectedBy(tp, sp), Keeps(tp, false), Keeps(sp, true);
    if tp.Absent? && sp.Absent? {
      FilterKeepsAll(rows, sel);
    } else if tp.Absent? {
      FilterCongruent(rows, byS, sel);
    } else if sp.Absent? {
      FilterCongruent(rows, byT, sel);
    } else {
      FilterFilter(rows, byT, byS, sel);
    }
  }

  /**
    With both parameters valid, the endpoint answers 404 exactly when no row
    is selected, and otherwise lists one competition per selected row, in
    workbook order.
  */
  lemma ListCompetitionsSelects(rows: seq<TournamentRow>, tp: IdParam, sp: IdParam)
    requires !tp.Malformed? && !sp.Malformed?
    ensures var sel := Filter(rows, SelectedBy(tp, sp));
      var r := ListCompetitions(rows, tp, sp);
      && (r == NoneFound <==> forall i :: 0 <= i < |rows| ==> !Selected(rows[i], tp, sp))
      && (r.Listed? ==>
            |r.competitions| == |sel|
            && forall k :: 0 <= k < |sel| ==> r.competitions[k] == CompetitionOf(sel[k]))
  {
    NarrowTwice(rows, tp, sp);
    var sel := Filter(rows, SelectedBy(tp, sp));
    if |sel| > 0 {
      assert sel[0] in sel;
    } else {
      forall i | 0 <= i < |rows| ensures !Selected(rows[i], tp, sp) {
        assert rows[i] in rows;
      }
    }
  }
}
