/**
  The match-list endpoints over the rows of the matches CSV file
  (`get_matches_by_competition`, `get_matches_by_competition_and_season`,
  `get_match_by_id`) and the per-team split of a match's incident events
  (`get_match_incident_events`).
*/
module Matches {
  import opened Optional
  import opened Seqs
  import opened Text

  /** One CSV row: column name to cell text. */
  type Row = map<string, string>

  /** `row.get(key, "")`: a missing column reads as the empty string. */
  function Field(row: Row, key: string): string {
    if key in row then row[key] else ""
  }

  /** An endpoint's answer: a value, or the 404 "not found" message. */
  datatype Response<T> = Found(value: T) | NotFound

  /** The row's competition equals the requested one, ignoring ASCII case. */
  predicate SameCompetition(row: Row, competition: string) {
    Lower(Field(row, "competition")) == Lower(competition)
  }

  /** The row's season equals the requested one exactly. */
  predicate SameSeason(row: Row, season: string) {
    Field(row, "season") == season
  }

  function CompetitionIs(competition: string): Row -> bool {
    row => SameCompetition(row, competition)
  }

  function CompetitionAndSeasonAre(competition: string, season: string): Row -> bool {
    row => SameCompetition(row, competition) && SameSeason(row, season)
  }

  function SeasonIs(season: string): Row -> bool {
    row => SameSeason(row, season)
  }

  /** A non-empty list is found; an empty one is answered with 404. */
  function NonEmpty(rows: seq<Row>): Response<seq<Row>>
  {
    if |rows| == 0 then NotFound else Found(rows)
  }

  /**
    `/matches/competition/<competition>`: the rows of that competition, in
    file order and with their multiplicity, or 404 when there are none.
  */
  function MatchesByCompetition(rows: seq<Row>, competition: string): (r: Response<seq<Row>>)
    ensures r == NotFound <==> forall i :: 0 <= i < |rows| ==> !SameCompetition(rows[i], competition)
    ensures r.Found? ==>
      && IsSubsequence(r.value, rows)
      && (forall row :: row in r.value ==> SameCompetition(row, competition))
      && (forall row :: SameCompetition(row, competition) ==> multiset(r.value)[row] == multiset(rows)[row])
  {
    var kept := Filter(rows, CompetitionIs(competition));
    assert |kept| == 0 <==> forall i :: 0 <= i < |rows| ==> !SameCompetition(rows[i], competition) by {
      if |kept| > 0 {
        assert kept[0] in kept;
      } else {
        forall i | 0 <= i < |rows| ensures !SameCompetition(rows[i], competition) {
          assert rows[i] in rows;
        }
      }
    }
    NonEmpty(kept)
  }

  /**
    `/matches/competition/<competition>/season/<season>`: the rows of that
    competition (any case) and that season (exact), in file order and with
    their multiplicity, or 404 when there are none.
  */
  function MatchesByCompetitionAndSeason(rows: seq<Row>, competition: string, season: string): (r: Response<seq<Row>>)
    ensures r == NotFound <==>
      forall i :: 0 <= i < |rows| ==> !(SameCompetition(rows[i], competition) && SameSeason(rows[i], season))
    ensures r.Found? ==>
      && IsSubsequence(r.value, rows)
      && (forall row :: row in r.value ==> SameCompetition(row, competition) && SameSeason(row, season))
      && (forall row :: SameCompetition(row, competition) && SameSeason(row, season) ==>
            multiset(r.value)[row] == multiset(rows)[row])
  {
    var kept := Filter(rows, CompetitionAndSeasonAre(competition, season));
    assert |kept| == 0 <==>
      forall i :: 0 <= i < |rows| ==> !(SameCompetition(rows[i], competition) && SameSeason(rows[i], season)) by {
      if |kept| > 0 {
        assert kept[0] in kept;
      } else {
        forall i | 0 <= i < |rows| ensures !(SameCompetition(rows[i], competition) && SameSeason(rows[i], season)) {
          assert rows[i] in rows;
        }
      }
    }
    NonEmpty(kept)
  }

  /** Competition names that differ only in ASCII case select the same rows. */
  lemma CompetitionCaseInsensitive(rows: seq<Row>, c1: string, c2: string)
    requires Lower(c1) == Lower(c2)
    ensures MatchesByCompetition(rows, c1) == MatchesByCompetition(rows, c2)
  {
    FilterCongruent(rows, CompetitionIs(c1), CompetitionIs(c2));
  }

  /**
    The competition comparison spelled out: a row matches exactly when its
    `competition` cell has the requested length and agrees with the request
    character by character up to ASCII case.
  */
  lemma SameCompetitionSpec(row: Row, competition: string)
    ensures var cell := Field(row, "competition");
      SameCompetition(row, competition) <==>
        |cell| == |competition| && forall i :: 0 <= i < |cell| ==> CaseVariants(cell[i], competition[i])
  {
    LowerEqual(Field(row, "competition"), competition);
  }

  /**
    The season endpoint narrows the competition endpoint: its rows are the
    competition endpoint's rows of that season, and it answers 404 whenever
    the competition endpoint does.
  */
  lemma SeasonNarrowsCompetition(rows: seq<Row>, competition: string, season: string)
    ensures MatchesByCompetition(rows, competition) == NotFound ==>
      MatchesByCompetitionAndSeason(rows, competition, season) == NotFound
    ensures MatchesByCompetition(rows, competition).Found? ==>
      MatchesByCompetitionAndSeason(rows, competition, season) ==
        NonEmpty(Filter(MatchesByCompetition(rows, competition).value, SeasonIs(season)))
  {
    FilterFilter(rows, CompetitionIs(competition), SeasonIs(season), CompetitionAndSeasonAre(competition, season));
  }

  /** The row's `match_id` column exists and equals `id`. */
  predicate HasId(row: Row, id: string) {
    "match_id" in row && row["match_id"] == id
  }

  /**
    `/matches/id/<match_id>`: the first row whose `match_id` equals the
    requested id, or 404 when no row has it. A row without the column never
    matches.
  */
  method GetMatchById(rows: seq<Row>, id: string) returns (r: Response<Row>)
    ensures r == NotFound <==> forall i :: 0 <= i < |rows| ==> !HasId(rows[i], id)
    ensures r.Found? ==>
      exists i :: 0 <= i < |rows| && rows[i] == r.value && HasId(rows[i], id)
        && forall j :: 0 <= j < i ==> !HasId(rows[j], id)
  {
    var i := 0;
    while i < |rows|
      invariant i <= |rows|
      invariant forall j :: 0 <= j < i ==> !HasId(rows[j], id)
    {
      if HasId(rows[i], id) {
        return Found(rows[i]);
      }
      i := i + 1;
    }
    return NotFound;
  }

  /** One entry of the match's `incidentEvents`: its `teamId`, if any, and the rest copied as is. */
  datatype IncidentEvent = IncidentEvent(teamId: Option<int>, details: map<string, string>)

  /** The answer of `/match/incidentEvents/<match_id>` without the match id. */
  datatype IncidentSplit = IncidentSplit(home: seq<IncidentEvent>, away: seq<IncidentEvent>)

  function OfTeam(teamId: Option<int>): IncidentEvent -> bool {
    (e: IncidentEvent) => e.teamId == teamId
  }

  /**
    Each side receives exactly the events whose `teamId` equals its team id,
    in the original order and with their multiplicity. An absent team id
    equals an absent `teamId`, so a side whose id is missing receives the
    untagged events.
  */
  function SplitIncidents(events: seq<IncidentEvent>, homeId: Option<int>, awayId: Option<int>): (r: IncidentSplit)
    ensures IsSubsequence(r.home, events) && IsSubsequence(r.away, events)
    ensures forall e :: e in r.home <==> e in events && e.teamId == homeId
    ensures forall e :: e in r.away <==> e in events && e.teamId == awayId
    ensures forall e: IncidentEvent :: e.teamId == homeId ==> multiset(r.home)[e] == multiset(events)[e]
    ensures forall e: IncidentEvent :: e.teamId == awayId ==> multiset(r.away)[e] == multiset(events)[e]
  {
    IncidentSplit(Filter(events, OfTeam(homeId)), Filter(events, OfTeam(awayId)))
  }

  /**
    When the two team ids differ, no event is given to both sides, so the
    two lists together are no longer than the match's event list.
  */
  lemma SplitDisjoint(events: seq<IncidentEvent>, homeId: Option<int>, awayId: Option<int>)
    requires homeId != awayId
    ensures var r := SplitIncidents(events, homeId, awayId);
      && (forall e :: e in r.home ==> e !in r.away)
      && |r.home| + |r.away| <= |events|
  {
    FilterDisjointLength(events, OfTeam(homeId), OfTeam(awayId));
  }
}
