# A verified model of the api-cafecito match-data core

`api-cafecito` is a small Flask service that serves football match data read
from a tournaments workbook, a matches CSV file and one JSON file per match.
Most of `app.py` reads files and hands nested JSON on unchanged. This project
models the pure logic buried in the handlers, as immutable Dafny datatypes and
pure functions, and proves what that logic promises:

- **Roster reconstruction** (`process_team`, module `Roster`, `roster.dfy`).
  It turns a team's formation snapshots into an insertion-ordered dict from
  player id to appearance (`teamId`, `playerId`, `jerseyNumber`,
  `matchStart`, `formationSlot`).
  - The dict is modelled as the sequence of its values in insertion order.
  - `Assign` models `players[pid] = ...`: a key already present keeps its
    position, and a new key goes to the end.
  - The three loops are modelled one function each (`Starters`, `Correct`,
    `AddNewcomers`/`AddLater`).
  - They are proved equal to an independent reference description
    (`Distinct(AllIds(...))` for the keys, `Expected` for the values).
- **Bearer-token check** (`token_required`, module `Auth`, `auth.dfy`). It is
  one function with an outcome per 401 message, evaluated in the source's order.
  The configured token is a parameter; it is absent when `AUTH_TOKEN` is unset.
- **`/competitions`** (`get_competitions`, module `Competitions`,
  `competitions.dfy`).
  - The optional `tournamentId`/`seasonId` filters, including their 400 answers.
  - The 404 answer for an empty result.
  - The competition key `region-tournament-season`, with the slug's layout and
    how far its names can be read back.
- **Match filters** (module `Matches`, `matches.dfy`). The competition and
  season filters over CSV rows, the lookup by `match_id`, and the home/away
  split of a match's incident events.
- **Python string and list behaviour** the handlers rely on (modules `Text`
  and `Seqs`).
  - `strip()` and `split()` use Python's `str.isspace()` character set.
  - `lower()` covers ASCII letters only.
  - `replace` is single-character.
  - A list comprehension with a condition is `Filter`.
  - Dict-key de-duplication is `Distinct`.

Python's `None` is `Option.None`. `d.get(k, default)` on a CSV row is `Field`.
A short `jerseyNumbers`/`formationSlots` list yields an absent value (`At`),
never an error.

The roster model follows the code where the docstring of `process_team`
differs from it. The docstring (`app.py:398`) says that substitutes get a
`None` slot. The correction pass (`app.py:417-419`) only sets `matchStart` to
0 for a first-snapshot player with a falsy slot, and leaves the slot as it
was. So a listed player with slot `0` becomes a substitute that keeps slot
`0`. `FirstSnapshotPlayer`, `TwoSnapshotExample` and `RepeatedIdExample`
state the code's behaviour.

## Model

| member | source | states |
|---|---|---|
| Roster.ProcessTeam | app.py:390-435 | `process_team` itself; no contract of its own, characterised by `ProcessTeamSpec` and `FindExpected` |
| Roster.At | app.py:412-414 | `xs[i] if i < len(xs) else None`; no contract of its own, characterised by `FirstSnapshotPlayer` and `LaterSnapshotPlayer` (the jersey is absent exactly when the list is too short) |
| Roster.Starters | app.py:408-415 | The first loop; no contract of its own, characterised by `StartersSpec` |
| Roster.Demote | app.py:418-419 | One step of the correction pass; no contract of its own, its effect stated by `FirstSnapshotPlayer` and `StartersHaveSlots` |
| Roster.Correct | app.py:417-419 | The correction pass; no contract of its own, characterised by `ProcessTeamSpec` and `FirstSnapshotPlayer` |
| Roster.AddNewcomers | app.py:425-434 | The inner loop over a later snapshot; no contract of its own, characterised by `AddNewcomersSpec` and `AddNewcomersPrefix` |
| Roster.AddLater | app.py:422-434 | The loop over the later snapshots; no contract of its own, characterised by `AddLaterSpec` and `AddLaterSnoc` |
| Roster.Assign | app.py:409-415 | Dict assignment: when the player id is already a key the keys are unchanged (the entry keeps its position), otherwise the new id is appended at the end |
| Roster.AssignEntry | app.py:409-415 | After an assignment, the entry under the assigned id is the new value and every entry under another id is the old one at the same position |
| Roster.StartersSpec | app.py:408-415 | After the first loop over `n` positions, the keys are the distinct ids of those positions in order of first appearance, and each value was written from its id's LAST position among them |
| Roster.AddNewcomersSpec | app.py:425-434 | The inner loop over a later snapshot skips known ids, leaves every earlier entry untouched, and appends each new id once, written from its first position in that snapshot as a substitute without a slot |
| Roster.AddLaterSpec | app.py:422-434 | The loop over the later snapshots leaves the earlier entries as a prefix, its keys are the distinct ids seen so far followed by the later snapshots' ids, and each added entry is the player's listing in the earliest later snapshot that lists them |
| Roster.ProcessTeamSpec | app.py:400-435 | The result's keys are the distinct player ids of all snapshots in order of first appearance, and every value equals the independent reference description `Expected` for its key |
| Roster.FindExpected | app.py:400-435 | Looking up any id listed in some snapshot finds exactly the reference description of that player |
| Roster.NoFormationsNoPlayers | app.py:400-402 | No formations give an empty roster |
| Roster.RosterKeys | app.py:408-434 | The keys are exactly the ids listed in some snapshot, each once, so there are as many entries as distinct ids; every entry carries the team's id |
| Roster.FirstSnapshotPlayer | app.py:404-419 | A first-snapshot player, at their last position `i` there: jersey `jerseyNumbers[i]` and absent exactly when that list is too short; slot `formationSlots[i]` (kept even when 0) or absent; `matchStart` 1 exactly when that slot exists and is non-zero, else 0 |
| Roster.LaterSnapshotPlayer | app.py:422-434 | A player missing from the first snapshot is a substitute with no slot, whatever later slots say, and carries the jersey aligned with their first position in the earliest later snapshot that lists them (absent exactly when that list is too short) |
| Roster.FirstListingTeam | app.py:428-434 | Every entry written for a later snapshot carries the team id, its own player id, `matchStart` 0 and no slot |
| Roster.FirstListingAt | app.py:422-427 | The entry for a newcomer is read from the earliest later snapshot that lists them, at their first position there |
| Roster.RosterOrder | app.py:408-434 | Entries are in order of first appearance across all snapshots: of two entries, the earlier one's id is listed first |
| Roster.StartersFirst | app.py:408-434 | Every first-snapshot player comes before every player added from a later snapshot |
| Roster.MoreSnapshotsExtend | app.py:422-434 | Later snapshots never overwrite: one more snapshot only appends entries, and the previous roster stays a prefix |
| Roster.AddNewcomersPrefix | app.py:425-434 | The inner loop only appends to the roster |
| Roster.AddLaterSnoc | app.py:422-434 | Processing one more later snapshot runs the inner loop once more on the previous result |
| Roster.StartersHaveSlots | app.py:408-434 | `matchStart` is always 0 or 1, and 1 only with a present, non-zero slot |
| Roster.TwoSnapshotExample | app.py:400-435 | Snapshots `[1,2]/[10,7]/[4,0]` then `[2,3]/[7,9]`: player 1 starts at slot 4, player 2 is a substitute keeping slot 0, and player 3 is appended as a substitute with jersey 9 |
| Roster.RepeatedIdExample | app.py:404-419 | An id listed twice at kick-off keeps its first position but takes the jersey and slot of its last position, and a short jersey list leaves that jersey absent |
| Auth.CheckAuthorization | app.py:29-44 | Five outcomes in the source's order, each an if-and-only-if: an absent or empty header is missing; otherwise not exactly two whitespace-separated words is a bad format; a first word not lowering to `bearer` is a bad scheme; a second word other than the configured token is a wrong token; otherwise accepted |
| Auth.UnconfiguredRejectsAll | app.py:18-41 | With `AUTH_TOKEN` unset no request is ever accepted |
| Auth.UnmatchableTokenRejectsAll | app.py:35-41 | A configured token that is empty or contains whitespace can never equal a header word, so it rejects every request |
| Auth.BearerIsWord | app.py:35-36 | A scheme lowering to `bearer` is a single non-empty word |
| Auth.WellFormedHeaderAccepted | app.py:30-44 | Any spelling of `Bearer`, one space, then the configured token (non-empty, no whitespace) is accepted |
| Auth.LeadingSpaceIrrelevant | app.py:35-44 | Any run of whitespace characters in front of a non-empty header does not change the outcome |
| Auth.TrailingSpaceIrrelevant | app.py:35-44 | Any run of whitespace characters after a non-empty header does not change the outcome |
| Competitions.Slug | app.py:89-95 | The key has the length of the three stripped names plus two; it is the stripped region, a dash, the stripped tournament with spaces made dashes, a dash, and the stripped season with slashes made dashes |
| Competitions.Dashed | app.py:93-95 | The same layout for names already stripped: each segment at its fixed offset |
| Competitions.TournamentSegmentHasNoSpace | app.py:90-95 | The tournament segment of the key is as long as the stripped tournament name and contains no space |
| Competitions.SeasonSegmentHasNoSlash | app.py:91-95 | The season segment of the key is as long as the stripped season name and contains no slash |
| Competitions.TournamentRecoverable | app.py:90-95 | When the stripped tournament name has no dash, turning the dashes of its segment back into spaces recovers it |
| Competitions.SeasonRecoverable | app.py:91-95 | When the stripped season name has no dash, turning the dashes of its segment back into slashes recovers it |
| Competitions.DashedRecovers | app.py:93-95 | For any stripped names, the key opens with the region and a dash; a tournament name without a dash is recovered from its segment, and so, independently, is a season name without a dash |
| Competitions.CompetitionOf | app.py:98-107 | The record built for one row; no contract of its own, characterised by `CompetitionRecoversNames` and `ListCompetitionsSelects` |
| Competitions.CompetitionRecoversNames | app.py:89-106 | For every row: the record's `tournamentName` and `seasonName` are the stripped, unreplaced names, and its `competition` key is as long as the three stripped names plus two dashes and opens with the stripped region and a dash. Only the read-back depends on the name: a stripped tournament name without a dash is recovered from its key segment, and likewise a stripped season name |
| Competitions.ReadIdParam | app.py:64-82 | An absent or empty query parameter filters nothing; a given one is either a number that `int` accepts or a 400 answer, and which one is exactly what parsing says |
| Competitions.Narrow | app.py:69-82 | Every row kept by a valid parameter has the requested identifier |
| Competitions.ListCompetitions | app.py:64-114 | A bad `tournamentId` is reported exactly when it is malformed, before any check of `seasonId`; a bad `seasonId` is reported exactly when the tournament parameter is valid and the season one is not; a listing is never empty |
| Competitions.NarrowTwice | app.py:69-82 | Filtering by the tournament and then by the season keeps exactly the rows that both parameters admit, in workbook order |
| Competitions.ListCompetitionsSelects | app.py:69-114 | With valid parameters the answer is 404 exactly when no row is selected, and otherwise one competition per selected row, in workbook order |
| Matches.NonEmpty | app.py:147-148 | The 404 for an empty result; no contract of its own, characterised by `MatchesByCompetition` and `MatchesByCompetitionAndSeason` |
| Matches.MatchesByCompetition | app.py:143-149 | 404 exactly when no row's competition equals the requested one ignoring ASCII case (a missing column reads as empty); otherwise an order-preserving subsequence of the rows holding exactly the matching rows with their multiplicity |
| Matches.MatchesByCompetitionAndSeason | app.py:154-162 | 404 exactly when no row matches both the competition (ignoring case) and the season (exactly); otherwise an order-preserving subsequence holding exactly those rows with their multiplicity |
| Matches.SameCompetitionSpec | app.py:146 | A row matches the requested competition exactly when its `competition` cell has the same length and agrees with the request position by position up to ASCII case |
| Matches.CompetitionCaseInsensitive | app.py:146 | Requests that differ only in ASCII case give the same answer |
| Matches.SeasonNarrowsCompetition | app.py:146-162 | The season endpoint answers 404 whenever the competition endpoint does, and otherwise returns the competition endpoint's rows of that season |
| Matches.GetMatchById | app.py:167-172 | 404 exactly when no row has that `match_id`; otherwise the FIRST row that has it (a row without the column never matches) |
| Matches.SplitIncidents | app.py:373-381 | Each side gets, in order and with multiplicity, exactly the events whose `teamId` equals that side's team id; an absent team id collects the untagged events |
| Matches.SplitDisjoint | app.py:380-381 | When the two team ids differ no event goes to both sides, so the two lists together are no longer than the event list |
| Text.Strip | app.py:89-91 | `strip()` returns a contiguous slice of the input; everything cut off on either side is whitespace, and the result neither starts nor ends with whitespace |
| Text.StripIdempotent | app.py:89-91 | Stripping twice is stripping once |
| Text.Replace | app.py:93-94 | Single-character `replace`; no contract of its own, characterised by `ReplaceRemoves`, `ReplaceRoundTrip` and `Competitions.Slug` |
| Text.ReplaceRemoves | app.py:93-94 | After `replace(" ", "-")` (or `"/"`) the replaced character no longer occurs |
| Text.ReplaceRoundTrip | app.py:93-94 | Replacing a character by one the string does not contain is undone by the reverse replacement |
| Text.Lower | app.py:146 | ASCII `lower()`; no contract of its own, characterised by `LowerCharEqual` and `LowerEqual` |
| Text.LowerIdempotent | app.py:146 | Lowering twice is lowering once |
| Text.LowerCharEqual | app.py:146 | Two characters lower to the same character exactly when they are equal or the same ASCII letter in the two cases |
| Text.LowerEqual | app.py:146 | Two strings lower to the same string exactly when they have the same length and agree position by position up to ASCII case |
| Text.Split | app.py:35 | `split()` yields only non-empty words free of whitespace |
| Text.SplitJoin | app.py:35 | Splitting inverts joining with single spaces, for non-empty words without whitespace |
| Text.SplitSkipsSpace | app.py:35 | One whitespace character of any kind in front of a string does not change how it splits |
| Text.SplitSkipsSpaces | app.py:35 | Any run of whitespace in front of a string is skipped by `split()` |
| Text.SplitTrailingSpaces | app.py:35 | Any run of whitespace after a string is ignored by `split()` |
| Text.SplitAllSpace | app.py:35 | A string of whitespace only, the empty string included, splits into no words |
| Text.SplitWord | app.py:35 | A word followed by nothing or by whitespace splits off as the first word |
| Text.SplitSeparated | app.py:35 | A word followed by a whitespace run of any length and kind splits off as the first word, and the rest splits on its own |
| Seqs.Filter | app.py:146 | A list comprehension with a condition keeps an order-preserving subsequence of exactly the elements that satisfy it, each with its multiplicity |
| Seqs.DistinctSpec | app.py:408-434 | De-duplicating by first occurrence, as dict keys are, keeps every element exactly once |
| Seqs.DistinctOrder | app.py:408-434 | De-duplicated elements are ordered by their first occurrence |

## Left out

- HTTP and Flask: routing, `jsonify` and the status codes are not modelled
  beyond the outcome datatypes (`AuthOutcome`, `ListOutcome`, `Response`).
  The message texts are not modelled.
- Reading files: `pd.read_excel`, `csv.DictReader`, `glob` and `json.load`.
  The handlers are modelled from the parsed rows and events onwards.
  - A workbook or match file that cannot be read is answered with 500. That
    answer is not modelled.
  - `read_matches` (`app.py:116-131`) never fails. A missing or unreadable
    matches file gives the rows read so far, possibly none, and its `print`
    calls are dropped. The model covers this case, because the CSV endpoints
    take their rows as a parameter and `[]` or any prefix of the file is a
    valid input. A missing file therefore gets 404 from the three CSV
    endpoints.
- The environment: `dotenv` and `os.getenv`. The configured token is a
  parameter, absent when `AUTH_TOKEN` is unset.
- ReadIdParam: Python's `int()` syntax (signs, surrounding whitespace,
  underscores) is library behaviour. It is taken as a `parse` parameter.
- Pandas semantics: a `NaN` or non-string name cell makes `.strip()` fail
  with a 500. Identifier columns read as floats are not modelled either.
  Workbook rows are typed records whose names are strings.
- Text.Split: its postcondition states only that every word is non-empty and
  free of whitespace. That the words are the maximal runs between whitespace
  is stated by lemmas instead. `SplitAllSpace` covers a whitespace-only
  string. `SplitSkipsSpaces` and `SplitTrailingSpaces` cover whitespace at
  either end. `SplitWord` and `SplitSeparated` cover a word followed by a
  whitespace run.
- Lower: Unicode case mapping is not modelled; only ASCII letters are folded.
- Short CSV rows: `csv.DictReader` fills the missing cells of a short row with
  `None`, and the `""` default of `.get` applies only to an absent column.
  In the source, a `None` competition cell makes `.lower()` fail, and the
  competition endpoints answer 500 (`app.py:146`, `app.py:158`). A `None`
  season or `match_id` cell never matches. The model's rows map every
  present column to a string, so these cases are not represented.
- Values of other JSON types: `playerIds`, `jerseyNumbers` and
  `formationSlots` are lists of integers in the model. Nulls or strings
  inside them, and the team id's JSON type, are not modelled (the team id is
  an `Option<int>`).
- SplitIncidents: the `teamId` of an event is an optional integer, and the
  event's other fields are kept as an opaque string map.
- The `matchId` copied into the incident answer is not modelled.
- Endpoints that only copy nested JSON are not modelled: `/matches`,
  `/match/<id>`, stats, events, event types, formation-name mappings, Opta
  tables, teams, and the field projection of `get_match_base`. Nothing there
  constrains its output.
- The home/away formation fallback in `get_match_players` and
  `get_match_formations` is a nested-dict lookup and is not modelled.
  `process_team` is modelled for whatever formation list it receives.
- Concurrency: none exists in the modelled code.
