/**
  Reconstruction of a team's match roster from its formation snapshots
  (`process_team`). The first snapshot lists the players on the pitch at
  kick-off together with their formation slots; every later snapshot is a
  lineup after a change. The result is Python's insertion-ordered dict from
  player id to appearance, modelled as the sequence of its values in
  insertion order; the keys are the values' `playerId`s.
*/
module Roster {
  import opened Optional
  import opened Seqs

  /** One formation snapshot; a key missing from the JSON object reads as an empty list. */
  datatype Snapshot = Snapshot(
    playerIds: seq<int>,
    jerseyNumbers: seq<int>,
    formationSlots: seq<int>)

  /** `matchStart` of a player who started. */
  const Starter := 1
  /** `matchStart` of a substitute or of a listed player without a slot. */
  const Substitute := 0

  /** One value of the resulting dict. */
  datatype Appearance = Appearance(
    teamId: Option<int>,
    playerId: int,
    jerseyNumber: Option<int>,
    matchStart: int,
    formationSlot: Option<int>)

  /** `xs[i] if i < len(xs) else None`: a short list yields an absent value, never an error. */
  function At(xs: seq<int>, i: nat): Option<int>
  {
    if i < |xs| then Some(xs[i]) else None
  }

  /** Python truthiness of a slot: `None` and `0` are falsy. */
  predicate Truthy(slot: Option<int>) {
    slot.Some? && slot.value != 0
  }

  /** The keys of the dict, in insertion order. */
  function Ids(r: seq<Appearance>): seq<int> {
    seq(|r|, k requires 0 <= k < |r| => r[k].playerId)
  }

  /** Key `k` is the id of entry `k`. */
  lemma IdsAt(r: seq<Appearance>)
    ensures |Ids(r)| == |r|
    ensures forall k :: 0 <= k < |r| ==> Ids(r)[k] == r[k].playerId
  {
  }

  /** `players[pid]`: the value stored under a key, if any. */
  function Find(r: seq<Appearance>, pid: int): Option<Appearance> {
    if pid in Ids(r) then Some(r[FirstIndex(Ids(r), pid)]) else None
  }

  /**
    `players[a.playerId] = a`: a key already present keeps its position and
    takes the new value; a new key goes to the end.
  */
  function Assign(r: seq<Appearance>, a: Appearance): (r': seq<Appearance>)
    ensures Ids(r') == if a.playerId in Ids(r) then Ids(r) else Ids(r) + [a.playerId]
  {
    if a.playerId in Ids(r) then
      var k := FirstIndex(Ids(r), a.playerId);
      var r' := r[k := a];
      assert Ids(r') == Ids(r);
      r'
    else
      var r' := r + [a];
      assert Ids(r') == Ids(r) + [a.playerId];
      r'
  }

  /**
    Entry `k` after `Assign`: the new value where its key sits, and the old
    entry, with a different key, everywhere else.
  */
  lemma AssignEntry(r: seq<Appearance>, a: Appearance, k: nat)
    requires NoDup(Ids(r)) && k < |Assign(r, a)|
    ensures Assign(r, a)[k].playerId == a.playerId ==> Assign(r, a)[k] == a
    ensures Assign(r, a)[k].playerId != a.playerId ==> k < |r| && Assign(r, a)[k] == r[k]
  {
    var ids := Ids(r);
    if a.playerId in ids {
      var j := FirstIndex(ids, a.playerId);
      if k != j && k < |r| {
        assert ids[k] == r[k].playerId && ids[j] == a.playerId;
      }
    } else if k < |r| {
      assert ids[k] == r[k].playerId;
    }
  }

  // ---------------------------------------------------------------------
  // The algorithm, following the source's three loops.
  // ---------------------------------------------------------------------

  /** The entry the first loop writes for position `i` of the first snapshot. */
  function StarterEntry(teamId: Option<int>, s: Snapshot, i: nat): Appearance
    requires i < |s.playerIds|
  {
    Appearance(teamId, s.playerIds[i], At(s.jerseyNumbers, i), Starter, At(s.formationSlots, i))
  }

  /** The first loop over the first `n` positions of the first snapshot. */
  function Starters(teamId: Option<int>, s: Snapshot, n: nat): seq<Appearance>
    requires n <= |s.playerIds|
  {
    if n == 0 then [] else Assign(Starters(teamId, s, n - 1), StarterEntry(teamId, s, n - 1))
  }

  /** The correction of one entry: a falsy slot turns a starter into a substitute; the slot is kept as it is. */
  function Demote(a: Appearance): Appearance {
    if Truthy(a.formationSlot) then a else a.(matchStart := Substitute)
  }

  /** The correction loop over every entry written so far. */
  function Correct(r: seq<Appearance>): seq<Appearance>
  {
    seq(|r|, k requires 0 <= k < |r| => Demote(r[k]))
  }

  /** The entry written for a newcomer at position `i` of a later snapshot. */
  function NewcomerEntry(teamId: Option<int>, s: Snapshot, i: nat): Appearance
    requires i < |s.playerIds|
  {
    Appearance(teamId, s.playerIds[i], At(s.jerseyNumbers, i), Substitute, None)
  }

  /** The inner loop over the first `n` positions of a later snapshot: known players are skipped. */
  function AddNewcomers(r: seq<Appearance>, teamId: Option<int>, s: Snapshot, n: nat): seq<Appearance>
    requires n <= |s.playerIds|
  {
    if n == 0 then r
    else
      var r' := AddNewcomers(r, teamId, s, n - 1);
      if s.playerIds[n - 1] in Ids(r') then r' else r' + [NewcomerEntry(teamId, s, n - 1)]
  }

  /** The outer loop over the later snapshots, in order. */
  function AddLater(r: seq<Appearance>, teamId: Option<int>, later: seq<Snapshot>): seq<Appearance>
    decreases |later|
  {
    if |later| == 0 then r
    else
      var s := later[0];
      AddLater(AddNewcomers(r, teamId, s, |s.playerIds|), teamId, later[1..])
  }

  /** `process_team(formations, team_id)`, as the dict's values in insertion order. */
  function ProcessTeam(formations: seq<Snapshot>, teamId: Option<int>): seq<Appearance> {
    if |formations| == 0 then []
    else
      var first := formations[0];
      AddLater(Correct(Starters(teamId, first, |first.playerIds|)), teamId, formations[1..])
  }

  // ---------------------------------------------------------------------
  // The reference description of the result, independent of the loops.
  // ---------------------------------------------------------------------

  /** Every player id of every snapshot, snapshot by snapshot. */
  function AllIds(formations: seq<Snapshot>): seq<int> {
    if |formations| == 0 then [] else formations[0].playerIds + AllIds(formations[1..])
  }

  /**
    The appearance of a player from the earliest of `later` that lists them:
    the jersey at their first position there, a substitute, no slot.
  */
  function FirstListing(teamId: Option<int>, later: seq<Snapshot>, pid: int): Appearance
    requires pid in AllIds(later)
  {
    if pid in later[0].playerIds then NewcomerEntry(teamId, later[0], FirstIndex(later[0].playerIds, pid))
    else FirstListing(teamId, later[1..], pid)
  }

  /**
    What the roster records for a player seen in some snapshot. A player of
    the first snapshot takes jersey and slot from their LAST position there
    and has started exactly when that slot is present and non-zero; anyone
    else is described by `FirstListing` over the later snapshots.
  */
  function Expected(formations: seq<Snapshot>, teamId: Option<int>, pid: int): Appearance
    requires pid in AllIds(formations)
  {
    var first := formations[0];
    if pid in first.playerIds then
      var i := LastIndex(first.playerIds, pid);
      var slot := At(first.formationSlots, i);
      Appearance(teamId, pid, At(first.jerseyNumbers, i), if Truthy(slot) then Starter else Substitute, slot)
    else
      FirstListing(teamId, formations[1..], pid)
  }

  // ---------------------------------------------------------------------
  // The loops compute the reference description.
  // ---------------------------------------------------------------------

  /**
    After the first loop has seen `n` positions, the keys are the distinct
    ids of those positions in order of first appearance, and each value was
    written from the id's last position among them.
  */
  lemma {:induction false} StartersSpec(teamId: Option<int>, s: Snapshot, n: nat)
    requires n <= |s.playerIds|
    ensures StartersInv(teamId, s, n, Starters(teamId, s, n))
  {
    if n == 0 {
      StartersBase(teamId, s);
    } else {
      StartersSpec(teamId, s, n - 1);
      StartersStep(teamId, s, n);
    }
  }

  /** Before the first loop runs, no id has been seen and nothing is assigned. */
  lemma StartersBase(teamId: Option<int>, s: Snapshot)
    ensures StartersInv(teamId, s, 0, Starters(teamId, s, 0))
  {
    assert s.playerIds[..0] == [];
  }

  /**
    The state of the first loop after `n` positions: the keys are the
    distinct ids of those positions in order of first appearance, and each
    value was written from the id's last position among them.
  */
  ghost predicate StartersInv(teamId: Option<int>, s: Snapshot, n: nat, r: seq<Appearance>)
    requires n <= |s.playerIds|
  {
    Ids(r) == Distinct(s.playerIds[..n]) && StartersValues(teamId, s, n, r)
  }

  /** The values part of `StartersInv`: each was written from its id's last position among the first `n`. */
  ghost predicate StartersValues(teamId: Option<int>, s: Snapshot, n: nat, r: seq<Appearance>)
    requires n <= |s.playerIds|
  {
    var ps := s.playerIds[..n];
    forall k :: 0 <= k < |r| ==>
      r[k].playerId in ps && r[k] == StarterEntry(teamId, s, LastIndex(ps, r[k].playerId))
  }

  /** One iteration of the first loop keeps `StartersInv`. */
  lemma StartersStep(teamId: Option<int>, s: Snapshot, n: nat)
    requires 0 < n <= |s.playerIds|
    requires StartersInv(teamId, s, n - 1, Starters(teamId, s, n - 1))
    ensures StartersInv(teamId, s, n, Starters(teamId, s, n))
  {
    var r0 := Starters(teamId, s, n - 1);
    assert Starters(teamId, s, n) == Assign(r0, StarterEntry(teamId, s, n - 1));
    StartersIds(teamId, s, n, r0);
    assert NoDup(Ids(r0)) by {
      DistinctSpec(s.playerIds[..n - 1]);
    }
    StartersValuesStep(teamId, s, n, r0);
  }

  /** The keys after one more iteration of the first loop. */
  lemma StartersIds(teamId: Option<int>, s: Snapshot, n: nat, r0: seq<Appearance>)
    requires 0 < n <= |s.playerIds|
    requires Ids(r0) == Distinct(s.playerIds[..n - 1])
    ensures Ids(Assign(r0, StarterEntry(teamId, s, n - 1))) == Distinct(s.playerIds[..n])
  {
    var ps0, x := s.playerIds[..n - 1], s.playerIds[n - 1];
    assert s.playerIds[..n] == ps0 + [x];
    assert x in Ids(r0) <==> x in ps0 by {
      DistinctSpec(ps0);
    }
    DistinctSnoc(ps0, x);
  }

  /** The values after one more iteration of the first loop. */
  lemma StartersValuesStep(teamId: Option<int>, s: Snapshot, n: nat, r0: seq<Appearance>)
    requires 0 < n <= |s.playerIds|
    requires NoDup(Ids(r0))
    requires StartersValues(teamId, s, n - 1, r0)
    ensures StartersValues(teamId, s, n, Assign(r0, StarterEntry(teamId, s, n - 1)))
  {
    var r := Assign(r0, StarterEntry(teamId, s, n - 1));
    var ps := s.playerIds[..n];
    forall k | 0 <= k < |r|
      ensures r[k].playerId in ps && r[k] == StarterEntry(teamId, s, LastIndex(ps, r[k].playerId))
    {
      StartersEntry(teamId, s, n, r0, k);
    }
  }

  /** Entry `k` after one more iteration of the first loop. */
  lemma StartersEntry(teamId: Option<int>, s: Snapshot, n: nat, r0: seq<Appearance>, k: nat)
    requires 0 < n <= |s.playerIds|
    requires NoDup(Ids(r0))
    requires StartersValues(teamId, s, n - 1, r0)
    requires k < |Assign(r0, StarterEntry(teamId, s, n - 1))|
    ensures var r, ps := Assign(r0, StarterEntry(teamId, s, n - 1)), s.playerIds[..n];
      r[k].playerId in ps && r[k] == StarterEntry(teamId, s, LastIndex(ps, r[k].playerId))
  {
    var e := StarterEntry(teamId, s, n - 1);
    AssignEntry(r0, e, k);
    if Assign(r0, e)[k].playerId == e.playerId {
      StarterEntryNew(teamId, s, n);
    } else {
      StarterEntryKept(teamId, s, n, r0[k]);
    }
  }

  /** The entry the iteration writes is described by its id's last position so far. */
  lemma StarterEntryNew(teamId: Option<int>, s: Snapshot, n: nat)
    requires 0 < n <= |s.playerIds|
    ensures var x, ps := s.playerIds[n - 1], s.playerIds[..n];
      x in ps && StarterEntry(teamId, s, n - 1) == StarterEntry(teamId, s, LastIndex(ps, x))
  {
    var ps0, x := s.playerIds[..n - 1], s.playerIds[n - 1];
    assert s.playerIds[..n] == ps0 + [x];
    LastIndexSnocSelf(ps0, x);
  }

  /** An entry for another id keeps its description when one more position is seen. */
  lemma StarterEntryKept(teamId: Option<int>, s: Snapshot, n: nat, a: Appearance)
    requires 0 < n <= |s.playerIds|
    requires a.playerId != s.playerIds[n - 1]
    requires var ps0 := s.playerIds[..n - 1];
      a.playerId in ps0 && a == StarterEntry(teamId, s, LastIndex(ps0, a.playerId))
    ensures var ps := s.playerIds[..n];
      a.playerId in ps && a == StarterEntry(teamId, s, LastIndex(ps, a.playerId))
  {
    var ps0, x := s.playerIds[..n - 1], s.playerIds[n - 1];
    assert s.playerIds[..n] == ps0 + [x];
    LastIndexSnocOther(ps0, x, a.playerId);
  }

  /** The last occurrence of an appended element is the new last position. */
  lemma LastIndexSnocSelf(s: seq<int>, x: int)
    ensures LastIndex(s + [x], x) == |s|
  {
    LastIndexUnique(s + [x], x, |s|);
  }

  /** Appending a different element does not move an element's last occurrence. */
  lemma LastIndexSnocOther(s: seq<int>, x: int, y: int)
    requires y in s && y != x
    ensures y in s + [x] && LastIndex(s + [x], y) == LastIndex(s, y)
  {
    var j := LastIndex(s, y);
    assert (s + [x])[j + 1..] == s[j + 1..] + [x];
    LastIndexUnique(s + [x], y, j);
  }

  /**
    After the inner loop has seen `n` positions of a later snapshot, the
    keys are the distinct ids of what came before followed by those
    positions, the earlier entries are untouched, and each added entry was
    written from the id's first position in the snapshot.
  */
  lemma {:induction false} AddNewcomersSpec(r: seq<Appearance>, teamId: Option<int>, s: Snapshot, n: nat, seen: seq<int>)
    requires n <= |s.playerIds|
    requires Ids(r) == Distinct(seen)
    ensures NewcomersInv(r, teamId, s, n, seen, AddNewcomers(r, teamId, s, n))
  {
    if n == 0 {
      assert seen + s.playerIds[..0] == seen;
    } else {
      AddNewcomersSpec(r, teamId, s, n - 1, seen);
      NewcomersStep(r, teamId, s, n, seen);
    }
  }

  /**
    The state of the inner loop after `n` positions of a later snapshot:
    the keys are the distinct ids of what came before followed by those
    positions, the earlier entries are untouched, and each added entry was
    written from the id's first position in the snapshot.
  */
  ghost predicate NewcomersInv(r: seq<Appearance>, teamId: Option<int>, s: Snapshot, n: nat, seen: seq<int>, r': seq<Appearance>)
    requires n <= |s.playerIds|
  {
    && Ids(r') == Distinct(seen + s.playerIds[..n])
    && |r| <= |r'| && r'[..|r|] == r
    && forall k :: |r| <= k < |r'| ==> NewcomerOf(teamId, s, seen, r'[k])
  }

  /** An entry the inner loop adds: an id of the snapshot not seen before, written from its first position. */
  ghost predicate NewcomerOf(teamId: Option<int>, s: Snapshot, seen: seq<int>, a: Appearance) {
    a.playerId in s.playerIds && a.playerId !in seen
    && a == NewcomerEntry(teamId, s, FirstIndex(s.playerIds, a.playerId))
  }

  /** One iteration of the inner loop keeps `NewcomersInv`. */
  lemma NewcomersStep(r: seq<Appearance>, teamId: Option<int>, s: Snapshot, n: nat, seen: seq<int>)
    requires 0 < n <= |s.playerIds|
    requires Ids(r) == Distinct(seen)
    requires NewcomersInv(r, teamId, s, n - 1, seen, AddNewcomers(r, teamId, s, n - 1))
    ensures NewcomersInv(r, teamId, s, n, seen, AddNewcomers(r, teamId, s, n))
  {
    var r0 := AddNewcomers(r, teamId, s, n - 1);
    var x := s.playerIds[n - 1];
    var before := seen + s.playerIds[..n - 1];
    assert seen + s.playerIds[..n] == before + [x];
    DistinctSnoc(before, x);
    if x !in Ids(r0) {
      NewcomerAppended(r, teamId, s, n, seen);
    } else {
      DistinctSpec(before);
      assert AddNewcomers(r, teamId, s, n) == r0;
    }
  }

  /** The iteration of the inner loop that meets an unknown id appends its entry. */
  lemma NewcomerAppended(r: seq<Appearance>, teamId: Option<int>, s: Snapshot, n: nat, seen: seq<int>)
    requires 0 < n <= |s.playerIds|
    requires Ids(r) == Distinct(seen)
    requires NewcomersInv(r, teamId, s, n - 1, seen, AddNewcomers(r, teamId, s, n - 1))
    requires s.playerIds[n - 1] !in Ids(AddNewcomers(r, teamId, s, n - 1))
    ensures NewcomersInv(r, teamId, s, n, seen, AddNewcomers(r, teamId, s, n))
  {
    var r0 := AddNewcomers(r, teamId, s, n - 1);
    var x := s.playerIds[n - 1];
    var e := NewcomerEntry(teamId, s, n - 1);
    var r' := r0 + [e];
    var before := seen + s.playerIds[..n - 1];
    assert seen + s.playerIds[..n] == before + [x];
    assert Ids(r') == Ids(r0) + [x];
    assert AddNewcomers(r, teamId, s, n) == r';
    assert x !in before by {
      DistinctSpec(before);
    }
    assert Ids(r') == Distinct(seen + s.playerIds[..n]) by {
      DistinctSnoc(before, x);
    }
    assert r'[..|r|] == r by {
      assert r'[..|r|] == r0[..|r|];
    }
    assert NewcomerOf(teamId, s, seen, e) by {
      NewEntryAt(teamId, s, n, seen, before);
    }
    forall k | |r| <= k < |r'|
      ensures NewcomerOf(teamId, s, seen, r'[k])
    {
      if k < |r0| {
        assert r'[k] == r0[k];
      }
    }
  }

  /** The entry written for position `n - 1` when its id was not met before. */
  lemma NewEntryAt(teamId: Option<int>, s: Snapshot, n: nat, seen: seq<int>, before: seq<int>)
    requires 0 < n <= |s.playerIds|
    requires before == seen + s.playerIds[..n - 1]
    requires s.playerIds[n - 1] !in before
    ensures NewcomerOf(teamId, s, seen, NewcomerEntry(teamId, s, n - 1))
  {
    var x := s.playerIds[n - 1];
    assert x !in s.playerIds[..n - 1] && x !in seen;
    FirstIndexUnique(s.playerIds, x, n - 1);
  }

  /**
    The outer loop over the later snapshots: the keys become the distinct
    ids seen so far followed by the later snapshots' ids, the entries present
    before are untouched, and each added entry is that player's
    `FirstListing`.
  */
  lemma {:induction false} AddLaterSpec(r: seq<Appearance>, teamId: Option<int>, later: seq<Snapshot>, seen: seq<int>)
    requires Ids(r) == Distinct(seen)
    ensures LaterInv(r, teamId, later, seen, AddLater(r, teamId, later))
    decreases |later|
  {
    if |later| == 0 {
      assert seen + AllIds(later) == seen;
    } else {
      var s := later[0];
      var ps := s.playerIds;
      assert ps[..|ps|] == ps;
      AddNewcomersSpec(r, teamId, s, |ps|, seen);
      var r1 := AddNewcomers(r, teamId, s, |ps|);
      AddLaterSpec(r1, teamId, later[1..], seen + ps);
      LaterStep(r, r1, teamId, later, seen);
    }
  }

  /** The state of the outer loop described by `AddLaterSpec`. */
  ghost predicate LaterInv(r: seq<Appearance>, teamId: Option<int>, later: seq<Snapshot>, seen: seq<int>, r': seq<Appearance>) {
    && Ids(r') == Distinct(seen + AllIds(later))
    && |r| <= |r'| && r'[..|r|] == r
    && forall k :: |r| <= k < |r'| ==> LaterEntry(teamId, later, seen, r'[k])
  }

  /** An entry added while processing `later`, for an id not seen before. */
  ghost predicate LaterEntry(teamId: Option<int>, later: seq<Snapshot>, seen: seq<int>, a: Appearance) {
    a.playerId in AllIds(later) && a.playerId !in seen && a == FirstListing(teamId, later, a.playerId)
  }

  /** One iteration of the outer loop: the first later snapshot, then the rest. */
  lemma LaterStep(r: seq<Appearance>, r1: seq<Appearance>, teamId: Option<int>, later: seq<Snapshot>, seen: seq<int>)
    requires |later| > 0
    requires r1 == AddNewcomers(r, teamId, later[0], |later[0].playerIds|)
    requires NewcomersInv(r, teamId, later[0], |later[0].playerIds|, seen, r1)
    requires LaterInv(r1, teamId, later[1..], seen + later[0].playerIds, AddLater(r1, teamId, later[1..]))
    ensures LaterInv(r, teamId, later, seen, AddLater(r, teamId, later))
  {
    var ps := later[0].playerIds;
    var r' := AddLater(r, teamId, later);
    assert r' == AddLater(r1, teamId, later[1..]);
    assert ps[..|ps|] == ps;
    assert AllIds(later) == ps + AllIds(later[1..]);
    assert seen + AllIds(later) == (seen + ps) + AllIds(later[1..]);
    assert r'[..|r|] == r1[..|r|];
    forall k | |r| <= k < |r'|
      ensures LaterEntry(teamId, later, seen, r'[k])
    {
      if k < |r1| {
        assert r'[k] == r1[k];
        FirstSnapshotListing(teamId, later, r1[k].playerId);
      } else {
        LaterSnapshotListing(teamId, later, seen, r'[k]);
      }
    }
  }

  /** `FirstListing` of an id listed by the first of the snapshots reads that snapshot. */
  lemma FirstSnapshotListing(teamId: Option<int>, later: seq<Snapshot>, pid: int)
    requires |later| > 0 && pid in later[0].playerIds
    ensures pid in AllIds(later)
    ensures FirstListing(teamId, later, pid) == NewcomerEntry(teamId, later[0], FirstIndex(later[0].playerIds, pid))
  {
    assert AllIds(later) == later[0].playerIds + AllIds(later[1..]);
  }

  /** An entry added for the remaining snapshots is also one for all of them. */
  lemma LaterSnapshotListing(teamId: Option<int>, later: seq<Snapshot>, seen: seq<int>, a: Appearance)
    requires |later| > 0
    requires LaterEntry(teamId, later[1..], seen + later[0].playerIds, a)
    ensures LaterEntry(teamId, later, seen, a)
  {
    assert AllIds(later) == later[0].playerIds + AllIds(later[1..]);
  }

  /**
    The roster in full: its keys are the distinct player ids of all
    snapshots in order of first appearance, and every value is the one the
    reference description gives for its key.
  */
  lemma ProcessTeamSpec(formations: seq<Snapshot>, teamId: Option<int>)
    ensures var r := ProcessTeam(formations, teamId);
      && Ids(r) == Distinct(AllIds(formations))
      && forall k :: 0 <= k < |r| ==>
           r[k].playerId in AllIds(formations) && r[k] == Expected(formations, teamId, r[k].playerId)
  {
    if |formations| > 0 {
      var first := formations[0];
      var ps := first.playerIds;
      assert ps[..|ps|] == ps;
      StartersSpec(teamId, first, |ps|);
      var s0 := Starters(teamId, first, |ps|);
      var r0 := Correct(s0);
      assert Ids(r0) == Ids(s0);
      AddLaterSpec(r0, teamId, formations[1..], ps);
      assert AllIds(formations) == ps + AllIds(formations[1..]);
      var r := ProcessTeam(formations, teamId);
      assert r == AddLater(r0, teamId, formations[1..]);
      forall k | 0 <= k < |r|
        ensures r[k].playerId in AllIds(formations) && r[k] == Expected(formations, teamId, r[k].playerId)
      {
        if k < |r0| {
          assert r[k] == r0[k];
          CorrectedStarter(formations, teamId, k);
        } else {
          LaterExpected(formations, teamId, r[k]);
        }
      }
    }
  }

  /** After the correction loop, entry `k` is the reference description of a first-snapshot player. */
  lemma CorrectedStarter(formations: seq<Snapshot>, teamId: Option<int>, k: nat)
    requires |formations| > 0
    requires var first := formations[0];
      StartersInv(teamId, first, |first.playerIds|, Starters(teamId, first, |first.playerIds|))
    requires k < |Starters(teamId, formations[0], |formations[0].playerIds|)|
    ensures var first := formations[0];
      var c := Correct(Starters(teamId, first, |first.playerIds|));
      && c[k].playerId in first.playerIds
      && c[k].playerId in AllIds(formations)
      && c[k] == Expected(formations, teamId, c[k].playerId)
  {
    var first := formations[0];
    var ps := first.playerIds;
    assert ps[..|ps|] == ps;
    assert AllIds(formations) == ps + AllIds(formations[1..]);
  }

  /** An entry added for the later snapshots is the reference description of a newcomer. */
  lemma LaterExpected(formations: seq<Snapshot>, teamId: Option<int>, a: Appearance)
    requires |formations| > 0
    requires LaterEntry(teamId, formations[1..], formations[0].playerIds, a)
    ensures a.playerId in AllIds(formations) && a == Expected(formations, teamId, a.playerId)
  {
    assert AllIds(formations) == formations[0].playerIds + AllIds(formations[1..]);
  }

  /** A roster without repeated keys finds each entry under its own key. */
  lemma FindEntry(r: seq<Appearance>, k: nat)
    requires NoDup(Ids(r)) && k < |r|
    ensures Find(r, r[k].playerId) == Some(r[k])
  {
    assert Ids(r)[k] == r[k].playerId;
    assert r[k].playerId !in Ids(r)[..k] by {
      forall j | 0 <= j < k ensures Ids(r)[..k][j] != r[k].playerId {
        assert Ids(r)[..k][j] == Ids(r)[j];
      }
    }
    FirstIndexUnique(Ids(r), r[k].playerId, k);
  }

  /** The value the roster stores under a seen id is the reference description. */
  lemma FindExpected(formations: seq<Snapshot>, teamId: Option<int>, pid: int)
    requires pid in AllIds(formations)
    ensures Find(ProcessTeam(formations, teamId), pid) == Some(Expected(formations, teamId, pid))
  {
    ProcessTeamSpec(formations, teamId);
    var r := ProcessTeam(formations, teamId);
    DistinctSpec(AllIds(formations));
    var k := FirstIndex(Ids(r), pid);
    FindEntry(r, k);
  }

  // ---------------------------------------------------------------------
  // Consequences stated in the source's terms.
  // ---------------------------------------------------------------------

  /** No snapshots, no players. */
  lemma NoFormationsNoPlayers(teamId: Option<int>)
    ensures ProcessTeam([], teamId) == []
  {
  }

  /**
    The keys are exactly the player ids listed in some snapshot, each once,
    so there are as many entries as distinct ids; every entry carries the
    team's id.
  */
  lemma RosterKeys(formations: seq<Snapshot>, teamId: Option<int>)
    ensures var r := ProcessTeam(formations, teamId);
      && NoDup(Ids(r))
      && (forall pid :: pid in Ids(r) <==> pid in AllIds(formations))
      && |r| == |set pid | pid in AllIds(formations)|
      && forall k :: 0 <= k < |r| ==> r[k].teamId == teamId
  {
    ProcessTeamSpec(formations, teamId);
    DistinctSpec(AllIds(formations));
    var r := ProcessTeam(formations, teamId);
    NoDupCardinality(Ids(r));
    assert (set pid | pid in Ids(r)) == (set pid | pid in AllIds(formations));
    forall k | 0 <= k < |r| ensures r[k].teamId == teamId {
      var pid := r[k].playerId;
      if pid !in formations[0].playerIds {
        FirstListingTeam(teamId, formations[1..], pid);
      }
    }
  }

  /** Every entry written for a later snapshot carries the team's id, an absent slot and `matchStart` 0. */
  lemma {:induction false} FirstListingTeam(teamId: Option<int>, later: seq<Snapshot>, pid: int)
    requires pid in AllIds(later)
    ensures var a := FirstListing(teamId, later, pid);
      a.teamId == teamId && a.playerId == pid && a.matchStart == Substitute && a.formationSlot == None
  {
    if pid !in later[0].playerIds {
      FirstListingTeam(teamId, later[1..], pid);
    }
  }

  /**
    A player of the first snapshot, described through their last position
    `i` there: the jersey is `jerseyNumbers[i]` and absent exactly when that
    list is too short; the slot is `formationSlots[i]`, kept even when it is
    0; and they started exactly when that slot is present and non-zero.
  */
  lemma FirstSnapshotPlayer(formations: seq<Snapshot>, teamId: Option<int>, pid: int)
    requires |formations| > 0 && pid in formations[0].playerIds
    ensures var first := formations[0];
      var i := LastIndex(first.playerIds, pid);
      var e := Find(ProcessTeam(formations, teamId), pid);
      && e.Some?
      && e.value.teamId == teamId && e.value.playerId == pid
      && (e.value.jerseyNumber.None? <==> i >= |first.jerseyNumbers|)
      && (e.value.jerseyNumber.Some? ==> e.value.jerseyNumber.value == first.jerseyNumbers[i])
      && e.value.formationSlot == At(first.formationSlots, i)
      && (e.value.matchStart == Starter <==> i < |first.formationSlots| && first.formationSlots[i] != 0)
      && (e.value.matchStart == Substitute <==> !(i < |first.formationSlots| && first.formationSlots[i] != 0))
  {
    assert AllIds(formations) == formations[0].playerIds + AllIds(formations[1..]);
    FindExpected(formations, teamId, pid);
  }

  /**
    A player missing from the first snapshot: a substitute without a slot,
    whatever slots later snapshots list, with the jersey aligned to their
    first position in the earliest later snapshot that lists them.
  */
  lemma LaterSnapshotPlayer(formations: seq<Snapshot>, teamId: Option<int>, pid: int, j: nat)
    requires 0 < j < |formations| && pid in formations[j].playerIds
    requires pid !in formations[0].playerIds
    requires forall m :: 0 < m < j ==> pid !in formations[m].playerIds
    ensures var s := formations[j];
      var i := FirstIndex(s.playerIds, pid);
      var e := Find(ProcessTeam(formations, teamId), pid);
      && e.Some?
      && e.value == Appearance(teamId, pid, At(s.jerseyNumbers, i), Substitute, None)
      && (e.value.jerseyNumber.None? <==> i >= |s.jerseyNumbers|)
  {
    InAllIds(formations, j, pid);
    FindExpected(formations, teamId, pid);
    FirstListingAt(teamId, formations[1..], pid, j - 1);
  }

  /** An id listed by snapshot `j` is among all ids. */
  lemma {:induction false} InAllIds(formations: seq<Snapshot>, j: nat, pid: int)
    requires j < |formations| && pid in formations[j].playerIds
    ensures pid in AllIds(formations)
  {
    if j > 0 {
      InAllIds(formations[1..], j - 1, pid);
    }
  }

  /** `FirstListing` reads the earliest snapshot that lists the player. */
  lemma {:induction false} FirstListingAt(teamId: Option<int>, later: seq<Snapshot>, pid: int, j: nat)
    requires j < |later| && pid in later[j].playerIds
    requires forall m :: 0 <= m < j ==> pid !in later[m].playerIds
    ensures pid in AllIds(later)
    ensures FirstListing(teamId, later, pid) == NewcomerEntry(teamId, later[j], FirstIndex(later[j].playerIds, pid))
  {
    InAllIds(later, j, pid);
    if j > 0 {
      assert pid !in later[0].playerIds;
      FirstListingAt(teamId, later[1..], pid, j - 1);
    }
  }

  /**
    Entries appear in order of first appearance: of two entries, the one
    whose id is listed earlier (first snapshot first, then the later ones in
    order) comes first; in particular every first-snapshot player precedes
    every newcomer.
  */
  lemma RosterOrder(formations: seq<Snapshot>, teamId: Option<int>)
    ensures var r, all := ProcessTeam(formations, teamId), AllIds(formations);
      forall i, j :: 0 <= i < j < |r| ==>
        r[i].playerId in all && r[j].playerId in all
        && FirstIndex(all, r[i].playerId) < FirstIndex(all, r[j].playerId)
  {
    ProcessTeamSpec(formations, teamId);
    IdsAt(ProcessTeam(formations, teamId));
    DistinctOrder(AllIds(formations));
  }

  /** Every first-snapshot player precedes every newcomer. */
  lemma StartersFirst(formations: seq<Snapshot>, teamId: Option<int>, i: nat, j: nat)
    requires |formations| > 0
    requires var r := ProcessTeam(formations, teamId);
      i < |r| && j < |r| && r[i].playerId in formations[0].playerIds && r[j].playerId !in formations[0].playerIds
    ensures i < j
  {
    var r, all, ps := ProcessTeam(formations, teamId), AllIds(formations), formations[0].playerIds;
    var x, y := r[i].playerId, r[j].playerId;
    assert all == ps + AllIds(formations[1..]);
    assert all[..|ps|] == ps;
    FirstIndexPrefix(all, |ps|, x);
    RosterMember(formations, teamId, j);
    FirstIndexBeyond(all, |ps|, y);
    if j < i {
      RosterOrderAt(formations, teamId, j, i);
    }
  }

  /** Every key of the roster is an id listed in some snapshot. */
  lemma RosterMember(formations: seq<Snapshot>, teamId: Option<int>, k: nat)
    requires k < |ProcessTeam(formations, teamId)|
    ensures ProcessTeam(formations, teamId)[k].playerId in AllIds(formations)
  {
    ProcessTeamSpec(formations, teamId);
  }

  /** `RosterOrder` for one pair of positions. */
  lemma RosterOrderAt(formations: seq<Snapshot>, teamId: Option<int>, i: nat, j: nat)
    requires i < j < |ProcessTeam(formations, teamId)|
    ensures var r, all := ProcessTeam(formations, teamId), AllIds(formations);
      r[i].playerId in all && r[j].playerId in all
      && FirstIndex(all, r[i].playerId) < FirstIndex(all, r[j].playerId)
  {
    RosterOrder(formations, teamId);
  }

  /**
    Later snapshots never overwrite: appending one more snapshot only
    appends entries, leaving the earlier roster as a prefix.
  */
  lemma {:induction false} MoreSnapshotsExtend(formations: seq<Snapshot>, s: Snapshot, teamId: Option<int>)
    ensures var r, r' := ProcessTeam(formations, teamId), ProcessTeam(formations + [s], teamId);
      |r| <= |r'| && r'[..|r|] == r
  {
    if |formations| > 0 {
      var first := formations[0];
      var r0 := Correct(Starters(teamId, first, |first.playerIds|));
      assert (formations + [s])[0] == first;
      assert (formations + [s])[1..] == formations[1..] + [s];
      AddLaterSnoc(r0, teamId, formations[1..], s);
      var mid := AddLater(r0, teamId, formations[1..]);
      AddNewcomersPrefix(mid, teamId, s, |s.playerIds|);
    }
  }

  /** The outer loop over one more snapshot runs the inner loop once more at the end. */
  lemma {:induction false} AddLaterSnoc(r: seq<Appearance>, teamId: Option<int>, later: seq<Snapshot>, s: Snapshot)
    ensures AddLater(r, teamId, later + [s]) == AddNewcomers(AddLater(r, teamId, later), teamId, s, |s.playerIds|)
    decreases |later|
  {
    if |later| == 0 {
      assert later + [s] == [s];
    } else {
      assert (later + [s])[0] == later[0];
      assert (later + [s])[1..] == later[1..] + [s];
      var s0 := later[0];
      AddLaterSnoc(AddNewcomers(r, teamId, s0, |s0.playerIds|), teamId, later[1..], s);
    }
  }

  /** The inner loop only appends. */
  lemma {:induction false} AddNewcomersPrefix(r: seq<Appearance>, teamId: Option<int>, s: Snapshot, n: nat)
    requires n <= |s.playerIds|
    ensures var r' := AddNewcomers(r, teamId, s, n); |r| <= |r'| && r'[..|r|] == r
  {
    if n > 0 {
      AddNewcomersPrefix(r, teamId, s, n - 1);
      var r0 := AddNewcomers(r, teamId, s, n - 1);
      assert (r0 + [NewcomerEntry(teamId, s, n - 1)])[..|r|] == r0[..|r|];
    }
  }

  /** `matchStart` is always 0 or 1, and 1 only together with a present, non-zero slot. */
  lemma StartersHaveSlots(formations: seq<Snapshot>, teamId: Option<int>)
    ensures var r := ProcessTeam(formations, teamId);
      forall k :: 0 <= k < |r| ==>
        (r[k].matchStart == Starter || r[k].matchStart == Substitute)
        && (r[k].matchStart == Starter ==> Truthy(r[k].formationSlot))
  {
    ProcessTeamSpec(formations, teamId);
    var r := ProcessTeam(formations, teamId);
    forall k | 0 <= k < |r|
      ensures r[k].matchStart == Starter || r[k].matchStart == Substitute
      ensures r[k].matchStart == Starter ==> Truthy(r[k].formationSlot)
    {
      if r[k].playerId !in formations[0].playerIds {
        FirstListingTeam(teamId, formations[1..], r[k].playerId);
      }
    }
  }

  /**
    Two snapshots: players 1 and 2 listed at kick-off with slots 4 and 0,
    then 2 and 3. Player 1 started; player 2 was listed without a real slot
    and keeps the slot 0; player 3 came on later.
  */
  lemma TwoSnapshotExample()
    ensures var t := Some(7);
      ProcessTeam([Snapshot([1, 2], [10, 7], [4, 0]), Snapshot([2, 3], [7, 9], [])], t) ==
        [ Appearance(t, 1, Some(10), Starter, Some(4)),
          Appearance(t, 2, Some(7), Substitute, Some(0)),
          Appearance(t, 3, Some(9), Substitute, None) ]
  {
    var t, s1, s2 := Some(7), Snapshot([1, 2], [10, 7], [4, 0]), Snapshot([2, 3], [7, 9], []);
    assert [s1, s2][0] == s1 && [s1, s2][1..] == [s2];
    TwoSnapshotKickOff();
    TwoSnapshotChange();
  }

  /** The kick-off snapshot of `TwoSnapshotExample`, after the correction loop. */
  lemma TwoSnapshotKickOff()
    ensures var t := Some(7);
      Correct(Starters(t, Snapshot([1, 2], [10, 7], [4, 0]), 2)) ==
        [Appearance(t, 1, Some(10), Starter, Some(4)), Appearance(t, 2, Some(7), Substitute, Some(0))]
  {
    var t, s1 := Some(7), Snapshot([1, 2], [10, 7], [4, 0]);
    var a1 := Appearance(t, 1, Some(10), Starter, Some(4));
    var a2 := Appearance(t, 2, Some(7), Starter, Some(0));
    assert StarterEntry(t, s1, 0) == a1 && StarterEntry(t, s1, 1) == a2;
    assert Starters(t, s1, 1) == [a1];
    assert Ids([a1]) == [1];
    assert Starters(t, s1, 2) == [a1, a2];
    assert Demote(a1) == a1 && Demote(a2) == a2.(matchStart := Substitute);
  }

  /** The second snapshot of `TwoSnapshotExample`: player 2 is known, player 3 is added. */
  lemma TwoSnapshotChange()
    ensures var t := Some(7);
      var r0 := [Appearance(t, 1, Some(10), Starter, Some(4)), Appearance(t, 2, Some(7), Substitute, Some(0))];
      AddLater(r0, t, [Snapshot([2, 3], [7, 9], [])]) == r0 + [Appearance(t, 3, Some(9), Substitute, None)]
  {
    var t, s2 := Some(7), Snapshot([2, 3], [7, 9], []);
    var r0 := [Appearance(t, 1, Some(10), Starter, Some(4)), Appearance(t, 2, Some(7), Substitute, Some(0))];
    assert Ids(r0) == [1, 2];
    assert AddNewcomers(r0, t, s2, 1) == r0;
    var r := r0 + [Appearance(t, 3, Some(9), Substitute, None)];
    assert AddNewcomers(r0, t, s2, 2) == r;
    assert [s2][1..] == [];
    assert AddLater(r0, t, [s2]) == AddLater(r, t, []);
  }

  /**
    An id listed twice at kick-off keeps its first position but takes the
    jersey and slot of its last position; a short jersey list leaves the
    jersey absent.
  */
  lemma RepeatedIdExample()
    ensures var t := Some(7);
      ProcessTeam([Snapshot([5, 8, 5], [1, 2], [3, 6, 0])], t) ==
        [ Appearance(t, 5, None, Substitute, Some(0)),
          Appearance(t, 8, Some(2), Starter, Some(6)) ]
  {
    var t, s := Some(7), Snapshot([5, 8, 5], [1, 2], [3, 6, 0]);
    var r2 := [Appearance(t, 5, Some(1), Starter, Some(3)), Appearance(t, 8, Some(2), Starter, Some(6))];
    assert Starters(t, s, 2) == r2;
    assert Ids(r2) == [5, 8];
    assert FirstIndex(Ids(r2), 5) == 0;
    var r3 := [Appearance(t, 5, None, Starter, Some(0)), r2[1]];
    assert Starters(t, s, 3) == r3;
    assert Correct(r3) == [Appearance(t, 5, None, Substitute, Some(0)), r2[1]];
    assert [s][1..] == [];
    assert ProcessTeam([s], t) == AddLater(Correct(Starters(t, s, 3)), t, []);
    assert AddLater(Correct(r3), t, []) == Correct(r3);
  }
}
