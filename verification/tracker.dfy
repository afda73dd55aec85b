/** The offensive agent's opponent tracker: the candidate cells a hidden
    ghost may have moved to, the filter that drops cells beyond the
    dividing line, and how the tracked position and the elapsed-time
    counter evolve. */
module Tracker {
  import opened Values
  import opened Game
  import opened Features

  /** overBound: a cell on the wrong side of column 15 for the tracked
      ghost, seen from the agent's team. */
  predicate OverBound(red: bool, p: Pos) {
    if red then p.x < 15 else p.x > 15
  }

  /** Away from the dividing column exactly one team calls a cell over
      bound; on column 15 neither does. */
  lemma OverBoundSides(p: Pos)
    ensures p.x == 15 ==> !OverBound(true, p) && !OverBound(false, p)
    ensures p.x != 15 ==> OverBound(true, p) != OverBound(false, p)
  {
  }

  /** Where q stands in the order north, south, west, east of p's
      neighbours; 4 for a cell that is not a neighbour. */
  function NeighbourRank(p: Pos, q: Pos): nat {
    if q == Pos(p.x, p.y + 1) then 0
    else if q == Pos(p.x, p.y - 1) then 1
    else if q == Pos(p.x - 1, p.y) then 2
    else if q == Pos(p.x + 1, p.y) then 3
    else 4
  }

  /** r lists neighbours of p in strictly increasing rank. */
  predicate Ranked(p: Pos, r: seq<Pos>) {
    forall i, j :: 0 <= i < j < |r| ==> NeighbourRank(p, r[i]) < NeighbourRank(p, r[j])
  }

  /** The non-wall cells of cands, in the order of cands. */
  function OpenAmong(wall: Pos -> bool, p: Pos, cands: seq<Pos>): (r: seq<Pos>)
    requires Ranked(p, cands)
    ensures |r| <= |cands| && Ranked(p, r)
    ensures forall q :: q in r <==> q in cands && !wall(q)
    decreases |cands|
  {
    if cands == [] then []
    else
      var rest := OpenAmong(wall, p, cands[1..]);
      assert forall q :: q in rest ==> NeighbourRank(p, cands[0]) < NeighbourRank(p, q);
      (if wall(cands[0]) then [] else [cands[0]]) + rest
  }

  /** The non-wall cells among the north, south, west and east neighbours
      of p, in that order. */
  function OpenNeighbours(wall: Pos -> bool, p: Pos): (r: seq<Pos>)
    ensures |r| <= 4 && Distinct(r)
    ensures forall q :: q in r <==> !wall(q) && q in [Pos(p.x, p.y + 1), Pos(p.x, p.y - 1), Pos(p.x - 1, p.y), Pos(p.x + 1, p.y)]
    ensures forall i, j :: 0 <= i < j < |r| ==> NeighbourRank(p, r[i]) < NeighbourRank(p, r[j])
  {
    var n, s, w, e := Pos(p.x, p.y + 1), Pos(p.x, p.y - 1), Pos(p.x - 1, p.y), Pos(p.x + 1, p.y);
    assert NeighbourRank(p, n) == 0 && NeighbourRank(p, s) == 1 && NeighbourRank(p, w) == 2 && NeighbourRank(p, e) == 3;
    OpenAmong(wall, p, [n, s, w, e])
  }

  /** What the candidate filter leaves when it removes over-bound cells
      from the list while iterating over that same list: an over-bound cell
      is removed, and the cell that moves into its slot is passed over by
      the iterator and kept unexamined. */
  function Survivors(red: bool, cands: seq<Pos>): (r: seq<Pos>)
    decreases |cands|
  {
    if cands == [] then []
    else if !OverBound(red, cands[0]) then [cands[0]] + Survivors(red, cands[1..])
    else if |cands| == 1 then []
    else [cands[1]] + Survivors(red, cands[2..])
  }

  /** The loop never removes a cell that is in bound... */
  lemma {:induction false} SurvivorsKeepInBound(red: bool, cands: seq<Pos>, q: Pos)
    requires q in cands && !OverBound(red, q)
    ensures q in Survivors(red, cands)
    decreases |cands|
  {
    if q != cands[0] {
      if !OverBound(red, cands[0]) {
        SurvivorsKeepInBound(red, cands[1..], q);
      } else if q != cands[1] {
        assert q in cands[2..] by {
          var k :| 0 <= k < |cands| && cands[k] == q;
          assert cands[2..][k - 2] == q;
        }
        SurvivorsKeepInBound(red, cands[2..], q);
      }
    }
  }

  /** ...and adds none: the survivors are the candidates with some removed,
      in their original order. */
  lemma {:induction false} SurvivorsFromCandidates(red: bool, cands: seq<Pos>)
    ensures |Survivors(red, cands)| <= |cands|
    ensures forall q :: q in Survivors(red, cands) ==> q in cands
    decreases |cands|
  {
    if cands != [] {
      if !OverBound(red, cands[0]) {
        SurvivorsFromCandidates(red, cands[1..]);
      } else if |cands| > 1 {
        SurvivorsFromCandidates(red, cands[2..]);
        assert forall q :: q in cands[2..] ==> q in cands;
      }
    }
  }

  /** The skip is real: of two over-bound cells in a row, the second survives. */
  lemma OverBoundCellCanSurvive(red: bool, p: Pos, q: Pos)
    requires OverBound(red, p) && OverBound(red, q)
    ensures Survivors(red, [p, q]) == [q]
  {
  }

  /** list.index(x): the first position of x. */
  function IndexOf(list: seq<Pos>, x: Pos): (i: nat)
    requires x in list
    ensures i < |list| && list[i] == x
    ensures forall j :: 0 <= j < i ==> list[j] != x
  {
    if list[0] == x then 0 else 1 + IndexOf(list[1..], x)
  }

  /** In a list without repeats, list.index finds the element's own slot. */
  lemma IndexOfDistinct(list: seq<Pos>, k: nat)
    requires Distinct(list) && k < |list|
    ensures IndexOf(list, list[k]) == k
  {
  }

  /** Removing one element keeps a list free of repeats. */
  lemma RemoveKeepsDistinct(l: seq<Pos>, j: nat)
    requires Distinct(l) && j < |l|
    ensures Distinct(l[..j] + l[j + 1..])
  {
    var r := l[..j] + l[j + 1..];
    forall a, b | 0 <= a < b < |r| ensures r[a] != r[b] {
      var a', b' := if a < j then a else a + 1, if b < j then b else b + 1;
      assert r[a] == l[a'] && r[b] == l[b'];
    }
  }

  /** One step of the loop that pops the element just read at index i - 1:
      the iterator then stands past the element that slid into its place. */
  lemma PopStep(red: bool, cands: seq<Pos>, before: seq<Pos>, i: nat)
    requires 1 <= i <= |before| && OverBound(red, before[i - 1])
    requires before[..i - 1] + Survivors(red, before[i - 1..]) == Survivors(red, cands)
    ensures var list := before[..i - 1] + before[i..];
      (i <= |list| ==> list[..i] + Survivors(red, list[i..]) == Survivors(red, cands)) &&
      (i == |list| + 1 ==> list == Survivors(red, cands))
  {
    var list := before[..i - 1] + before[i..];
    if i <= |list| {
      assert list[..i] == before[..i - 1] + [before[i]];
      assert list[i..] == before[i + 1..];
      assert before[i - 1..][2..] == before[i + 1..];
    } else {
      assert list == before[..i - 1];
    }
  }

  /** The pop of the element just read, at index i - 1, found again by
      list.index: the list stays free of repeats and the loop's view of it
      is kept. */
  lemma PopAt(red: bool, cands: seq<Pos>, before: seq<Pos>, i: nat)
    requires Distinct(before)
    requires 1 <= i <= |before| && OverBound(red, before[i - 1])
    requires before[..i - 1] + Survivors(red, before[i - 1..]) == Survivors(red, cands)
    ensures IndexOf(before, before[i - 1]) == i - 1
    ensures var list := before[..i - 1] + before[i..];
      Distinct(list) &&
      (i <= |list| ==> list[..i] + Survivors(red, list[i..]) == Survivors(red, cands)) &&
      (i == |list| + 1 ==> list == Survivors(red, cands))
  {
    IndexOfDistinct(before, i - 1);
    RemoveKeepsDistinct(before, i - 1);
    PopStep(red, cands, before, i);
  }

  /** One step of the loop that keeps the element just read. */
  lemma KeepStep(red: bool, cands: seq<Pos>, list: seq<Pos>, i: nat)
    requires 1 <= i <= |list| && !OverBound(red, list[i - 1])
    requires list[..i - 1] + Survivors(red, list[i - 1..]) == Survivors(red, cands)
    ensures list[..i] + Survivors(red, list[i..]) == Survivors(red, cands)
  {
    assert list[..i] == list[..i - 1] + [list[i - 1]];
    assert list[i - 1..][1..] == list[i..];
  }

  /** What the pop-while-iterating loop knows with its iterator at index
      i: the list is free of repeats, and what has been read followed by
      the survivors of the rest is the final answer. */
  ghost predicate Scanned(red: bool, cands: seq<Pos>, list: seq<Pos>, i: nat) {
    Distinct(list) && i <= |list| + 1 &&
    (i <= |list| ==> list[..i] + Survivors(red, list[i..]) == Survivors(red, cands)) &&
    (i == |list| + 1 ==> list == Survivors(red, cands))
  }

  /** One pass of the loop body: read list[i], advance the iterator, and
      pop the cell just read (found again by list.index) if it is over the
      bound. */
  method DropStep(red: bool, cands: seq<Pos>, list: seq<Pos>, i: nat) returns (list': seq<Pos>, i': nat)
    requires Scanned(red, cands, list, i) && i < |list|
    ensures list' == if OverBound(red, list[i]) then list[..i] + list[i + 1..] else list
    ensures i' == i + 1 && Scanned(red, cands, list', i')
  {
    var pos := list[i];
    i' := i + 1;
    list' := list;
    if OverBound(red, pos) {
      PopAt(red, cands, list, i');
      var j := IndexOf(list, pos);
      list' := list[..j] + list[j + 1..];
    } else {
      KeepStep(red, cands, list, i');
    }
  }

  /** The pop-while-iterating loop of inferencePos, with Python's list
      iterator: an index into the list that advances past each element
      read, whatever the body removes. */
  method DropOverBound(red: bool, cands: seq<Pos>) returns (list: seq<Pos>)
    requires Distinct(cands)
    ensures list == Survivors(red, cands)
  {
    list := cands;
    var i := 0;
    assert list[0..] == list;
    while i < |list|
      invariant Scanned(red, cands, list, i)
      decreases |list| - i + 1
    {
      list, i := DropStep(red, cands, list, i);
    }
    if i == |list| {
      assert list[..i] == list && list[i..] == [];
    }
  }

  /** The tracker fields of the offensive agent. */
  datatype TrackerState = TrackerState(ghostPosition: Option<Pos>, elapseTime: int)

  /** The tracker update of getFeatures: an observed ghost resets the
      counter and is tracked where it was seen; otherwise the counter
      advances and the tracked position becomes inferencePos's guess. */
  function Update(t: TrackerState, seen: Option<Pos>, guess: Option<Pos>): (r: TrackerState)
    ensures seen.Some? ==> r == TrackerState(seen, 0)
    ensures seen.None? ==> r.elapseTime == t.elapseTime + 1 && r.ghostPosition == guess
  {
    if seen.Some? then TrackerState(seen, 0) else TrackerState(guess, t.elapseTime + 1)
  }

  /** What inferencePos may return from the last guess `last` at counter
      value `elapse`: nothing without a last guess or from the sixth unseen
      turn on; a random candidate on the fifth; one of the candidates
      closest to the agent before that; and an exception (random.choice or
      min of an empty list) when the candidate list is empty where it is
      needed. */
  ghost predicate Inferred(wall: Pos -> bool, red: bool, dist: (Pos, Pos) -> nat, myPos: Pos,
                           last: Option<Pos>, elapse: int, r: Result<Option<Pos>>)
  {
    if last.None? then r == Ok(None)
    else
      var cands := Survivors(red, OpenNeighbours(wall, last.value));
      if elapse >= 6 then r == Ok(None)
      else if cands == [] then r.Failure?
      else if elapse == 5 then r.Ok? && r.value.Some? && r.value.value in cands
      else r.Ok? && r.value.Some? && r.value.value in cands &&
           dist(myPos, r.value.value) == MinDistance(dist, myPos, cands)
  }

  /** The shape of a successful guess: present exactly while there was a
      last guess and fewer than six unseen turns have passed. */
  lemma InferredShape(wall: Pos -> bool, red: bool, dist: (Pos, Pos) -> nat, myPos: Pos,
                      last: Option<Pos>, elapse: int, g: Option<Pos>)
    requires Inferred(wall, red, dist, myPos, last, elapse, Ok(g))
    ensures g.Some? <==> last.Some? && elapse < 6
  {
  }

  /** The tracker after a run of unseen turns, each guess taken in turn. */
  function Unseen(t: TrackerState, guesses: seq<Option<Pos>>): TrackerState
    decreases |guesses|
  {
    if guesses == [] then t else Unseen(Update(t, None, guesses[0]), guesses[1..])
  }

  /** Every guess of the run is one inferencePos could return without raising. */
  ghost predicate ValidRun(t: TrackerState, guesses: seq<Option<Pos>>)
    decreases |guesses|
  {
    guesses != [] ==>
      (guesses[0].Some? <==> t.ghostPosition.Some? && t.elapseTime + 1 < 6) &&
      ValidRun(Update(t, None, guesses[0]), guesses[1..])
  }

  /** Each unseen turn advances the counter by one. */
  lemma {:induction false} UnseenCounts(t: TrackerState, guesses: seq<Option<Pos>>)
    ensures Unseen(t, guesses).elapseTime == t.elapseTime + |guesses|
    decreases |guesses|
  {
    if guesses != [] {
      UnseenCounts(Update(t, None, guesses[0]), guesses[1..]);
    }
  }

  /** Once the tracked position is lost it stays lost while the ghost is unseen. */
  lemma {:induction false} LostStaysLost(t: TrackerState, guesses: seq<Option<Pos>>)
    requires t.ghostPosition.None?
    requires ValidRun(t, guesses)
    ensures Unseen(t, guesses).ghostPosition.None?
    decreases |guesses|
  {
    if guesses != [] {
      LostStaysLost(Update(t, None, guesses[0]), guesses[1..]);
    }
  }

  /** A tracked position survives the unseen turns exactly while the
      counter stays below six. */
  lemma {:induction false} TrackedWhileRecent(t: TrackerState, guesses: seq<Option<Pos>>)
    requires t.ghostPosition.Some?
    requires ValidRun(t, guesses)
    ensures Unseen(t, guesses).ghostPosition.Some? <==> guesses == [] || t.elapseTime + |guesses| < 6
    decreases |guesses|
  {
    if guesses != [] {
      var t1 := Update(t, None, guesses[0]);
      if guesses[0].Some? {
        TrackedWhileRecent(t1, guesses[1..]);
      } else {
        LostStaysLost(t1, guesses[1..]);
      }
    }
  }

  /** From a sighting, the tracked position survives five unseen turns and
      is lost at the sixth. */
  lemma LostAtSixthUnseenTurn(p: Pos, guesses: seq<Option<Pos>>)
    requires ValidRun(TrackerState(Some(p), 0), guesses)
    ensures |guesses| < 6 ==> Unseen(TrackerState(Some(p), 0), guesses).ghostPosition.Some?
    ensures |guesses| >= 6 ==> Unseen(TrackerState(Some(p), 0), guesses).ghostPosition.None?
  {
    TrackedWhileRecent(TrackerState(Some(p), 0), guesses);
  }

  /** The tracker across a series of getFeatures calls: leaves[i] is the
      state the i-th call looks at, trail[i] the tracker before it and
      trail[i + 1] after it, each call related by `step`. Every call but
      the last returned; the last returned exactly when `ok`, and a series
      that raised made at least one call. */
  ghost predicate Evaluations<S>(step: (TrackerState, TrackerState, S, bool) -> bool,
                                 trail: seq<TrackerState>, leaves: seq<S>, ok: bool)
  {
    |trail| == |leaves| + 1 &&
    (forall i :: 0 <= i < |leaves| ==> step(trail[i], trail[i + 1], leaves[i], ok || i + 1 < |leaves|)) &&
    (!ok ==> leaves != [])
  }

  /** A single call is a series. */
  lemma EvaluationsOne<S>(step: (TrackerState, TrackerState, S, bool) -> bool,
                          before: TrackerState, after: TrackerState, s: S, ok: bool)
    requires step(before, after, s, ok)
    ensures Evaluations(step, [before, after], [s], ok)
  {
  }

  /** A series that returned, followed by a series that starts where the
      first one ended, is one series. */
  lemma EvaluationsJoin<S>(step: (TrackerState, TrackerState, S, bool) -> bool,
                           t1: seq<TrackerState>, l1: seq<S>, t2: seq<TrackerState>, l2: seq<S>, ok: bool)
    requires Evaluations(step, t1, l1, true) && Evaluations(step, t2, l2, ok) && t1[|l1|] == t2[0]
    ensures Evaluations(step, t1 + t2[1..], l1 + l2, ok)
    ensures (t1 + t2[1..])[0] == t1[0] && (t1 + t2[1..])[|l1 + l2|] == t2[|l2|]
  {
    var t, l := t1 + t2[1..], l1 + l2;
    forall i | 0 <= i < |l|
      ensures step(t[i], t[i + 1], l[i], ok || i + 1 < |l|)
    {
      if i < |l1| {
        assert t[i] == t1[i] && t[i + 1] == t1[i + 1] && l[i] == l1[i];
      } else {
        var j := i - |l1|;
        assert t[i] == t2[j] && t[i + 1] == t2[j + 1] && l[i] == l2[j];
      }
    }
  }
}
