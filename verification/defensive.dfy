/** DefensiveReflexAgent: a greedy agent that keeps its own side free of
    invaders. It scores every legal move by a weighted sum of features,
    one of which is a noisy distance to the opponents computed from the
    belief counters the team seeds at the start of the game. */
module Defensive {
  import opened Values
  import opened Game
  import opened Sums
  import opened Features
  import opened Positions

  /** The cell seeded for the k-th opponent: (30, 13 + k) for the red team,
      (1, 2 - k) for the blue team, whose counter starts at 1 and falls. */
  function StartCell(red: bool, k: int): Pos {
    if red then Pos(30, 13 + k) else Pos(1, 2 - k)
  }

  /** The four belief counters after seeding one cell for each opponent in
      turn, each with weight 1. */
  function Seeded(red: bool, opponents: seq<nat>): (b: seq<map<Pos, int>>)
    requires forall k :: 0 <= k < |opponents| ==> opponents[k] < 4
    ensures |b| == 4
  {
    if opponents == [] then [map[], map[], map[], map[]]
    else
      var init := opponents[..|opponents| - 1];
      var prev := Seeded(red, init);
      var idx := opponents[|opponents| - 1];
      prev[idx := prev[idx][StartCell(red, |init|) := 1]]
  }

  /** Opponent i's counter holds the cells seeded for the positions of
      `opponents` that name i, each with weight 1. */
  lemma {:induction false} SeededCounters(red: bool, opponents: seq<nat>, i: nat)
    requires forall k :: 0 <= k < |opponents| ==> opponents[k] < 4
    requires i < 4
    ensures Seeded(red, opponents)[i].Keys == set k | 0 <= k < |opponents| && opponents[k] == i :: StartCell(red, k)
    ensures forall p :: p in Seeded(red, opponents)[i] ==> Seeded(red, opponents)[i][p] == 1
  {
    if opponents != [] {
      var n := |opponents| - 1;
      var init := opponents[..n];
      SeededCounters(red, init, i);
      var before := set k | 0 <= k < n && init[k] == i :: StartCell(red, k);
      var after := set k | 0 <= k < |opponents| && opponents[k] == i :: StartCell(red, k);
      if opponents[n] == i {
        assert after == before + {StartCell(red, n)};
      } else {
        assert after == before;
      }
    }
  }

  /** With distinct opponents, each counter holds exactly its start cell,
      so the first belief about every opponent is where it starts. */
  lemma InitialBelief(red: bool, opponents: seq<nat>, k: nat)
    requires forall j :: 0 <= j < |opponents| ==> opponents[j] < 4
    requires Distinct(opponents) && k < |opponents|
    ensures Seeded(red, opponents)[opponents[k]].Keys == {StartCell(red, k)}
    ensures MeanPosition(Seeded(red, opponents)[opponents[k]].Keys) == StartCell(red, k)
  {
    SeededCounters(red, opponents, opponents[k]);
    MeanOfOne(StartCell(red, k));
  }

  /** The noisy distance of getClosestOpponent after the first n located
      opponents: 100 at the start, then the least maze distance from myPos
      to each of them in turn; the first location that raised makes the
      whole computation raise. */
  function Closest(dist: (Pos, Pos) -> nat, myPos: Pos, locs: seq<Result<Pos>>, n: nat): Result<int>
    requires n <= |locs|
  {
    if n == 0 then Ok(100)
    else
      var prev := Closest(dist, myPos, locs, n - 1);
      var loc := locs[n - 1];
      if prev.Failure? then prev
      else if loc.Failure? then Failure(loc.error)
      else
        var d := dist(myPos, loc.value);
        Ok(if d < prev.value then d else prev.value)
  }

  /** The noisy distance raises exactly when some location does; otherwise
      it is at most 100, at most the distance to every located opponent,
      and below 100 only when it is one of those distances. */
  lemma {:induction false} ClosestIsLeast(dist: (Pos, Pos) -> nat, myPos: Pos, locs: seq<Result<Pos>>, n: nat)
    requires n <= |locs|
    ensures Closest(dist, myPos, locs, n).Failure? <==> exists k :: 0 <= k < n && locs[k].Failure?
    ensures Closest(dist, myPos, locs, n).Ok? ==> Closest(dist, myPos, locs, n).value <= 100
    ensures Closest(dist, myPos, locs, n).Ok? ==> forall k :: 0 <= k < n ==>
      locs[k].Ok? && Closest(dist, myPos, locs, n).value <= dist(myPos, locs[k].value)
    ensures Closest(dist, myPos, locs, n).Ok? && Closest(dist, myPos, locs, n).value < 100 ==>
      (exists k :: 0 <= k < n && locs[k].Ok? && Closest(dist, myPos, locs, n).value == dist(myPos, locs[k].value))
  {
    if n > 0 {
      ClosestIsLeast(dist, myPos, locs, n - 1);
    }
  }

  /** One more located opponent. */
  lemma ClosestNext(dist: (Pos, Pos) -> nat, myPos: Pos, locs: seq<Result<Pos>>, k: nat, nearest: int)
    requires k < |locs| && Closest(dist, myPos, locs, k) == Ok(nearest)
    ensures locs[k].Failure? ==> Closest(dist, myPos, locs, k + 1) == Failure(locs[k].error)
    ensures locs[k].Ok? ==>
      (Closest(dist, myPos, locs, k + 1) ==
       Ok(if dist(myPos, locs[k].value) < nearest then dist(myPos, locs[k].value) else nearest))
  {
  }

  /** Once a location raises, so does every later count, with the same error. */
  lemma {:induction false} ClosestFailureSticks(dist: (Pos, Pos) -> nat, myPos: Pos, locs: seq<Result<Pos>>, k: nat, n: nat)
    requires k <= n <= |locs|
    requires Closest(dist, myPos, locs, k).Failure?
    ensures Closest(dist, myPos, locs, n) == Closest(dist, myPos, locs, k)
    decreases n
  {
    if k < n {
      ClosestFailureSticks(dist, myPos, locs, k, n - 1);
    }
  }

  /** getBeliefs on one counter: the rounded mean of its cells, whatever
      their weights; an empty counter divides by zero. */
  ghost function Belief(counter: map<Pos, int>): (r: Result<Pos>)
    ensures r.Failure? <==> counter == map[]
  {
    if counter.Keys == {} then Failure("float division by zero")
    else Ok(MeanPosition(counter.Keys))
  }

  /** Where getClosestOpponent places the opponent whose belief counter is
      `counter`, using `picks` as the random draws of getNearestLegalLocation. */
  ghost function OpponentLocation(wall: Pos -> bool, counter: map<Pos, int>, picks: seq<nat>): Result<Pos> {
    var mean := Belief(counter);
    if mean.Failure? then Failure(mean.error)
    else NearestLegalLocation(wall, mean.value, picks)
  }

  /** The located opponents, in order, the k-th one drawing from draws(k). */
  ghost function Locations(wall: Pos -> bool, beliefs: seq<map<Pos, int>>, opponents: seq<nat>, draws: nat -> seq<nat>): (locs: seq<Result<Pos>>)
    requires forall k :: 0 <= k < |opponents| ==> opponents[k] < |beliefs|
    ensures |locs| == |opponents|
    ensures forall k :: 0 <= k < |opponents| ==> locs[k] == OpponentLocation(wall, beliefs[opponents[k]], draws(k))
  {
    if opponents == [] then []
    else
      var n := |opponents| - 1;
      Locations(wall, beliefs, opponents[..n], draws) + [OpponentLocation(wall, beliefs[opponents[n]], draws(n))]
  }

  /** Some opponent's location raises: its counter is empty, or the draws
      run out before getNearestLegalLocation leaves the walls. */
  ghost predicate SomeLocationRaises(wall: Pos -> bool, beliefs: seq<map<Pos, int>>, opponents: seq<nat>, draws: nat -> seq<nat>) {
    exists k :: 0 <= k < |opponents| && opponents[k] < |beliefs| && OpponentLocation(wall, beliefs[opponents[k]], draws(k)).Failure?
  }

  /** The scores chooseAction collects for the moves `xs`, in order. */
  ghost function ScoresOf<T>(score: T -> int, xs: seq<T>): (r: seq<Ext>)
    ensures |r| == |xs|
    decreases |xs|
  {
    if xs == [] then [] else ScoresOf(score, xs[..|xs| - 1]) + [Fin(score(xs[|xs| - 1]))]
  }

  lemma {:induction false} ScoresOfAt<T>(score: T -> int, xs: seq<T>, k: nat)
    requires k < |xs|
    ensures ScoresOf(score, xs)[k] == Fin(score(xs[k]))
    decreases |xs|
  {
    var n := |xs|;
    if k < n - 1 {
      assert xs[..n - 1][k] == xs[k];
      ScoresOfAt(score, xs[..n - 1], k);
    }
  }

  /** Scoring one more move appends its score. */
  lemma ScoresOfNext<T>(score: T -> int, xs: seq<T>, i: nat)
    requires i < |xs|
    ensures ScoresOf(score, xs[..i + 1]) == ScoresOf(score, xs[..i]) + [Fin(score(xs[i]))]
  {
    assert xs[..i + 1][..i] == xs[..i];
  }

  lemma ScoresOfWhole<T>(score: T -> int, xs: seq<T>)
    ensures ScoresOf(score, xs[..|xs|]) == ScoresOf(score, xs)
  {
    assert xs[..|xs|] == xs;
  }

  /** The move whose score is the greatest of the collected scores scores
      at least as high as every move. */
  lemma BestScoreWins<T>(score: T -> int, xs: seq<T>, best: nat)
    requires best < |xs|
    requires ScoresOf(score, xs)[best] == MaxOf(ScoresOf(score, xs))
    ensures forall b :: b in xs ==> score(b) <= score(xs[best])
  {
    var values := ScoresOf(score, xs);
    ScoresOfAt(score, xs, best);
    forall b | b in xs
      ensures score(b) <= score(xs[best])
    {
      var k :| 0 <= k < |xs| && xs[k] == b;
      ScoresOfAt(score, xs, k);
      MaxOfAtLeast(values, k);
    }
  }

  /** p holds somewhere below n, looked at from the top down. */
  ghost predicate HoldsBelow(p: nat -> bool, n: nat) {
    n > 0 && (HoldsBelow(p, n - 1) || p(n - 1))
  }

  lemma {:induction false} HoldsBelowSome(p: nat -> bool, n: nat)
    ensures HoldsBelow(p, n) <==> exists i :: 0 <= i < n && p(i)
  {
    if n > 0 {
      HoldsBelowSome(p, n - 1);
    }
  }

  lemma {:induction false} HoldsBelowGrows(p: nat -> bool, n: nat, m: nat)
    requires n <= m && HoldsBelow(p, n)
    ensures HoldsBelow(p, m)
    decreases m - n
  {
    if n < m {
      HoldsBelowGrows(p, n + 1, m);
    }
  }

  /** Whether the i-th evaluation of chooseAction raises, drawing from draws(i). */
  ghost function RaisesWith(wall: Pos -> bool, beliefs: seq<map<Pos, int>>, opponents: seq<nat>, draws: nat -> nat -> seq<nat>): nat -> bool {
    (i: nat) => SomeLocationRaises(wall, beliefs, opponents, draws(i))
  }

  class DefensiveAgent<S(!new)> {
    const host: Host<S>
    const index: nat
    const red: bool
    const opponents: seq<nat>
    var beliefs: seq<map<Pos, int>>

    /** Four counters, opponent indices that address them, and an agent
      that always sees itself. */
    ghost predicate Valid()
      reads this
    {
      |beliefs| == 4 &&
      (forall k :: 0 <= k < |opponents| ==> opponents[k] < 4) &&
      forall s :: host.agentState(s, index).position.Some?
    }

    /** registerInitialState: one belief counter per agent index, seeded
      with the start cell of each opponent. */
    constructor (host: Host<S>, index: nat, red: bool, opponents: seq<nat>)
      requires forall k :: 0 <= k < |opponents| ==> opponents[k] < 4
      requires forall s :: host.agentState(s, index).position.Some?
      ensures Valid()
      ensures this.host == host && this.index == index && this.red == red && this.opponents == opponents
      ensures beliefs == Seeded(red, opponents)
    {
      this.host := host;
      this.index := index;
      this.red := red;
      this.opponents := opponents;
      var b: seq<map<Pos, int>> := [map[], map[], map[], map[]];
      var count := if red then 0 else 1;
      var k := 0;
      while k < |opponents|
        invariant 0 <= k <= |opponents|
        invariant count == if red then k else 1 - k
        invariant b == Seeded(red, opponents[..k])
      {
        assert opponents[..k + 1][..k] == opponents[..k];
        var idx := opponents[k];
        var cell := if red then Pos(30, 13 + count) else Pos(1, 1 + count);
        b := b[idx := b[idx][cell := 1]];
        count := if red then count + 1 else count - 1;
        k := k + 1;
      }
      assert opponents[..k] == opponents;
      beliefs := b;
    }

    /** The agent's own position after playing a in s. */
    function MyPosAfter(s: S, a: Direction): Pos
      requires host.agentState(Successor(host, s, index, a), index).position.Some?
    {
      host.agentState(Successor(host, s, index, a), index).position.value
    }

    /** getBeliefs: the rounded mean of the cells in counter i; an empty
      counter divides by zero. */
    method GetBeliefs(i: nat) returns (r: Result<Pos>)
      requires i < |beliefs|
      ensures r == Belief(beliefs[i])
    {
      var x, y, count := 0, 0, 0;
      var rest := beliefs[i].Keys;
      while rest != {}
        invariant rest <= beliefs[i].Keys
        invariant x + SetSum(rest, X) == SetSum(beliefs[i].Keys, X)
        invariant y + SetSum(rest, Y) == SetSum(beliefs[i].Keys, Y)
        invariant count + |rest| == |beliefs[i].Keys|
        decreases |rest|
      {
        var p :| p in rest;
        SetSumRemove(rest, X, p);
        SetSumRemove(rest, Y, p);
        x := x + p.x;
        y := y + p.y;
        count := count + 1;
        rest := rest - {p};
      }
      if count == 0 {
        return Failure("float division by zero");
      }
      r := Ok(Pos(Round(x, count), Round(y, count)));
    }

    /** The cell getClosestOpponent measures to for opponent i: the belief
      about i moved off the walls by getNearestLegalLocation, which draws
      from `picks`. */
    method LocateOpponent(i: nat, picks: seq<nat>) returns (loc: Result<Pos>)
      requires i < |beliefs|
      ensures loc == OpponentLocation(host.wall, beliefs[i], picks)
    {
      var opponentPos := GetBeliefs(i);
      if opponentPos.Failure? {
        return Failure(opponentPos.error);
      }
      loc := NearestLegalLocation(host.wall, opponentPos.value, picks);
    }

    /** getClosestOpponent: the noisy distance for the move a, the k-th
      opponent's getNearestLegalLocation drawing from draws(k). */
    method GetClosestOpponent(s: S, a: Direction, draws: nat -> seq<nat>) returns (r: Result<int>)
      requires Valid()
      ensures r == Closest(host.mazeDist, MyPosAfter(s, a), Locations(host.wall, beliefs, opponents, draws), |opponents|)
    {
      var nearest := 100;
      var myPos := MyPosAfter(s, a);
      ghost var locs := Locations(host.wall, beliefs, opponents, draws);
      var k := 0;
      while k < |opponents|
        invariant 0 <= k <= |opponents|
        invariant Closest(host.mazeDist, myPos, locs, k) == Ok(nearest)
      {
        var loc := LocateOpponent(opponents[k], draws(k));
        assert locs[k] == loc;
        ClosestNext(host.mazeDist, myPos, locs, k, nearest);
        if loc.Failure? {
          ClosestFailureSticks(host.mazeDist, myPos, locs, k + 1, |opponents|);
          return Failure(loc.error);
        }
        var d := host.mazeDist(myPos, loc.value);
        nearest := if d < nearest then d else nearest;
        k := k + 1;
      }
      r := Ok(nearest);
    }

    /** The score evaluate gives the move a, with the noisy distance at 0;
      by NoisyDistanceNotWeighted any other distance gives the same. */
    ghost function ActionScore(s: S, a: Direction): int {
      var succ := Successor(host, s, index, a);
      if host.agentState(succ, index).position.Some? then
        Dot(DefensiveFeatures(host, index, opponents, s, succ, a, 0), DefensiveWeights)
      else 0
    }

    /** getFeatures: the defensive features of the successor; it raises
      exactly when getClosestOpponent does. */
    method GetFeatures(s: S, a: Direction, draws: nat -> seq<nat>) returns (r: Result<FeatureMap>)
      requires Valid()
      ensures r.Failure? <==> SomeLocationRaises(host.wall, beliefs, opponents, draws)
      ensures r.Ok? ==> Closest(host.mazeDist, MyPosAfter(s, a), Locations(host.wall, beliefs, opponents, draws), |opponents|).Ok?
      ensures r.Ok? ==> r.value == DefensiveFeatures(host, index, opponents, s, Successor(host, s, index, a), a,
                                                     Closest(host.mazeDist, MyPosAfter(s, a), Locations(host.wall, beliefs, opponents, draws), |opponents|).value)
    {
      var successor := Successor(host, s, index, a);
      var noisy := GetClosestOpponent(s, a, draws);
      ClosestIsLeast(host.mazeDist, MyPosAfter(s, a), Locations(host.wall, beliefs, opponents, draws), |opponents|);
      if noisy.Failure? {
        return Failure(noisy.error);
      }
      r := Ok(DefensiveFeatures(host, index, opponents, s, successor, a, noisy.value));
    }

    /** evaluate: the features dotted with the defensive weights, which
      does not depend on the random draws unless they make it raise. */
    method Evaluate(s: S, a: Direction, draws: nat -> seq<nat>) returns (r: Result<int>)
      requires Valid()
      ensures r.Failure? <==> SomeLocationRaises(host.wall, beliefs, opponents, draws)
      ensures r.Ok? ==> r.value == ActionScore(s, a)
    {
      var features := GetFeatures(s, a, draws);
      if features.Failure? {
        return Failure(features.error);
      }
      var score := DotProduct(features.value, DefensiveWeights);
      NoisyDistanceNotWeighted(host, index, opponents, s, Successor(host, s, index, a), a,
                               Closest(host.mazeDist, MyPosAfter(s, a), Locations(host.wall, beliefs, opponents, draws), |opponents|).value);
      r := Ok(score);
    }

    /** ActionScore as a function of the move alone. */
    ghost function ScoreIn(s: S): Direction -> int {
      a => ActionScore(s, a)
    }

    /** The loop of chooseAction that scores every move: the i-th move is
      evaluated with draws(i), and the first evaluation that raises ends it. */
    method ScoreMoves(s: S, actions: seq<Direction>, draws: nat -> nat -> seq<nat>) returns (r: Result<seq<Ext>>)
      requires Valid()
      ensures r.Failure? <==> HoldsBelow(RaisesWith(host.wall, beliefs, opponents, draws), |actions|)
      ensures r.Ok? ==> r.value == ScoresOf(ScoreIn(s), actions)
    {
      var values: seq<Ext> := [];
      var i := 0;
      while i < |actions|
        invariant 0 <= i <= |actions|
        invariant values == ScoresOf(ScoreIn(s), actions[..i])
        invariant !HoldsBelow(RaisesWith(host.wall, beliefs, opponents, draws), i)
      {
        var v := Evaluate(s, actions[i], draws(i));
        if v.Failure? {
          HoldsBelowGrows(RaisesWith(host.wall, beliefs, opponents, draws), i + 1, |actions|);
          return Failure(v.error);
        }
        ScoresOfNext(ScoreIn(s), actions, i);
        values := values + [Fin(v.value)];
        i := i + 1;
      }
      ScoresOfWhole(ScoreIn(s), actions);
      r := Ok(values);
    }

    /** chooseAction: a legal move of highest score, draws(i)(k) being the
      random draws for the k-th opponent while evaluating the i-th move. It
      raises when there is no legal move or some evaluation raises. */
    method ChooseAction(s: S, draws: nat -> nat -> seq<nat>) returns (r: Result<Direction>)
      requires Valid()
      ensures r.Failure? <==> host.legal(s, index) == [] || HoldsBelow(RaisesWith(host.wall, beliefs, opponents, draws), |host.legal(s, index)|)
      ensures r.Ok? ==> r.value in host.legal(s, index)
      ensures r.Ok? ==> forall b :: b in host.legal(s, index) ==> ActionScore(s, b) <= ActionScore(s, r.value)
    {
      var actions := host.legal(s, index);
      var values := ScoreMoves(s, actions, draws);
      if values.Failure? {
        return Failure(values.error);
      }
      r := PickBest(actions, values.value);
      if r.Ok? {
        ghost var best :| 0 <= best < |actions| && actions[best] == r.value && values.value[best] == MaxOf(values.value);
        BestScoreWins(ScoreIn(s), actions, best);
      }
    }
  }
}
