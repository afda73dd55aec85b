/** OffensiveReflexAgent: a food-seeking agent that scores moves by a
    depth-bounded fail-soft alpha-beta search against one ghost, and keeps
    a guess of where the last opponent is while it is out of sight. The
    guess lives in two fields that every feature computation updates,
    including the evaluations made inside the search. */
module Offensive {
  import opened Values
  import opened Game
  import opened Features
  import opened Tracker
  import opened Search

  /** What evaluate returns for action a in s when the tracked opponent is
      in sight in s (the agent's own position is always known; the else
      branch is never taken under the agent's invariant). */
  ghost function SeenValue<S>(h: Host<S>, me: nat, last: nat, s: S, a: Direction): int {
    if h.agentState(Successor(h, s, me, a), me).position.Some? then
      Dot(OffensiveFeatures(h, me, last, s, a, h.agentState(s, last).position), OffensiveWeights)
    else 0
  }

  /** The leaf scores of the search tree while the tracked opponent is in sight. */
  ghost function Leaf<S>(h: Host<S>, me: nat, last: nat): (S, Direction) -> int {
    (s, a) => SeenValue(h, me, last, s, a)
  }

  /** The ghost miniMax searches against: the last opponent, in the order
      of `opponents`, that is not Pacman in s. */
  function LastGhost<S>(h: Host<S>, s: S, opponents: seq<nat>): (r: Option<nat>)
    ensures r.Some? ==> r.value in opponents && !h.agentState(s, r.value).isPacman
    ensures r.None? <==> forall i :: i in opponents ==> h.agentState(s, i).isPacman
    ensures r.Some? ==> forall k :: 0 <= k < |opponents| && opponents[k] != r.value && !h.agentState(s, opponents[k]).isPacman ==>
      exists j :: k < j < |opponents| && opponents[j] == r.value
  {
    if opponents == [] then None
    else
      var last := opponents[|opponents| - 1];
      var init := opponents[..|opponents| - 1];
      assert opponents == init + [last];
      if !h.agentState(s, last).isPacman then Some(last) else LastGhost(h, s, init)
  }

  class OffensiveAgent<S(!new)> {
    const host: Host<S>
    const index: nat
    const red: bool
    const opponents: seq<nat>
    var ghostPosition: Option<Pos>
    var elapseTime: int

    /** The agent knows its opponents and always sees itself. */
    ghost predicate Valid() {
      opponents != [] && forall s :: host.agentState(s, index).position.Some?
    }

    constructor (host: Host<S>, index: nat, red: bool, opponents: seq<nat>)
      requires opponents != [] && forall s :: host.agentState(s, index).position.Some?
      ensures Valid()
      ensures this.host == host && this.index == index && this.red == red && this.opponents == opponents
      ensures ghostPosition == None && elapseTime == 0
    {
      this.host := host;
      this.index := index;
      this.red := red;
      this.opponents := opponents;
      ghostPosition := None;
      elapseTime := 0;
    }

    /** opponentsInd[-1]: the opponent the tracker follows. */
    function Last(): nat
      requires opponents != []
    {
      opponents[|opponents| - 1]
    }

    function MyPos(s: S): Pos
      requires Valid()
    {
      host.agentState(s, index).position.value
    }

    ghost function Tracked(): TrackerState
      reads this
    {
      TrackerState(ghostPosition, elapseTime)
    }

    /** The tracked opponent is in sight in every state. */
    ghost predicate AlwaysSeen()
      requires Valid()
    {
      forall s :: host.agentState(s, Last()).position.Some?
    }

    /** The tracker update of one getFeatures call on state s, from `before`
      to `after`; `ok` is false when inferencePos raised. */
    ghost predicate TrackerUpdated(before: TrackerState, after: TrackerState, s: S, ok: bool)
      requires Valid()
    {
      var seen := host.agentState(s, Last()).position;
      if seen.Some? then ok && after == TrackerState(seen, 0)
      else
        after.elapseTime == before.elapseTime + 1 &&
        Inferred(host.wall, red, host.mazeDist, MyPos(s), before.ghostPosition, after.elapseTime,
                 if ok then Ok(after.ghostPosition) else Failure("raised")) &&
        (ok ==> after == Update(before, seen, after.ghostPosition)) &&
        (!ok ==> after.ghostPosition == before.ghostPosition)
    }

    /** TrackerUpdated as a relation between tracker states, for a series
      of calls. */
    ghost function Step(): (TrackerState, TrackerState, S, bool) -> bool
    {
      (before: TrackerState, after: TrackerState, s: S, ok: bool) => Valid() && TrackerUpdated(before, after, s, ok)
    }

    /** The tracker went from `before` to `after` through the getFeatures
      calls on `leaves`, in that order, passing through `trail`. */
    ghost predicate Series(before: TrackerState, after: TrackerState, trail: seq<TrackerState>, leaves: seq<S>, ok: bool)
    {
      Evaluations(Step(), trail, leaves, ok) && trail[0] == before && trail[|leaves|] == after
    }

    lemma SeriesJoin(before: TrackerState, mid: TrackerState, after: TrackerState,
                     t1: seq<TrackerState>, l1: seq<S>, t2: seq<TrackerState>, l2: seq<S>, ok: bool)
      requires Series(before, mid, t1, l1, true) && Series(mid, after, t2, l2, ok)
      ensures Series(before, after, t1 + t2[1..], l1 + l2, ok)
    {
      EvaluationsJoin(Step(), t1, l1, t2, l2, ok);
    }

    /** While the last opponent is always in sight, every call resets the
      tracker: a series of calls cannot raise, and it leaves the counter at
      0 and the opponent where the last state looked at shows it. */
    lemma SeenSeriesEnds(before: TrackerState, after: TrackerState, trail: seq<TrackerState>, leaves: seq<S>, ok: bool)
      requires Valid() && AlwaysSeen()
      requires Series(before, after, trail, leaves, ok) && leaves != []
      ensures ok
      ensures after == TrackerState(host.agentState(leaves[|leaves| - 1], Last()).position, 0)
    {
      var n := |leaves| - 1;
      assert Step()(trail[n], trail[n + 1], leaves[n], ok || n + 1 < |leaves|);
    }

    /** With no position tracked and the last opponent out of sight in the
      first n states of a series, each of those calls adds one to the
      counter and the position stays unknown. */
    lemma {:induction false} UnseenSeriesAt(trail: seq<TrackerState>, leaves: seq<S>, ok: bool, n: nat)
      requires Valid() && Evaluations(Step(), trail, leaves, ok)
      requires trail[0].ghostPosition.None?
      requires forall i :: 0 <= i < |leaves| ==> host.agentState(leaves[i], Last()).position.None?
      requires n <= |leaves|
      ensures trail[n] == TrackerState(None, trail[0].elapseTime + n)
      decreases n
    {
      if n > 0 {
        UnseenSeriesAt(trail, leaves, ok, n - 1);
        assert Step()(trail[n - 1], trail[n], leaves[n - 1], ok || n < |leaves|);
      }
    }

    /** A lost opponent stays lost while no state of the series shows it:
      no call raises, and each adds one to the counter. */
    lemma LostWhileUnseen(before: TrackerState, after: TrackerState, trail: seq<TrackerState>, leaves: seq<S>, ok: bool)
      requires Valid() && Series(before, after, trail, leaves, ok)
      requires before.ghostPosition.None?
      requires forall i :: 0 <= i < |leaves| ==> host.agentState(leaves[i], Last()).position.None?
      ensures ok
      ensures after == TrackerState(None, before.elapseTime + |leaves|)
    {
      UnseenSeriesAt(trail, leaves, ok, |leaves|);
      if leaves != [] {
        var n := |leaves| - 1;
        UnseenSeriesAt(trail, leaves, ok, n);
        assert Step()(trail[n], trail[n + 1], leaves[n], ok || n + 1 < |leaves|);
      }
    }

    /** inferencePos: the next guess for the hidden ghost, from the tracked
      position, at counter value `elapse`. */
    method InferencePos(s: S, elapse: int) returns (r: Result<Option<Pos>>)
      requires Valid()
      ensures Inferred(host.wall, red, host.mazeDist, MyPos(s), ghostPosition, elapse, r)
    {
      if ghostPosition == None {
        return Ok(None);
      }
      var candidates := OpenNeighbours(host.wall, ghostPosition.value);
      candidates := DropOverBound(red, candidates);
      if elapse > 4 && elapse < 6 {
        if candidates == [] {
          return Failure("random.choice: empty sequence");
        }
        assert candidates[0] in candidates;
        var pick :| pick in candidates;
        return Ok(Some(pick));
      } else if elapse >= 6 {
        return Ok(None);
      }
      if candidates == [] {
        return Failure("min() arg is an empty sequence");
      }
      var myPos := MyPos(s);
      var minDist := MinDistance(host.mazeDist, myPos, candidates);
      MinDistanceIsLeast(host.mazeDist, myPos, candidates);
      var pick :| pick in candidates && host.mazeDist(myPos, pick) == minDist;
      r := Ok(Some(pick));
    }

    /** The tracker part of getFeatures: reset when the last opponent is
      in sight in s, otherwise one more unseen turn and a new guess. */
    method Track(s: S) returns (r: Result<Option<Pos>>)
      requires Valid()
      modifies this
      ensures TrackerUpdated(old(Tracked()), Tracked(), s, r.Ok?)
      ensures r.Ok? ==> r.value == ghostPosition
    {
      var enemyPosition := host.agentState(s, Last()).position;
      if enemyPosition != None {
        elapseTime := 0;
        ghostPosition := enemyPosition;
      } else {
        elapseTime := elapseTime + 1;
        var guess := InferencePos(s, elapseTime);
        if guess.Failure? {
          return Failure(guess.error);
        }
        ghostPosition := guess.value;
      }
      r := Ok(ghostPosition);
    }

    /** getFeatures: the offensive features of the successor, after the
      tracker has been updated from what s shows of the last opponent. */
    method GetFeatures(s: S, a: Direction) returns (r: Result<FeatureMap>)
      requires Valid()
      modifies this
      ensures TrackerUpdated(old(Tracked()), Tracked(), s, r.Ok?)
      ensures r.Ok? ==> r.value == OffensiveFeatures(host, index, Last(), s, a, ghostPosition)
    {
      var succ := Successor(host, s, index, a);
      var foods := host.food(succ);
      var agentPosition := host.agentState(succ, index).position.value;
      var averageDist, minDist := 0, 0;
      if |foods| > 0 {
        averageDist, minDist := FoodDistances(host.mazeDist, agentPosition, foods);
      }
      var tracked := Track(s);
      if tracked.Failure? {
        return Failure(tracked.error);
      }
      var features := AssembleFeatures(s, a, averageDist, minDist);
      r := Ok(features);
    }

    /** The rest of getFeatures once the tracker has moved: the food
      distances already measured, the enemy's scared time, the dist2enemy
      feature from the tracked position and the capsule loop. */
    method AssembleFeatures(s: S, a: Direction, averageDist: int, minDist: int) returns (features: FeatureMap)
      requires Valid()
      requires var succ := Successor(host, s, index, a);
        var foods := host.food(succ);
        var myPos := host.agentState(succ, index).position.value;
        foods != [] ==> averageDist == SumDistance(host.mazeDist, myPos, foods) / |foods| &&
                        minDist == MinDistance(host.mazeDist, myPos, foods)
      ensures features == OffensiveFeatures(host, index, Last(), s, a, ghostPosition)
    {
      var succ := Successor(host, s, index, a);
      var foods := host.food(succ);
      var capsules := host.capsules(succ);
      var agentPosition := host.agentState(succ, index).position.value;
      var scaredTime := host.agentState(s, Last()).scaredTimer;
      var dist := if ghostPosition.Some? then Some(host.mazeDist(agentPosition, ghostPosition.value)) else None;
      var dist2Capsules := CapsuleDistance(host.mazeDist, agentPosition, capsules);
      features := map[
        SuccessorScore := host.score(succ),
        FoodRemaining := |foods|,
        ScaredTime := scaredTime,
        Dist2enemy := Dist2EnemyFeature(dist, scaredTime),
        Dist2Capsules := dist2Capsules];
      if |foods| > 0 {
        features := features[AverageDist := averageDist][MinDist := minDist];
      }
    }

    /** evaluate: the dot product of the features with the offensive weights. */
    method Evaluate(s: S, a: Direction) returns (r: Result<int>)
      requires Valid()
      modifies this
      ensures TrackerUpdated(old(Tracked()), Tracked(), s, r.Ok?)
      ensures r.Ok? ==> r.value == Dot(OffensiveFeatures(host, index, Last(), s, a, ghostPosition), OffensiveWeights)
      ensures AlwaysSeen() ==> r == Ok(SeenValue(host, index, Last(), s, a))
    {
      var features := GetFeatures(s, a);
      if features.Failure? {
        return Failure(features.error);
      }
      var score := DotProduct(features.value, OffensiveWeights);
      r := Ok(score);
    }
  
    /** The value miniMax(s, a) would have if the tracked opponent stayed in
      sight: the leaf score when no ghost is in sight in s, and otherwise
      the unpruned value of the Min node at depth 1. */
    ghost function RootValue(s: S, a: Direction): Ext
      requires Valid()
    {
      var g := LastGhost(host, s, opponents);
      if g.None? || host.agentState(s, g.value).position.None? then Fin(SeenValue(host, index, Last(), s, a))
      else MinValue(host, index, g.value, Leaf(host, index, Last()), s, a, 1)
    }

    /** v is a walk of the tree miniMax(s, a) searches: the state s alone
      when no ghost is in sight in s, and otherwise a walk of the Min node
      at depth 1 against that ghost. */
    ghost predicate RootVisit(v: Visit<S>, s: S, a: Direction) {
      var g := LastGhost(host, s, opponents);
      if g.None? || host.agentState(s, g.value).position.None? then v == Evaluated(s)
      else MinVisit(host, index, g.value, v, s, a, 1)
    }

    /** The loop of a Min node so far: its walks of the first |visits|
      ghost answers took the tracker from `start` to `now` through the
      states they evaluated, in order. */
    ghost predicate MinWalk(start: TrackerState, now: TrackerState, trail: seq<TrackerState>, leaves: seq<S>,
                            visits: seq<Visit<S>>, s1: S, acts: seq<Direction>, depth: int, ghostInd: nat, ok: bool)
      requires 2 <= depth <= 4
    {
      Series(start, now, trail, leaves, ok) &&
      MinVisits(host, index, ghostInd, visits, s1, acts, depth) && leaves == VisitedAll(visits)
    }

    /** One more answer searched: its walk and its tracker series extend
      the loop's. */
    lemma MinWalkStep(start: TrackerState, mid: TrackerState, now: TrackerState, trail: seq<TrackerState>, leaves: seq<S>,
                      visits: seq<Visit<S>>, s1: S, acts: seq<Direction>, depth: int, ghostInd: nat,
                      t2: seq<TrackerState>, l2: seq<S>, tree: Visit<S>, ok: bool)
      requires 2 <= depth <= 4
      requires MinWalk(start, mid, trail, leaves, visits, s1, acts, depth, ghostInd, true) && |visits| < |acts|
      requires Series(mid, now, t2, l2, ok)
      requires MaxVisit(host, index, ghostInd, tree, s1, acts[|visits|], depth) && l2 == Visited(tree)
      ensures MinWalk(start, now, trail + t2[1..], leaves + l2, visits + [tree], s1, acts, depth, ghostInd, ok)
    {
      SeriesJoin(start, mid, now, trail, leaves, t2, l2, ok);
      VisitedAllSnoc(visits, tree);
    }

    /** The loop of a Max node so far, as MinWalk. */
    ghost predicate MaxWalk(start: TrackerState, now: TrackerState, trail: seq<TrackerState>, leaves: seq<S>,
                            visits: seq<Visit<S>>, s2: S, acts: seq<Direction>, depth: int, ghostInd: nat, ok: bool)
      requires 2 <= depth <= 4
    {
      Series(start, now, trail, leaves, ok) &&
      MaxVisits(host, index, ghostInd, visits, s2, acts, depth) && leaves == VisitedAll(visits)
    }

    lemma MaxWalkStep(start: TrackerState, mid: TrackerState, now: TrackerState, trail: seq<TrackerState>, leaves: seq<S>,
                      visits: seq<Visit<S>>, s2: S, acts: seq<Direction>, depth: int, ghostInd: nat,
                      t2: seq<TrackerState>, l2: seq<S>, tree: Visit<S>, ok: bool)
      requires 2 <= depth <= 4
      requires MaxWalk(start, mid, trail, leaves, visits, s2, acts, depth, ghostInd, true) && |visits| < |acts|
      requires Series(mid, now, t2, l2, ok)
      requires MinVisit(host, index, ghostInd, tree, s2, acts[|visits|], depth) && l2 == Visited(tree)
      ensures MaxWalk(start, now, trail + t2[1..], leaves + l2, visits + [tree], s2, acts, depth, ghostInd, ok)
    {
      SeriesJoin(start, mid, now, trail, leaves, t2, l2, ok);
      VisitedAllSnoc(visits, tree);
    }

    /** One call of evaluate, as a search value: the score of the leaf,
      one step of the tracker. */
    method EvaluateLeaf(s: S, a: Direction)
      returns (r: Result<Ext>, ghost trail: seq<TrackerState>, ghost leaves: seq<S>)
      requires Valid()
      modifies this
      ensures TrackerUpdated(old(Tracked()), Tracked(), s, r.Ok?)
      ensures Series(old(Tracked()), Tracked(), trail, leaves, r.Ok?) && leaves == [s]
      ensures r.Ok? ==> r.value == Fin(Dot(OffensiveFeatures(host, index, Last(), s, a, ghostPosition), OffensiveWeights))
      ensures AlwaysSeen() ==> r == Ok(Fin(SeenValue(host, index, Last(), s, a)))
    {
      ghost var before := Tracked();
      var v := Evaluate(s, a);
      trail, leaves := [before, Tracked()], [s];
      EvaluationsOne(Step(), before, Tracked(), s, v.Ok?);
      if v.Failure? {
        r := Failure(v.error);
        return;
      }
      r := Ok(Fin(v.value));
    }

    /** The depth-4 case of AlphaBetaMinValue: the move is only scored by
      evaluate, which also advances the tracker. */
    method SearchLeaf(s: S, a: Direction, alpha: Ext, beta: Ext, ghostInd: nat)
      returns (r: Result<Ext>, ghost trail: seq<TrackerState>, ghost leaves: seq<S>)
      requires Valid()
      modifies this
      ensures TrackerUpdated(old(Tracked()), Tracked(), s, r.Ok?)
      ensures Series(old(Tracked()), Tracked(), trail, leaves, r.Ok?) && leaves == [s]
      ensures r.Ok? ==> r.value == Fin(Dot(OffensiveFeatures(host, index, Last(), s, a, ghostPosition), OffensiveWeights))
      ensures AlwaysSeen() && Lt(alpha, beta) ==>
        r.Ok? && FailSoft(r.value, alpha, beta, MinValue(host, index, ghostInd, Leaf(host, index, Last()), s, a, 4))
    {
      r, trail, leaves := EvaluateLeaf(s, a);
      if AlwaysSeen() {
        LeavesAtDepthFour(host, index, ghostInd, Leaf(host, index, Last()), s, a);
        LeTotalOrder(r.value, alpha, beta);
      }
    }

    /** AlphaBetaMinValue: the ghost's turn after the agent played `a` in s.
      The result is fail-soft with respect to the unpruned value whenever
      the tracked opponent stays in sight, so that every evaluation in the
      subtree sees the same tracker state. */
    method AlphaBetaMinValue(s: S, a: Direction, depth: int, alpha: Ext, beta: Ext, ghostInd: nat)
      returns (r: Result<Ext>, ghost trail: seq<TrackerState>, ghost leaves: seq<S>, ghost tree: Visit<S>)
      requires Valid() && 1 <= depth <= 4
      modifies this
      decreases 4 - depth, 2
      ensures Series(old(Tracked()), Tracked(), trail, leaves, r.Ok?)
      ensures MinVisit(host, index, ghostInd, tree, s, a, depth) && leaves == Visited(tree)
      ensures depth == 4 ==>
        leaves == [s] && TrackerUpdated(old(Tracked()), Tracked(), s, r.Ok?) &&
        (r.Ok? ==> r.value == Fin(Dot(OffensiveFeatures(host, index, Last(), s, a, ghostPosition), OffensiveWeights)))
      ensures depth < 4 && host.legal(host.generate(s, index, a), ghostInd) == [] ==>
        r == Ok(PosInf) && Tracked() == old(Tracked())
      ensures AlwaysSeen() && Lt(alpha, beta) ==>
        r.Ok? && FailSoft(r.value, alpha, beta, MinValue(host, index, ghostInd, Leaf(host, index, Last()), s, a, depth))
    {
      if depth == 4 {
        r, trail, leaves := SearchLeaf(s, a, alpha, beta, ghostInd);
        tree := Evaluated(s);
        return;
      }
      var s1 := host.generate(s, index, a);
      var ghostActions := host.legal(s1, ghostInd);
      ghost var visits;
      r, trail, leaves, visits := MinOverAnswers(s1, ghostActions, depth + 1, alpha, beta, ghostInd);
      tree := Expanded(visits);
    }

    /** The loop of AlphaBetaMinValue over the ghost's answers in s1, whose
      Max nodes sit at `depth`, cut off as soon as the score falls to
      alpha. */
    method MinOverAnswers(s1: S, ghostActions: seq<Direction>, depth: int, alpha: Ext, beta: Ext, ghostInd: nat)
      returns (r: Result<Ext>, ghost trail: seq<TrackerState>, ghost leaves: seq<S>, ghost visits: seq<Visit<S>>)
      requires Valid() && 2 <= depth <= 4
      modifies this
      decreases 4 - depth, 7
      ensures Series(old(Tracked()), Tracked(), trail, leaves, r.Ok?)
      ensures MinVisits(host, index, ghostInd, visits, s1, ghostActions, depth) && leaves == VisitedAll(visits)
      ensures r.Ok? && Lt(alpha, r.value) ==> |visits| == |ghostActions|
      ensures ghostActions == [] ==> r == Ok(PosInf) && Tracked() == old(Tracked())
      ensures AlwaysSeen() && Lt(alpha, beta) ==>
        r.Ok? && FailSoft(r.value, alpha, beta, MinOver(host, index, ghostInd, Leaf(host, index, Last()), s1, ghostActions, depth))
    {
      var score := PosInf;
      var b := beta;
      ghost var leaf := Leaf(host, index, Last());
      ghost var exact := AlwaysSeen() && Lt(alpha, beta);
      ghost var start := Tracked();
      trail, leaves, visits := [start], [], [];
      var i := 0;
      while i < |ghostActions|
        invariant 0 <= i <= |ghostActions|
        invariant i == 0 ==> leaves == [] && score == PosInf
        invariant exact ==> MinLoopInvariant(alpha, beta, score, MinOver(host, index, ghostInd, leaf, s1, ghostActions[..i], depth), b)
        invariant MinWalk(start, Tracked(), trail, leaves, visits, s1, ghostActions, depth, ghostInd, true) && |visits| == i
      {
        var v;
        v, trail, leaves, visits := MinAnswer(s1, ghostActions, i, depth, alpha, b, ghostInd, start, trail, leaves, visits);
        if v.Failure? {
          r := Failure(v.error);
          return;
        }
        if exact {
          MinAfterAnswer(host, index, ghostInd, leaf, s1, ghostActions, depth, i, alpha, beta, score, b, v.value);
        }
        score := Min(score, v.value);
        if Le(score, alpha) {
          r := Ok(score);
          return;
        }
        b := Min(b, score);
        i := i + 1;
      }
      MinOverWhole(host, index, ghostInd, leaf, s1, ghostActions, depth);
      if exact {
        MinLoopDone(alpha, beta, score, MinOver(host, index, ghostInd, leaf, s1, ghostActions, depth), b);
      }
      r := Ok(score);
    }

    /** One iteration of MinOverAnswers: the Max search of the i-th ghost
      answer, whose walk and tracker series extend the loop's. */
    method MinAnswer(s1: S, acts: seq<Direction>, i: nat, depth: int, alpha: Ext, beta: Ext, ghostInd: nat,
                     ghost start: TrackerState, ghost trail: seq<TrackerState>, ghost leaves: seq<S>, ghost visits: seq<Visit<S>>)
      returns (v: Result<Ext>, ghost trail': seq<TrackerState>, ghost leaves': seq<S>, ghost visits': seq<Visit<S>>)
      requires Valid() && 2 <= depth <= 4 && i < |acts| && |visits| == i
      requires MinWalk(start, Tracked(), trail, leaves, visits, s1, acts, depth, ghostInd, true)
      modifies this
      decreases 4 - depth, 6
      ensures MinWalk(start, Tracked(), trail', leaves', visits', s1, acts, depth, ghostInd, v.Ok?) && |visits'| == i + 1
      ensures AlwaysSeen() && Lt(alpha, beta) ==>
        v.Ok? && FailSoft(v.value, alpha, beta, MaxValue(host, index, ghostInd, Leaf(host, index, Last()), s1, acts[i], depth))
    {
      ghost var mid := Tracked();
      ghost var t2, l2, tree;
      v, t2, l2, tree := AlphaBetaMaxValue(s1, acts[i], depth, alpha, beta, ghostInd);
      MinWalkStep(start, mid, Tracked(), trail, leaves, visits, s1, acts, depth, ghostInd, t2, l2, tree, v.Ok?);
      trail', leaves', visits' := trail + t2[1..], leaves + l2, visits + [tree];
    }

    /** AlphaBetaMaxValue: the agent's turn after the ghost played `ga` in
      s1; the agent never considers stopping. */
    method AlphaBetaMaxValue(s1: S, ga: Direction, depth: int, alpha: Ext, beta: Ext, ghostInd: nat)
      returns (r: Result<Ext>, ghost trail: seq<TrackerState>, ghost leaves: seq<S>, ghost tree: Visit<S>)
      requires Valid() && 2 <= depth <= 4
      modifies this
      decreases 4 - depth, 5
      ensures Series(old(Tracked()), Tracked(), trail, leaves, r.Ok?)
      ensures MaxVisit(host, index, ghostInd, tree, s1, ga, depth) && leaves == Visited(tree)
      ensures RemoveStop(host.legal(host.generate(s1, ghostInd, ga), index)) == [] ==>
        r == Ok(NegInf) && Tracked() == old(Tracked())
      ensures AlwaysSeen() && Lt(alpha, beta) ==>
        r.Ok? && FailSoft(r.value, alpha, beta, MaxValue(host, index, ghostInd, Leaf(host, index, Last()), s1, ga, depth))
    {
      var s2 := host.generate(s1, ghostInd, ga);
      var agentActions := RemoveStop(host.legal(s2, index));
      ghost var visits;
      r, trail, leaves, visits := MaxOverMoves(s2, agentActions, depth, alpha, beta, ghostInd);
      tree := Expanded(visits);
    }

    /** The loop of AlphaBetaMaxValue over the agent's moves in s2, cut off
      as soon as the score reaches beta. */
    method MaxOverMoves(s2: S, agentActions: seq<Direction>, depth: int, alpha: Ext, beta: Ext, ghostInd: nat)
      returns (r: Result<Ext>, ghost trail: seq<TrackerState>, ghost leaves: seq<S>, ghost visits: seq<Visit<S>>)
      requires Valid() && 2 <= depth <= 4
      modifies this
      decreases 4 - depth, 4
      ensures Series(old(Tracked()), Tracked(), trail, leaves, r.Ok?)
      ensures MaxVisits(host, index, ghostInd, visits, s2, agentActions, depth) && leaves == VisitedAll(visits)
      ensures r.Ok? && Lt(r.value, beta) ==> |visits| == |agentActions|
      ensures agentActions == [] ==> r == Ok(NegInf) && Tracked() == old(Tracked())
      ensures AlwaysSeen() && Lt(alpha, beta) ==>
        r.Ok? && FailSoft(r.value, alpha, beta, MaxOver(host, index, ghostInd, Leaf(host, index, Last()), s2, agentActions, depth))
    {
      var score := NegInf;
      var a := alpha;
      ghost var leaf := Leaf(host, index, Last());
      ghost var exact := AlwaysSeen() && Lt(alpha, beta);
      ghost var start := Tracked();
      trail, leaves, visits := [start], [], [];
      var i := 0;
      while i < |agentActions|
        invariant 0 <= i <= |agentActions|
        invariant i == 0 ==> leaves == [] && score == NegInf
        invariant exact ==> MaxLoopInvariant(alpha, beta, score, MaxOver(host, index, ghostInd, leaf, s2, agentActions[..i], depth), a)
        invariant MaxWalk(start, Tracked(), trail, leaves, visits, s2, agentActions, depth, ghostInd, true) && |visits| == i
      {
        var v;
        v, trail, leaves, visits := MaxMove(s2, agentActions, i, depth, a, beta, ghostInd, start, trail, leaves, visits);
        if v.Failure? {
          r := Failure(v.error);
          return;
        }
        if exact {
          MaxAfterMove(host, index, ghostInd, leaf, s2, agentActions, depth, i, alpha, beta, score, a, v.value);
        }
        score := Max(score, v.value);
        if Le(beta, score) {
          r := Ok(score);
          return;
        }
        a := Max(a, score);
        i := i + 1;
      }
      MaxOverWhole(host, index, ghostInd, leaf, s2, agentActions, depth);
      if exact {
        MaxLoopDone(alpha, beta, score, MaxOver(host, index, ghostInd, leaf, s2, agentActions, depth), a);
      }
      r := Ok(score);
    }

    /** One iteration of MaxOverMoves: the Min search of the agent's i-th
      move, whose walk and tracker series extend the loop's. */
    method MaxMove(s2: S, acts: seq<Direction>, i: nat, depth: int, alpha: Ext, beta: Ext, ghostInd: nat,
                   ghost start: TrackerState, ghost trail: seq<TrackerState>, ghost leaves: seq<S>, ghost visits: seq<Visit<S>>)
      returns (v: Result<Ext>, ghost trail': seq<TrackerState>, ghost leaves': seq<S>, ghost visits': seq<Visit<S>>)
      requires Valid() && 2 <= depth <= 4 && i < |acts| && |visits| == i
      requires MaxWalk(start, Tracked(), trail, leaves, visits, s2, acts, depth, ghostInd, true)
      modifies this
      decreases 4 - depth, 3
      ensures MaxWalk(start, Tracked(), trail', leaves', visits', s2, acts, depth, ghostInd, v.Ok?) && |visits'| == i + 1
      ensures AlwaysSeen() && Lt(alpha, beta) ==>
        v.Ok? && FailSoft(v.value, alpha, beta, MinValue(host, index, ghostInd, Leaf(host, index, Last()), s2, acts[i], depth))
    {
      ghost var mid := Tracked();
      ghost var t2, l2, tree;
      v, t2, l2, tree := AlphaBetaMinValue(s2, acts[i], depth, alpha, beta, ghostInd);
      MaxWalkStep(start, mid, Tracked(), trail, leaves, visits, s2, acts, depth, ghostInd, t2, l2, tree, v.Ok?);
      trail', leaves', visits' := trail + t2[1..], leaves + l2, visits + [tree];
    }

    /** The loop of miniMax that picks the ghost to search against. */
    method FindGhost(s: S) returns (g: Option<nat>)
      ensures g == LastGhost(host, s, opponents)
    {
      g := None;
      var i := 0;
      while i < |opponents|
        invariant 0 <= i <= |opponents|
        invariant g == LastGhost(host, s, opponents[..i])
      {
        var ind := opponents[i];
        assert opponents[..i + 1][..i] == opponents[..i];
        if !host.agentState(s, ind).isPacman {
          g := Some(ind);
        }
        i := i + 1;
      }
      assert opponents[..i] == opponents;
    }

    /** miniMax: the score of action a in s, searched against the last
      non-Pacman opponent when it is in sight and evaluated directly
      otherwise. */
    method MiniMax(s: S, a: Direction, alpha: Ext, beta: Ext)
      returns (r: Result<Ext>, ghost trail: seq<TrackerState>, ghost leaves: seq<S>, ghost tree: Visit<S>)
      requires Valid()
      modifies this
      ensures Series(old(Tracked()), Tracked(), trail, leaves, r.Ok?)
      ensures RootVisit(tree, s, a) && leaves == Visited(tree)
      ensures var g := LastGhost(host, s, opponents);
        g.None? || host.agentState(s, g.value).position.None? ==>
          leaves == [s] && TrackerUpdated(old(Tracked()), Tracked(), s, r.Ok?) &&
          (r.Ok? ==> r.value == Fin(Dot(OffensiveFeatures(host, index, Last(), s, a, ghostPosition), OffensiveWeights)))
      ensures AlwaysSeen() && Lt(alpha, beta) ==> r.Ok? && FailSoft(r.value, alpha, beta, RootValue(s, a))
      ensures AlwaysSeen() && alpha == NegInf && beta == PosInf ==> r == Ok(RootValue(s, a))
    {
      var g := FindGhost(s);
      if g.None? || host.agentState(s, g.value).position.None? {
        r, trail, leaves := EvaluateLeaf(s, a);
        tree := Evaluated(s);
        if AlwaysSeen() {
          LeTotalOrder(r.value, alpha, beta);
        }
      } else {
        r, trail, leaves, tree := AlphaBetaMinValue(s, a, 1, alpha, beta, g.value);
      }
      if AlwaysSeen() && alpha == NegInf && beta == PosInf {
        FullWindowIsExact(r.value, RootValue(s, a));
      }
    }

    /** chooseAction's loop so far: the miniMax searches of the first
      |visits| actions took the tracker from `start` to `now` through the
      states they evaluated, in order. */
    ghost predicate RootWalk(start: TrackerState, now: TrackerState, trail: seq<TrackerState>, leaves: seq<S>,
                             visits: seq<Visit<S>>, s: S, actions: seq<Direction>, ok: bool)
    {
      Series(start, now, trail, leaves, ok) && |visits| <= |actions| && leaves == VisitedAll(visits) &&
      forall k :: 0 <= k < |visits| ==> RootVisit(visits[k], s, actions[k])
    }

    lemma RootWalkStep(start: TrackerState, mid: TrackerState, now: TrackerState, trail: seq<TrackerState>, leaves: seq<S>,
                       visits: seq<Visit<S>>, s: S, actions: seq<Direction>,
                       t2: seq<TrackerState>, l2: seq<S>, tree: Visit<S>, ok: bool)
      requires RootWalk(start, mid, trail, leaves, visits, s, actions, true) && |visits| < |actions|
      requires Series(mid, now, t2, l2, ok)
      requires RootVisit(tree, s, actions[|visits|]) && l2 == Visited(tree)
      ensures RootWalk(start, now, trail + t2[1..], leaves + l2, visits + [tree], s, actions, ok)
    {
      SeriesJoin(start, mid, now, trail, leaves, t2, l2, ok);
      VisitedAllSnoc(visits, tree);
    }

    /** One iteration of chooseAction's loop: miniMax with the full window
      on the i-th action. */
    method ScoreAction(s: S, actions: seq<Direction>, i: nat,
                       ghost start: TrackerState, ghost trail: seq<TrackerState>, ghost leaves: seq<S>, ghost visits: seq<Visit<S>>)
      returns (v: Result<Ext>, ghost trail': seq<TrackerState>, ghost leaves': seq<S>, ghost visits': seq<Visit<S>>)
      requires Valid() && i < |actions| && |visits| == i
      requires RootWalk(start, Tracked(), trail, leaves, visits, s, actions, true)
      modifies this
      ensures RootWalk(start, Tracked(), trail', leaves', visits', s, actions, v.Ok?) && |visits'| == i + 1
      ensures AlwaysSeen() ==> v == Ok(RootValue(s, actions[i]))
    {
      ghost var mid := Tracked();
      ghost var t2, l2, tree;
      v, t2, l2, tree := MiniMax(s, actions[i], NegInf, PosInf);
      RootWalkStep(start, mid, Tracked(), trail, leaves, visits, s, actions, t2, l2, tree, v.Ok?);
      trail', leaves', visits' := trail + t2[1..], leaves + l2, visits + [tree];
    }

    /** The loop of chooseAction: miniMax with the full window on each
      action, in order. */
    method ScoreActions(s: S, actions: seq<Direction>)
      returns (r: Result<seq<Ext>>, ghost trail: seq<TrackerState>, ghost leaves: seq<S>, ghost visits: seq<Visit<S>>)
      requires Valid()
      modifies this
      ensures Series(old(Tracked()), Tracked(), trail, leaves, r.Ok?)
      ensures |visits| <= |actions| && leaves == VisitedAll(visits)
      ensures forall k :: 0 <= k < |visits| ==> RootVisit(visits[k], s, actions[k])
      ensures r.Ok? ==> |visits| == |actions|
      ensures AlwaysSeen() && leaves != [] ==>
        elapseTime == 0 && ghostPosition == host.agentState(leaves[|leaves| - 1], Last()).position
      ensures actions == [] ==> r == Ok([]) && leaves == []
      ensures r.Ok? ==> |r.value| == |actions|
      ensures AlwaysSeen() ==> r.Ok? && forall k :: 0 <= k < |actions| ==> r.value[k] == RootValue(s, actions[k])
    {
      var values: seq<Ext> := [];
      ghost var start := Tracked();
      trail, leaves, visits := [start], [], [];
      var i := 0;
      while i < |actions|
        invariant 0 <= i <= |actions| && |values| == i
        invariant i == 0 ==> leaves == []
        invariant AlwaysSeen() ==> forall k :: 0 <= k < i ==> values[k] == RootValue(s, actions[k])
        invariant RootWalk(start, Tracked(), trail, leaves, visits, s, actions, true) && |visits| == i
      {
        var v;
        v, trail, leaves, visits := ScoreAction(s, actions, i, start, trail, leaves, visits);
        if v.Failure? {
          r := Failure(v.error);
          return;
        }
        values := values + [v.value];
        i := i + 1;
      }
      if AlwaysSeen() && leaves != [] {
        SeenSeriesEnds(start, Tracked(), trail, leaves, true);
      }
      r := Ok(values);
    }

    /** chooseAction: the agent's move, never Stop when another move exists
      (Stop is dropped from the legal moves), picked at random among the
      moves of highest miniMax value. */
    method ChooseAction(s: S)
      returns (r: Result<Direction>, ghost trail: seq<TrackerState>, ghost leaves: seq<S>, ghost visits: seq<Visit<S>>)
      requires Valid()
      modifies this
      ensures Series(old(Tracked()), Tracked(), trail, leaves, r.Ok? || RemoveStop(host.legal(s, index)) == [])
      ensures |visits| <= |RemoveStop(host.legal(s, index))| && leaves == VisitedAll(visits)
      ensures forall k :: 0 <= k < |visits| ==> RootVisit(visits[k], s, RemoveStop(host.legal(s, index))[k])
      ensures r.Ok? ==> |visits| == |RemoveStop(host.legal(s, index))|
      ensures AlwaysSeen() && leaves != [] ==>
        elapseTime == 0 && ghostPosition == host.agentState(leaves[|leaves| - 1], Last()).position
      ensures AlwaysSeen() ==> Tracked() == old(Tracked()) || (elapseTime == 0 && ghostPosition.Some?)
      ensures RemoveStop(host.legal(s, index)) == [] ==> r.Failure?
      ensures r.Ok? ==> r.value in host.legal(s, index)
      ensures r.Ok? && Distinct(host.legal(s, index)) ==> r.value != Stop
      ensures AlwaysSeen() ==> (r.Ok? <==> RemoveStop(host.legal(s, index)) != [])
      ensures AlwaysSeen() && r.Ok? ==>
        forall b :: b in RemoveStop(host.legal(s, index)) ==> Le(RootValue(s, b), RootValue(s, r.value))
    {
      var actions := RemoveStop(host.legal(s, index));
      var scored;
      scored, trail, leaves, visits := ScoreActions(s, actions);
      if scored.Failure? {
        r := Failure(scored.error);
        return;
      }
      var values := scored.value;
      r := PickBest(actions, values);
      if Distinct(host.legal(s, index)) {
        RemoveStopDropsStop(host.legal(s, index));
      }
      if AlwaysSeen() && r.Ok? {
        forall b | b in actions
          ensures Le(RootValue(s, b), RootValue(s, r.value))
        {
          var k :| 0 <= k < |actions| && actions[k] == b;
          assert values[k] in values;
        }
      }
    }
}
}
