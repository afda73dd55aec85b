/** The feature/weight evaluator: feature maps for the offensive and the
    defensive role, their constant weight tables, and the dot product
    `features * weights` that turns them into a score. */
module Features {
  import opened Values
  import opened Game
  import opened Sums

  /** The feature names both roles use as Counter keys. */
  datatype Feature =
    | SuccessorScore | AverageDist | MinDist | Dist2enemy | ScaredTime | Dist2Capsules | FoodRemaining
    | NoisyDistanceToInvader | OnDefense | DistanceToCapsule | NumInvaders | InvaderDistance | StopMove | ReverseMove

  type FeatureMap = map<Feature, int>

  /** OffensiveReflexAgent.getWeights. */
  const OffensiveWeights: FeatureMap := map[
    SuccessorScore := 100, AverageDist := 0, MinDist := -1, Dist2enemy := 1,
    ScaredTime := 1, Dist2Capsules := -5, FoodRemaining := -40]

  /** DefensiveReflexAgent.getWeights. */
  const DefensiveWeights: FeatureMap := map[
    NumInvaders := -1000, OnDefense := 100, InvaderDistance := -10, StopMove := -100, ReverseMove := -2]

  /** The contribution of one key: its feature times its weight, and 0 when
      either side lacks the key. */
  function Product(f: FeatureMap, w: FeatureMap): Feature -> int {
    k => if k in f && k in w then f[k] * w[k] else 0
  }

  /** `features * weights`: the sum over the keys the two maps share. */
  ghost function Dot(f: FeatureMap, w: FeatureMap): int {
    SetSum(f.Keys * w.Keys, Product(f, w))
  }

  /** A feature that is set to 0 scores the same as one that is never set. */
  lemma MissingFeatureIsZero(f: FeatureMap, w: FeatureMap, k: Feature)
    requires k !in f
    ensures Dot(f[k := 0], w) == Dot(f, w)
  {
    var f' := f[k := 0];
    SetSumZeroOutside(f'.Keys * w.Keys, f.Keys * w.Keys, Product(f', w));
    SetSumCongruent(f.Keys * w.Keys, Product(f', w), Product(f, w));
  }

  /** A feature with no weight does not change the score, whatever its value. */
  lemma UnweightedFeatureIgnored(f: FeatureMap, w: FeatureMap, k: Feature, v: int)
    requires k !in w
    ensures Dot(f[k := v], w) == Dot(f, w)
  {
    var f' := f[k := v];
    assert f'.Keys * w.Keys == f.Keys * w.Keys;
    SetSumCongruent(f.Keys * w.Keys, Product(f', w), Product(f, w));
  }

  /** Counter.__mul__: accumulates feature times weight over the feature
      keys, skipping keys the weights do not have. */
  method DotProduct(f: FeatureMap, w: FeatureMap) returns (r: int)
    ensures r == Dot(f, w)
  {
    r := 0;
    var keys := f.Keys;
    while keys != {}
      invariant keys <= f.Keys
      invariant r + SetSum(keys * w.Keys, Product(f, w)) == Dot(f, w)
      decreases keys
    {
      var k :| k in keys;
      if k in w {
        SetSumRemove(keys * w.Keys, Product(f, w), k);
        assert (keys - {k}) * w.Keys == keys * w.Keys - {k};
        r := r + f[k] * w[k];
      } else {
        assert (keys - {k}) * w.Keys == keys * w.Keys;
      }
      keys := keys - {k};
    }
  }

  /** Python 2 integer division by a positive divisor rounds down. */
  lemma FloorDivision(a: int, b: int)
    requires b > 0
    ensures (a / b) * b <= a < (a / b + 1) * b
  {
    assert a == (a / b) * b + a % b;
  }

  /** The least maze distance from p to any of ps. */
  function MinDistance(d: (Pos, Pos) -> nat, p: Pos, ps: seq<Pos>): nat
    requires ps != []
  {
    if |ps| == 1 then d(p, ps[0])
    else
      var rest := MinDistance(d, p, ps[..|ps| - 1]);
      var last := d(p, ps[|ps| - 1]);
      if last < rest then last else rest
  }

  /** MinDistance is the distance to one of ps and no farther than any. */
  lemma {:induction false} MinDistanceIsLeast(d: (Pos, Pos) -> nat, p: Pos, ps: seq<Pos>)
    requires ps != []
    ensures forall q :: q in ps ==> MinDistance(d, p, ps) <= d(p, q)
    ensures exists q :: q in ps && MinDistance(d, p, ps) == d(p, q)
  {
    if |ps| == 1 {
      assert ps[0] in ps;
    } else {
      var init := ps[..|ps| - 1];
      var last := ps[|ps| - 1];
      MinDistanceIsLeast(d, p, init);
      assert ps == init + [last];
      if d(p, last) < MinDistance(d, p, init) {
        assert last in ps;
      } else {
        var q :| q in init && MinDistance(d, p, init) == d(p, q);
        assert q in ps;
      }
    }
  }

  /** The total maze distance from p to all of ps. */
  function SumDistance(d: (Pos, Pos) -> nat, p: Pos, ps: seq<Pos>): nat {
    if ps == [] then 0 else SumDistance(d, p, ps[..|ps| - 1]) + d(p, ps[|ps| - 1])
  }

  /** The food loop of the offensive getFeatures: the floor of the mean
      distance (Python 2 integer division) and the least distance. */
  method FoodDistances(d: (Pos, Pos) -> nat, p: Pos, foods: seq<Pos>) returns (averageDist: int, minDist: int)
    requires foods != []
    ensures averageDist == SumDistance(d, p, foods) / |foods|
    ensures averageDist * |foods| <= SumDistance(d, p, foods) < (averageDist + 1) * |foods|
    ensures minDist == MinDistance(d, p, foods)
  {
    var total := 0;
    var least := PosInf;
    var i := 0;
    while i < |foods|
      invariant 0 <= i <= |foods|
      invariant total == SumDistance(d, p, foods[..i])
      invariant i == 0 ==> least == PosInf
      invariant i > 0 ==> least == Fin(MinDistance(d, p, foods[..i]))
    {
      var cur := d(p, foods[i]);
      assert foods[..i + 1][..i] == foods[..i];
      total := total + cur;
      least := Min(least, Fin(cur));
      i := i + 1;
    }
    assert foods[..i] == foods;
    averageDist := total / |foods|;
    FloorDivision(total, |foods|);
    minDist := least.v;
  }

  /** The capsule loop of the offensive getFeatures: the least distance to
      a capsule, and the sentinel 0 when no capsule is left. */
  method CapsuleDistance(d: (Pos, Pos) -> nat, p: Pos, capsules: seq<Pos>) returns (r: int)
    ensures capsules == [] ==> r == 0
    ensures capsules != [] ==> r == MinDistance(d, p, capsules)
  {
    var least := PosInf;
    var i := 0;
    while i < |capsules|
      invariant 0 <= i <= |capsules|
      invariant i == 0 ==> least == PosInf
      invariant i > 0 ==> least == Fin(MinDistance(d, p, capsules[..i]))
    {
      assert capsules[..i + 1][..i] == capsules[..i];
      least := Min(Fin(d(p, capsules[i])), least);
      i := i + 1;
    }
    assert capsules[..i] == capsules;
    r := if least == PosInf then 0 else least.v;
  }

  /** The dist2enemy feature. `dist` is the maze distance to the tracked
      ghost, None when its position is unknown (infinitely far). */
  function Dist2EnemyFeature(dist: Option<nat>, scaredTime: int): (r: int)
    ensures scaredTime <= 0 && (dist.None? || dist.value >= 5) ==> r == 0
    ensures scaredTime <= 0 && dist.Some? && dist.value < 2 ==> r == -100
    ensures scaredTime <= 0 && dist.Some? && 2 <= dist.value < 5 ==>
              r * dist.value <= -100 < (r + 1) * dist.value
    ensures scaredTime > 0 && dist == Some(0) ==> r == 1
    ensures scaredTime > 0 && dist != Some(0) ==> r == -Dist2EnemyFeature(dist, 0)
  {
    var threat :=
      if dist.Some? && dist.value < 2 then -100
      else if dist.Some? && dist.value < 5 then
        FloorDivision(-100, dist.value);
        -100 / dist.value
      else 0;
    if scaredTime > 0 then (if dist == Some(0) then 1 else -threat) else threat
  }

  /** Against a ghost that is not scared, coming closer never scores better. */
  lemma Dist2EnemyCloserIsWorse(d1: nat, d2: nat)
    requires d1 <= d2
    ensures Dist2EnemyFeature(Some(d1), 0) <= Dist2EnemyFeature(Some(d2), 0) <= Dist2EnemyFeature(None, 0)
    ensures -100 <= Dist2EnemyFeature(Some(d1), 0) <= 0
  {
    assert Dist2EnemyFeature(Some(2), 0) == -50;
    assert Dist2EnemyFeature(Some(3), 0) == -34;
    assert Dist2EnemyFeature(Some(4), 0) == -25;
  }

  /** The offensive getFeatures, computed on the successor; `tracked` is the
      ghost position the tracker holds after its update. */
  function OffensiveFeatures<S>(h: Host<S>, me: nat, lastOpponent: nat, s: S, a: Direction, tracked: Option<Pos>): FeatureMap
    requires h.agentState(Successor(h, s, me, a), me).position.Some?
  {
    var succ := Successor(h, s, me, a);
    var myPos := h.agentState(succ, me).position.value;
    var foods := h.food(succ);
    var capsules := h.capsules(succ);
    var scaredTime := h.agentState(s, lastOpponent).scaredTimer;
    var dist := if tracked.Some? then Some(h.mazeDist(myPos, tracked.value)) else None;
    var common := map[
      SuccessorScore := h.score(succ),
      FoodRemaining := |foods|,
      ScaredTime := scaredTime,
      Dist2enemy := Dist2EnemyFeature(dist, scaredTime),
      Dist2Capsules := if capsules == [] then 0 else MinDistance(h.mazeDist, myPos, capsules)];
    if foods == [] then common
    else common[AverageDist := SumDistance(h.mazeDist, myPos, foods) / |foods|]
               [MinDist := MinDistance(h.mazeDist, myPos, foods)]
  }

  predicate IsInvader(st: AgentState) {
    st.isPacman && st.position.Some?
  }

  /** The positions of the opponents that are Pacman and in sight, in the
      order of `opponents`. */
  function Invaders<S>(h: Host<S>, s: S, opponents: seq<nat>): (r: seq<Pos>)
    ensures |r| <= |opponents|
  {
    if opponents == [] then []
    else
      var rest := Invaders(h, s, opponents[1..]);
      var st := h.agentState(s, opponents[0]);
      if IsInvader(st) then [st.position.value] + rest else rest
  }

  /** The indices into `opponents` of the opponents that are Pacman and
      in sight. */
  ghost function InvaderIndices<S>(h: Host<S>, s: S, opponents: seq<nat>): set<int> {
    set k | 0 <= k < |opponents| && IsInvader(h.agentState(s, opponents[k]))
  }

  /** The invaders of two runs of opponents are those of each, in order. */
  lemma {:induction false} InvadersAppend<S>(h: Host<S>, s: S, xs: seq<nat>, ys: seq<nat>)
    ensures Invaders(h, s, xs + ys) == Invaders(h, s, xs) + Invaders(h, s, ys)
    decreases |xs|
  {
    if xs == [] {
      assert xs + ys == ys;
    } else {
      assert (xs + ys)[1..] == xs[1..] + ys;
      InvadersAppend(h, s, xs[1..], ys);
    }
  }

  /** numInvaders counts every opponent that is Pacman and in sight, two
      opponents on one cell included. */
  lemma {:induction false} InvaderCount<S>(h: Host<S>, s: S, opponents: seq<nat>)
    ensures |Invaders(h, s, opponents)| == |InvaderIndices(h, s, opponents)|
    decreases |opponents|
  {
    if opponents == [] {
      assert InvaderIndices(h, s, opponents) == {};
    } else {
      var n := |opponents| - 1;
      var init := opponents[..n];
      assert opponents == init + [opponents[n]];
      InvadersAppend(h, s, init, [opponents[n]]);
      InvaderCount(h, s, init);
      var tail: set<int> := if IsInvader(h.agentState(s, opponents[n])) then {n} else {};
      assert InvaderIndices(h, s, opponents) == InvaderIndices(h, s, init) + tail;
      assert InvaderIndices(h, s, init) !! tail;
    }
  }

  /** A position is an invader's exactly when some opponent is Pacman and
      seen there. */
  lemma {:induction false} InvadersAreVisiblePacmen<S>(h: Host<S>, s: S, opponents: seq<nat>, p: Pos)
    ensures p in Invaders(h, s, opponents) <==>
      exists i :: i in opponents && IsInvader(h.agentState(s, i)) && h.agentState(s, i).position == Some(p)
  {
    if opponents != [] {
      InvadersAreVisiblePacmen(h, s, opponents[1..], p);
      assert forall i :: i in opponents <==> i == opponents[0] || i in opponents[1..];
    }
  }

  /** With no opponent Pacman in sight there are no invaders. */
  lemma {:induction false} NoInvadersInSight<S>(h: Host<S>, s: S, opponents: seq<nat>)
    requires forall i :: i in opponents ==> !IsInvader(h.agentState(s, i))
    ensures Invaders(h, s, opponents) == []
  {
    if opponents != [] {
      NoInvadersInSight(h, s, opponents[1..]);
    }
  }

  /** The defensive getFeatures: `succ` is the successor getSuccessor
      produced for action `a` from state `s`, and `noisy` the value of
      getClosestOpponent. */
  function DefensiveFeatures<S>(h: Host<S>, me: nat, opponents: seq<nat>, s: S, succ: S, a: Direction, noisy: int): FeatureMap
    requires h.agentState(succ, me).position.Some?
  {
    MoveFlags(InvaderFeatures(h, me, opponents, succ, noisy), a, h.agentState(s, me).direction)
  }

  /** What the defensive features hold: the noisy distance, whether the
      agent is a ghost, the number of invaders, the capsule distance only
      while there are capsules to defend, the invader distance only while
      there are invaders (negated while scared), and the stop and reverse
      flags exactly for those moves. */
  lemma DefensiveFeaturesHold<S>(h: Host<S>, me: nat, opponents: seq<nat>, s: S, succ: S, a: Direction, noisy: int)
    requires h.agentState(succ, me).position.Some?
    ensures var r := DefensiveFeatures(h, me, opponents, s, succ, a, noisy);
      && NoisyDistanceToInvader in r && r[NoisyDistanceToInvader] == noisy
      && OnDefense in r && r[OnDefense] == (if h.agentState(succ, me).isPacman then 0 else 1)
      && NumInvaders in r && r[NumInvaders] == |Invaders(h, succ, opponents)|
      && (DistanceToCapsule in r <==> h.defendedCapsules(succ) != [])
      && (InvaderDistance in r <==> Invaders(h, succ, opponents) != [])
      && (Invaders(h, succ, opponents) != [] ==>
            var m: int := MinDistance(h.mazeDist, h.agentState(succ, me).position.value, Invaders(h, succ, opponents));
            r[InvaderDistance] == if h.agentState(succ, me).scaredTimer == 0 then m else -m)
      && (StopMove in r <==> a == Stop) && (StopMove in r ==> r[StopMove] == 1)
      && (ReverseMove in r <==> a == Reverse(h.agentState(s, me).direction)) && (ReverseMove in r ==> r[ReverseMove] == 1)
  {
    InvaderFeaturesHold(h, me, opponents, succ, noisy);
    MoveFlagsHold(InvaderFeatures(h, me, opponents, succ, noisy), a, h.agentState(s, me).direction);
  }

  /** The action-independent part: every entry but the two move flags. */
  lemma InvaderFeaturesHold<S>(h: Host<S>, me: nat, opponents: seq<nat>, succ: S, noisy: int)
    requires h.agentState(succ, me).position.Some?
    ensures var r := InvaderFeatures(h, me, opponents, succ, noisy);
      && NoisyDistanceToInvader in r && r[NoisyDistanceToInvader] == noisy
      && OnDefense in r && r[OnDefense] == (if h.agentState(succ, me).isPacman then 0 else 1)
      && NumInvaders in r && r[NumInvaders] == |Invaders(h, succ, opponents)|
      && (DistanceToCapsule in r <==> h.defendedCapsules(succ) != [])
      && (InvaderDistance in r <==> Invaders(h, succ, opponents) != [])
      && (Invaders(h, succ, opponents) != [] ==>
            var m: int := MinDistance(h.mazeDist, h.agentState(succ, me).position.value, Invaders(h, succ, opponents));
            r[InvaderDistance] == if h.agentState(succ, me).scaredTimer == 0 then m else -m)
      && StopMove !in r && ReverseMove !in r
  {
  }

  /** The features of the defensive role that do not depend on the action. */
  function InvaderFeatures<S>(h: Host<S>, me: nat, opponents: seq<nat>, succ: S, noisy: int): FeatureMap
    requires h.agentState(succ, me).position.Some?
  {
    var myState := h.agentState(succ, me);
    var myPos := myState.position.value;
    var capsules := h.defendedCapsules(succ);
    var invaders := Invaders(h, succ, opponents);
    var f0 := map[
      NoisyDistanceToInvader := noisy,
      OnDefense := if myState.isPacman then 0 else 1,
      NumInvaders := |invaders|];
    var f1 := if capsules != [] then f0[DistanceToCapsule := MinDistance(h.mazeDist, myPos, capsules)] else f0;
    if invaders != [] then
      var m: int := MinDistance(h.mazeDist, myPos, invaders);
      f1[InvaderDistance := if myState.scaredTimer == 0 then m else -m]
    else f1
  }

  /** The stop and reverse flags of the defensive features; every other
      feature is left as it is. */
  function MoveFlags(f: FeatureMap, a: Direction, facing: Direction): FeatureMap
  {
    var withStop := if a == Stop then f[StopMove := 1] else f;
    if a == Reverse(facing) then withStop[ReverseMove := 1] else withStop
  }

  /** The flags are set for a stop and for a reversal, and every other
      feature is left as it is. */
  lemma MoveFlagsHold(f: FeatureMap, a: Direction, facing: Direction)
    ensures var r := MoveFlags(f, a, facing);
      && (StopMove in r <==> a == Stop || StopMove in f) && (a == Stop ==> r[StopMove] == 1)
      && (ReverseMove in r <==> a == Reverse(facing) || ReverseMove in f) && (a == Reverse(facing) ==> r[ReverseMove] == 1)
      && forall k :: k != StopMove && k != ReverseMove ==> (k in r <==> k in f) && (k in f ==> r[k] == f[k])
  {
  }

  /** The noisy distance to the nearest believed opponent carries no weight:
      the defensive score is the same whatever that distance is. */
  lemma NoisyDistanceNotWeighted<S>(h: Host<S>, me: nat, opponents: seq<nat>, s: S, succ: S, a: Direction, noisy: int)
    requires h.agentState(succ, me).position.Some?
    ensures Dot(DefensiveFeatures(h, me, opponents, s, succ, a, noisy), DefensiveWeights) ==
            Dot(DefensiveFeatures(h, me, opponents, s, succ, a, 0), DefensiveWeights)
  {
    var f0 := DefensiveFeatures(h, me, opponents, s, succ, a, 0);
    InvaderFeaturesNoisy(h, me, opponents, succ, noisy);
    MoveFlagsKeepOthers(InvaderFeatures(h, me, opponents, succ, 0), a, h.agentState(s, me).direction, NoisyDistanceToInvader, noisy);
    UnweightedFeatureIgnored(f0, DefensiveWeights, NoisyDistanceToInvader, noisy);
  }

  lemma InvaderFeaturesNoisy<S>(h: Host<S>, me: nat, opponents: seq<nat>, succ: S, noisy: int)
    requires h.agentState(succ, me).position.Some?
    ensures InvaderFeatures(h, me, opponents, succ, noisy) == InvaderFeatures(h, me, opponents, succ, 0)[NoisyDistanceToInvader := noisy]
  {
  }

  lemma MoveFlagsKeepOthers(f: FeatureMap, a: Direction, facing: Direction, k: Feature, v: int)
    requires k != StopMove && k != ReverseMove
    ensures MoveFlags(f[k := v], a, facing) == MoveFlags(f, a, facing)[k := v]
  {
  }
}
