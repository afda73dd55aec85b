/** The specification of the offensive agent's search: the unpruned
    minimax value of the tree that AlphaBetaMinValue and AlphaBetaMaxValue
    walk, and the facts about the extended order that fail-soft alpha-beta
    pruning rests on. The agent maximises, the ghost minimises, and the
    depth counter rises only at the ghost's nodes; a Min node at depth 4 is
    a leaf scored by `leaf(state, action)`. */
module Search {
  import opened Values
  import opened Game

  /** The value of a Min node: the agent has just chosen `a` in `s`. */
  function MinValue<S>(h: Host<S>, me: nat, g: nat, leaf: (S, Direction) -> int, s: S, a: Direction, depth: int): Ext
    requires 1 <= depth <= 4
    decreases 4 - depth, 0, 0
  {
    if depth == 4 then Fin(leaf(s, a))
    else
      var s1 := h.generate(s, me, a);
      MinOver(h, me, g, leaf, s1, h.legal(s1, g), depth + 1)
  }

  /** The least value of the ghost's answers `acts` in `s1`. */
  function MinOver<S>(h: Host<S>, me: nat, g: nat, leaf: (S, Direction) -> int, s1: S, acts: seq<Direction>, depth: int): Ext
    requires 2 <= depth <= 4
    decreases 4 - depth, 3, |acts|
  {
    if acts == [] then PosInf
    else Min(MinOver(h, me, g, leaf, s1, acts[..|acts| - 1], depth), MaxValue(h, me, g, leaf, s1, acts[|acts| - 1], depth))
  }

  /** The value of a Max node: the ghost has just chosen `ga` in `s1`. */
  function MaxValue<S>(h: Host<S>, me: nat, g: nat, leaf: (S, Direction) -> int, s1: S, ga: Direction, depth: int): Ext
    requires 2 <= depth <= 4
    decreases 4 - depth, 2, 0
  {
    var s2 := h.generate(s1, g, ga);
    MaxOver(h, me, g, leaf, s2, RemoveStop(h.legal(s2, me)), depth)
  }

  /** The greatest value of the agent's moves `acts` in `s2`. */
  function MaxOver<S>(h: Host<S>, me: nat, g: nat, leaf: (S, Direction) -> int, s2: S, acts: seq<Direction>, depth: int): Ext
    requires 2 <= depth <= 4
    decreases 4 - depth, 1, |acts|
  {
    if acts == [] then NegInf
    else Max(MaxOver(h, me, g, leaf, s2, acts[..|acts| - 1], depth), MinValue(h, me, g, leaf, s2, acts[|acts| - 1], depth))
  }

  /** The tree is exactly three agent moves deep before the leaf: from the
      root (depth 1) the agent's first move and two more are answered by the
      ghost, and a fourth agent move is only scored. */
  lemma LeavesAtDepthFour<S>(h: Host<S>, me: nat, g: nat, leaf: (S, Direction) -> int, s: S, a: Direction)
    ensures MinValue(h, me, g, leaf, s, a, 4) == Fin(leaf(s, a))
    ensures h.legal(h.generate(s, me, a), g) == [] ==> MinValue(h, me, g, leaf, s, a, 1) == PosInf
  {
  }

  /** One more answer of the ghost: the running minimum takes it in. */
  lemma MinOverNext<S>(h: Host<S>, me: nat, g: nat, leaf: (S, Direction) -> int, s1: S, acts: seq<Direction>, depth: int, i: nat)
    requires 2 <= depth <= 4 && i < |acts|
    ensures MinOver(h, me, g, leaf, s1, acts[..i + 1], depth) ==
            Min(MinOver(h, me, g, leaf, s1, acts[..i], depth), MaxValue(h, me, g, leaf, s1, acts[i], depth))
  {
    assert acts[..i + 1][..i] == acts[..i];
  }

  lemma MinOverWhole<S>(h: Host<S>, me: nat, g: nat, leaf: (S, Direction) -> int, s1: S, acts: seq<Direction>, depth: int)
    requires 2 <= depth <= 4
    ensures MinOver(h, me, g, leaf, s1, acts[..|acts|], depth) == MinOver(h, me, g, leaf, s1, acts, depth)
  {
    assert acts[..|acts|] == acts;
  }

  /** One more move of the agent: the running maximum takes it in. */
  lemma MaxOverNext<S>(h: Host<S>, me: nat, g: nat, leaf: (S, Direction) -> int, s2: S, acts: seq<Direction>, depth: int, i: nat)
    requires 2 <= depth <= 4 && i < |acts|
    ensures MaxOver(h, me, g, leaf, s2, acts[..i + 1], depth) ==
            Max(MaxOver(h, me, g, leaf, s2, acts[..i], depth), MinValue(h, me, g, leaf, s2, acts[i], depth))
  {
    assert acts[..i + 1][..i] == acts[..i];
  }

  lemma MaxOverWhole<S>(h: Host<S>, me: nat, g: nat, leaf: (S, Direction) -> int, s2: S, acts: seq<Direction>, depth: int)
    requires 2 <= depth <= 4
    ensures MaxOver(h, me, g, leaf, s2, acts[..|acts|], depth) == MaxOver(h, me, g, leaf, s2, acts, depth)
  {
    assert acts[..|acts|] == acts;
  }

  /** A Min value never exceeds the value of any single answer of the ghost,
      and a Max value is never below any single move of the agent. */
  lemma {:induction false} MinOverBelowEach<S>(h: Host<S>, me: nat, g: nat, leaf: (S, Direction) -> int, s1: S, acts: seq<Direction>, depth: int, k: nat)
    requires 2 <= depth <= 4 && k < |acts|
    ensures Le(MinOver(h, me, g, leaf, s1, acts, depth), MaxValue(h, me, g, leaf, s1, acts[k], depth))
    ensures Le(MinOver(h, me, g, leaf, s1, acts, depth), MinOver(h, me, g, leaf, s1, acts[..k + 1], depth))
    decreases |acts|
  {
    var n := |acts|;
    var init := MinOver(h, me, g, leaf, s1, acts[..n - 1], depth);
    var whole := MinOver(h, me, g, leaf, s1, acts, depth);
    if k < n - 1 {
      assert acts[..n - 1][..k + 1] == acts[..k + 1];
      MinOverBelowEach(h, me, g, leaf, s1, acts[..n - 1], depth, k);
      LeTotalOrder(whole, init, MaxValue(h, me, g, leaf, s1, acts[k], depth));
      LeTotalOrder(whole, init, MinOver(h, me, g, leaf, s1, acts[..k + 1], depth));
    } else {
      assert acts[..k + 1] == acts;
      LeTotalOrder(whole, whole, whole);
    }
  }

  lemma {:induction false} MaxOverAboveEach<S>(h: Host<S>, me: nat, g: nat, leaf: (S, Direction) -> int, s2: S, acts: seq<Direction>, depth: int, k: nat)
    requires 2 <= depth <= 4 && k < |acts|
    ensures Le(MinValue(h, me, g, leaf, s2, acts[k], depth), MaxOver(h, me, g, leaf, s2, acts, depth))
    ensures Le(MaxOver(h, me, g, leaf, s2, acts[..k + 1], depth), MaxOver(h, me, g, leaf, s2, acts, depth))
    decreases |acts|
  {
    var n := |acts|;
    var init := MaxOver(h, me, g, leaf, s2, acts[..n - 1], depth);
    var whole := MaxOver(h, me, g, leaf, s2, acts, depth);
    if k < n - 1 {
      assert acts[..n - 1][..k + 1] == acts[..k + 1];
      MaxOverAboveEach(h, me, g, leaf, s2, acts[..n - 1], depth, k);
      LeTotalOrder(MinValue(h, me, g, leaf, s2, acts[k], depth), init, whole);
      LeTotalOrder(MaxOver(h, me, g, leaf, s2, acts[..k + 1], depth), init, whole);
    } else {
      assert acts[..k + 1] == acts;
      LeTotalOrder(whole, whole, whole);
    }
  }

  /** What a fail-soft alpha-beta result v promises about the true value m
      of its node, searched with window (alpha, beta): a result at or below
      alpha bounds m from above, one at or above beta bounds it from below,
      and one strictly inside the window is m itself. */
  predicate FailSoft(v: Ext, alpha: Ext, beta: Ext, m: Ext) {
    (Le(v, alpha) ==> Le(m, v)) &&
    (Le(beta, v) ==> Le(v, m)) &&
    (Lt(alpha, v) && Lt(v, beta) ==> v == m)
  }

  /** With the full window (-inf, +inf) the search is exact. */
  lemma FullWindowIsExact(v: Ext, m: Ext)
    requires FailSoft(v, NegInf, PosInf, m)
    ensures v == m
  {
  }

  /** What the Min loop knows after each answer of the ghost that did not
      cut: `score` is above alpha, never above the true minimum so far, and
      equal to it when below beta; the loop's beta is min(beta, score). */
  predicate MinLoopInvariant(alpha: Ext, beta: Ext, score: Ext, soFar: Ext, b: Ext) {
    Lt(alpha, score) && Le(score, soFar) && (Lt(score, beta) ==> score == soFar) && b == Min(beta, score)
  }

  /** One answer of the ghost in the Min loop of AlphaBetaMinValue. */
  lemma MinLoopStep(alpha: Ext, beta: Ext, score: Ext, soFar: Ext, b: Ext, r: Ext, m: Ext)
    requires Lt(alpha, beta)
    requires MinLoopInvariant(alpha, beta, score, soFar, b)
    requires FailSoft(r, alpha, b, m)
    ensures Le(Min(score, r), alpha) ==> Le(Min(soFar, m), Min(score, r))
    ensures !Le(Min(score, r), alpha) ==> MinLoopInvariant(alpha, beta, Min(score, r), Min(soFar, m), Min(b, Min(score, r)))
  {
    LeTotalOrder(alpha, beta, score);
    LeTotalOrder(r, m, score);
    LeTotalOrder(r, b, soFar);
    LeTotalOrder(alpha, r, m);
    LeTotalOrder(beta, score, r);
    LeTotalOrder(soFar, m, r);
  }

  /** What the Max loop knows after each move of the agent that did not cut. */
  predicate MaxLoopInvariant(alpha: Ext, beta: Ext, score: Ext, soFar: Ext, a: Ext) {
    Lt(score, beta) && Le(soFar, score) && (Lt(alpha, score) ==> score == soFar) && a == Max(alpha, score)
  }

  /** One move of the agent in the Max loop of AlphaBetaMaxValue. */
  lemma MaxLoopStep(alpha: Ext, beta: Ext, score: Ext, soFar: Ext, a: Ext, r: Ext, m: Ext)
    requires Lt(alpha, beta)
    requires MaxLoopInvariant(alpha, beta, score, soFar, a)
    requires FailSoft(r, a, beta, m)
    ensures Le(beta, Max(score, r)) ==> Le(Max(score, r), Max(soFar, m))
    ensures !Le(beta, Max(score, r)) ==> MaxLoopInvariant(alpha, beta, Max(score, r), Max(soFar, m), Max(a, Max(score, r)))
  {
    LeTotalOrder(alpha, beta, score);
    LeTotalOrder(r, m, score);
    LeTotalOrder(r, a, soFar);
    LeTotalOrder(beta, r, m);
    LeTotalOrder(alpha, score, r);
    LeTotalOrder(soFar, m, r);
  }

  /** A Min loop that ran to the end returns a fail-soft value. */
  lemma MinLoopDone(alpha: Ext, beta: Ext, score: Ext, m: Ext, b: Ext)
    requires MinLoopInvariant(alpha, beta, score, m, b) || (score == PosInf && m == PosInf)
    ensures FailSoft(score, alpha, beta, m)
  {
    LeTotalOrder(score, alpha, m);
  }

  lemma MaxLoopDone(alpha: Ext, beta: Ext, score: Ext, m: Ext, a: Ext)
    requires MaxLoopInvariant(alpha, beta, score, m, a) || (score == NegInf && m == NegInf)
    ensures FailSoft(score, alpha, beta, m)
  {
    LeTotalOrder(score, beta, m);
  }

  /** A Min loop that cuts at or below alpha returns a fail-soft value. */
  lemma MinCutoff(alpha: Ext, beta: Ext, v: Ext, m: Ext)
    requires Lt(alpha, beta) && Le(v, alpha) && Le(m, v)
    ensures FailSoft(v, alpha, beta, m)
  {
    LeTotalOrder(v, alpha, beta);
  }

  /** A Max loop that cuts at or above beta returns a fail-soft value. */
  lemma MaxCutoff(alpha: Ext, beta: Ext, v: Ext, m: Ext)
    requires Lt(alpha, beta) && Le(beta, v) && Le(v, m)
    ensures FailSoft(v, alpha, beta, m)
  {
    LeTotalOrder(alpha, beta, v);
  }

  /** A cut in the Min loop after the ghost's answer acts[i]: the result
      bounds the whole Min value from above. */
  lemma MinCutAt<S>(h: Host<S>, me: nat, g: nat, leaf: (S, Direction) -> int, s1: S, acts: seq<Direction>, depth: int, i: nat,
                    alpha: Ext, beta: Ext, v: Ext)
    requires 2 <= depth <= 4 && i < |acts|
    requires Lt(alpha, beta) && Le(v, alpha) && Le(MinOver(h, me, g, leaf, s1, acts[..i + 1], depth), v)
    ensures FailSoft(v, alpha, beta, MinOver(h, me, g, leaf, s1, acts, depth))
  {
    var whole := MinOver(h, me, g, leaf, s1, acts, depth);
    MinOverBelowEach(h, me, g, leaf, s1, acts, depth, i);
    LeTotalOrder(whole, MinOver(h, me, g, leaf, s1, acts[..i + 1], depth), v);
    MinCutoff(alpha, beta, v, whole);
  }

  /** A cut in the Max loop after the agent's move acts[i]: the result
      bounds the whole Max value from below. */
  lemma MaxCutAt<S>(h: Host<S>, me: nat, g: nat, leaf: (S, Direction) -> int, s2: S, acts: seq<Direction>, depth: int, i: nat,
                    alpha: Ext, beta: Ext, v: Ext)
    requires 2 <= depth <= 4 && i < |acts|
    requires Lt(alpha, beta) && Le(beta, v) && Le(v, MaxOver(h, me, g, leaf, s2, acts[..i + 1], depth))
    ensures FailSoft(v, alpha, beta, MaxOver(h, me, g, leaf, s2, acts, depth))
  {
    var whole := MaxOver(h, me, g, leaf, s2, acts, depth);
    MaxOverAboveEach(h, me, g, leaf, s2, acts, depth, i);
    LeTotalOrder(v, MaxOver(h, me, g, leaf, s2, acts[..i + 1], depth), whole);
    MaxCutoff(alpha, beta, v, whole);
  }

  /** Everything the Min loop learns from the ghost's answer acts[i] whose
      search returned r: a cut is fail-soft for the whole node, and
      otherwise the loop invariant holds one answer further. */
  lemma MinAfterAnswer<S>(h: Host<S>, me: nat, g: nat, leaf: (S, Direction) -> int, s1: S, acts: seq<Direction>, depth: int, i: nat,
                          alpha: Ext, beta: Ext, score: Ext, b: Ext, r: Ext)
    requires 2 <= depth <= 4 && i < |acts| && Lt(alpha, beta)
    requires MinLoopInvariant(alpha, beta, score, MinOver(h, me, g, leaf, s1, acts[..i], depth), b)
    requires FailSoft(r, alpha, b, MaxValue(h, me, g, leaf, s1, acts[i], depth))
    ensures Le(Min(score, r), alpha) ==> FailSoft(Min(score, r), alpha, beta, MinOver(h, me, g, leaf, s1, acts, depth))
    ensures !Le(Min(score, r), alpha) ==>
      MinLoopInvariant(alpha, beta, Min(score, r), MinOver(h, me, g, leaf, s1, acts[..i + 1], depth), Min(b, Min(score, r)))
  {
    MinOverNext(h, me, g, leaf, s1, acts, depth, i);
    MinLoopStep(alpha, beta, score, MinOver(h, me, g, leaf, s1, acts[..i], depth), b, r, MaxValue(h, me, g, leaf, s1, acts[i], depth));
    if Le(Min(score, r), alpha) {
      MinCutAt(h, me, g, leaf, s1, acts, depth, i, alpha, beta, Min(score, r));
    }
  }

  /** Everything the Max loop learns from the agent's move acts[i] whose
      search returned r. */
  lemma MaxAfterMove<S>(h: Host<S>, me: nat, g: nat, leaf: (S, Direction) -> int, s2: S, acts: seq<Direction>, depth: int, i: nat,
                        alpha: Ext, beta: Ext, score: Ext, a: Ext, r: Ext)
    requires 2 <= depth <= 4 && i < |acts| && Lt(alpha, beta)
    requires MaxLoopInvariant(alpha, beta, score, MaxOver(h, me, g, leaf, s2, acts[..i], depth), a)
    requires FailSoft(r, a, beta, MinValue(h, me, g, leaf, s2, acts[i], depth))
    ensures Le(beta, Max(score, r)) ==> FailSoft(Max(score, r), alpha, beta, MaxOver(h, me, g, leaf, s2, acts, depth))
    ensures !Le(beta, Max(score, r)) ==>
      MaxLoopInvariant(alpha, beta, Max(score, r), MaxOver(h, me, g, leaf, s2, acts[..i + 1], depth), Max(a, Max(score, r)))
  {
    MaxOverNext(h, me, g, leaf, s2, acts, depth, i);
    MaxLoopStep(alpha, beta, score, MaxOver(h, me, g, leaf, s2, acts[..i], depth), a, r, MinValue(h, me, g, leaf, s2, acts[i], depth));
    if Le(beta, Max(score, r)) {
      MaxCutAt(h, me, g, leaf, s2, acts, depth, i, alpha, beta, Max(score, r));
    }
  }

  /** The part of the tree a pruned search walked: a state it evaluated,
      or a node it expanded, with the visits of the children it searched,
      in the order it searched them. */
  datatype Visit<S> = Evaluated(state: S) | Expanded(children: seq<Visit<S>>)

  /** The states a visit evaluated, in evaluation order. */
  function Visited<S>(v: Visit<S>): (r: seq<S>)
    ensures v.Evaluated? ==> r == [v.state]
    decreases v, 1
  {
    match v
    case Evaluated(s) => [s]
    case Expanded(cs) => VisitedAll(cs)
  }

  /** The states the visits `vs` evaluated, one visit after the other. */
  function VisitedAll<S>(vs: seq<Visit<S>>): (r: seq<S>)
    ensures vs == [] ==> r == []
    decreases vs, 0
  {
    if vs == [] then []
    else VisitedAll(vs[..|vs| - 1]) + Visited(vs[|vs| - 1])
  }

  lemma VisitedAllSnoc<S>(vs: seq<Visit<S>>, v: Visit<S>)
    ensures VisitedAll(vs + [v]) == VisitedAll(vs) + Visited(v)
  {
    assert (vs + [v])[..|vs|] == vs;
  }

  /** v is a walk of the Min node of MinValue: at depth 4 the state s
      itself is evaluated; above, the node is expanded into walks of the
      Max nodes of the first ghost answers in the successor, in order. */
  ghost predicate MinVisit<S>(h: Host<S>, me: nat, g: nat, v: Visit<S>, s: S, a: Direction, depth: int)
    requires 1 <= depth <= 4
    decreases 4 - depth, 0
  {
    if depth == 4 then v == Evaluated(s)
    else
      var s1 := h.generate(s, me, a);
      v.Expanded? && MinVisits(h, me, g, v.children, s1, h.legal(s1, g), depth + 1)
  }

  /** vs walks the Max nodes of the first |vs| of the ghost's answers. */
  ghost predicate MinVisits<S>(h: Host<S>, me: nat, g: nat, vs: seq<Visit<S>>, s1: S, acts: seq<Direction>, depth: int)
    requires 2 <= depth <= 4
    decreases 4 - depth, 3
  {
    |vs| <= |acts| && forall i :: 0 <= i < |vs| ==> MaxVisit(h, me, g, vs[i], s1, acts[i], depth)
  }

  /** v is a walk of the Max node of MaxValue: expanded into walks of the
      Min nodes of the agent's first non-Stop moves, in order. */
  ghost predicate MaxVisit<S>(h: Host<S>, me: nat, g: nat, v: Visit<S>, s1: S, ga: Direction, depth: int)
    requires 2 <= depth <= 4
    decreases 4 - depth, 2
  {
    var s2 := h.generate(s1, g, ga);
    v.Expanded? && MaxVisits(h, me, g, v.children, s2, RemoveStop(h.legal(s2, me)), depth)
  }

  /** vs walks the Min nodes of the first |vs| of the agent's moves. */
  ghost predicate MaxVisits<S>(h: Host<S>, me: nat, g: nat, vs: seq<Visit<S>>, s2: S, acts: seq<Direction>, depth: int)
    requires 2 <= depth <= 4
    decreases 4 - depth, 1
  {
    |vs| <= |acts| && forall i :: 0 <= i < |vs| ==> MinVisit(h, me, g, vs[i], s2, acts[i], depth)
  }
}
