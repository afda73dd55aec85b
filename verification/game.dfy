/** The host game as the agent sees it. The board state is a type parameter
    and every query the agent makes of it is a field of `Host`: nothing is
    assumed of those functions beyond their types (maze distances are `nat`). */
module Game {
  import opened Values

  datatype Pos = Pos(x: int, y: int)

  datatype Direction = North | South | East | West | Stop

  /** Directions.REVERSE: each move's opposite, and Stop for Stop. */
  function Reverse(d: Direction): (r: Direction)
    ensures (r == Stop) == (d == Stop)
    ensures r != d || d == Stop
  {
    match d
    case North => South
    case South => North
    case East => West
    case West => East
    case Stop => Stop
  }

  lemma ReverseInvolution(d: Direction)
    ensures Reverse(Reverse(d)) == d
  {
  }

  /** What getAgentState(i) reports: a position when the agent is in sight. */
  datatype AgentState = AgentState(position: Option<Pos>, isPacman: bool, scaredTimer: int, direction: Direction)

  datatype Host<!S> = Host(
    legal: (S, nat) -> seq<Direction>,        // getLegalActions
    generate: (S, nat, Direction) -> S,       // generateSuccessor
    agentState: (S, nat) -> AgentState,       // getAgentState
    aligned: (S, nat) -> bool,                // position == nearestPoint(position)
    wall: Pos -> bool,                        // hasWall / getWalls()
    mazeDist: (Pos, Pos) -> nat,              // getMazeDistance
    score: S -> int,                          // getScore
    food: S -> seq<Pos>,                      // getFood(..).asList()
    capsules: S -> seq<Pos>,                  // getCapsules
    defendedCapsules: S -> seq<Pos>           // getCapsulesYouAreDefending
  )

  /** getSuccessor: a move that stops half-way between cells is applied once more. */
  function Successor<S>(h: Host<S>, s: S, me: nat, a: Direction): S
  {
    var s1 := h.generate(s, me, a);
    if h.aligned(s1, me) then s1 else h.generate(s1, me, a)
  }

  /** chooseAction drops Stop from the legal actions: the first Stop, if
      any, is removed and the order of the rest is kept. */
  function RemoveStop(acts: seq<Direction>): (r: seq<Direction>)
    ensures Stop !in acts ==> r == acts
    ensures Stop in acts ==> |r| == |acts| - 1
    ensures forall d :: d in r ==> d in acts
    ensures forall d :: d in acts && d != Stop ==> d in r
  {
    if acts == [] then []
    else if acts[0] == Stop then acts[1..]
    else [acts[0]] + RemoveStop(acts[1..])
  }

  /** A list of legal actions never names a move twice. */
  predicate Distinct<T(==)>(s: seq<T>) {
    forall i, j :: 0 <= i < j < |s| ==> s[i] != s[j]
  }

  lemma {:induction false} RemoveStopDropsStop(acts: seq<Direction>)
    requires Distinct(acts)
    ensures Stop !in RemoveStop(acts)
    ensures Distinct(RemoveStop(acts))
  {
    if acts != [] && acts[0] != Stop {
      assert Distinct(acts[1..]) by {
        forall i, j | 0 <= i < j < |acts| - 1 ensures acts[1..][i] != acts[1..][j] {
          assert acts[1..][i] == acts[i + 1] && acts[1..][j] == acts[j + 1];
        }
      }
      RemoveStopDropsStop(acts[1..]);
      assert acts[0] !in acts[1..] by {
        forall k | 0 <= k < |acts| - 1 ensures acts[1..][k] != acts[0] {
          assert acts[1..][k] == acts[k + 1];
        }
      }
    } else if acts != [] {
      forall k | 0 <= k < |acts| - 1 ensures acts[1..][k] != Stop {
        assert acts[1..][k] == acts[k + 1];
      }
    }
  }

  /** The greatest of a non-empty list of values: Python's max(values). */
  function MaxOf(values: seq<Ext>): (m: Ext)
    requires values != []
    ensures m in values
    ensures forall v :: v in values ==> Le(v, m)
  {
    if |values| == 1 then values[0]
    else
      var rest := MaxOf(values[1..]);
      var m := Max(values[0], rest);
      assert forall v :: v in values[1..] ==> Le(v, m) by {
        forall v | v in values[1..] ensures Le(v, m) {
          LeTotalOrder(v, rest, m);
        }
      }
      assert values == [values[0]] + values[1..];
      m
  }

  /** Every value is at most the greatest. */
  lemma MaxOfAtLeast(values: seq<Ext>, k: nat)
    requires k < |values|
    ensures Le(values[k], MaxOf(values))
  {
    assert values[k] in values;
  }

  /** Any value of the list that bounds every other is its maximum. */
  lemma MaxOfUnique(values: seq<Ext>, m: Ext)
    requires m in values
    requires forall v :: v in values ==> Le(v, m)
    ensures m == MaxOf(values)
  {
    LeTotalOrder(m, MaxOf(values), m);
  }

  /** The tail of both chooseAction methods: the maximum of the values, the
      actions that reach it, and a random choice among them. An empty list
      makes max() raise. */
  method PickBest(actions: seq<Direction>, values: seq<Ext>) returns (r: Result<Direction>)
    requires |actions| == |values|
    ensures actions == [] <==> r.Failure?
    ensures r.Ok? ==> exists i :: 0 <= i < |actions| && actions[i] == r.value && values[i] == MaxOf(values)
  {
    if actions == [] {
      return Failure("max() arg is an empty sequence");
    }
    var maxValue := values[0];
    var k := 1;
    while k < |values|
      invariant 1 <= k <= |values|
      invariant maxValue in values[..k]
      invariant forall j :: 0 <= j < k ==> Le(values[j], maxValue)
    {
      LeTotalOrder(values[k], maxValue, values[k]);
      maxValue := Max(maxValue, values[k]);
      k := k + 1;
    }
    assert values[..k] == values;
    MaxOfUnique(values, maxValue);
    var best: seq<Direction> := [];
    k := 0;
    while k < |values|
      invariant 0 <= k <= |values|
      invariant forall b :: b in best ==> exists j :: 0 <= j < |actions| && actions[j] == b && values[j] == maxValue
      invariant (exists j :: 0 <= j < k && values[j] == maxValue) ==> best != []
    {
      if values[k] == maxValue {
        best := best + [actions[k]];
      }
      k := k + 1;
    }
    ghost var at :| 0 <= at < |values| && values[at] == maxValue;
    assert best != [] && best[0] in best;
    var choice :| choice in best;
    r := Ok(choice);
  }
}
