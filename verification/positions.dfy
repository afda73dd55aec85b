/** Position helpers of the reflex agents: the rounded coordinate mean of a
    belief counter's keys, and the escape from a wall cell to an open
    neighbour. */
module Positions {
  import opened Values
  import opened Game
  import opened Sums

  /** Python 2 round(num / den): to the nearest integer, halves away from zero. */
  function Round(num: int, den: int): int
    requires den > 0
  {
    if num >= 0 then (2 * num + den) / (2 * den)
    else -((-2 * num + den) / (2 * den))
  }

  /** Round is within half a unit of num / den, and a tie goes away from zero. */
  lemma RoundToNearest(num: int, den: int)
    requires den > 0
    ensures var r := Round(num, den);
      2 * (r * den - num) <= den && 2 * (num - r * den) <= den &&
      (2 * (r * den - num) == den ==> num > 0) &&
      (2 * (num - r * den) == den ==> num < 0)
  {
    if num >= 0 {
      var q := (2 * num + den) / (2 * den);
      assert 2 * num + den == 2 * den * q + (2 * num + den) % (2 * den);
      assert q * den * 2 == 2 * den * q;
    } else {
      var q := (-2 * num + den) / (2 * den);
      assert -2 * num + den == 2 * den * q + (-2 * num + den) % (2 * den);
      assert q * den * 2 == 2 * den * q;
      assert (-q) * den == -(q * den);
    }
  }

  function X(p: Pos): int { p.x }
  function Y(p: Pos): int { p.y }

  /** getBeliefs: the mean of the keys' coordinates, each rounded; the
      keys' weights play no part. */
  ghost function MeanPosition(keys: set<Pos>): Pos
    requires keys != {}
  {
    Pos(Round(SetSum(keys, X), |keys|), Round(SetSum(keys, Y), |keys|))
  }

  /** A single candidate is its own mean. */
  lemma MeanOfOne(p: Pos)
    ensures MeanPosition({p}) == p
  {
    SetSumRemove({p}, X, p);
    SetSumRemove({p}, Y, p);
    assert {p} - {p} == {};
  }

  lemma {:induction false} MulMonotone(a: int, b: int, n: nat)
    requires a <= b
    ensures a * n <= b * n
    decreases n
  {
    if n > 0 {
      MulMonotone(a, b, n - 1);
      assert a * n == a * (n - 1) + a;
      assert b * n == b * (n - 1) + b;
    }
  }

  lemma MulSucc(n: int, x: int)
    ensures (n + 1) * x == n * x + x
  {
  }

  /** The column sum lies between the count times the least and the
      greatest column. */
  lemma {:induction false} SumBounds(keys: set<Pos>, lo: int, hi: int)
    requires forall p :: p in keys ==> lo <= p.x <= hi
    ensures |keys| * lo <= SetSum(keys, X) <= |keys| * hi
    decreases keys
  {
    if keys != {} {
      var p :| p in keys;
      SetSumRemove(keys, X, p);
      SumBounds(keys - {p}, lo, hi);
      var n := |keys - {p}|;
      assert |keys| == n + 1;
      MulSucc(n, lo);
      MulSucc(n, hi);
    }
  }

  /** The mean never leaves the band of columns the candidates span. */
  lemma MeanWithinColumns(keys: set<Pos>, lo: int, hi: int)
    requires keys != {}
    requires forall p :: p in keys ==> lo <= p.x <= hi
    ensures lo <= MeanPosition(keys).x <= hi
  {
    SumBounds(keys, lo, hi);
    var n := |keys|;
    var sum := SetSum(keys, X);
    var r := Round(sum, n);
    RoundToNearest(sum, n);
    assert (lo - 1) * n == lo * n - n;
    assert (hi + 1) * n == hi * n + n;
    if r < lo {
      MulMonotone(r, lo - 1, n);
      assert false;
    }
    if r > hi {
      MulMonotone(hi + 1, r, n);
      assert false;
    }
  }

  /** The four neighbours getNearestLegalLocation tries, west, east, south
      and north in that order. */
  function Adjacencies(p: Pos): seq<Pos> {
    [Pos(p.x - 1, p.y), Pos(p.x + 1, p.y), Pos(p.x, p.y - 1), Pos(p.x, p.y + 1)]
  }

  /** The first open cell of the list, if any. */
  function FirstOpen(wall: Pos -> bool, cells: seq<Pos>): (r: Option<Pos>)
    ensures r.Some? ==> r.value in cells && !wall(r.value)
    ensures r.Some? ==> exists i :: 0 <= i < |cells| && cells[i] == r.value && forall j :: 0 <= j < i ==> wall(cells[j])
    ensures r.None? <==> forall q :: q in cells ==> wall(q)
  {
    if cells == [] then None
    else if !wall(cells[0]) then Some(cells[0])
    else
      var r := FirstOpen(wall, cells[1..]);
      if r.Some? then
        var i :| 0 <= i < |cells[1..]| && cells[1..][i] == r.value && forall j :: 0 <= j < i ==> wall(cells[1..][j]);
        assert cells[i + 1] == r.value && forall j :: 0 <= j < i + 1 ==> wall(cells[j]);
        r
      else r
  }

  /** getNearestLegalLocation. `picks` stands for the random draws of the
      fallback that recurses on a random neighbour (each taken modulo 4);
      when they run out the search gives up, as the recursion in the
      source would at Python's recursion limit. */
  function NearestLegalLocation(wall: Pos -> bool, loc: Pos, picks: seq<nat>): (r: Result<Pos>)
    ensures !wall(loc) ==> r == Ok(loc)
    ensures wall(loc) && FirstOpen(wall, Adjacencies(loc)).Some? ==> r == Ok(FirstOpen(wall, Adjacencies(loc)).value)
    ensures r.Ok? ==> !wall(r.value)
    ensures r.Ok? ==> Abs(r.value.x - loc.x) + Abs(r.value.y - loc.y) <= |picks| + 1
    decreases |picks|
  {
    if !wall(loc) then Ok(loc)
    else
      var adjacencies := Adjacencies(loc);
      match FirstOpen(wall, adjacencies)
      case Some(p) => Ok(p)
      case None =>
        if picks == [] then Failure("maximum recursion depth exceeded")
        else NearestLegalLocation(wall, adjacencies[picks[0] % 4], picks[1..])
  }

  function Abs(n: int): nat { if n < 0 then -n else n }
}
