/** Sums over the keys of a dictionary, in whatever order the dictionary
    yields them: the specification of every loop in the agent that
    accumulates over a Counter's keys. */
module Sums {

  /** The sum of f over the finite set s. */
  ghost function SetSum<T>(s: set<T>, f: T -> int): int
    decreases s
  {
    if s == {} then 0
    else
      var k :| k in s;
      f(k) + SetSum(s - {k}, f)
  }

  /** Any element may be taken out first: the sum does not depend on the
      order in which the keys are visited. */
  lemma {:induction false} SetSumRemove<T>(s: set<T>, f: T -> int, k: T)
    requires k in s
    ensures SetSum(s, f) == f(k) + SetSum(s - {k}, f)
    decreases s
  {
    var j :| j in s && SetSum(s, f) == f(j) + SetSum(s - {j}, f);
    if j != k {
      SetSumRemove(s - {j}, f, k);
      SetSumRemove(s - {k}, f, j);
      assert s - {j} - {k} == s - {k} - {j};
    }
  }

  /** Two summands that agree on s give the same sum. */
  lemma {:induction false} SetSumCongruent<T>(s: set<T>, f: T -> int, g: T -> int)
    requires forall k :: k in s ==> f(k) == g(k)
    ensures SetSum(s, f) == SetSum(s, g)
    decreases s
  {
    if s != {} {
      var k :| k in s;
      SetSumRemove(s, f, k);
      SetSumRemove(s, g, k);
      SetSumCongruent(s - {k}, f, g);
    }
  }

  /** Summands that are zero outside s' do not change the sum. */
  lemma {:induction false} SetSumZeroOutside<T>(s: set<T>, s': set<T>, f: T -> int)
    requires s' <= s
    requires forall k :: k in s && k !in s' ==> f(k) == 0
    ensures SetSum(s, f) == SetSum(s', f)
    decreases s
  {
    if s != s' {
      var k :| k in s && k !in s';
      SetSumRemove(s, f, k);
      SetSumZeroOutside(s - {k}, s', f);
    }
  }
}
