/** Finite sets: their sizes, and the set of a sequence's elements. */
module Sets {
  function AsSet<T(==)>(s: seq<T>): set<T> {
    set x | x in s
  }

  lemma {:induction false} SubsetNotLarger<T>(a: set<T>, b: set<T>)
    requires a <= b
    ensures |a| <= |b|
    decreases a
  {
    if a != {} {
      var x :| x in a;
      SubsetNotLarger(a - {x}, b - {x});
    }
  }

  lemma ProperSubsetSmaller<T>(a: set<T>, b: set<T>)
    requires a < b
    ensures |a| < |b|
  {
    assert b == a + (b - a);
    var x :| x in b && x !in a;
    assert x in b - a;
  }

  lemma DifferenceSize<T>(a: set<T>, b: set<T>)
    requires b <= a
    ensures |a - b| == |a| - |b|
  {
    assert a == (a - b) + b;
  }

  /** A non-empty set has an element of the greatest rank. */
  lemma {:induction false} GreatestExists<T>(s: set<T>, rank: T -> int) returns (m: T)
    requires s != {}
    ensures m in s && forall x :: x in s ==> rank(x) <= rank(m)
    decreases s
  {
    m :| m in s;
    if s != {m} {
      var m' := GreatestExists(s - {m}, rank);
      assert forall x :: x in s ==> x == m || x in s - {m};
      if rank(m') > rank(m) { m := m'; }
    }
  }
}
