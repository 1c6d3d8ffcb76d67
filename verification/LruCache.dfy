/** A bounded least-recently-used cache of block roots, oldest first, as the `lru` crate keeps it. */
module LruCache {
  import opened Sets

  type Root = nat

  function Without(s: seq<Root>, x: Root): (r: seq<Root>)
    ensures |r| <= |s| && (x !in s ==> r == s) && (x in s ==> |r| < |s|)
    ensures forall y :: y in r <==> y in s && y != x
  {
    if s == [] then []
    else
      assert s == [s[0]] + s[1..];
      (if s[0] == x then [] else [s[0]]) + Without(s[1..], x)
  }

  /** `put`: the key becomes the newest; a full cache drops its oldest key for a new one. */
  function Touch(s: seq<Root>, x: Root, capacity: nat): seq<Root>
    requires capacity > 0
  {
    var rest := Without(s, x);
    (if |rest| >= capacity then rest[1..] else rest) + [x]
  }

  ghost predicate ValidCache(s: seq<Root>, capacity: nat) {
    |s| <= capacity && forall i, j :: 0 <= i < j < |s| ==> s[i] != s[j]
  }

  /** The keys used after `x`. */
  ghost function Newer(s: seq<Root>, x: Root): set<Root> {
    if s == [] then {} else if s[0] == x then AsSet(s[1..]) else Newer(s[1..], x)
  }

  lemma {:induction false} WithoutDistinct(s: seq<Root>, x: Root, capacity: nat)
    requires ValidCache(s, capacity)
    ensures ValidCache(Without(s, x), capacity)
    decreases |s|
  {
    if s != [] {
      WithoutDistinct(s[1..], x, capacity);
      var r := Without(s[1..], x);
      assert forall i :: 0 <= i < |r| ==> r[i] in r;
      assert s[0] !in s[1..];
    }
  }

  lemma TouchKeepsValid(s: seq<Root>, x: Root, capacity: nat)
    requires ValidCache(s, capacity) && capacity > 0
    ensures ValidCache(Touch(s, x, capacity), capacity)
  {
    WithoutDistinct(s, x, capacity);
    var rest := Without(s, x);
    assert forall i :: 0 <= i < |rest| ==> rest[i] in rest;
  }

  lemma {:induction false} DistinctSize(s: seq<Root>, capacity: nat)
    requires ValidCache(s, capacity)
    ensures |AsSet(s)| == |s|
    decreases |s|
  {
    if s != [] {
      DistinctSize(s[1..], capacity);
      assert s == [s[0]] + s[1..];
      assert s[0] !in s[1..];
      assert AsSet(s) == {s[0]} + AsSet(s[1..]);
    }
  }

  lemma {:induction false} NewerAppend(s: seq<Root>, x: Root, y: Root)
    requires x in s
    ensures Newer(s + [y], x) == Newer(s, x) + {y}
    decreases |s|
  {
    assert (s + [y])[1..] == s[1..] + [y];
    if s[0] == x {
      assert AsSet(s[1..] + [y]) == AsSet(s[1..]) + {y};
    } else {
      NewerAppend(s[1..], x, y);
    }
  }

  lemma {:induction false} NewerFresh(s: seq<Root>, x: Root)
    requires x !in s
    ensures Newer(s + [x], x) == {}
    decreases |s|
  {
    if s == [] {
      assert [x][1..] == [];
    } else {
      assert (s + [x])[1..] == s[1..] + [x];
      NewerFresh(s[1..], x);
    }
  }

  lemma {:induction false} NewerWithout(s: seq<Root>, x: Root, y: Root)
    requires x != y
    ensures Newer(Without(s, y), x) <= Newer(s, x)
    decreases |s|
  {
    if s != [] {
      NewerWithout(s[1..], x, y);
      var rest := Without(s[1..], y);
      if s[0] == y {
        assert Without(s, y) == rest;
      } else {
        assert Without(s, y) == [s[0]] + rest && ([s[0]] + rest)[1..] == rest;
        assert AsSet(rest) <= AsSet(s[1..]);
      }
    }
  }

  lemma TouchSelf(s: seq<Root>, x: Root, capacity: nat)
    requires capacity > 0
    ensures x in Touch(s, x, capacity) && Newer(Touch(s, x, capacity), x) == {}
  {
    var rest := Without(s, x);
    var kept := if |rest| >= capacity then rest[1..] else rest;
    assert forall y :: y in kept ==> y in rest;
    NewerFresh(kept, x);
  }

  /** Using another key drops `x` only if a full cache of other keys is newer. */
  lemma TouchOther(s: seq<Root>, x: Root, y: Root, capacity: nat)
    requires ValidCache(s, capacity) && capacity > 0 && x in s && x != y
    ensures (x in Touch(s, y, capacity) && Newer(Touch(s, y, capacity), x) <= Newer(s, x) + {y})
            || |Newer(s, x) + {y}| >= capacity
  {
    var rest := Without(s, y);
    NewerWithout(s, x, y);
    if |rest| < capacity {
      NewerAppend(rest, x, y);
    } else if rest[0] != x {
      assert rest == [rest[0]] + rest[1..];
      NewerAppend(rest[1..], x, y);
    } else {
      assert rest == s && s[1..] == s[1..];
      DistinctSize(s[1..], capacity);
      assert Newer(s, x) == AsSet(s[1..]);
      assert y !in Newer(s, x);
    }
  }
}
