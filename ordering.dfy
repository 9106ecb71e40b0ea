/**
  Python's ordering of `str` values (code point by code point, a proper prefix
  first) and `sorted(set(xs))`: the strictly increasing list of a set's
  elements, which that ordering determines uniquely.
 */
module Ordering {

  /** Python `a < b` on strings. */
  predicate Less(a: string, b: string)
  {
    if |a| == 0 then |b| > 0
    else if |b| == 0 then false
    else if a[0] != b[0] then a[0] < b[0]
    else Less(a[1..], b[1..])
  }

  lemma {:induction false} LessIrreflexive(a: string)
    ensures !Less(a, a)
  {
    if |a| > 0 {
      LessIrreflexive(a[1..]);
    }
  }

  lemma {:induction false} LessTransitive(a: string, b: string, c: string)
    requires Less(a, b) && Less(b, c)
    ensures Less(a, c)
  {
    if |a| > 0 && a[0] == b[0] && b[0] == c[0] {
      LessTransitive(a[1..], b[1..], c[1..]);
    }
  }

  lemma {:induction false} LessTotal(a: string, b: string)
    requires a != b
    ensures Less(a, b) || Less(b, a)
  {
    if |a| > 0 && |b| > 0 && a[0] == b[0] {
      assert a == [a[0]] + a[1..] && b == [b[0]] + b[1..];
      LessTotal(a[1..], b[1..]);
    }
  }

  predicate StrictlySorted(xs: seq<string>)
  {
    forall i, j :: 0 <= i < j < |xs| ==> Less(xs[i], xs[j])
  }

  /** A strictly sorted list holds no element twice. */
  lemma NoDuplicates(xs: seq<string>, i: nat, j: nat)
    requires StrictlySorted(xs)
    requires i < |xs| && j < |xs| && i != j
    ensures xs[i] != xs[j]
  {
    if i < j {
      LessIrreflexive(xs[i]);
    } else {
      LessIrreflexive(xs[j]);
    }
  }

  /** Insertion of `x` into a strictly sorted list, keeping it strictly sorted. */
  function Insert(xs: seq<string>, x: string): (r: seq<string>)
    requires StrictlySorted(xs)
    ensures StrictlySorted(r)
    ensures forall y :: y in r <==> y in xs || y == x
    ensures |r| == if x in xs then |xs| else |xs| + 1
  {
    if |xs| == 0 then [x]
    else if x == xs[0] then xs
    else if Less(x, xs[0]) then
      assert forall j :: 0 <= j < |xs| ==> Less(x, xs[j]) by {
        forall j | 0 <= j < |xs| ensures Less(x, xs[j]) {
          if j > 0 { LessTransitive(x, xs[0], xs[j]); }
        }
      }
      assert x !in xs by { LessIrreflexive(x); }
      [x] + xs
    else
      LessTotal(x, xs[0]);
      var tail := Insert(xs[1..], x);
      assert forall y :: y in tail ==> Less(xs[0], y);
      assert x in xs <==> x in xs[1..] by {
        assert xs == [xs[0]] + xs[1..];
      }
      [xs[0]] + tail
  }

  /** Two strictly sorted lists with the same elements are the same list. */
  lemma {:induction false} SortedUnique(a: seq<string>, b: seq<string>)
    requires StrictlySorted(a) && StrictlySorted(b)
    requires forall y :: y in a <==> y in b
    ensures a == b
  {
    assert |a| > 0 ==> a[0] in b;
    assert |b| > 0 ==> b[0] in a;
    if |a| > 0 && |b| > 0 {
      if a[0] != b[0] {
        assert b[0] in a && a[0] in b;
        var i :| 0 <= i < |a| && a[i] == b[0];
        var j :| 0 <= j < |b| && b[j] == a[0];
        assert Less(a[0], a[i]);
        assert Less(b[0], b[j]);
        LessTransitive(a[0], b[0], a[0]);
        LessIrreflexive(a[0]);
        assert false;
      }
      forall y
        ensures y in a[1..] <==> y in b[1..]
      {
        if y in a[1..] {
          var k :| 0 <= k < |a[1..]| && a[1..][k] == y;
          NoDuplicates(a, 0, k + 1);
          assert y in b && y != b[0];
          assert b == [b[0]] + b[1..];
        }
        if y in b[1..] {
          var k :| 0 <= k < |b[1..]| && b[1..][k] == y;
          NoDuplicates(b, 0, k + 1);
          assert y in a && y != a[0];
          assert a == [a[0]] + a[1..];
        }
      }
      SortedUnique(a[1..], b[1..]);
      assert a == [a[0]] + a[1..] && b == [b[0]] + b[1..];
    }
  }

  /**
    `sorted(set(s))`: the elements of `s` in increasing order, each once.
    The order is the only freedom, and SortedUnique shows there is none.
   */
  method SortedOf(s: set<string>) returns (r: seq<string>)
    ensures StrictlySorted(r)
    ensures forall y :: y in r <==> y in s
    ensures |r| == |s|
  {
    r := [];
    var rest := s;
    while rest != {}
      invariant rest <= s
      invariant StrictlySorted(r)
      invariant forall y :: y in r <==> y in s && y !in rest
      invariant |r| + |rest| == |s|
      decreases rest
    {
      var x :| x in rest;
      r := Insert(r, x);
      rest := rest - {x};
    }
  }
}
