/**
 * Sequence operations with the meaning Ruby's Array and Enumerable methods
 * give them: `map`, `select`/`grep`, `reverse`, `Array(lo..hi)` and `&`.
 */
module Seqs {

  /** Ruby's `map`/`collect`. */
  function Map<A, B>(f: A -> B, s: seq<A>): (r: seq<B>)
    ensures |r| == |s|
    ensures forall i :: 0 <= i < |s| ==> r[i] == f(s[i])
  {
    if s == [] then [] else [f(s[0])] + Map(f, s[1..])
  }

  lemma MapAppend<A, B>(f: A -> B, a: seq<A>, b: seq<A>)
    ensures Map(f, a + b) == Map(f, a) + Map(f, b)
  {
  }

  /** Ruby's `select` (and `grep` with a pattern): the elements satisfying p, in order. */
  function Filter<A(!new)>(p: A -> bool, s: seq<A>): (r: seq<A>)
    ensures |r| <= |s|
    ensures forall x :: x in r <==> x in s && p(x)
  {
    if s == [] then [] else (if p(s[0]) then [s[0]] else []) + Filter(p, s[1..])
  }

  /** Filtering a concatenation filters each part and keeps their order. */
  lemma {:induction false} FilterAppend<A(!new)>(p: A -> bool, a: seq<A>, b: seq<A>)
    ensures Filter(p, a + b) == Filter(p, a) + Filter(p, b)
  {
    if a == [] {
      assert a + b == b;
    } else {
      assert (a + b)[0] == a[0];
      assert (a + b)[1..] == a[1..] + b;
      FilterAppend(p, a[1..], b);
    }
  }

  /** Ruby's `reverse`. */
  function Reverse<A>(s: seq<A>): (r: seq<A>)
    ensures |r| == |s|
    ensures forall i :: 0 <= i < |s| ==> r[i] == s[|s| - 1 - i]
  {
    if s == [] then [] else Reverse(s[1..]) + [s[0]]
  }

  lemma ReverseAppend<A>(a: seq<A>, b: seq<A>)
    ensures Reverse(a + b) == Reverse(b) + Reverse(a)
  {
  }

  /** Ruby's `Array(lo..hi)`: every integer from lo to hi, both included; empty when lo > hi. */
  function Range(lo: int, hi: int): (r: seq<int>)
    ensures |r| == if lo <= hi then hi - lo + 1 else 0
    ensures forall x :: x in r <==> lo <= x <= hi
    decreases hi - lo
  {
    if lo > hi then [] else [lo] + Range(lo + 1, hi)
  }

  predicate Distinct<A(==)>(s: seq<A>) {
    forall i, j :: 0 <= i < j < |s| ==> s[i] != s[j]
  }

  /** Position of the first occurrence of x in s (Ruby's `index`). */
  function IndexOf<A(==)>(s: seq<A>, x: A): (i: nat)
    requires x in s
    ensures i < |s| && s[i] == x && x !in s[..i]
  {
    if s[0] == x then 0 else 1 + IndexOf(s[1..], x)
  }

  lemma IndexOfSnoc<A>(s: seq<A>, x: A, y: A)
    requires y in s
    ensures IndexOf(s + [x], y) == IndexOf(s, y)
  {
    if s[0] != y {
      assert (s + [x])[1..] == s[1..] + [x];
      IndexOfSnoc(s[1..], x, y);
    }
  }

  /**
   * Ruby's `a & b`: the elements of a that are also in b, in a's order,
   * each kept at its first occurrence only. Defined by reading a from the
   * left, one element at a time (the recursion peels a's last element).
   */
  function Intersect<A(==,!new)>(a: seq<A>, b: seq<A>): (r: seq<A>)
    ensures forall x :: x in r <==> x in a && x in b
    ensures Distinct(r)
  {
    if a == [] then []
    else
      var r := Intersect(a[..|a| - 1], b);
      var x := a[|a| - 1];
      if x in b && x !in r then r + [x] else r
  }

  /** `a & b` keeps a's order: earlier in the result means first seen earlier in a. */
  lemma {:induction false} IntersectOrder<A(!new)>(a: seq<A>, b: seq<A>)
    ensures forall i, j :: 0 <= i < j < |Intersect(a, b)| ==>
      IndexOf(a, Intersect(a, b)[i]) < IndexOf(a, Intersect(a, b)[j])
  {
    if a != [] {
      var init, x := a[..|a| - 1], a[|a| - 1];
      assert a == init + [x];
      var r := Intersect(init, b);
      IntersectOrder(init, b);
      forall y | y in r ensures IndexOf(a, y) == IndexOf(init, y) < |init| {
        IndexOfSnoc(init, x, y);
      }
      if x in b && x !in r {
        assert x !in init;
        assert IndexOf(a, x) == |init|;
      }
    }
  }

  /** `a & b` depends on b only through which of a's elements it holds. */
  lemma {:induction false} IntersectCongruence<A(!new)>(a: seq<A>, b: seq<A>, c: seq<A>)
    requires forall x :: x in a ==> (x in b <==> x in c)
    ensures Intersect(a, b) == Intersect(a, c)
  {
    if a != [] {
      IntersectCongruence(a[..|a| - 1], b, c);
    }
  }
}
