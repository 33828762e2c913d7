/** Sequence helpers that mirror JavaScript/D3 primitives used by the charts:
    `indexOf`, `Array.from(new Set(...))`, `d3.max` and `d3.min`. */
module Seqs {

  /** No element occurs twice. */
  predicate NoDups<T(==)>(s: seq<T>) {
    forall i, j :: 0 <= i < j < |s| ==> s[i] != s[j]
  }

  /** Elements never decrease from left to right. */
  predicate NonDecreasing(s: seq<int>) {
    forall i, j :: 0 <= i < j < |s| ==> s[i] <= s[j]
  }

  /** Elements strictly increase from left to right. */
  predicate StrictlyIncreasing(s: seq<int>) {
    forall i, j :: 0 <= i < j < |s| ==> s[i] < s[j]
  }

  /** `Array.prototype.indexOf` on an element that is present: the first position holding `x`. */
  function IndexOf<T(==)>(s: seq<T>, x: T): (i: nat)
    requires x in s
    ensures i < |s| && s[i] == x && x !in s[..i]
  {
    if s[0] == x then 0 else 1 + IndexOf(s[1..], x)
  }

  /** The first-occurrence position is the only position that holds `x` with no earlier `x`. */
  lemma IndexOfUnique<T>(s: seq<T>, x: T, i: nat)
    requires i < |s| && s[i] == x && x !in s[..i]
    ensures IndexOf(s, x) == i
  {
  }

  /** Appending an element does not move the first occurrence of an element already present. */
  lemma IndexOfAppend<T>(s: seq<T>, x: T, y: T)
    requires y in s
    ensures y in s + [x] && IndexOf(s + [x], y) == IndexOf(s, y)
  {
    var k := IndexOf(s, y);
    assert (s + [x])[..k] == s[..k];
    IndexOfUnique(s + [x], y, k);
  }

  /** `Array.from(new Set(s))`: the distinct elements of `s` in first-occurrence order
      (a JavaScript Set iterates in insertion order and ignores re-insertions). */
  function Distinct<T(==, !new)>(s: seq<T>): (d: seq<T>)
    ensures NoDups(d)
    ensures forall x :: x in d <==> x in s
  {
    if s == [] then []
    else
      var p, x := s[..|s| - 1], s[|s| - 1];
      assert s == p + [x];
      var d := Distinct(p);
      if x in d then d else d + [x]
  }

  /** The distinct elements come out in the order of their first occurrences. */
  lemma {:induction false} DistinctKeepsOrder<T(!new)>(s: seq<T>)
    ensures forall i, j :: 0 <= i < j < |Distinct(s)| ==> IndexOf(s, Distinct(s)[i]) < IndexOf(s, Distinct(s)[j])
  {
    if s != [] {
      var p, x := s[..|s| - 1], s[|s| - 1];
      assert s == p + [x];
      DistinctKeepsOrder(p);
      forall y | y in p ensures IndexOf(s, y) == IndexOf(p, y) {
        IndexOfAppend(p, x, y);
      }
      if x !in p {
        IndexOfUnique(s, x, |p|);
      }
    }
  }

  lemma DistinctSnoc<T(!new)>(s: seq<T>, x: T)
    ensures Distinct(s + [x]) == if x in s then Distinct(s) else Distinct(s) + [x]
  {
    assert (s + [x])[..|s|] == s;
  }

  /** A sequence without duplicates is its own set of distinct elements. */
  lemma {:induction false} DistinctOfNoDups<T(!new)>(s: seq<T>)
    requires NoDups(s)
    ensures Distinct(s) == s
  {
    if s != [] {
      var p, x := s[..|s| - 1], s[|s| - 1];
      assert s == p + [x];
      assert NoDups(p);
      DistinctOfNoDups(p);
      DistinctSnoc(p, x);
    }
  }

  /** When the input never decreases, its distinct elements come out strictly increasing. */
  lemma {:induction false} DistinctOfNonDecreasing(s: seq<int>)
    requires NonDecreasing(s)
    ensures StrictlyIncreasing(Distinct(s))
  {
    if s != [] {
      var p, x := s[..|s| - 1], s[|s| - 1];
      assert s == p + [x];
      DistinctOfNonDecreasing(p);
      DistinctSnoc(p, x);
      forall y | y in p ensures y <= x {
        var k :| 0 <= k < |p| && p[k] == y;
      }
      if x !in p {
        var d := Distinct(p);
        forall i, j | 0 <= i < j < |d + [x]| ensures (d + [x])[i] < (d + [x])[j] {
          if j == |d| {
            assert d[i] in p;
            assert d[i] != x;
          }
        }
      }
    }
  }

  /** The last element of `s` sits somewhere in a permutation `t` of `s`; taking it out of
      both leaves permutations of each other. */
  lemma PermutationSplit<T>(s: seq<T>, t: seq<T>) returns (k: nat)
    requires s != [] && multiset(s) == multiset(t)
    ensures k < |t| && t[k] == s[|s| - 1]
    ensures t == t[..k] + [t[k]] + t[k + 1..]
    ensures multiset(s[..|s| - 1]) == multiset(t[..k] + t[k + 1..])
  {
    var p, x := s[..|s| - 1], s[|s| - 1];
    assert s == p + [x];
    assert multiset(s) == multiset(p) + multiset{x};
    assert x in multiset(t);
    k :| 0 <= k < |t| && t[k] == x;
    var lo, hi := t[..k], t[k + 1..];
    assert t == lo + [x] + hi;
    assert multiset(t) == multiset(lo) + multiset{x} + multiset(hi);
    assert multiset(lo + hi) == multiset(lo) + multiset(hi);
    assert multiset(p) == multiset(s) - multiset{x};
    assert multiset(lo + hi) == multiset(t) - multiset{x};
  }

  /** `d3.max` over a non-empty sequence: an upper bound that is attained. */
  function Max(xs: seq<int>): (m: int)
    requires |xs| > 0
    ensures forall i :: 0 <= i < |xs| ==> xs[i] <= m
    ensures m in xs
  {
    if |xs| == 1 then xs[0]
    else
      var rest := Max(xs[1..]);
      assert rest in xs;
      if xs[0] >= rest then xs[0] else rest
  }

  /** `d3.min` over a non-empty sequence: a lower bound that is attained. */
  function Min(xs: seq<int>): (m: int)
    requires |xs| > 0
    ensures forall i :: 0 <= i < |xs| ==> m <= xs[i]
    ensures m in xs
  {
    if |xs| == 1 then xs[0]
    else
      var rest := Min(xs[1..]);
      assert rest in xs;
      if xs[0] <= rest then xs[0] else rest
  }

  /** `d3.max` over a non-empty sequence of reals: an upper bound that is attained. */
  function MaxReal(xs: seq<real>): (m: real)
    requires |xs| > 0
    ensures forall i :: 0 <= i < |xs| ==> xs[i] <= m
    ensures m in xs
  {
    if |xs| == 1 then xs[0]
    else
      var rest := MaxReal(xs[1..]);
      assert rest in xs;
      if xs[0] >= rest then xs[0] else rest
  }
}
