/** Permutations of an initial segment of the naturals: the pigeonhole principle,
    and the fact that a strict order sorts a set in only one way. */
module Permutations {

  ghost predicate Distinct<T>(s: seq<T>) {
    forall i, j :: 0 <= i < j < |s| ==> s[i] != s[j]
  }

  /** Every index below |p| is used at most once, and nothing else occurs. */
  ghost predicate IsPermutation(p: seq<int>) {
    && (forall i :: 0 <= i < |p| ==> 0 <= p[i] < |p|)
    && Distinct(p)
  }

  lemma PermutationDistinct(p: seq<int>, k: nat)
    requires IsPermutation(p) && k < |p|
    ensures forall i :: 0 <= i < |p| && i != k ==> p[i] != p[k]
  {
  }

  ghost predicate SortedBy(less: (int, int) -> bool, s: seq<int>) {
    forall i, j :: 0 <= i < j < |s| ==> less(s[i], s[j])
  }

  ghost predicate StrictOrder(less: (int, int) -> bool, n: nat) {
    && (forall i :: 0 <= i < n ==> !less(i, i))
    && (forall i, j, k :: 0 <= i < n && 0 <= j < n && 0 <= k < n && less(i, j) && less(j, k) ==> less(i, k))
  }

  ghost function Range(n: nat): set<int> {
    if n == 0 then {} else Range(n - 1) + {n - 1}
  }

  lemma RangeSize(n: nat)
    ensures |Range(n)| == n
    ensures forall i :: i in Range(n) <==> 0 <= i < n
  {
  }

  ghost function Elements(s: seq<int>): set<int> {
    set i | 0 <= i < |s| :: s[i]
  }

  lemma {:induction false} ElementsSize(s: seq<int>)
    requires Distinct(s)
    ensures |Elements(s)| == |s|
  {
    if s == [] {
    } else {
      var k := |s| - 1;
      ElementsSize(s[..k]);
      assert Elements(s) == Elements(s[..k]) + {s[k]};
      assert s[k] !in Elements(s[..k]);
    }
  }

  lemma SubsetSize<T>(a: set<T>, b: set<T>)
    requires a <= b
    ensures |a| <= |b|
  {
    assert b == a + (b - a);
  }

  /** Pigeonhole: an injective sequence into its own index range hits everything. */
  lemma Surjective(p: seq<int>, v: int)
    requires IsPermutation(p) && 0 <= v < |p|
    ensures exists i :: 0 <= i < |p| && p[i] == v
  {
    if v !in Elements(p) {
      ElementsSize(p);
      RangeSize(|p|);
      SubsetSize(Elements(p), Range(|p|) - {v});
      assert false;
    }
  }

  /** A strict order has only one sorted enumeration of 0..n. */
  lemma SortedUnique(less: (int, int) -> bool, a: seq<int>, b: seq<int>)
    requires |a| == |b| && IsPermutation(a) && IsPermutation(b)
    requires StrictOrder(less, |a|) && SortedBy(less, a) && SortedBy(less, b)
    ensures a == b
  {
    var k := 0;
    while k < |a|
      invariant 0 <= k <= |a| && a[..k] == b[..k]
    {
      if a[k] != b[k] {
        var m := Later(a, b, k);
        var m' := Later(b, a, k);
        assert false;
      }
      k := k + 1;
    }
  }

  lemma Later(a: seq<int>, b: seq<int>, k: nat) returns (m: nat)
    requires |a| == |b| && IsPermutation(a) && IsPermutation(b)
    requires k < |a| && a[..k] == b[..k] && a[k] != b[k]
    ensures k < m < |a| && a[m] == b[k]
  {
    assert forall i :: 0 <= i < k ==> a[i] == a[..k][i] == b[..k][i] == b[i];
    Surjective(a, b[k]);
    m :| 0 <= m < |a| && a[m] == b[k];
  }

  /** Writing the next element of an output over a sequence that is read in the same order. */
  lemma WriteAt(before: seq<int>, i: nat, v: int, rest: seq<int>)
    requires i < |before|
    ensures before[i := v][..i + 1] + rest == before[..i] + ([v] + rest)
    ensures before[i := v][i + 1..] == before[i..][1..] == before[i + 1..]
  {
    assert before[i := v][..i + 1] == before[..i] + [v];
  }
}
