/** The specification a suffix array is judged by: lexicographic order of the suffixes of a text. */
module Suffixes {
  import opened Permutations

  /** Suffix i of t is lexicographically before suffix j; a proper prefix comes first. */
  ghost predicate SufLess(t: seq<int>, i: nat, j: nat)
    decreases |t| - i
  {
    j < |t| && (i < |t| ==> t[i] < t[j] || (t[i] == t[j] && SufLess(t, i + 1, j + 1)))
  }

  lemma {:induction false} Irreflexive(t: seq<int>, i: nat)
    ensures !SufLess(t, i, i)
    decreases |t| - i
  {
    if i < |t| { Irreflexive(t, i + 1); }
  }

  lemma {:induction false} Transitive(t: seq<int>, i: nat, j: nat, k: nat)
    requires SufLess(t, i, j) && SufLess(t, j, k)
    ensures SufLess(t, i, k)
    decreases |t| - i
  {
    if i < |t| && t[i] == t[j] == t[k] { Transitive(t, i + 1, j + 1, k + 1); }
  }

  lemma {:induction false} Total(t: seq<int>, i: nat, j: nat)
    requires i < |t| || j < |t|
    requires i != j
    ensures SufLess(t, i, j) || SufLess(t, j, i)
    decreases |t| - i
  {
    if i < |t| && j < |t| && t[i] == t[j] { Total(t, i + 1, j + 1); }
  }

  lemma Asymmetric(t: seq<int>, i: nat, j: nat)
    requires SufLess(t, i, j)
    ensures !SufLess(t, j, i)
  {
    if SufLess(t, j, i) {
      Transitive(t, i, j, i);
      Irreflexive(t, i);
    }
  }

  /** sa lists every suffix of t once, in strictly increasing lexicographic order. */
  ghost predicate IsSuffixArray(t: seq<int>, sa: seq<int>) {
    && |sa| == |t|
    && IsPermutation(sa)
    && forall i, j :: 0 <= i < j < |sa| ==> SufLess(t, sa[i], sa[j])
  }

  lemma SuffixArrayPermutes(t: seq<int>, sa: seq<int>)
    requires IsSuffixArray(t, sa)
    ensures IsPermutation(sa)
  {
  }

  ghost function Order(t: seq<int>): (int, int) -> bool {
    (i, j) => 0 <= i && 0 <= j && SufLess(t, i, j)
  }

  lemma OrderIsStrict(t: seq<int>)
    ensures StrictOrder(Order(t), |t|)
  {
    forall i | 0 <= i < |t| ensures !Order(t)(i, i) { Irreflexive(t, i); }
    forall i, j, k | 0 <= i < |t| && 0 <= j < |t| && 0 <= k < |t| && Order(t)(i, j) && Order(t)(j, k)
      ensures Order(t)(i, k)
    {
      Transitive(t, i, j, k);
    }
  }

  lemma SuffixArrayUnique(t: seq<int>, a: seq<int>, b: seq<int>)
    requires IsSuffixArray(t, a) && IsSuffixArray(t, b)
    ensures a == b
  {
    OrderIsStrict(t);
    SortedUnique(Order(t), a, b);
  }

  /** Strictly increasing suffixes are automatically distinct. */
  lemma SortedIsSuffixArray(t: seq<int>, sa: seq<int>)
    requires |sa| == |t|
    requires forall i :: 0 <= i < |sa| ==> 0 <= sa[i] < |t|
    requires forall i, j :: 0 <= i < j < |sa| ==> SufLess(t, sa[i], sa[j])
    ensures IsSuffixArray(t, sa)
  {
    forall i, j | 0 <= i < j < |sa| ensures sa[i] != sa[j] {
      Irreflexive(t, sa[i]);
    }
  }
}
