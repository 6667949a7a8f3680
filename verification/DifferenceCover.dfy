/** The mathematics of the skew (DC3) construction: positions that are not multiples of three,
    their naming by triples, and the comparisons of the final merge. */
module DifferenceCover {
  import opened Permutations
  import opened Suffixes
  import opened RadixPass

  /** Only the front sentinel may be zero, so zero marks the end everywhere else. */
  ghost predicate IsText(t: seq<int>, bound: nat) {
    forall i :: 0 <= i < |t| ==> (if i == 0 then 0 else 1) <= t[i] <= bound
  }

  /** The text continued by zeros. */
  ghost function At(t: seq<int>, i: nat): int {
    if i < |t| then t[i] else 0
  }

  function N0(n: nat): nat { (n + 2) / 3 }
  function N1(n: nat): nat { (n + 1) / 3 }
  function N02(n: nat): nat { (n + 2) / 3 + n / 3 }

  /** The reduced text is never empty, and shorter than the text: the recursion terminates. */
  lemma ReducedSize(n: nat)
    ensures n >= 1 ==> N02(n) > 0
    ensures n >= 2 ==> N02(n) < n
  {
  }

  lemma SizesOfOne()
    ensures N0(1) == 1 && N02(1) == 1
  {
  }

  /** The text position named by index k of the reduced text: residues 1 first, then residues 2. */
  function Pos(n: nat, k: nat): nat {
    if k < N0(n) then 3 * k + 1 else 3 * (k - N0(n)) + 2
  }

  function Idx(n: nat, p: nat): nat {
    if p % 3 == 1 then p / 3 else p / 3 + N0(n)
  }

  /** Sample positions: not multiples of three, including position n itself when n % 3 == 1. */
  ghost predicate IsSample(n: nat, p: int) {
    0 <= p < n + (N0(n) - N1(n)) && p % 3 != 0
  }

  lemma SampleIndex(n: nat, p: nat)
    requires IsSample(n, p)
    ensures Idx(n, p) < N02(n) && Pos(n, Idx(n, p)) == p && 1 <= p <= n
  {
    var m, a := n / 3, p / 3;
    assert n == 3 * m || n == 3 * m + 1 || n == 3 * m + 2;
    assert p == 3 * a + 1 || p == 3 * a + 2;
  }

  lemma IndexCases(n: nat, p: nat)
    ensures Idx(n, p) == if p % 3 == 1 then p / 3 else p / 3 + N0(n)
  {
  }

  lemma IndexSample(n: nat, k: nat)
    requires k < N02(n)
    ensures IsSample(n, Pos(n, k)) && Idx(n, Pos(n, k)) == k && 1 <= Pos(n, k) <= n
  {
  }

  /** Lexicographic comparison of the symbols off, off+1, .. 2 after positions p and q. */
  ghost predicate TripleLess(t: seq<int>, off: nat, p: nat, q: nat)
    decreases 3 - off
  {
    off < 3 && (At(t, p + off) < At(t, q + off)
                || (At(t, p + off) == At(t, q + off) && TripleLess(t, off + 1, p, q)))
  }

  ghost predicate TripleEqual(t: seq<int>, p: nat, q: nat) {
    At(t, p) == At(t, q) && At(t, p + 1) == At(t, q + 1) && At(t, p + 2) == At(t, q + 2)
  }

  lemma TripleCases(t: seq<int>, p: nat, q: nat)
    ensures TripleLess(t, 0, p, q) <==>
              (At(t, p) < At(t, q)
               || (At(t, p) == At(t, q) && (At(t, p + 1) < At(t, q + 1)
                                            || (At(t, p + 1) == At(t, q + 1) && At(t, p + 2) < At(t, q + 2)))))
  {
    assert !TripleLess(t, 3, p, q);
    assert TripleLess(t, 2, p, q) <==> At(t, p + 2) < At(t, q + 2);
    assert TripleLess(t, 1, p, q) <==>
      (At(t, p + 1) < At(t, q + 1) || (At(t, p + 1) == At(t, q + 1) && TripleLess(t, 2, p, q)));
  }

  /** One step of the suffix comparison, in terms of the padded text. */
  lemma SufStep(t: seq<int>, bound: nat, p: nat, q: nat)
    requires IsText(t, bound) && 1 <= p <= |t| && 1 <= q <= |t|
    ensures At(t, p) < At(t, q) ==> SufLess(t, p, q)
    ensures At(t, p) == At(t, q) && p != q ==> p < |t| && q < |t| && (SufLess(t, p, q) <==> SufLess(t, p + 1, q + 1))
  {
  }

  lemma TripleDecides(t: seq<int>, bound: nat, p: nat, q: nat)
    requires IsText(t, bound) && 1 <= p <= |t| && 1 <= q <= |t| && p != q
    ensures TripleLess(t, 0, p, q) ==> SufLess(t, p, q)
    ensures TripleEqual(t, p, q) ==> p + 2 < |t| && q + 2 < |t| && (SufLess(t, p, q) <==> SufLess(t, p + 3, q + 3))
  {
    TripleCases(t, p, q);
    SufStep(t, bound, p, q);
    if At(t, p) == At(t, q) {
      SufStep(t, bound, p + 1, q + 1);
      if At(t, p + 1) == At(t, q + 1) { SufStep(t, bound, p + 2, q + 2); }
    }
  }

  /** r names the triples at the sample positions in lexicographic order. */
  ghost predicate IsNaming(t: seq<int>, r: seq<int>) {
    && |r| == N02(|t|)
    && (forall k, l :: 0 <= k < |r| && 0 <= l < |r| ==>
          (r[k] < r[l] <==> TripleLess(t, 0, Pos(|t|, k), Pos(|t|, l))))
  }

  lemma EqualNames(t: seq<int>, r: seq<int>, k: nat, l: nat)
    requires IsNaming(t, r) && k < |r| && l < |r| && r[k] == r[l]
    ensures TripleEqual(t, Pos(|t|, k), Pos(|t|, l))
  {
    TripleCases(t, Pos(|t|, k), Pos(|t|, l));
    TripleCases(t, Pos(|t|, l), Pos(|t|, k));
  }

  /** Suffix order of the reduced text is suffix order at the sample positions: equal triples never
      straddle the seam between the two halves, because the seam's triple holds the end of the text. */
  lemma {:induction false} NamesRefine(t: seq<int>, bound: nat, r: seq<int>, k: nat, l: nat)
    requires IsText(t, bound) && IsNaming(t, r) && k < |r| && l < |r| && SufLess(r, k, l)
    ensures SufLess(t, Pos(|t|, k), Pos(|t|, l))
    decreases |r| - k
  {
    hide TripleLess, TripleEqual, IsText;
    var n := |t|;
    Irreflexive(r, k);
    IndexSample(n, k);
    IndexSample(n, l);
    TripleDecides(t, bound, Pos(n, k), Pos(n, l));
    if r[k] == r[l] {
      EqualNames(t, r, k, l);
      assert Pos(n, l + 1) == Pos(n, l) + 3;
      if k + 1 < |r| {
        assert Pos(n, k + 1) == Pos(n, k) + 3;
        NamesRefine(t, bound, r, k + 1, l + 1);
      } else {
        assert Pos(n, k) + 3 == n;
        IndexSample(n, l + 1);
      }
    }
  }

  ghost predicate Ranked(r: seq<int>, s: seq<int>) {
    && |r| == |s|
    && IsPermutation(s)
    && (forall i :: 0 <= i < |s| ==> r[s[i]] == i + 1)
  }

  /** s lists the indices of the reduced text by increasing sample suffix, r holds their ranks from 1. */
  ghost predicate SampleRanks(t: seq<int>, r: seq<int>, s: seq<int>) {
    && |r| == N02(|t|)
    && Ranked(r, s)
    && (forall i, j :: 0 <= i < j < |s| ==> SufLess(t, Pos(|t|, s[i]), Pos(|t|, s[j])))
  }

  lemma RankLess(t: seq<int>, r: seq<int>, s: seq<int>, k: nat, l: nat)
    requires SampleRanks(t, r, s) && k < |r| && l < |r|
    ensures 1 <= r[k]
    ensures r[k] < r[l] <==> SufLess(t, Pos(|t|, k), Pos(|t|, l))
  {
    Surjective(s, k);
    Surjective(s, l);
    var i :| 0 <= i < |s| && s[i] == k;
    var j :| 0 <= j < |s| && s[j] == l;
    if i < j {
    } else if i == j {
      Irreflexive(t, Pos(|t|, k));
    } else {
      Asymmetric(t, Pos(|t|, l), Pos(|t|, k));
    }
  }

  /** The rank the merge looks up for position p; the empty suffix past the samples ranks 0. */
  ghost function Rank(n: nat, r: seq<int>, p: nat): int {
    At(r, Idx(n, p))
  }

  lemma RankOrder(t: seq<int>, r: seq<int>, s: seq<int>, p: nat, q: nat)
    requires SampleRanks(t, r, s) && p <= |t| && q <= |t| && p % 3 != 0 && q % 3 != 0 && p != q
    ensures Rank(|t|, r, p) < Rank(|t|, r, q) <==> SufLess(t, p, q)
    ensures Rank(|t|, r, p) != Rank(|t|, r, q)
  {
    Total(t, p, q);
    RankBounds(t, r, s, p);
    RankBounds(t, r, s, q);
    if p == |t| {
      Asymmetric(t, p, q);
    } else if q == |t| {
      Asymmetric(t, q, p);
    } else {
      RankLess(t, r, s, Idx(|t|, p), Idx(|t|, q));
      RankLess(t, r, s, Idx(|t|, q), Idx(|t|, p));
    }
  }

  lemma RankBounds(t: seq<int>, r: seq<int>, s: seq<int>, p: nat)
    requires SampleRanks(t, r, s) && p <= |t| && p % 3 != 0
    ensures p < |t| ==> IsSample(|t|, p) && Idx(|t|, p) < |r| && Pos(|t|, Idx(|t|, p)) == p
    ensures forall q :: 0 <= q < |t| && q % 3 != 0 && p == |t| ==> Rank(|t|, r, p) < Rank(|t|, r, q)
  {
    if p == |t| {
      forall q | 0 <= q < |t| && q % 3 != 0 ensures Rank(|t|, r, p) < Rank(|t|, r, q) {
        var k, l := Idx(|t|, p), Idx(|t|, q);
        assert l < |r| && Pos(|t|, l) == q;
        RankLess(t, r, s, l, l);
        if k < |r| { RankLess(t, r, s, k, l); } else { assert At(r, k) == 0; }
      }
    }
  }

  /** The merge's pair comparison: symbol, then the rank one position on. */
  lemma PairMerge(t: seq<int>, r: seq<int>, s: seq<int>, i: nat, j: nat)
    requires SampleRanks(t, r, s) && i < |t| && j < |t| && i != j && (i + 1) % 3 != 0 && (j + 1) % 3 != 0
    ensures (t[i] < t[j] || (t[i] == t[j] && Rank(|t|, r, i + 1) <= Rank(|t|, r, j + 1))) <==> SufLess(t, i, j)
  {
    RankOrder(t, r, s, i + 1, j + 1);
  }

  lemma SufUnfold(t: seq<int>, i: nat, j: nat)
    requires i < |t| && j < |t|
    ensures SufLess(t, i, j) <==> t[i] < t[j] || (t[i] == t[j] && SufLess(t, i + 1, j + 1))
  {
  }

  /** The merge's triple comparison: two symbols, then the rank two positions on. Whatever stands
      for the rank of a position past the end is never consulted. */
  lemma TripleMerge(t: seq<int>, bound: nat, r: seq<int>, s: seq<int>, i: nat, j: nat, x: int, y: int)
    requires IsText(t, bound) && SampleRanks(t, r, s)
    requires i < |t| && j < |t| && i % 3 == 2 && j % 3 == 0
    requires i + 2 <= |t| ==> x == Rank(|t|, r, i + 2)
    requires j + 2 <= |t| ==> y == Rank(|t|, r, j + 2)
    ensures (t[i] < t[j] || (t[i] == t[j] &&
               (At(t, i + 1) < At(t, j + 1) || (At(t, i + 1) == At(t, j + 1) && x <= y)))) <==> SufLess(t, i, j)
  {
    hide SampleRanks, Rank, IsText, SufLess;
    assert (i + 2) % 3 == 1 && (j + 2) % 3 == 2;
    SufUnfold(t, i, j);
    if t[i] == t[j] {
      SufStep(t, bound, i + 1, j + 1);
      SufStep(t, bound, j + 1, i + 1);
      if At(t, i + 1) == At(t, j + 1) {
        RankOrder(t, r, s, i + 2, j + 2);
      } else if At(t, i + 1) > At(t, j + 1) {
        Asymmetric(t, j + 1, i + 1);
      }
    }
  }

  /** Recursion: the suffix array of the names ranks the samples. */
  lemma RecursiveRanks(t: seq<int>, bound: nat, r: seq<int>, s: seq<int>, ranks: seq<int>)
    requires IsText(t, bound) && IsNaming(t, r) && IsSuffixArray(r, s)
    requires |ranks| == |r| && forall i :: 0 <= i < |s| ==> ranks[s[i]] == i + 1
    ensures SampleRanks(t, ranks, s)
  {
    forall i, j | 0 <= i < j < |s| ensures SufLess(t, Pos(|t|, s[i]), Pos(|t|, s[j])) {
      NamesRefine(t, bound, r, s[i], s[j]);
    }
  }

  /** No recursion: when all names differ they are the ranks. */
  lemma DirectRanks(t: seq<int>, bound: nat, r: seq<int>, s: seq<int>)
    requires IsText(t, bound) && IsNaming(t, r) && |s| == |r| && IsPermutation(s)
    requires forall i :: 0 <= i < |s| ==> r[s[i]] == i + 1
    ensures SampleRanks(t, r, s)
  {
    forall i, j | 0 <= i < j < |s| ensures SufLess(t, Pos(|t|, s[i]), Pos(|t|, s[j])) {
      IndexSample(|t|, s[i]);
      IndexSample(|t|, s[j]);
      assert r[s[i]] < r[s[j]];
      TripleDecides(t, bound, Pos(|t|, s[i]), Pos(|t|, s[j]));
    }
  }

  /** The entries of s below m, in order. */
  ghost function Small(s: seq<int>, m: nat): seq<int> {
    if s == [] then []
    else Small(s[..|s| - 1], m) + (if s[|s| - 1] < m then [s[|s| - 1]] else [])
  }

  lemma SmallNone(m: nat)
    ensures Small([], m) == []
  {
  }

  lemma SmallStep(s: seq<int>, m: nat, i: nat)
    requires i < |s|
    ensures Small(s[..i + 1], m) == Small(s[..i], m) + (if s[i] < m then [s[i]] else [])
  {
    assert s[..i + 1][..i] == s[..i];
  }

  /** q holds indices below m whose ranks, at most i, increase. */
  ghost predicate Increasing(q: seq<int>, m: nat, r: seq<int>, i: nat) {
    && (forall x :: 0 <= x < |q| ==> 0 <= q[x] < |r| && q[x] < m && 1 <= r[q[x]] <= i)
    && (forall x, y :: 0 <= x < y < |q| ==> r[q[x]] < r[q[y]])
  }

  lemma IncreasingStep(q: seq<int>, m: nat, r: seq<int>, i: nat, v: int)
    requires Increasing(q, m, r, i)
    ensures Increasing(q, m, r, i + 1)
    ensures 0 <= v < |r| && v < m && r[v] == i + 1 ==> Increasing(q + [v], m, r, i + 1)
  {
  }

  lemma {:induction false} SmallRanked(s: seq<int>, m: nat, r: seq<int>, i: nat)
    requires i <= |s| && Ranked(r, s)
    ensures Increasing(Small(s[..i], m), m, r, i)
  {
    if i == 0 {
    } else {
      SmallRanked(s, m, r, i - 1);
      SmallStep(s, m, i - 1);
      IncreasingStep(Small(s[..i - 1], m), m, r, i - 1, s[i - 1]);
    }
  }

  lemma {:induction false} SmallComplete(s: seq<int>, m: nat, i: nat, x: nat)
    requires x < i <= |s| && s[x] < m
    ensures s[x] in Small(s[..i], m)
  {
    SmallStep(s, m, i - 1);
    if x < i - 1 { SmallComplete(s, m, i - 1, x); }
  }

  lemma SmallSize(s: seq<int>, m: nat, r: seq<int>, i: nat)
    requires i <= |s| && m <= |s| && Ranked(r, s)
    ensures |Small(s[..i], m)| <= m
    ensures i == |s| ==> |Small(s[..i], m)| == m
  {
    hide Small, Ranked;
    var q := Small(s[..i], m);
    SmallRanked(s, m, r, i);
    assert Distinct(q);
    ElementsSize(q);
    RangeSize(m);
    SubsetSize(Elements(q), Range(m));
    if i == |s| {
      forall k: nat | k < m ensures k in Elements(q) { SmallHasAll(s, m, r, k); }
      assert Elements(q) == Range(m);
    }
  }

  lemma SmallHasAll(s: seq<int>, m: nat, r: seq<int>, k: nat)
    requires m <= |s| && Ranked(r, s) && k < m
    ensures k in Small(s[..|s|], m)
  {
    hide Small;
    Surjective(s, k);
    var x :| 0 <= x < |s| && s[x] == k;
    SmallComplete(s, m, |s|, x);
  }

  /** u lists the multiples of three by increasing suffix. */
  ghost predicate MultiplesSorted(t: seq<int>, u: seq<int>) {
    && |u| == N0(|t|)
    && (forall a :: 0 <= a < |u| ==> 0 <= u[a] < |t| && u[a] % 3 == 0)
    && (forall a, b :: 0 <= a < b < |u| ==> SufLess(t, u[a], u[b]))
  }

  /** Multiples of three listed by the rank one position on, then sorted stably by their own symbol. */
  lemma StablePassSortsMultiples(t: seq<int>, r: seq<int>, s: seq<int>, q: seq<int>, ks: seq<int>, pi: seq<int>,
      u: seq<int>)
    requires SampleRanks(t, r, s) && q == Small(s, N0(|t|)) && |u| == |ks| == |q|
    requires forall x :: 0 <= x < |q| ==> 0 <= q[x] && ks[x] == At(t, 3 * q[x])
    requires IsStableOrder(ks, pi) && forall x :: 0 <= x < |u| ==> u[x] == 3 * q[pi[x]]
    ensures MultiplesSorted(t, u)
  {
    hide Small, SampleRanks, N0, N02, SufLess, At;
    SmallMultiples(t, r, s);
    forall a, b | 0 <= a < b < |u| ensures SufLess(t, u[a], u[b]) {
      assert StablyBefore(ks, pi[a], pi[b]);
      MultiplesOrder(t, r, s, q[pi[a]], q[pi[b]]);
    }
    forall a | 0 <= a < |u| ensures 0 <= u[a] < |t| && u[a] % 3 == 0 { MultiplesOrder(t, r, s, q[pi[a]], q[pi[a]]); }
  }

  /** Listed by rank, the multiples of three come as often as they should and by increasing rank. */
  lemma SmallMultiples(t: seq<int>, r: seq<int>, s: seq<int>)
    requires SampleRanks(t, r, s)
    ensures var q := Small(s, N0(|t|));
            && |q| == N0(|t|) <= |r|
            && (forall x :: 0 <= x < |q| ==> 0 <= q[x] < N0(|t|))
            && (forall x, y :: 0 <= x < y < |q| ==> r[q[x]] < r[q[y]])
  {
    hide Small;
    assert s[..|s|] == s;
    SmallRanked(s, N0(|t|), r, |s|);
    SmallSize(s, N0(|t|), r, |s|);
  }

  lemma MultiplesOrder(t: seq<int>, r: seq<int>, s: seq<int>, k: nat, l: nat)
    requires SampleRanks(t, r, s) && k < N0(|t|) && l < N0(|t|)
    ensures 3 * k < |t| && (3 * k) % 3 == 0 && k < |r| && l < |r|
    ensures At(t, 3 * k) < At(t, 3 * l) || (At(t, 3 * k) == At(t, 3 * l) && r[k] < r[l]) ==> SufLess(t, 3 * k, 3 * l)
  {
    hide SampleRanks, SufLess;
    FirstResidue(|t|, k);
    FirstResidue(|t|, l);
    assert |r| == N02(|t|) by { RanksLength(t, r, s); }
    RankLess(t, r, s, k, l);
    hide N0, N02, Pos;
    SufUnfold(t, 3 * k, 3 * l);
  }

  lemma FirstResidue(n: nat, k: nat)
    requires k < N0(n)
    ensures 3 * k < n && (3 * k) % 3 == 0 && Pos(n, k) == 3 * k + 1 && k < N02(n)
  {
  }

  lemma RanksLength(t: seq<int>, r: seq<int>, s: seq<int>)
    requires SampleRanks(t, r, s)
    ensures |r| == N02(|t|)
  {
  }

  lemma SingleRank(t: seq<int>, r: seq<int>, s: seq<int>, u: seq<int>)
    requires |t| == 1 && SampleRanks(t, r, s) && MultiplesSorted(t, u)
    ensures r == [1] && u == [0]
  {
    assert s[0] == 0;
  }

  /** A merge in progress: p multiples and the samples up to index q are out, in order, and everything
      still waiting is larger. The first d samples (the position past the end, if sampled) are skipped. */
  ghost predicate Merging(t: seq<int>, u: seq<int>, s: seq<int>, p: nat, q: nat, out: seq<int>) {
    && p <= |u| && N0(|t|) - N1(|t|) <= q <= |s| && |out| == p + (q - (N0(|t|) - N1(|t|)))
    && (forall x :: 0 <= x < |s| ==> 0 <= s[x])
    && (forall x :: 0 <= x < |u| ==> 0 <= u[x])
    && (forall x :: 0 <= x < |out| ==> 0 <= out[x] < |t|)
    && (forall x, y :: 0 <= x < y < |out| ==> SufLess(t, out[x], out[y]))
    && (forall x, y :: 0 <= x < |out| && p <= y < |u| ==> SufLess(t, out[x], u[y]))
    && (forall x, y :: 0 <= x < |out| && q <= y < |s| ==> SufLess(t, out[x], Pos(|t|, s[y])))
  }

  lemma MergeMultiple(t: seq<int>, r: seq<int>, s: seq<int>, u: seq<int>, p: nat, q: nat, out: seq<int>)
    requires SampleRanks(t, r, s) && MultiplesSorted(t, u) && Merging(t, u, s, p, q, out)
    requires p < |u| && (q < |s| ==> SufLess(t, u[p], Pos(|t|, s[q])))
    ensures Merging(t, u, s, p + 1, q, out + [u[p]])
  {
    hide Pos, N0, N1, N02, SufLess, Distinct;
    forall y | q <= y < |s| ensures SufLess(t, u[p], Pos(|t|, s[y])) {
      if q < y { Transitive(t, u[p], Pos(|t|, s[q]), Pos(|t|, s[y])); }
    }
  }

  lemma MergeSample(t: seq<int>, r: seq<int>, s: seq<int>, u: seq<int>, p: nat, q: nat, out: seq<int>)
    requires SampleRanks(t, r, s) && MultiplesSorted(t, u) && Merging(t, u, s, p, q, out)
    requires q < |s| && (p < |u| ==> SufLess(t, Pos(|t|, s[q]), u[p]))
    ensures Merging(t, u, s, p, q + 1, out + [Pos(|t|, s[q])]) && Pos(|t|, s[q]) < |t|
  {
    hide Pos, N0, N1, N02, SufLess, Distinct;
    SampleInText(t, r, s, q);
    forall y | p <= y < |u| ensures SufLess(t, Pos(|t|, s[q]), u[y]) {
      if p < y { Transitive(t, Pos(|t|, s[q]), u[p], u[y]); }
    }
  }

  /** If the position past the end is a sample, its empty suffix is listed first. */
  lemma SampleInText(t: seq<int>, r: seq<int>, s: seq<int>, q: nat)
    requires SampleRanks(t, r, s) && N0(|t|) - N1(|t|) <= q < |s|
    ensures Pos(|t|, s[q]) < |t|
  {
    var n := |t|;
    IndexSample(n, s[q]);
    if q > 0 { assert SufLess(t, Pos(n, s[0]), Pos(n, s[q])); }
  }

  lemma MergeDone(t: seq<int>, r: seq<int>, s: seq<int>, u: seq<int>, out: seq<int>)
    requires SampleRanks(t, r, s) && MultiplesSorted(t, u) && Merging(t, u, s, |u|, |s|, out)
    ensures IsSuffixArray(t, out)
  {
    SortedIsSuffixArray(t, out);
  }

  lemma MergeStart(t: seq<int>, r: seq<int>, s: seq<int>, u: seq<int>)
    requires |t| >= 2 && SampleRanks(t, r, s) && MultiplesSorted(t, u)
    ensures Merging(t, u, s, 0, N0(|t|) - N1(|t|), [])
    ensures 0 < |u| && N0(|t|) - N1(|t|) < |s| && N1(|t|) <= N0(|t|)
  {
  }

  lemma HeadsInText(t: seq<int>, r: seq<int>, s: seq<int>, u: seq<int>, p: nat, q: nat, out: seq<int>)
    requires SampleRanks(t, r, s) && MultiplesSorted(t, u) && Merging(t, u, s, p, q, out) && p < |u| && q < |s|
    ensures 0 <= s[q] < N02(|t|) && Pos(|t|, s[q]) < |t| && 0 <= u[p] < |t| && u[p] % 3 == 0
    ensures Pos(|t|, s[q]) != u[p]
  {
    SampleInText(t, r, s, q);
    IndexSample(|t|, s[q]);
  }

  lemma MergeLength(t: seq<int>, s: seq<int>, u: seq<int>, r: seq<int>, p: nat, q: nat, out: seq<int>)
    requires SampleRanks(t, r, s) && MultiplesSorted(t, u) && Merging(t, u, s, p, q, out)
    ensures |out| + (|u| - p) + (|s| - q) == |t|
  {
  }
}
