/** `suffix_array`, the recursive skew (DC3) construction, proved to fill suffixes with the suffix array of input. */
module SkewSort {
  import opened Permutations
  import opened Suffixes
  import opened RadixPass
  import opened DifferenceCover

  /** input holds a text of n symbols, none above bound, followed by three zeros. */
  ghost predicate Holds(input: array<int>, n: nat, bound: nat)
    reads input
  {
    && n + 3 <= input.Length
    && IsText(input[..n], bound)
    && input[n] == 0 && input[n + 1] == 0 && input[n + 2] == 0
  }

  lemma PaddedAt(input: array<int>, n: nat, bound: nat, i: nat)
    requires Holds(input, n, bound) && i < n + 3
    ensures input[i] == At(input[..n], i) && 0 <= input[i] <= bound
  {
  }

  method SuffixArray(input: array<int>, suffixes: array<int>, n: nat, bound: nat)
    requires n >= 1 && Holds(input, n, bound) && input != suffixes && n <= suffixes.Length
    modifies suffixes
    ensures n >= 2 ==> IsSuffixArray(input[..n], suffixes[..n])
    ensures n == 1 ==> suffixes[0] == 1
    ensures forall i :: n <= i < suffixes.Length ==> suffixes[i] == old(suffixes[i])
    decreases n, 1
  {
    hide SampleList, SortedFrom, Named, SampleRanks, MultiplesSorted, IsText, IsSuffixArray, N0, N02;
    SizesOfOne();
    var n02 := N02(n);
    var ranks := new int[n02 + 3];
    ranks[n02], ranks[n02 + 1], ranks[n02 + 2] := 0, 0, 0;
    var samples := new int[n02 + 3];
    samples[n02], samples[n02 + 1], samples[n02 + 2] := 0, 0, 0;
    ListSamples(ranks, n);
    SortTriples(input, ranks, samples, n, bound);
    var name := NameTriples(input, ranks, samples, n, bound);
    RankSamples(input, ranks, samples, n, bound, name);
    var multiples := SortMultiples(input, ranks, samples, n, bound);
    if n == 1 {
      MergeSingle(input, ranks, samples, multiples, suffixes, bound);
    } else {
      Merge(input, ranks, samples, multiples, suffixes, n, bound);
    }
  }

  ghost predicate SampleList(n: nat, s: seq<int>) {
    |s| == N02(n) && Distinct(s) && forall i :: 0 <= i < |s| ==> IsSample(n, s[i])
  }

  /** How many of the positions below i are not multiples of three. */
  ghost function SamplesBelow(i: nat): nat { i - (i + 2) / 3 }

  lemma SamplesBelowStep(n: nat, i: nat)
    ensures SamplesBelow(0) == 0
    ensures SamplesBelow(i + 1) == SamplesBelow(i) + (if i % 3 == 0 then 0 else 1)
    ensures IsSample(n, i) ==> SamplesBelow(i) < N02(n)
    ensures SamplesBelow(n + (N0(n) - N1(n))) == N02(n)
  {
  }

  method ListSamples(ranks: array<int>, n: nat)
    requires n >= 1 && ranks.Length == N02(n) + 3
    modifies ranks
    ensures SampleList(n, ranks[..N02(n)])
    ensures forall i :: N02(n) <= i < ranks.Length ==> ranks[i] == old(ranks[i])
  {
    hide N02, SamplesBelow;
    SamplesBelowStep(n, 0);
    var j, n0, n1 := 0, (n + 2) / 3, (n + 1) / 3;
    for i := 0 to n + (n0 - n1)
      invariant j == SamplesBelow(i) <= N02(n)
      invariant forall x :: 0 <= x < j ==> 0 <= ranks[x] < i && ranks[x] % 3 != 0
      invariant forall x, y :: 0 <= x < y < j ==> ranks[x] < ranks[y]
      invariant forall i :: N02(n) <= i < ranks.Length ==> ranks[i] == old(ranks[i])
    {
      SamplesBelowStep(n, i);
      if i % 3 != 0 {
        ranks[j] := i;
        j := j + 1;
      }
    }
    SamplesBelowStep(n, n);
  }

  /** s is ordered by the symbols off .. 2 of its triples. */
  ghost predicate SortedFrom(t: seq<int>, off: nat, s: seq<int>) {
    forall i, j :: 0 <= i < j < |s| && 0 <= s[i] && 0 <= s[j] ==> !TripleLess(t, off, s[j], s[i])
  }

  /** A stable pass by symbol off refines an order by the later symbols; this is why the passes
      run from the last symbol to the first. */
  lemma PassRefines(t: seq<int>, n: nat, off: nat, a: seq<int>, ks: seq<int>, pi: seq<int>, b: seq<int>)
    requires off < 3 && SampleList(n, a) && SortedFrom(t, off + 1, a)
    requires |ks| == |a| == |b| && forall i :: 0 <= i < |a| ==> ks[i] == At(t, a[i] + off)
    requires IsStableOrder(ks, pi) && forall i :: 0 <= i < |b| ==> b[i] == a[pi[i]]
    ensures SampleList(n, b) && SortedFrom(t, off, b)
  {
    forall i, j | 0 <= i < j < |b| ensures !TripleLess(t, off, b[j], b[i]) && b[i] != b[j] {
      assert StablyBefore(ks, pi[i], pi[j]);
      if ks[pi[i]] == ks[pi[j]] { assert !TripleLess(t, off + 1, a[pi[j]], a[pi[i]]); }
    }
  }

  method SortPass(a: array<int>, b: array<int>, input: array<int>, off: nat, n: nat, bound: nat)
    requires b != a && b != input && Holds(input, n, bound) && off < 3
    requires a.Length == N02(n) + 3 && b.Length == N02(n) + 3
    requires SampleList(n, a[..N02(n)]) && SortedFrom(input[..n], off + 1, a[..N02(n)])
    modifies b
    ensures SampleList(n, b[..N02(n)]) && SortedFrom(input[..n], off, b[..N02(n)])
    ensures forall i :: N02(n) <= i < b.Length ==> b[i] == old(b[i])
  {
    hide SortedFrom, StablyBefore, Distinct, IsText;
    ghost var s := a[..N02(n)];
    forall i | 0 <= i < N02(n)
      ensures 0 <= a[i] && off + a[i] < input.Length && 0 <= input[off + a[i]] <= bound
      ensures input[off + a[i]] == At(input[..n], s[i] + off)
    {
      assert IsSample(n, s[i]);
      SampleIndex(n, s[i]);
      PaddedAt(input, n, bound, off + a[i]);
    }
    ghost var ks := Keys(s, input[..], off);
    ghost var pi := Pass(a, b, input, off, N02(n), bound);
    PassRefines(input[..n], n, off, s, ks, pi, b[..N02(n)]);
  }

  method SortTriples(input: array<int>, ranks: array<int>, samples: array<int>, n: nat, bound: nat)
    requires n >= 1 && Holds(input, n, bound) && input != ranks && input != samples && ranks != samples
    requires ranks.Length == N02(n) + 3 && samples.Length == N02(n) + 3 && SampleList(n, ranks[..N02(n)])
    modifies ranks, samples
    ensures SampleList(n, samples[..N02(n)]) && SortedFrom(input[..n], 0, samples[..N02(n)])
    ensures forall i :: N02(n) <= i < ranks.Length ==> ranks[i] == old(ranks[i])
    ensures forall i :: N02(n) <= i < samples.Length ==> samples[i] == old(samples[i])
  {
    SortPass(ranks, samples, input, 2, n, bound);
    SortPass(samples, ranks, input, 1, n, bound);
    SortPass(ranks, samples, input, 0, n, bound);
  }

  /** The names given so far, in sorted order: they rise by at most one, exactly when the triple changes. */
  ghost predicate NamesSoFar(t: seq<int>, s: seq<int>, nm: seq<int>) {
    && |nm| <= |s|
    && (forall x :: 0 <= x < |s| ==> 0 <= s[x])
    && (forall x, y :: 0 <= x < y < |nm| ==> (nm[x] < nm[y] <==> TripleLess(t, 0, s[x], s[y])))
    && Climbs(nm)
  }

  ghost predicate Climbs(nm: seq<int>) {
    && (forall x :: 0 <= x < |nm| ==> 1 <= nm[x] <= x + 1)
    && (forall x, y :: 0 <= x < y < |nm| ==> 0 <= nm[y] - nm[x] <= y - x)
  }

  lemma ClimbsStep(nm: seq<int>, next: int)
    requires Climbs(nm) && Last(nm) <= next <= Last(nm) + 1 && (nm == [] ==> next == 1)
    ensures Climbs(nm + [next])
    ensures forall x :: 0 <= x < |nm| ==> nm[x] <= Last(nm)
  {
  }

  lemma NamesNone(t: seq<int>, n: nat, s: seq<int>)
    requires SampleList(n, s)
    ensures NamesSoFar(t, s, [])
  {
    forall x | 0 <= x < |s| ensures 0 <= s[x] { assert IsSample(n, s[x]); }
  }

  ghost function Last(nm: seq<int>): int {
    if nm == [] then 0 else nm[|nm| - 1]
  }

  lemma NamesStep(t: seq<int>, s: seq<int>, nm: seq<int>)
    requires NamesSoFar(t, s, nm) && |nm| < |s| && SortedFrom(t, 0, s)
    ensures var same := |nm| > 0 && TripleEqual(t, s[|nm| - 1], s[|nm|]);
            NamesSoFar(t, s, nm + [Last(nm) + if same then 0 else 1])
  {
    hide TripleLess, TripleEqual, SortedFrom, Climbs;
    var i := |nm|;
    var next := Last(nm) + if i > 0 && TripleEqual(t, s[i - 1], s[i]) then 0 else 1;
    var nm' := nm + [next];
    ClimbsStep(nm, next);
    forall x, y | 0 <= x < y < |nm'|
      ensures nm'[x] < nm'[y] <==> TripleLess(t, 0, s[x], s[y])
    {
      if y == i { NextName(t, s, nm, x); } else { assert nm'[x] == nm[x] && nm'[y] == nm[y]; }
    }
  }

  lemma NextName(t: seq<int>, s: seq<int>, nm: seq<int>, x: nat)
    requires NamesSoFar(t, s, nm) && x < |nm| < |s| && SortedFrom(t, 0, s)
    ensures var i := |nm|; var next := nm[i - 1] + if TripleEqual(t, s[i - 1], s[i]) then 0 else 1;
            nm[x] < next <==> TripleLess(t, 0, s[x], s[i])
  {
    hide TripleLess, TripleEqual;
    assert nm[x] <= Last(nm);
    TripleChain(t, s[x], s[|nm| - 1], s[|nm|]);
  }

  /** Against a sorted neighbour b <= c, c is above a exactly when b is or the triple changes at c. */
  lemma TripleChain(t: seq<int>, a: nat, b: nat, c: nat)
    requires a == b || !TripleLess(t, 0, b, a)
    requires !TripleLess(t, 0, c, b)
    ensures TripleLess(t, 0, a, c) <==> TripleLess(t, 0, a, b) || !TripleEqual(t, b, c)
    ensures !TripleLess(t, 0, a, a)
  {
    hide TripleLess;
    TripleCases(t, a, a);
    TripleCases(t, a, b);
    TripleCases(t, b, a);
    TripleCases(t, b, c);
    TripleCases(t, c, b);
    TripleCases(t, a, c);
  }

  /** What naming leaves behind: order-preserving names 1 .. name, and the sorted positions if all differ. */
  ghost predicate Named(t: seq<int>, r: seq<int>, s: seq<int>, name: nat) {
    && IsNaming(t, r) && |s| == |r| && SampleList(|t|, s)
    && name <= |r|
    && (forall k :: 0 <= k < |r| ==> 1 <= r[k] <= name)
    && (name == |r| ==> forall i :: 0 <= i < |s| && 0 <= s[i] && Idx(|t|, s[i]) < |r| ==> r[Idx(|t|, s[i])] == i + 1)
  }

  ghost function Indices(n: nat, s: seq<int>): (q: seq<int>)
    requires SampleList(n, s)
    ensures |q| == |s| && IsPermutation(q)
    ensures forall x :: 0 <= x < |s| ==> 0 <= s[x] && 0 <= q[x] < |s| && q[x] == Idx(n, s[x]) && Pos(n, q[x]) == s[x]
  {
    forall x ensures 0 <= x < |s| ==> Idx(n, s[x]) < N02(n) && Pos(n, Idx(n, s[x])) == s[x] {
      if 0 <= x < |s| { SampleIndex(n, s[x]); }
    }
    seq(|s|, x requires 0 <= x < |s| => Idx(n, s[x]) as int)
  }

  lemma NamesOrder(t: seq<int>, s: seq<int>, nm: seq<int>, x: nat, y: nat)
    requires NamesSoFar(t, s, nm) && SortedFrom(t, 0, s) && x < |nm| && y < |nm|
    ensures nm[x] < nm[y] <==> TripleLess(t, 0, s[x], s[y])
  {
    hide TripleLess;
    TripleCases(t, s[x], s[x]);
    if y < x { assert nm[y] <= nm[x]; }
  }

  lemma NamesDone(t: seq<int>, s: seq<int>, nm: seq<int>, r: seq<int>)
    requires SampleList(|t|, s) && SortedFrom(t, 0, s) && NamesSoFar(t, s, nm) && |r| == |nm| == |s| > 0
    requires forall x :: 0 <= x < |s| ==> r[Indices(|t|, s)[x]] == nm[x]
    ensures Named(t, r, s, Last(nm))
  {
    hide Idx, Pos, TripleLess, IsSample, SortedFrom;
    var q := Indices(|t|, s);
    forall k | 0 <= k < |r| ensures 1 <= r[k] <= Last(nm) {
      Surjective(q, k);
    }
    forall k, l | 0 <= k < |r| && 0 <= l < |r|
      ensures r[k] < r[l] <==> TripleLess(t, 0, Pos(|t|, k), Pos(|t|, l))
    {
      Surjective(q, k);
      Surjective(q, l);
      var x :| 0 <= x < |q| && q[x] == k;
      var y :| 0 <= y < |q| && q[y] == l;
      NamesOrder(t, s, nm, x, y);
    }
  }

  lemma TripleAt(input: array<int>, n: nat, bound: nat, p: nat)
    requires Holds(input, n, bound) && p <= n
    ensures input[p] == At(input[..n], p) >= 0
    ensures input[p + 1] == At(input[..n], p + 1) && input[p + 2] == At(input[..n], p + 2)
  {
    hide At, IsText;
    PaddedAt(input, n, bound, p);
    PaddedAt(input, n, bound, p + 1);
    PaddedAt(input, n, bound, p + 2);
  }

  /** The name of a position goes to its index in the reduced text. */
  method WriteName(ranks: array<int>, n: nat, p: nat, name: nat)
    requires ranks.Length == N02(n) + 3 && Idx(n, p) < N02(n)
    modifies ranks
    ensures ranks[Idx(n, p)] == name
    ensures forall k :: 0 <= k < ranks.Length && k != Idx(n, p) ==> ranks[k] == old(ranks[k])
  {
    IndexCases(n, p);
    if p % 3 == 1 {
      ranks[p / 3] := name;
    } else {
      ranks[p / 3 + N0(n)] := name;
    }
  }

  method NameTriples(input: array<int>, ranks: array<int>, samples: array<int>, n: nat, bound: nat) returns (name: nat)
    requires n >= 1 && Holds(input, n, bound) && input != ranks && input != samples && ranks != samples
    requires ranks.Length == N02(n) + 3 && samples.Length == N02(n) + 3
    requires SampleList(n, samples[..N02(n)]) && SortedFrom(input[..n], 0, samples[..N02(n)])
    modifies ranks
    ensures Named(input[..n], ranks[..N02(n)], samples[..N02(n)], name)
    ensures forall i :: N02(n) <= i < ranks.Length ==> ranks[i] == old(ranks[i])
  {
    hide TripleLess, Named, Distinct, SortedFrom, IsText, NamesSoFar, IsSample, N0, N02, Idx, At, IsPermutation;
    ghost var t, s := input[..n], samples[..N02(n)];
    ghost var nm, q := [], Indices(n, s);
    assert NamesSoFar(t, s, nm) by { NamesNone(t, n, s); }
    var n02 := N02(n);
    name := 0;
    var c0, c1, c2 := -1, -1, -1;
    for i := 0 to n02
      invariant |nm| == i && NamesSoFar(t, s, nm) && name == Last(nm)
      invariant if i == 0 then c0 == -1
                else c0 == At(t, s[i - 1]) && c1 == At(t, s[i - 1] + 1) && c2 == At(t, s[i - 1] + 2)
      invariant forall x :: 0 <= x < i ==> ranks[q[x]] == nm[x]
      invariant forall i :: n02 <= i < ranks.Length ==> ranks[i] == old(ranks[i])
    {
      var p := samples[i];
      assert p == s[i] && q[i] == Idx(n, p) && IsSample(n, s[i]);
      assert forall x :: 0 <= x < i ==> q[x] != q[i] by { PermutationDistinct(q, i); }
      SampleIndex(n, p);
      TripleAt(input, n, bound, p);
      NamesStep(t, s, nm);
      if input[samples[i]] != c0 || input[samples[i] + 1] != c1 || input[samples[i] + 2] != c2 {
        name := name + 1;
        c0, c1, c2 := input[samples[i]], input[samples[i] + 1], input[samples[i] + 2];
      }
      nm := nm + [name];
      WriteName(ranks, n, samples[i], name);
    }
    assert forall x :: 0 <= x < n02 ==> ranks[..n02][q[x]] == nm[x];
    ReducedSize(n);
    NamesDone(t, s, nm, ranks[..n02]);
  }

  method RankSamples(input: array<int>, ranks: array<int>, samples: array<int>, n: nat, bound: nat, name: nat)
    requires n >= 1 && Holds(input, n, bound) && input != ranks && input != samples && ranks != samples
    requires ranks.Length == N02(n) + 3 && samples.Length == N02(n) + 3
    requires Named(input[..n], ranks[..N02(n)], samples[..N02(n)], name)
    requires ranks[N02(n)] == ranks[N02(n) + 1] == ranks[N02(n) + 2] == 0
    modifies ranks, samples
    ensures SampleRanks(input[..n], ranks[..N02(n)], samples[..N02(n)])
    ensures forall i :: N02(n) <= i < ranks.Length ==> ranks[i] == old(ranks[i])
    ensures forall i :: N02(n) <= i < samples.Length ==> samples[i] == old(samples[i])
    decreases n, 0
  {
    hide SampleRanks, IsNaming, IsSuffixArray;
    ReducedSize(n);
    ghost var t, r := input[..n], ranks[..N02(n)];
    var n02 := N02(n);
    if name < n02 {
      assert r[0] >= 1;
      assert Holds(ranks, n02, name);
      SuffixArray(ranks, samples, n02, name);
      SuffixArrayPermutes(r, samples[..n02]);
      RankByPosition(ranks, samples, n02);
      RecursiveRanks(t, bound, r, samples[..n02], ranks[..n02]);
    } else {
      InvertRanks(ranks, samples, n, t, name);
      DirectRanks(t, bound, r, samples[..n02]);
    }
  }

  method RankByPosition(ranks: array<int>, samples: array<int>, n02: nat)
    requires ranks != samples && ranks.Length == samples.Length == n02 + 3 && IsPermutation(samples[..n02])
    modifies ranks
    ensures forall i :: 0 <= i < n02 ==> 0 <= samples[i] < n02 && ranks[samples[i]] == i + 1
    ensures forall i :: n02 <= i < ranks.Length ==> ranks[i] == old(ranks[i])
  {
    ghost var s := samples[..n02];
    for i := 0 to n02
      invariant forall x :: 0 <= x < i ==> 0 <= s[x] < n02 && ranks[s[x]] == x + 1
      invariant forall i :: n02 <= i < ranks.Length ==> ranks[i] == old(ranks[i])
    {
      assert samples[i] == s[i];
      PermutationDistinct(s, i);
      ranks[samples[i]] := i + 1;
    }
    assert forall i :: 0 <= i < n02 ==> samples[i] == s[i];
  }

  method InvertRanks(ranks: array<int>, samples: array<int>, n: nat, ghost t: seq<int>, ghost name: nat)
    requires ranks != samples && ranks.Length == samples.Length == N02(n) + 3 && n == |t|
    requires Named(t, ranks[..N02(n)], samples[..N02(n)], name) && name >= N02(n)
    modifies samples
    ensures IsPermutation(samples[..N02(n)])
    ensures forall i :: 0 <= i < N02(n) ==> 0 <= samples[i] < N02(n) && ranks[samples[i]] == i + 1
    ensures forall i :: N02(n) <= i < samples.Length ==> samples[i] == old(samples[i])
  {
    hide IsNaming, TripleLess, N02, Idx, Pos, IsSample;
    var n02 := N02(n);
    ghost var r, s := ranks[..n02], samples[..n02];
    ghost var q := Indices(n, s);
    for i := 0 to n02
      invariant forall k :: 0 <= k < i ==> samples[r[k] - 1] == k
      invariant forall i :: n02 <= i < samples.Length ==> samples[i] == old(samples[i])
    {
      assert ranks[i] == r[i] && forall k :: 0 <= k < i ==> r[k] != r[i] by { NamesDiffer(t, r, s, name, i); }
      samples[ranks[i] - 1] := i;
    }
    assert forall x :: 0 <= x < n02 ==> samples[r[q[x]] - 1] == q[x] && r[q[x]] == x + 1;
    assert samples[..n02] == q;
  }

  lemma NamesDiffer(t: seq<int>, r: seq<int>, s: seq<int>, name: nat, i: nat)
    requires Named(t, r, s, name) && name == |r| && i < |r|
    ensures forall k :: 0 <= k < |r| && k != i ==> r[k] != r[i]
  {
    hide IsNaming, Idx;
    var q := Indices(|t|, s);
    forall k | 0 <= k < |r| && k != i ensures r[k] != r[i] {
      Surjective(q, k);
      Surjective(q, i);
    }
  }

  method SortMultiples(input: array<int>, ranks: array<int>, samples: array<int>, n: nat, bound: nat)
    returns (multiples: array<int>)
    requires n >= 1 && Holds(input, n, bound) && input != ranks && input != samples && ranks != samples
    requires ranks.Length == N02(n) + 3 && samples.Length == N02(n) + 3
    requires SampleRanks(input[..n], ranks[..N02(n)], samples[..N02(n)])
    ensures fresh(multiples) && multiples.Length == N0(n) && MultiplesSorted(input[..n], multiples[..])
  {
    hide SampleRanks, MultiplesSorted, StablyBefore, Distinct, Small;
    ghost var t, r, s := input[..n], ranks[..N02(n)], samples[..N02(n)];
    var n0 := N0(n);
    var thirds := ListMultiples(samples, n, t, r);
    multiples := new int[n0];
    ghost var q := Small(s, n0);
    forall i | 0 <= i < n0
      ensures 0 <= thirds[i] < input.Length && 0 <= input[thirds[i]] <= bound && input[thirds[i]] == At(t, thirds[i])
    {
      PaddedAt(input, n, bound, thirds[i]);
    }
    ghost var ks := Keys(thirds[..n0], input[..], 0);
    ghost var pi := Pass(thirds, multiples, input, 0, n0, bound);
    assert multiples[..] == multiples[..n0];
    StablePassSortsMultiples(t, r, s, q, ks, pi, multiples[..]);
  }

  method ListMultiples(samples: array<int>, n: nat, ghost t: seq<int>, ghost r: seq<int>) returns (thirds: array<int>)
    requires samples.Length == N02(n) + 3 && |t| == n && SampleRanks(t, r, samples[..N02(n)])
    ensures fresh(thirds) && thirds.Length == N0(n) == |Small(samples[..N02(n)], N0(n))|
    ensures forall x :: 0 <= x < thirds.Length ==>
            thirds[x] == 3 * Small(samples[..N02(n)], N0(n))[x] && 0 <= thirds[x] < n
  {
    hide Ranked, SufLess, Small;
    ghost var s := samples[..N02(n)];
    var j, n0, n02 := 0, N0(n), N02(n);
    hide N0, N02, SampleRanks;
    SmallNone(n0);
    assert s[..0] == [];
    thirds := new int[n0];
    assert s[..n02] == s;
    for i := 0 to n02
      invariant j == |Small(s[..i], n0)| <= n0
      invariant forall x :: 0 <= x < j ==> thirds[x] == 3 * Small(s[..i], n0)[x]
    {
      SmallStep(s, n0, i);
      SmallSize(s, n0, r, i + 1);
      if samples[i] < n0 {
        thirds[j] := 3 * samples[i];
        j := j + 1;
      }
    }
    SmallSize(s, n0, r, n02);
    SmallRanked(s, n0, r, n02);
  }

  predicate LeqPair(a1: int, a2: int, b1: int, b2: int) {
    a1 < b1 || (a1 == b1 && a2 <= b2)
  }

  predicate LeqTriple(a1: int, a2: int, a3: int, b1: int, b2: int, b3: int) {
    a1 < b1 || (a1 == b1 && LeqPair(a2, a3, b2, b3))
  }

  /** The zero behind the ranks stands for the empty suffix. */
  lemma RankLookup(a: seq<int>, n: nat, p: nat)
    requires N02(n) < |a| && a[N02(n)] == 0 && Idx(n, p) <= N02(n)
    ensures Rank(n, a[..N02(n)], p) == a[Idx(n, p)]
  {
  }

  /** Whether the sample suffix with index k precedes the suffix at the multiple of three j. */
  method SampleFirst(input: array<int>, ranks: array<int>, n: nat, bound: nat, k: nat, j: nat, ghost s: seq<int>)
    returns (first: bool)
    requires Holds(input, n, bound) && ranks.Length == N02(n) + 3 && SampleRanks(input[..n], ranks[..N02(n)], s)
    requires ranks[N02(n)] == 0 && k < N02(n) && Pos(n, k) < n && j < n && j % 3 == 0
    ensures first <==> SufLess(input[..n], Pos(n, k), j)
  {
    hide SampleRanks, IsText, N02, SufLess, N0, Pos, Idx, At, Rank;
    ghost var t, r := input[..n], ranks[..N02(n)];
    var n0, i := N0(n), Pos(n, k);
    MergeBounds(n, k, j);
    TripleAt(input, n, bound, i);
    TripleAt(input, n, bound, j);
    RankLookup(ranks[..], n, j + 1);
    RankLookup(ranks[..], n, j + 2);
    assert ranks[..][..N02(n)] == r;
    if k < n0 {
      RankLookup(ranks[..], n, i + 1);
      PairMerge(t, r, s, i, j);
      first := LeqPair(input[i], ranks[k + n0], input[j], ranks[j / 3]);
    } else {
      if i + 2 <= n { RankLookup(ranks[..], n, i + 2); }
      TripleMerge(t, bound, r, s, i, j, ranks[k - n0 + 1], ranks[j / 3 + n0]);
      first := LeqTriple(input[i], input[i + 1], ranks[k - n0 + 1], input[j], input[j + 1], ranks[j / 3 + n0]);
    }
  }

  /** The merge looks ranks up at the indices of the next positions, and stays inside ranks. */
  lemma MergeBounds(n: nat, k: nat, j: nat)
    requires k < N02(n) && Pos(n, k) < n && j < n && j % 3 == 0
    ensures j / 3 == Idx(n, j + 1) < N02(n) && j / 3 + N0(n) == Idx(n, j + 2) <= N02(n)
    ensures k < N0(n) ==> k + N0(n) == Idx(n, Pos(n, k) + 1) <= N02(n) && Pos(n, k) % 3 == 1
    ensures k >= N0(n) ==> k - N0(n) + 1 <= N02(n) && Pos(n, k) % 3 == 2
    ensures k >= N0(n) && Pos(n, k) + 2 <= n ==> k - N0(n) + 1 == Idx(n, Pos(n, k) + 2)
  {
    IndexOfResidues(n, j / 3);
    if k < N0(n) {
      IndexOfResidues(n, k);
    } else {
      IndexOfResidues(n, k - N0(n));
      IndexOfResidues(n, k - N0(n) + 1);
    }
  }

  lemma IndexOfResidues(n: nat, a: nat)
    ensures Idx(n, 3 * a + 1) == a && Idx(n, 3 * a + 2) == a + N0(n)
    ensures (3 * a + 1) % 3 == 1 && (3 * a + 2) % 3 == 2
    ensures 3 * a < n ==> a < N0(n) <= N02(n) && a + N0(n) <= N02(n)
  {
  }

  method Merge(input: array<int>, ranks: array<int>, samples: array<int>, multiples: array<int>, suffixes: array<int>,
      n: nat, bound: nat)
    requires n >= 2 && Holds(input, n, bound) && n <= suffixes.Length
    requires suffixes != input && suffixes != ranks && suffixes != samples && suffixes != multiples
    requires ranks.Length == samples.Length == N02(n) + 3 && ranks[N02(n)] == 0 && multiples.Length == N0(n)
    requires SampleRanks(input[..n], ranks[..N02(n)], samples[..N02(n)]) && MultiplesSorted(input[..n], multiples[..])
    modifies suffixes
    ensures IsSuffixArray(input[..n], suffixes[..n])
    ensures forall i :: n <= i < suffixes.Length ==> suffixes[i] == old(suffixes[i])
  {
    hide SampleRanks, MultiplesSorted, Merging, IsSuffixArray, IsText, N02, N0, N1, Pos;
    ghost var text, r, s, u := input[..n], ranks[..N02(n)], samples[..N02(n)], multiples[..];
    var n0, n02 := N0(n), N02(n);
    MergeStart(text, r, s, u);
    var p: nat, t: nat, k: nat := 0, n0 - N1(n), 0;
    while k < n
      invariant k == n + 1 || (k < n && p < n0 && t < n02)
      invariant if k < n then Merging(text, u, s, p, t, suffixes[..k]) else Merging(text, u, s, |u|, |s|, suffixes[..n])
      invariant forall i :: n <= i < suffixes.Length ==> suffixes[i] == old(suffixes[i])
    {
      var i, j := Pos(n, samples[t]), multiples[p];
      assert samples[t] == s[t] && multiples[p] == u[p];
      HeadsInText(text, r, s, u, p, t, suffixes[..k]);
      var first := SampleFirst(input, ranks, n, bound, samples[t], j, s);
      ghost var out := suffixes[..k];
      if first {
        MergeSample(text, r, s, u, p, t, out);
        suffixes[k] := i;
        t := t + 1;
        assert suffixes[..k + 1] == out + [i];
        if t == n02 {
          k := DrainMultiples(multiples, suffixes, n, k + 1, p, text, r, s, u);
        }
      } else {
        Total(text, i, j);
        MergeMultiple(text, r, s, u, p, t, out);
        suffixes[k] := j;
        p := p + 1;
        assert suffixes[..k + 1] == out + [j];
        if p == n0 {
          k := DrainSamples(samples, suffixes, n, k + 1, t, text, r, s, u);
        }
      }
      k := k + 1;
      if k <= n { MergeLength(text, s, u, r, p, t, suffixes[..k]); }
    }
    MergeDone(text, r, s, u, suffixes[..n]);
  }

  method DrainMultiples(multiples: array<int>, suffixes: array<int>, n: nat, k0: nat, p0: nat,
                        ghost text: seq<int>, ghost r: seq<int>, ghost s: seq<int>, ghost u: seq<int>) returns (k: nat)
    requires suffixes != multiples && u == multiples[..] && |text| == n <= suffixes.Length && k0 <= n
    requires SampleRanks(text, r, s) && MultiplesSorted(text, u) && Merging(text, u, s, p0, |s|, suffixes[..k0])
    modifies suffixes
    ensures k == n && Merging(text, u, s, |u|, |s|, suffixes[..n])
    ensures forall i :: n <= i < suffixes.Length ==> suffixes[i] == old(suffixes[i])
  {
    hide SampleRanks, MultiplesSorted, Merging;
    var p := p0;
    k := k0;
    while p < multiples.Length
      invariant k <= n && Merging(text, u, s, p, |s|, suffixes[..k])
      invariant forall i :: n <= i < suffixes.Length ==> suffixes[i] == old(suffixes[i])
    {
      ghost var out := suffixes[..k];
      MergeMultiple(text, r, s, u, p, |s|, out);
      MergeLength(text, s, u, r, p, |s|, out);
      suffixes[k] := multiples[p];
      assert suffixes[..k + 1] == out + [u[p]];
      p, k := p + 1, k + 1;
    }
    MergeLength(text, s, u, r, p, |s|, suffixes[..k]);
  }

  method DrainSamples(samples: array<int>, suffixes: array<int>, n: nat, k0: nat, t0: nat,
                      ghost text: seq<int>, ghost r: seq<int>, ghost s: seq<int>, ghost u: seq<int>) returns (k: nat)
    requires suffixes != samples && samples.Length == N02(n) + 3 && s == samples[..N02(n)] &&
             |text| == n <= suffixes.Length && k0 <= n
    requires SampleRanks(text, r, s) && MultiplesSorted(text, u) && Merging(text, u, s, |u|, t0, suffixes[..k0])
    modifies suffixes
    ensures k == n && Merging(text, u, s, |u|, |s|, suffixes[..n])
    ensures forall i :: n <= i < suffixes.Length ==> suffixes[i] == old(suffixes[i])
  {
    hide SampleRanks, MultiplesSorted, Merging, N02;
    var t := t0;
    k := k0;
    while t < N02(n)
      invariant k <= n && Merging(text, u, s, |u|, t, suffixes[..k])
      invariant forall i :: n <= i < suffixes.Length ==> suffixes[i] == old(suffixes[i])
    {
      ghost var out := suffixes[..k];
      MergeSample(text, r, s, u, |u|, t, out);
      MergeLength(text, s, u, r, |u|, t, out);
      assert samples[t] == s[t];
      suffixes[k] := Pos(n, samples[t]);
      assert suffixes[..k + 1] == out + [Pos(n, s[t])];
      t, k := t + 1, k + 1;
    }
    MergeLength(text, s, u, r, |u|, t, suffixes[..k]);
  }

  /** The one iteration of the merge for n == 1, outside the contract of a suffix array: the only sample is
      the position past the end, and the comparison reads the padding of samples. */
  method MergeSingle(input: array<int>, ranks: array<int>, samples: array<int>, multiples: array<int>,
      suffixes: array<int>, bound: nat)
    requires Holds(input, 1, bound) && 1 <= suffixes.Length && multiples.Length == 1 &&
             ranks.Length == samples.Length == 4
    requires ranks[1] == 0 && samples[1] == 0
    requires SampleRanks(input[..1], ranks[..1], samples[..1]) && MultiplesSorted(input[..1], multiples[..])
    modifies suffixes
    ensures suffixes[0] == 1
    ensures forall i :: 1 <= i < suffixes.Length ==> suffixes[i] == old(suffixes[i])
  {
    hide IsText, SampleRanks, MultiplesSorted;
    SingleRank(input[..1], ranks[..1], samples[..1], multiples[..]);
    assert ranks[0] == ranks[..1][0] && multiples[0] == multiples[..][0];
    assert Pos(1, 0) == 1;
    assert input[0] >= 0 by { PaddedAt(input, 1, bound, 0); }
    var i, j := Pos(1, samples[1]), multiples[0];
    suffixes[0] := if LeqPair(input[i], ranks[samples[1] + 1], input[j], ranks[j / 3]) then i else j;
  }
}
