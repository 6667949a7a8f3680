/** The Burrows-Wheeler transform as functions, and why it can be inverted. */
module BurrowsWheelerSpec {
  import opened Permutations
  import opened Suffixes
  import opened RadixPass

  // ----- A reference suffix array, by insertion -----

  ghost function Insert(t: seq<int>, s: seq<int>, v: nat): (r: seq<int>)
    requires forall x :: 0 <= x < |s| ==> 0 <= s[x]
    ensures |r| == |s| + 1 && forall x :: 0 <= x < |r| ==> 0 <= r[x]
  {
    if s == [] then [v]
    else if SufLess(t, v, s[0]) then [v] + s
    else [s[0]] + Insert(t, s[1..], v)
  }

  ghost predicate Ascending(t: seq<int>, s: seq<int>) {
    && (forall x :: 0 <= x < |s| ==> 0 <= s[x] < |t|)
    && (forall x, y :: 0 <= x < y < |s| ==> SufLess(t, s[x], s[y]))
  }

  lemma {:induction false} InsertMembers(t: seq<int>, s: seq<int>, v: nat)
    requires forall x :: 0 <= x < |s| ==> 0 <= s[x]
    ensures forall x :: 0 <= x < |s| + 1 ==> Insert(t, s, v)[x] == v || Insert(t, s, v)[x] in s
  {
    if s != [] && !SufLess(t, v, s[0]) {
      var r := Insert(t, s[1..], v);
      InsertMembers(t, s[1..], v);
      forall x | 0 <= x < |s| + 1 ensures Insert(t, s, v)[x] == v || Insert(t, s, v)[x] in s {
        if x > 0 { assert Insert(t, s, v)[x] == r[x - 1]; }
      }
    }
  }

  lemma {:induction false} InsertAscends(t: seq<int>, s: seq<int>, v: nat)
    requires Ascending(t, s) && v < |t| && v !in s
    ensures Ascending(t, Insert(t, s, v))
  {
    if s == [] {
    } else {
      Total(t, v, s[0]);
      if SufLess(t, v, s[0]) {
        forall x | 0 < x < |s| ensures SufLess(t, v, s[x]) { Transitive(t, v, s[0], s[x]); }
      } else {
        InsertAscends(t, s[1..], v);
        InsertMembers(t, s[1..], v);
        var r := Insert(t, s[1..], v);
        forall x | 0 <= x < |r| ensures 0 <= r[x] && SufLess(t, s[0], r[x]) {
          if r[x] != v { assert r[x] in s[1..]; }
        }
      }
    }
  }

  ghost function SortSuffixes(t: seq<int>, k: nat): (s: seq<int>)
    ensures |s| == k && forall x :: 0 <= x < |s| ==> 0 <= s[x]
  {
    if k == 0 then [] else Insert(t, SortSuffixes(t, k - 1), k - 1)
  }

  lemma {:induction false} SortSuffixesAscends(t: seq<int>, k: nat)
    requires k <= |t|
    ensures Ascending(t, SortSuffixes(t, k))
    ensures forall x :: 0 <= x < k ==> SortSuffixes(t, k)[x] < k
  {
    if k == 0 {
    } else {
      hide SufLess;
      var s := SortSuffixes(t, k - 1);
      SortSuffixesAscends(t, k - 1);
      InsertAscends(t, s, k - 1);
      InsertMembers(t, s, k - 1);
    }
  }

  /** The suffix array of t. */
  ghost function SuffixesOf(t: seq<int>): (sa: seq<int>)
    ensures IsSuffixArray(t, sa)
  {
    SortSuffixesAscends(t, |t|);
    SortedIsSuffixArray(t, SortSuffixes(t, |t|));
    SortSuffixes(t, |t|)
  }

  // ----- The transform -----

  /** The data moved up by one behind a front sentinel 0. */
  ghost function Sentinel(d: seq<int>): (z: seq<int>)
    ensures |z| == |d| + 1 && z[0] == 0
  {
    [0] + seq(|d|, i requires 0 <= i < |d| => d[i] + 1)
  }

  /** The symbol cyclically before each suffix, in suffix order. */
  ghost function Column(d: seq<int>): (l: seq<int>)
    ensures |l| == |d| + 1
  {
    var z := Sentinel(d);
    var n := |z|;
    var sa := SuffixesOf(z);
    seq(n, i requires 0 <= i < n => z[(sa[i] + n - 1) % n])
  }

  /** The column without its sentinel, moved back down. */
  ghost function Strip(l: seq<int>): (d: seq<int>)
    ensures |d| <= |l|
  {
    if l == [] then []
    else Strip(l[..|l| - 1]) + (if l[|l| - 1] == 0 then [] else [l[|l| - 1] - 1])
  }

  ghost function LastZero(l: seq<int>): (i: nat)
    ensures i <= |l|
  {
    if l == [] then 0 else if l[|l| - 1] == 0 then |l| - 1 else LastZero(l[..|l| - 1])
  }

  /** The transformed data and the row at which the sentinel was taken out. */
  ghost function Bwt(d: seq<int>): (seq<int>, nat) {
    (Strip(Column(d)), LastZero(Column(d)))
  }

  // ----- The inverse -----

  /** Puts the sentinel back at row i. */
  ghost function Rebuild(d: seq<int>, i: nat): (l: seq<int>)
    requires i <= |d|
    ensures |l| == |d| + 1 && l[i] == 0
    ensures forall k :: 0 <= k < |d| ==> l[if k < i then k else k + 1] == d[k] + 1
  {
    seq(|d| + 1, k requires 0 <= k < |d| + 1 => if k < i then d[k] + 1 else if k == i then 0 else d[k - 1] + 1)
  }

  /** What `count` steps along the jumpers from row `index` write out. */
  ghost function Walk(l: seq<int>, jumpers: seq<int>, index: int, count: nat): (out: seq<int>)
    requires |jumpers| == |l| && IsPermutation(jumpers) && 0 <= index < |l|
    ensures |out| <= count
    decreases count
  {
    if count == 0 then []
    else
      var next := jumpers[index];
      (if l[next] != 0 then [l[next] - 1] else []) + Walk(l, jumpers, next, count - 1)
  }

  /** The whole inverse: rebuild the column, order its rows stably, walk. */
  ghost function UnBwt(d: seq<int>, i: nat, bound: nat): seq<int>
    requires i <= |d| && KeysBelow(d, bound)
  {
    Walk(Rebuild(d, i), StableOrder(Rebuild(d, i), bound + 1), i, |d| + 1)
  }

  // ----- Memory safety of the walk: it meets the sentinel row within n steps -----

  ghost function Orbit(jumpers: seq<int>, index: int, steps: nat): (row: int)
    requires IsPermutation(jumpers) && 0 <= index < |jumpers|
    ensures 0 <= row < |jumpers|
  {
    if steps == 0 then index else jumpers[Orbit(jumpers, index, steps - 1)]
  }

  lemma {:induction false} OrbitShift(jumpers: seq<int>, index: int, steps: nat)
    requires IsPermutation(jumpers) && 0 <= index < |jumpers|
    ensures Orbit(jumpers, jumpers[index], steps) == Orbit(jumpers, index, steps + 1)
  {
    if steps == 0 {
    } else {
      OrbitShift(jumpers, index, steps - 1);
    }
  }

  lemma {:induction false} OrbitReturns(jumpers: seq<int>, index: int, s: nat, t: nat)
    requires IsPermutation(jumpers) && 0 <= index < |jumpers| && s <= t
    requires Orbit(jumpers, index, s) == Orbit(jumpers, index, t)
    ensures Orbit(jumpers, index, t - s) == index
  {
    if s == 0 {
    } else {
      var a, b := Orbit(jumpers, index, s - 1), Orbit(jumpers, index, t - 1);
      if a != b { PermutationDistinct(jumpers, a); }
      OrbitReturns(jumpers, index, s - 1, t - 1);
    }
  }

  lemma {:induction false} FullWalkAvoidsZero(l: seq<int>, jumpers: seq<int>, index: int, count: nat, t: nat)
    requires |jumpers| == |l| && IsPermutation(jumpers) && 0 <= index < |l|
    requires |Walk(l, jumpers, index, count)| == count && 1 <= t <= count
    ensures l[Orbit(jumpers, index, t)] != 0
    decreases count
  {
    if t == 1 {
      assert Orbit(jumpers, index, 1) == jumpers[Orbit(jumpers, index, 0)];
    } else {
      FullWalkAvoidsZero(l, jumpers, jumpers[index], count - 1, t - 1);
      OrbitShift(jumpers, index, t - 1);
    }
  }

  /** The orbit of a row comes back to it within n steps. */
  lemma OrbitComesBack(jumpers: seq<int>, index: int) returns (t: nat)
    requires IsPermutation(jumpers) && 0 <= index < |jumpers|
    ensures 1 <= t <= |jumpers| && Orbit(jumpers, index, t) == index
  {
    hide Orbit;
    var n := |jumpers|;
    var xs := seq(n, t requires 0 <= t < n => Orbit(jumpers, index, t + 1));
    if s: nat, u: nat :| s < u < n && xs[s] == xs[u] {
      OrbitReturns(jumpers, index, s + 1, u + 1);
      t := u - s;
    } else {
      Surjective(xs, index);
      var x :| 0 <= x < n && xs[x] == index;
      t := x + 1;
    }
  }

  /** Whatever the data and the index, the walk writes at most |l| - 1 symbols. */
  lemma WalkFits(l: seq<int>, jumpers: seq<int>, index: int)
    requires |jumpers| == |l| && IsPermutation(jumpers) && 0 <= index < |l| && l[index] == 0
    ensures |Walk(l, jumpers, index, |l|)| < |l|
  {
    hide Walk, Orbit;
    var t := OrbitComesBack(jumpers, index);
    if |Walk(l, jumpers, index, |l|)| == |l| { FullWalkAvoidsZero(l, jumpers, index, |l|, t); }
  }

  // ----- Stripping the sentinel and putting it back -----

  ghost predicate ZeroOnlyAt(l: seq<int>, i: nat) {
    i < |l| && l[i] == 0 && forall k :: 0 <= k < |l| && k != i ==> l[k] > 0
  }

  lemma {:induction false} StripPositive(l: seq<int>)
    requires forall k :: 0 <= k < |l| ==> l[k] > 0
    ensures |Strip(l)| == |l| && LastZero(l) == 0 && forall k :: 0 <= k < |l| ==> Strip(l)[k] == l[k] - 1
  {
    if l == [] {
    } else {
      StripPositive(l[..|l| - 1]);
    }
  }

  lemma {:induction false} StripOne(l: seq<int>, i: nat)
    requires ZeroOnlyAt(l, i)
    ensures LastZero(l) == i && |Strip(l)| == |l| - 1
    ensures forall k :: 0 <= k < |l| - 1 ==> Strip(l)[k] == l[if k < i then k else k + 1] - 1
  {
    var m := |l| - 1;
    if i == m { StripPositive(l[..m]); } else { StripOne(l[..m], i); }
  }

  lemma RebuildStrip(l: seq<int>, i: nat)
    requires ZeroOnlyAt(l, i)
    ensures i <= |Strip(l)| && LastZero(l) == i && Rebuild(Strip(l), i) == l
  {
    StripOne(l, i);
    var r := Rebuild(Strip(l), i);
    forall k | 0 <= k < |l| ensures r[k] == l[k] {
      if k < i { assert r[k] == Strip(l)[k] + 1; } else if k > i { assert r[k] == Strip(l)[k - 1] + 1; }
    }
  }

  // ----- The inverse undoes the transform -----

  /** d holds symbols; its suffix array and column, and the row of each position. */
  ghost predicate IsData(d: seq<int>) {
    forall i :: 0 <= i < |d| ==> 0 <= d[i]
  }

  ghost function Row(sa: seq<int>, p: int): (r: nat)
    requires IsPermutation(sa) && 0 <= p < |sa|
    ensures r < |sa| && sa[r] == p
  {
    Surjective(sa, p);
    var r :| 0 <= r < |sa| && sa[r] == p;
    r
  }

  lemma RowOrder(t: seq<int>, sa: seq<int>, p: nat, q: nat)
    requires IsSuffixArray(t, sa) && p < |t| && q < |t| && SufLess(t, p, q)
    ensures Row(sa, p) < Row(sa, q)
  {
    Irreflexive(t, p);
    if Row(sa, q) < Row(sa, p) { Asymmetric(t, p, q); }
  }

  /** The position after p, and the one before, going round. */
  ghost function After(n: nat, p: int): int {
    if p + 1 == n then 0 else p + 1
  }

  ghost function Before(n: nat, p: int): int {
    if p == 0 then n - 1 else p - 1
  }

  lemma BeforeIsCyclic(n: nat, p: nat)
    requires p < n
    ensures (p + n - 1) % n == Before(n, p)
  {
    if p > 0 { assert (p - 1 + n) % n == p - 1; }
  }

  lemma ColumnAt(d: seq<int>, i: nat)
    requires i <= |d|
    ensures var z := Sentinel(d); Column(d)[i] == z[Before(|z|, SuffixesOf(z)[i])]
  {
    BeforeIsCyclic(|d| + 1, SuffixesOf(Sentinel(d))[i]);
  }

  ghost function Next(sa: seq<int>, r: int): (s: nat)
    requires IsPermutation(sa) && 0 <= r < |sa|
    ensures s < |sa| && sa[s] == After(|sa|, sa[r])
  {
    Row(sa, After(|sa|, sa[r]))
  }

  /** The column at the next row shows the first symbol of this row. */
  lemma ColumnNext(d: seq<int>, r: nat)
    requires r <= |d|
    ensures var z := Sentinel(d); Column(d)[Next(SuffixesOf(z), r)] == z[SuffixesOf(z)[r]]
  {
    var sa := SuffixesOf(Sentinel(d));
    ColumnAt(d, Next(sa, r));
    hide Column, SuffixesOf;
  }

  /** Rows that begin alike keep their order one position on: the front sentinel makes
      suffix order agree with the order of rotations. */
  lemma NextOrder(z: seq<int>, sa: seq<int>, r: nat, r': nat)
    requires IsSuffixArray(z, sa) && ZeroOnlyAt(z, 0) && r < r' < |z|
    ensures z[sa[r]] <= z[sa[r']]
    ensures z[sa[r]] == z[sa[r']] ==> Next(sa, r) < Next(sa, r')
  {
    var p, q := sa[r], sa[r'];
    assert SufLess(z, p, q);
    if z[p] == z[q] {
      assert p != 0 && q != 0 && SufLess(z, p + 1, q + 1) && q + 1 < |z|;
      RowOrder(z, sa, After(|z|, p), q + 1);
    }
  }

  lemma SentinelZero(d: seq<int>)
    requires IsData(d)
    ensures ZeroOnlyAt(Sentinel(d), 0)
  {
  }

  lemma NextIsTheStableOrder(d: seq<int>, jumpers: seq<int>)
    requires IsData(d) && IsStableOrder(Column(d), jumpers)
    ensures forall r :: 0 <= r <= |d| ==> jumpers[r] == Next(SuffixesOf(Sentinel(d)), r)
  {
    hide Column, SuffixesOf, Row, After, Next, SufLess, Sentinel;
    var z, l := Sentinel(d), Column(d);
    var sa := SuffixesOf(z);
    SentinelZero(d);
    var next := seq(|l|, r requires 0 <= r < |l| => Next(sa, r) as int);
    forall r, r' | 0 <= r < r' < |l| ensures StablyBefore(l, next[r], next[r']) && next[r] != next[r'] {
      ColumnNext(d, r);
      ColumnNext(d, r');
      NextOrder(z, sa, r, r');
      AfterInjective(|sa|, sa[r], sa[r']);
    }
    StableOrderUnique(l, next, jumpers);
  }

  lemma AfterInjective(n: nat, p: int, q: int)
    requires 0 <= p < n && 0 <= q < n && p != q
    ensures After(n, p) != After(n, q)
  {
  }

  lemma WalkStep(l: seq<int>, jumpers: seq<int>, index: int, count: nat)
    requires |jumpers| == |l| && IsPermutation(jumpers) && 0 <= index < |l| && count > 0
    ensures Walk(l, jumpers, index, count) ==
            (if l[jumpers[index]] != 0 then [l[jumpers[index]] - 1] else []) +
              Walk(l, jumpers, jumpers[index], count - 1)
  {
  }

  /** From the row of position p the walk writes out the data from position p on. */
  lemma {:induction false} WalkEmits(d: seq<int>, jumpers: seq<int>, index: int, p: nat)
    requires IsData(d) && IsStableOrder(Column(d), jumpers)
    requires 1 <= p <= |d| + 1 && 0 <= index <= |d|
    requires SuffixesOf(Sentinel(d))[index] == After(|d| + 1, p - 1)
    ensures Walk(Column(d), jumpers, index, |d| + 2 - p) == d[p - 1..]
    decreases |d| + 1 - p
  {
    hide Column, SuffixesOf, Row, Walk, StablyBefore;
    var z := Sentinel(d);
    NextIsTheStableOrder(d, jumpers);
    ColumnNext(d, index);
    WalkStep(Column(d), jumpers, index, |d| + 2 - p);
    if p <= |d| {
      WalkEmits(d, jumpers, jumpers[index], p + 1);
      assert z[p] == d[p - 1] + 1;
      assert d[p - 1..] == [d[p - 1]] + d[p..];
    }
  }

  /** Row of the sentinel: the suffix that starts right after it. */
  ghost function SentinelRow(d: seq<int>): (r: nat)
    ensures r <= |d|
  {
    Row(SuffixesOf(Sentinel(d)), After(|d| + 1, 0))
  }

  lemma ColumnZero(d: seq<int>)
    requires IsData(d)
    ensures ZeroOnlyAt(Column(d), SentinelRow(d))
  {
    hide Column, SuffixesOf, Row;
    var z := Sentinel(d);
    var n, sa, l, i0 := |z|, SuffixesOf(z), Column(d), SentinelRow(d);
    SentinelZero(d);
    ColumnAt(d, i0);
    forall i | 0 <= i < n && i != i0 ensures l[i] > 0 {
      ColumnAt(d, i);
      PermutationDistinct(sa, i);
    }
  }

  /** The transform in terms of the data: the row of the suffix right behind the sentinel is the index,
      and every other row shows the symbol before its suffix, the whole text's row the last one. */
  lemma BwtRows(d: seq<int>, sa: seq<int>, r: nat)
    requires IsData(d) && IsSuffixArray(Sentinel(d), sa) && r <= |d|
    ensures var (out, i) := Bwt(d);
            && |out| == |d| && i <= |d| && sa[i] == (if d == [] then 0 else 1)
            && (r != i ==> out[if r < i then r else r - 1] == if sa[r] == 0 then d[|d| - 1] else d[sa[r] - 2])
  {
    hide Column, SuffixesOf, Row, Strip, LastZero, IsSuffixArray;
    var l, i := Column(d), SentinelRow(d);
    SameSuffixes(d, sa);
    ColumnZero(d);
    StripOne(l, i);
    if r != i {
      ColumnAt(d, r);
      assert sa[r] != sa[i] by { PermutationDistinct(sa, i); }
    }
  }

  lemma SameSuffixes(d: seq<int>, sa: seq<int>)
    requires IsSuffixArray(Sentinel(d), sa)
    ensures IsPermutation(sa) && |sa| == |d| + 1 && SuffixesOf(Sentinel(d)) == sa
  {
    SuffixArrayUnique(Sentinel(d), sa, SuffixesOf(Sentinel(d)));
  }

  /** As many symbols as went in, all in the same alphabet, and an index the inverse accepts. */
  lemma BwtRange(d: seq<int>, bound: nat)
    requires forall i :: 0 <= i < |d| ==> 0 <= d[i] < bound
    ensures |Bwt(d).0| == |d| && Bwt(d).1 <= |d|
    ensures forall i :: 0 <= i < |d| ==> 0 <= Bwt(d).0[i] < bound
  {
    hide Column, SuffixesOf, Row, Strip, LastZero;
    ColumnZero(d);
    StripOne(Column(d), SentinelRow(d));
    forall i | 0 <= i <= |d| ensures Column(d)[i] <= bound { ColumnAt(d, i); }
  }

  /** invert(transform(d)) == d: walking the jumpers of the rebuilt column from the sentinel's row
      writes out exactly d. */
  lemma InvertsTransform(d: seq<int>, bound: nat)
    requires KeysBelow(d, bound)
    ensures var (out, i) := Bwt(d); |out| == |d| && i <= |d| && KeysBelow(out, bound) && UnBwt(out, i, bound) == d
  {
    hide Column, SuffixesOf, Row, Strip, LastZero, Walk;
    var (out, i) := Bwt(d);
    ColumnZero(d);
    BwtRange(d, bound);
    RebuildStrip(Column(d), SentinelRow(d));
    WalkEmits(d, StableOrder(Rebuild(out, i), bound + 1), i, 1);
    assert d[0..] == d;
  }

  /** After t steps from the sentinel's row the walk stands in the row of position 1 + t, going round. */
  lemma {:induction false} OrbitPosition(d: seq<int>, jumpers: seq<int>, t: nat)
    requires IsData(d) && IsStableOrder(Column(d), jumpers) && t <= |d| + 1
    ensures SuffixesOf(Sentinel(d))[Orbit(jumpers, SentinelRow(d), t)] == After(|d| + 1, if t == |d| + 1 then 0 else t)
  {
    hide Column, SuffixesOf, Row, StablyBefore;
    if t == 0 {
    } else {
      OrbitPosition(d, jumpers, t - 1);
      NextIsTheStableOrder(d, jumpers);
    }
  }

  /** The walk that inverts a transformed block visits every row exactly once. */
  lemma VisitsEachRowOnce(d: seq<int>, jumpers: seq<int>, r: nat)
    requires IsData(d) && IsStableOrder(Column(d), jumpers) && r <= |d|
    ensures exists t :: 1 <= t <= |d| + 1 && Orbit(jumpers, SentinelRow(d), t) == r
    ensures forall s, t :: 1 <= s < t <= |d| + 1 ==>
            Orbit(jumpers, SentinelRow(d), s) != Orbit(jumpers, SentinelRow(d), t)
  {
    hide Column, SuffixesOf, Row, StablyBefore, SentinelRow, Orbit;
    var sa, i := SuffixesOf(Sentinel(d)), SentinelRow(d);
    var t := if sa[r] == 1 || d == [] then |d| + 1 else if sa[r] == 0 then |d| else sa[r] - 1;
    OrbitPosition(d, jumpers, t);
    var q := Orbit(jumpers, i, t);
    if q != r { PermutationDistinct(sa, q); }
    forall s, u | 1 <= s < u <= |d| + 1 ensures Orbit(jumpers, i, s) != Orbit(jumpers, i, u) {
      OrbitPosition(d, jumpers, s);
      OrbitPosition(d, jumpers, u);
    }
  }

  lemma StripStep(l: seq<int>, i: nat)
    requires i < |l|
    ensures Strip(l[..i + 1]) == Strip(l[..i]) + (if l[i] == 0 then [] else [l[i] - 1])
    ensures LastZero(l[..i + 1]) == if l[i] == 0 then i else LastZero(l[..i])
  {
    assert l[..i + 1][..i] == l[..i];
  }

  lemma {:induction false} StripGrows(l: seq<int>, i: nat)
    requires i <= |l|
    ensures |Strip(l[..i])| <= |Strip(l)|
    decreases |l| - i
  {
    if i < |l| {
      StripStep(l, i);
      StripGrows(l, i + 1);
    } else {
      assert l[..i] == l;
    }
  }
}
