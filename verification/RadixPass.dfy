/** The counting sort `radix_pass` of the Burrows-Wheeler transformer, and what makes it stable. */
module RadixPass {
  import opened Permutations

  /** Index i precedes index j in a stable sort by key. */
  ghost predicate StablyBefore(ks: seq<int>, i: int, j: int) {
    0 <= i < |ks| && 0 <= j < |ks| && (ks[i] < ks[j] || (ks[i] == ks[j] && i < j))
  }

  /** pi enumerates the indices of ks by increasing key, ties in their original order. */
  ghost predicate IsStableOrder(ks: seq<int>, pi: seq<int>) {
    && |pi| == |ks|
    && IsPermutation(pi)
    && forall r, s :: 0 <= r < s < |pi| ==> StablyBefore(ks, pi[r], pi[s])
  }

  lemma StableOrderPermutes(ks: seq<int>, pi: seq<int>)
    requires IsStableOrder(ks, pi)
    ensures |pi| == |ks| && IsPermutation(pi)
  {
  }

  lemma StableOrderUnique(ks: seq<int>, p: seq<int>, q: seq<int>)
    requires IsStableOrder(ks, p) && IsStableOrder(ks, q)
    ensures p == q
  {
    SortedUnique((i, j) => StablyBefore(ks, i, j), p, q);
  }

  /** How many of the first n keys equal k. */
  ghost function Count(ks: seq<int>, k: int, n: nat): (c: nat)
    requires n <= |ks|
    ensures c <= n
  {
    if n == 0 then 0 else Count(ks, k, n - 1) + (if ks[n - 1] == k then 1 else 0)
  }

  /** How many keys of ks lie in 0..k. */
  ghost function Below(ks: seq<int>, k: nat): nat {
    if k == 0 then 0 else Below(ks, k - 1) + Count(ks, k - 1, |ks|)
  }

  /** The final position of index i: keys below its own, plus equal keys before it. */
  ghost function Slot(ks: seq<int>, i: nat): nat
    requires i < |ks| && 0 <= ks[i]
  {
    Below(ks, ks[i]) + Count(ks, ks[i], i)
  }

  ghost predicate KeysBelow(ks: seq<int>, bound: nat) {
    forall i :: 0 <= i < |ks| ==> 0 <= ks[i] < bound
  }

  lemma {:induction false} CountExtends(ks: seq<int>, k: int, i: nat, j: nat)
    requires i <= j <= |ks|
    ensures Count(ks, k, i) <= Count(ks, k, j)
    ensures i < j && ks[i] == k ==> Count(ks, k, i) < Count(ks, k, j)
    decreases j
  {
    if i < j { CountExtends(ks, k, i, j - 1); }
  }

  lemma {:induction false} CountPrefix(ks: seq<int>, x: int, k: int, n: nat)
    requires n <= |ks|
    ensures Count(ks + [x], k, n) == Count(ks, k, n)
  {
    if n == 0 {
    } else {
      CountPrefix(ks, x, k, n - 1);
    }
  }

  lemma {:induction false} BelowExtends(ks: seq<int>, x: int, k: nat)
    requires 0 <= x
    ensures Below(ks + [x], k) == Below(ks, k) + (if x < k then 1 else 0)
  {
    if k == 0 {
    } else {
      BelowExtends(ks, x, k - 1);
      CountPrefix(ks, x, k - 1, |ks|);
    }
  }

  lemma {:induction false} BelowEmpty(k: nat)
    ensures Below([], k) == 0
  {
    if k == 0 {
    } else {
      BelowEmpty(k - 1);
    }
  }

  lemma {:induction false} BelowAll(ks: seq<int>, bound: nat)
    requires KeysBelow(ks, bound)
    ensures Below(ks, bound) == |ks|
  {
    if ks == [] {
      BelowEmpty(bound);
    } else {
      var n := |ks| - 1;
      assert ks == ks[..n] + [ks[n]];
      BelowAll(ks[..n], bound);
      BelowExtends(ks[..n], ks[n], bound);
    }
  }

  lemma {:induction false} BelowMonotone(ks: seq<int>, j: nat, k: nat)
    requires j <= k
    ensures Below(ks, j) <= Below(ks, k)
    decreases k
  {
    if j < k { BelowMonotone(ks, j, k - 1); }
  }

  lemma SlotRange(ks: seq<int>, bound: nat, i: nat)
    requires KeysBelow(ks, bound) && i < |ks|
    ensures Slot(ks, i) < Below(ks, ks[i] + 1) <= |ks|
  {
    CountExtends(ks, ks[i], i, |ks|);
    BelowMonotone(ks, ks[i] + 1, bound);
    BelowAll(ks, bound);
  }

  lemma SlotOrder(ks: seq<int>, bound: nat, i: nat, j: nat)
    requires KeysBelow(ks, bound) && StablyBefore(ks, i, j)
    ensures Slot(ks, i) < Slot(ks, j)
  {
    if ks[i] == ks[j] {
      CountExtends(ks, ks[i], i, j);
    } else {
      SlotRange(ks, bound, i);
      BelowMonotone(ks, ks[i] + 1, ks[j]);
    }
  }

  lemma SlotsDistinct(ks: seq<int>, bound: nat, i: nat, j: nat)
    requires KeysBelow(ks, bound) && i < |ks| && j < |ks| && i != j
    ensures Slot(ks, i) != Slot(ks, j)
  {
    if StablyBefore(ks, i, j) { SlotOrder(ks, bound, i, j); } else { SlotOrder(ks, bound, j, i); }
  }

  ghost function Slots(ks: seq<int>, bound: nat): (slots: seq<int>)
    requires KeysBelow(ks, bound)
    ensures |slots| == |ks| && IsPermutation(slots)
    ensures forall i :: 0 <= i < |ks| ==> slots[i] == Slot(ks, i)
  {
    var slots := seq(|ks|, i requires 0 <= i < |ks| => Slot(ks, i) as int);
    assert IsPermutation(slots) by {
      forall i | 0 <= i < |ks| ensures 0 <= slots[i] < |ks| { SlotRange(ks, bound, i); }
      forall i, j | 0 <= i < j < |ks| ensures slots[i] != slots[j] { SlotsDistinct(ks, bound, i, j); }
    }
    slots
  }

  /** Reading the slots backwards is the stable order. */
  lemma SlotsGiveStableOrder(ks: seq<int>, bound: nat) returns (pi: seq<int>)
    requires KeysBelow(ks, bound)
    ensures IsStableOrder(ks, pi)
    ensures forall r :: 0 <= r < |pi| ==> 0 <= pi[r] < |ks| && Slot(ks, pi[r]) == r
  {
    var slots := Slots(ks, bound);
    pi := [];
    while |pi| < |ks|
      invariant |pi| <= |ks|
      invariant forall r :: 0 <= r < |pi| ==> 0 <= pi[r] < |ks| && Slot(ks, pi[r]) == r
    {
      Surjective(slots, |pi|);
      var i :| 0 <= i < |ks| && slots[i] == |pi|;
      pi := pi + [i];
    }
    forall r, s | 0 <= r < s < |pi| ensures StablyBefore(ks, pi[r], pi[s]) {
      if !StablyBefore(ks, pi[r], pi[s]) && pi[r] != pi[s] { SlotOrder(ks, bound, pi[s], pi[r]); }
    }
  }

  /** The stable order of keys below bound. */
  ghost function StableOrder(ks: seq<int>, bound: nat): (pi: seq<int>)
    requires KeysBelow(ks, bound)
    ensures IsStableOrder(ks, pi)
  {
    StableOrderExists(ks, bound);
    var pi :| IsStableOrder(ks, pi);
    pi
  }

  lemma StableOrderExists(ks: seq<int>, bound: nat)
    requires KeysBelow(ks, bound)
    ensures exists pi :: IsStableOrder(ks, pi)
  {
    var pi := SlotsGiveStableOrder(ks, bound);
  }

  /** The keys r[off + a[0]], r[off + a[1]], ... by which a pass sorts. */
  ghost function Keys(a: seq<int>, r: seq<int>, off: nat): (ks: seq<int>)
    requires forall i :: 0 <= i < |a| ==> 0 <= a[i] && off + a[i] < |r|
    ensures |ks| == |a|
  {
    seq(|a|, i requires 0 <= i < |a| => r[off + a[i]])
  }

  method Pass(a: array<int>, b: array<int>, r: array<int>, off: nat, n: nat, bound: nat) returns (ghost pi: seq<int>)
    requires b != a && b != r && n <= a.Length && n <= b.Length
    requires forall i :: 0 <= i < n ==> 0 <= a[i] && off + a[i] < r.Length && 0 <= r[off + a[i]] <= bound
    modifies b
    ensures IsStableOrder(Keys(a[..n], r[..], off), pi)
    ensures forall i :: 0 <= i < n ==> b[i] == a[pi[i]]
    ensures forall i :: n <= i < b.Length ==> b[i] == old(b[i])
  {
    ghost var ks := Keys(a[..n], r[..], off);
    assert KeysBelow(ks, bound + 1);
    var c := CountKeys(a, r, off, n, bound, ks);
    PrefixSums(c, bound, ks);
    ghost var slots := Slots(ks, bound + 1);
    assert Cursor(ks, c[..], 0);
    Place(a, b, c, r, off, n, bound, ks, slots);
    pi := SlotsGiveStableOrder(ks, bound + 1);
    assert forall i :: 0 <= i < n ==> b[slots[pi[i]]] == a[pi[i]];
  }

  /** The counters when the first i elements have been placed. */
  ghost predicate Cursor(ks: seq<int>, c: seq<int>, i: nat) {
    i <= |ks| && forall k :: 0 <= k < |c| ==> c[k] == Below(ks, k) + Count(ks, k, i)
  }

  lemma CursorStep(ks: seq<int>, c: seq<int>, i: nat)
    requires Cursor(ks, c, i) && i < |ks| && KeysBelow(ks, |c|)
    ensures c[ks[i]] == Slots(ks, |c|)[i]
    ensures Cursor(ks, c[ks[i] := c[ks[i]] + 1], i + 1)
  {
  }

  method Place(a: array<int>, b: array<int>, c: array<int>, r: array<int>, off: nat, n: nat, bound: nat,
               ghost ks: seq<int>, ghost slots: seq<int>)
    requires b != a && b != r && c != a && c != r && c != b && n <= a.Length && n <= b.Length
    requires forall i :: 0 <= i < n ==> 0 <= a[i] && off + a[i] < r.Length && 0 <= r[off + a[i]] <= bound
    requires ks == Keys(a[..n], r[..], off) && c.Length == bound + 1
    requires Cursor(ks, c[..], 0) && KeysBelow(ks, bound + 1) && slots == Slots(ks, bound + 1)
    modifies b, c
    ensures forall j :: 0 <= j < n ==> b[slots[j]] == a[j]
    ensures forall j :: n <= j < b.Length ==> b[j] == old(b[j])
  {
    hide Below, Count, Slot, Cursor;
    for i := 0 to n
      invariant Cursor(ks, c[..], i)
      invariant forall j :: 0 <= j < i ==> b[slots[j]] == a[j]
      invariant forall j :: n <= j < b.Length ==> b[j] == old(b[j])
    {
      ghost var before := c[..];
      CursorStep(ks, before, i);
      var key := r[off + a[i]];
      assert key == ks[i];
      b[c[key]] := a[i];
      c[key] := c[key] + 1;
      assert c[..] == before[key := before[key] + 1];
    }
  }

  method CountKeys(a: array<int>, r: array<int>, off: nat, n: nat, bound: nat, ghost ks: seq<int>)
    returns (c: array<int>)
    requires n <= a.Length
    requires forall i :: 0 <= i < n ==> 0 <= a[i] && off + a[i] < r.Length && 0 <= r[off + a[i]] <= bound
    requires ks == Keys(a[..n], r[..], off)
    ensures fresh(c) && c.Length == bound + 1
    ensures forall k {:trigger c[k]} :: 0 <= k <= bound ==> c[k] == Count(ks, k, n)
  {
    c := new int[bound + 1];
    for i := 0 to bound + 1
      invariant forall k {:trigger c[k]} :: 0 <= k < i ==> c[k] == 0
    {
      c[i] := 0;
    }
    for i := 0 to n
      invariant forall k {:trigger c[k]} :: 0 <= k <= bound ==> c[k] == Count(ks, k, i)
    {
      var key := r[off + a[i]];
      assert key == ks[i];
      c[key] := c[key] + 1;
    }
  }

  method PrefixSums(c: array<int>, bound: nat, ghost ks: seq<int>)
    requires c.Length == bound + 1
    requires forall k {:trigger c[k]} :: 0 <= k <= bound ==> c[k] == Count(ks, k, |ks|)
    modifies c
    ensures forall k {:trigger c[k]} :: 0 <= k <= bound ==> c[k] == Below(ks, k)
  {
    var sum := 0;
    for i := 0 to bound + 1
      invariant sum == Below(ks, i)
      invariant forall k {:trigger c[k]} :: 0 <= k < i ==> c[k] == Below(ks, k)
      invariant forall k {:trigger c[k]} :: i <= k <= bound ==> c[k] == Count(ks, k, |ks|)
    {
      var t := c[i];
      c[i] := sum;
      sum := sum + t;
    }
  }
}
