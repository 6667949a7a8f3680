/** The 64-bit rANS kernel: the state object and the functions that drive it. */
module Rans {
  import opened Words
  import opened RansSpec
  import opened FrequencyTable
  import opened BufferStack

  class Hzrans64 {
    const LOWER_BOUND: nat := TWO_31
    var x: nat
    const size: nat
    const ftable: array<nat>
    const scale: nat
    const upPrefix: nat
    const mask: nat
    var ls: nat
    var bs: nat
    var count: nat

    /** `set_header` caps the scale at 31 before initialising the state. */
    constructor (size: nat, scale: nat)
      ensures fresh(ftable) && this.size == size && this.scale == (if scale > 31 then 31 else scale)
      ensures Ready() && ftable.Length == size && x == TWO_31 && count == 0
    {
      hide Pow2, UpPrefix;
      var capped := if scale > 31 then 31 else scale;
      x := TWO_31;
      this.size := size;
      ftable := new nat[size];
      this.scale := capped;
      upPrefix := TWO_31 / Pow2(capped) * TWO_32;
      mask := Pow2(capped) - 1;
      count, ls, bs := 0, 0, 0;
      new;
      UpPrefixValue(capped);
    }

    /** A state over a table the caller supplies. */
    constructor WithTable(table: array<nat>, scale: nat)
      requires scale <= 31
      ensures ftable == table && size == table.Length && this.scale == scale
      ensures Ready() && x == TWO_31 && count == 0
    {
      hide Pow2, UpPrefix;
      x := TWO_31;
      size := table.Length;
      ftable := table;
      this.scale := scale;
      upPrefix := TWO_31 / Pow2(scale) * TWO_32;
      mask := Pow2(scale) - 1;
      count, ls, bs := 0, 0, 0;
      new;
      UpPrefixValue(scale);
    }

    ghost predicate Ready() {
      scale <= 31 && upPrefix == UpPrefix(scale) && mask == Pow2(scale) - 1
    }

    /** One symbol into the state; every intermediate fits 64 bits. */
    method EncodeS(data: Stack<nat>)
      requires Ready() && InState(x) && Fits(Interval(ls, bs), scale)
      requires data.Valid() && !data.Emptied() && this !in data.Repr && ftable !in data.Repr
      modifies this`x, this`count, data.Repr
      ensures x == EncodeStep(old(x), Interval(ls, bs), scale) && InState(x)
      ensures data.Valid() && !data.Emptied() && fresh(data.Repr - old(data.Repr))
      ensures data.Contents() == old(data.Contents()) + Pushed(old(x), Interval(ls, bs), scale)
      ensures count == old(count) + |Pushed(old(x), Interval(ls, bs), scale)|
    {
      hide Pow2, UpPrefix, Stack.Contents, Stack.Valid, Stack.Emptied, U64, AbsorbWord, Absorb;
      ghost var iv := Interval(ls, bs);
      ShrunkRange(x, iv, scale);
      StepInverse(x, iv, scale);
      var x1 := x;
      var upperBound := U64(ls * upPrefix);
      U64Exact(ls * upPrefix);
      if x1 >= upperBound {
        data.Push(x1 % TWO_32);
        x1 := x1 / TWO_32;
        count := count + 1;
      }
      assert x1 == Shrunk(x, iv, scale);
      AbsorbExact(x1, iv, scale);
      x := AbsorbWord(x1, ls, bs, scale);
    }

    /** One symbol out of the state, reading a word back in when the state is small. */
    method DecodeS(data: array<nat>)
      requires Ready() && InState(x) && Fits(Interval(ls, bs), scale)
      requires Holds(Interval(ls, bs), x % Pow2(scale))
      requires Release(x, Interval(ls, bs), scale) < TWO_31 ==> count < data.Length && data[count] < TWO_32
      modifies this`x, this`count
      ensures var y := Release(old(x), Interval(ls, bs), scale);
              if y < TWO_31 then x == y * TWO_32 + data[old(count)] && count == old(count) + 1
              else x == y && count == old(count)
      ensures x < TWO_63
    {
      hide Pow2, U64, Release, ReleaseWord;
      ReleaseExact(x, Interval(ls, bs), scale);
      var x1 := ReleaseWord(x, ls, bs, scale, mask);
      if x1 < LOWER_BOUND {
        U64Exact(x1 * TWO_32);
        x1 := U64(x1 * TWO_32) + data[count];
        count := count + 1;
      }
      x := x1;
    }

    method EncFlush(data: Stack<nat>)
      requires x < TWO_64
      requires data.Valid() && !data.Emptied() && this !in data.Repr
      modifies this`count, data.Repr
      ensures data.Valid() && !data.Emptied() && fresh(data.Repr - old(data.Repr))
      ensures data.Contents() == old(data.Contents()) + [x / TWO_32, x % TWO_32]
      ensures count == old(count) + 2
    {
      hide Stack.Contents, Stack.Valid, Stack.Emptied;
      data.Push(x / TWO_32);
      data.Push(x % TWO_32);
      count := count + 2;
    }

    method DecLoadState(data: array<nat>)
      requires data.Length >= 2 && data[0] < TWO_32 && data[1] < TWO_32
      modifies this`x, this`count
      ensures x == data[0] + data[1] * TWO_32 && count == 2
    {
      x := data[0];
      x := x + data[1] * TWO_32;
      count := 2;
    }

    /** Scales freq into the frequency table; freq may be the table itself. A sum that wraps to zero
        would be divided by. */
    method CreateFtableNf(freq: array<nat>)
      requires Ready() && 0 < size <= Pow2(scale) && ftable.Length == size <= freq.Length
      requires U64(size + Sum(freq[..size])) != 0
      modifies ftable
      ensures Pow2(scale) < TWO_64 && ftable[..] == Normalized64(Weights(old(freq[..size])), scale)
    {
      hide Pow2, Sum, Floored, DealtOut, U64;
      ghost var w := Weights(freq[..size]);
      Pow2Order(scale);
      var mulFactor := Pow2(scale) - size;
      var sum := AddUp(freq);
      ghost var f := Floored(w, mulFactor, sum);
      var ssum := FloorShares(freq, mulFactor, sum);
      FlooredLeast(w, mulFactor, sum);
      Sub64Shift(Pow2(scale), Sum(f), size);
      ssum := Sub64(mulFactor, ssum);
      Disperse(ftable, size, ssum, f);
    }

    method AddUp(freq: array<nat>) returns (sum: nat)
      requires size <= freq.Length
      ensures sum == U64(size + Sum(freq[..size])) == U64(Sum(Weights(freq[..size])))
    {
      hide Sum, U64;
      sum := U64(size);
      ghost var f := freq[..size];
      SumNone();
      assert f[..0] == [] && f[..size] == f;
      for i := 0 to size
        invariant sum == U64(size + Sum(f[..i]))
      {
        SumStep(f, i);
        U64Add(size + Sum(f[..i]), freq[i]);
        sum := U64(sum + freq[i]);
      }
      WeightsRegister(f);
    }

    method FloorShares(freq: array<nat>, mulFactor: nat, sum: nat) returns (ssum: nat)
      requires ftable.Length == size <= freq.Length && 0 < sum
      modifies ftable
      ensures var f := Floored(Weights(old(freq[..size])), mulFactor, sum);
              ftable[..] == Wrapped(f) && Sum(f) >= size && ssum == U64(Sum(f) - size)
    {
      hide Sum, Share, Floored, U64;
      ghost var w := Weights(freq[..size]);
      ghost var t := Floored(w, mulFactor, sum);
      FlooredLeastAll(w, mulFactor, sum);
      ssum := 0;
      SumNone();
      assert t[..0] == [] && t[..size] == t;
      U64Exact(0);
      for i := 0 to size
        invariant ssum == U64(Sum(t[..i]) - i)
        invariant forall k :: 0 <= k < i ==> ftable[k] == U64(t[k])
        invariant forall k :: i <= k < size ==> U64(freq[k] + 1) == w[k]
      {
        SumStep(t, i);
        FlooredAt(w, mulFactor, sum, i);
        var share := Share(U64(freq[i] + 1), mulFactor, sum);
        U64Add(Sum(t[..i]) - i, share);
        ssum := U64(ssum + share);
        ftable[i] := U64(1 + share);
      }
      assert ftable[..] == Wrapped(t);
    }

    /** Sets the interval of a symbol: its frequency and the sum of the frequencies below it. */
    method AddToSeq(symbol: nat)
      requires symbol < ftable.Length
      modifies this`ls, this`bs
      ensures ls == ftable[symbol] && bs == U64(Sum(ftable[..symbol]))
      ensures Sum(ftable[..]) < TWO_64 ==> Interval(ls, bs) == Slots(ftable[..], symbol)
    {
      hide Sum, U64;
      bs := 0;
      ls := ftable[symbol];
      ghost var t := ftable[..];
      SumNone();
      U64Exact(0);
      assert t[..0] == [];
      for i := 0 to symbol
        invariant bs == U64(Sum(t[..i])) && ls == t[symbol] && ftable[..] == t
      {
        SumStep(t, i);
        U64Add(Sum(t[..i]), ftable[i]);
        bs := U64(bs + ftable[i]);
      }
      assert t[..symbol] == ftable[..symbol];
      if Sum(t) < TWO_64 { PrefixExact(t); }
    }

    /** Finds the symbol of a slot: the inverse of AddToSeq. */
    method InvBs(slot: nat) returns (symbol: nat)
      requires 0 < ftable.Length == size && IsTable(ftable[..], scale) && slot < Pow2(scale)
      ensures symbol < size && Holds(Slots(ftable[..], symbol), slot)
    {
      hide Sum, Pow2;
      ghost var t := ftable[..];
      var i, cumsum := 0, 0;
      SumNone();
      assert t[..0] == [] && t[..size] == t;
      while i < size && !(cumsum > slot)
        invariant i <= size && cumsum == Sum(t[..i])
        invariant i > 0 ==> Sum(t[..i - 1]) <= slot
      {
        SumStep(t, i);
        cumsum := cumsum + ftable[i];
        i := i + 1;
      }
      assert i > 0;
      SumStep(t, i - 1);
      symbol := i - 1;
    }
  }

  /** ((x / ls) << scale) + bs + (x % ls) in 64-bit registers. */
  function AbsorbWord(x: nat, ls: nat, bs: nat, scale: nat): nat
    requires ls > 0
  {
    U64(U64(U64((x / ls) * Pow2(scale)) + bs) + x % ls)
  }

  /** ls * (x >> scale) + (x & mask) - bs in 64-bit registers. */
  function ReleaseWord(x: nat, ls: nat, bs: nat, scale: nat, mask: nat): nat {
    Sub64(U64(U64(ls * Shr(x, scale)) + x % (mask + 1)), U64(bs))
  }

  ghost function Plus1(f: seq<nat>): (w: seq<nat>)
    ensures |w| == |f| && forall i :: 0 <= i < |f| ==> w[i] == f[i] + 1
  {
    seq(|f|, i requires 0 <= i < |f| => f[i] + 1)
  }

  lemma {:induction false} Plus1Prefix(f: seq<nat>, i: nat)
    requires i <= |f|
    ensures Sum(Plus1(f)[..i]) == i + Sum(f[..i])
  {
    if i == 0 {
    } else {
      Plus1Prefix(f, i - 1);
      SumStep(f, i - 1);
      SumStep(Plus1(f), i - 1);
    }
  }

  lemma Plus1Sum(f: seq<nat>)
    ensures Sum(Plus1(f)) == |f| + Sum(f)
  {
    hide Sum, Plus1;
    Plus1Prefix(f, |f|);
    assert f[..|f|] == f && Plus1(f)[..|f|] == Plus1(f);
  }

  /** The weights as the code computes them: one more than the frequencies, in registers. */
  ghost function Weights(f: seq<nat>): (w: seq<nat>)
    ensures |w| == |f|
  {
    Wrapped(Plus1(f))
  }

  lemma WeightsAre(f: seq<nat>)
    ensures Weights(f) == Wrapped(Plus1(f))
  {
  }

  lemma WeightsRegister(f: seq<nat>)
    ensures U64(Sum(Weights(f))) == U64(|f| + Sum(f))
  {
    hide *;
    WeightsAre(f);
    WrappedTotal(Plus1(f));
    Plus1Sum(f);
  }

  /** Frequencies whose total leaves room for one more each are normalised as if no register could wrap. */
  lemma UnwrappedWeights(f: seq<nat>, scale: nat)
    requires 0 < |f| <= Pow2(scale) < TWO_64 && |f| + Sum(f) < TWO_64
    ensures Normalized64(Weights(f), scale) == Normalized(Plus1(f), scale)
    ensures U64(|f| + Sum(f)) != 0
  {
    hide Sum, Pow2, Wrapped, Normalized, Normalized64;
    Plus1Sum(f);
    WrappedExact(Plus1(f));
    UnwrappedSum(Plus1(f), scale);
  }

  /** The table of a rANS state is exact if and only if the floored shares fit it. */
  lemma FtableIff(f: seq<nat>, scale: nat)
    requires 0 < |f| <= Pow2(scale) < TWO_64 && U64(|f| + Sum(f)) != 0
    ensures IsTable(Normalized64(Weights(f), scale), scale) <==> Sum(Shares64(Weights(f), scale)) <= Pow2(scale)
  {
    hide Sum, Pow2, Shares64, Normalized64, IsTable;
    WeightsRegister(f);
    TableIff(Weights(f), scale);
  }

  /** In terms of the frequencies: while sizes and sums fit, the table is the one of 2^scale slots that
      deals evenly on top of one slot and the floored share of each frequency plus one. */
  lemma FtableExactly(f: seq<nat>, scale: nat, t: seq<nat>)
    requires 0 < |f| <= Pow2(scale) < TWO_64 && |f| + Sum(f) < TWO_64
    ensures var w := seq<nat>(|f|, i requires 0 <= i < |f| => f[i] + 1);
            t == Normalized64(Weights(f), scale) <==>
              Sum(t) == Pow2(scale) && EvenlyDealt(FlooredShares(w, Pow2(scale) - |f|, |f| + Sum(f)), t)
  {
    hide *;
    PlusOne(f);
    Plus1Sum(f);
    WeightsAre(f);
    WrappedExact(Plus1(f));
    UnwrappedExactly(Plus1(f), scale, t);
  }

  lemma PlusOne(f: seq<nat>)
    ensures Plus1(f) == seq<nat>(|f|, i requires 0 <= i < |f| => f[i] + 1)
  {
  }

  lemma FlooredLeast(w: seq<nat>, m: nat, total: nat)
    requires total > 0
    ensures Sum(Floored(w, m, total)) >= |w|
  {
    hide Sum;
    FlooredSum(w, m, total, |w|);
    assert Floored(w, m, total)[..|w|] == Floored(w, m, total);
  }

  lemma FlooredLeastAll(w: seq<nat>, m: nat, total: nat)
    requires total > 0
    ensures forall i: nat :: i <= |w| ==> Sum(Floored(w, m, total)[..i]) >= i
  {
    hide Sum, Floored;
    forall i: nat | i <= |w| ensures Sum(Floored(w, m, total)[..i]) >= i { FlooredSum(w, m, total, i); }
  }

  lemma UpPrefixValue(scale: nat)
    requires scale <= 31
    ensures TWO_31 / Pow2(scale) * TWO_32 == UpPrefix(scale)
  {
    hide Pow2;
    ScaleSplit(scale);
    var p, l := Pow2(scale), Pow2(31 - scale);
    DivModUnique(l, p, 0);
    assert l * p + 0 == TWO_31;
  }

  lemma Pow2Order(scale: nat)
    requires scale <= 31
    ensures Pow2(scale) <= TWO_31
  {
    hide Pow2;
    ScaleSplit(scale);
    MulMonotone(1, Pow2(31 - scale), Pow2(scale));
  }

  lemma AbsorbExact(y: nat, iv: Interval, scale: nat)
    requires iv.ls >= 1 && InState(Absorb(y, iv, scale))
    ensures AbsorbWord(y, iv.ls, iv.bs, scale) == Absorb(y, iv, scale)
  {
    hide Pow2, U64;
    var a, b := (y / iv.ls) * Pow2(scale), y % iv.ls;
    U64Exact(a);
    U64Exact(a + iv.bs);
    U64Exact(a + iv.bs + b);
  }

  lemma ReleaseExact(x: nat, iv: Interval, scale: nat)
    requires scale <= 31 && InState(x) && Fits(iv, scale) && Holds(iv, x % Pow2(scale))
    ensures 0 <= Release(x, iv, scale) < TWO_63
    ensures ReleaseWord(x, iv.ls, iv.bs, scale, Pow2(scale) - 1) == Release(x, iv, scale)
  {
    hide Pow2, U64;
    Pow2Order(scale);
    var p, q, r := Pow2(scale), x / Pow2(scale), x % Pow2(scale);
    assert x == p * q + r;
    MulMonotone(iv.ls, p, q);
    U64Exact(iv.ls * q);
    U64Exact(iv.ls * q + r);
    U64Exact(iv.bs);
  }
}
