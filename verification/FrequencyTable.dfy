/** Frequency tables: scaling weights to a fixed total, and looking symbols up by slot. */
module FrequencyTable {
  import opened Words
  import opened RansSpec

  ghost function Sum(s: seq<nat>): nat {
    if s == [] then 0 else Sum(s[..|s| - 1]) + s[|s| - 1]
  }

  lemma SumNone()
    ensures Sum([]) == 0
  {
  }

  lemma SumStep(s: seq<nat>, i: nat)
    requires i < |s|
    ensures Sum(s[..i + 1]) == Sum(s[..i]) + s[i]
  {
    assert s[..i + 1][..i] == s[..i];
  }

  lemma {:induction false} SumMonotone(s: seq<nat>, i: nat, j: nat)
    requires i <= j <= |s|
    ensures Sum(s[..i]) <= Sum(s[..j])
    ensures i < j ==> Sum(s[..i]) + s[i] <= Sum(s[..j])
    decreases j
  {
    if i < j {
      SumStep(s, j - 1);
      if i < j - 1 { SumMonotone(s, i, j - 1); }
    }
  }

  /** The share of w in m, in 64-bit arithmetic: the product may wrap, the quotient is floored. */
  function Share(w: nat, m: nat, total: nat): nat
    requires total > 0
  {
    U64(w * m) / total
  }

  /** One slot each, plus the floored shares of m. */
  ghost function Floored(w: seq<nat>, m: nat, total: nat): (t: seq<nat>)
    requires total > 0
    ensures |t| == |w|
  {
    seq(|w|, i requires 0 <= i < |w| => 1 + Share(w[i], m, total))
  }

  lemma FlooredAt(w: seq<nat>, m: nat, total: nat, i: nat)
    requires total > 0 && i < |w|
    ensures Floored(w, m, total)[i] == 1 + Share(w[i], m, total)
  {
  }

  /** r further slots dealt out round robin. */
  ghost function Dispersed(t: seq<nat>, laps: nat, k: nat): (d: seq<nat>)
    ensures |d| == |t|
  {
    seq(|t|, i requires 0 <= i < |t| => t[i] + laps + if i < k then 1 else 0)
  }

  lemma ShareBound(w: nat, m: nat, total: nat)
    requires total > 0
    ensures Share(w, m, total) * total <= w * m
    ensures w * m < TWO_64 ==> w * m < (Share(w, m, total) + 1) * total
  {
    var p := U64(w * m);
    DivLower(p / total, p, total);
    DivLower(p / total + 1, p, total);
    assert p <= w * m && (w * m < TWO_64 ==> p == w * m);
  }

  /** Floors never hand out more than m, whatever wraps, as long as `total` is the true sum. */
  lemma {:induction false} FlooredSum(w: seq<nat>, m: nat, total: nat, i: nat)
    requires total > 0 && i <= |w|
    ensures Sum(Floored(w, m, total)[..i]) >= i
    ensures (Sum(Floored(w, m, total)[..i]) - i) * total <= Sum(w[..i]) * m
    ensures NoWrap(w, m) && i > 0 ==>
              Sum(w[..i]) * m < Sum(Floored(w, m, total)[..i]) * total
  {
    if i == 0 {
    } else {
      var t := Floored(w, m, total);
      var j := i - 1;
      FlooredSum(w, m, total, j);
      SumStep(t, j);
      SumStep(w, j);
      ShareBound(w[j], m, total);
      FlooredStep(Sum(t[..j]), j, t[j] - 1, Sum(w[..j]), w[j], m, total);
    }
  }

  lemma FlooredStep(st: nat, j: nat, a: nat, sw: nat, w: nat, m: nat, total: nat)
    requires st >= j && (st - j) * total <= sw * m && a * total <= w * m
    ensures (st + a + 1 - (j + 1)) * total <= (sw + w) * m
    ensures sw * m <= st * total && w * m < (a + 1) * total ==> (sw + w) * m < (st + a + 1) * total
  {
    assert (sw + w) * m == sw * m + w * m;
    assert (st - j + a) * total == (st - j) * total + a * total;
    assert (st + (a + 1)) * total == st * total + (a + 1) * total;
  }

  ghost predicate NoWrap(w: seq<nat>, m: nat) {
    forall k :: 0 <= k < |w| ==> w[k] * m < TWO_64
  }

  /** With the true sum as divisor the floors leave a residue, smaller than the alphabet unless products wrap. */
  lemma Residue(w: seq<nat>, m: nat)
    requires Sum(w) > 0
    ensures |w| <= Sum(Floored(w, m, Sum(w))) <= m + |w|
    ensures NoWrap(w, m) ==> m < Sum(Floored(w, m, Sum(w)))
  {
    assert w != [];
    hide Sum, Floored, Share, NoWrap;
    var total := Sum(w);
    var t := Floored(w, m, total);
    FlooredTotal(w, m, total);
    CancelTotal(Sum(t), |w|, m, total);
  }

  lemma FlooredTotal(w: seq<nat>, m: nat, total: nat)
    requires total > 0
    ensures var st := Sum(Floored(w, m, total));
            && st >= |w|
            && (st - |w|) * total <= Sum(w) * m
            && (NoWrap(w, m) && w != [] ==> Sum(w) * m < st * total)
  {
    hide Sum, NoWrap, Share;
    FlooredSum(w, m, total, |w|);
    var t := Floored(w, m, total);
    assert t[..|w|] == t && w[..|w|] == w;
  }

  lemma CancelTotal(st: nat, n: nat, m: nat, total: nat)
    requires total > 0 && n <= st && (st - n) * total <= total * m
    ensures st <= m + n
    ensures total * m < st * total ==> m < st
  {
    assert total * m == m * total;
    MulStrict(m, st - n, total);
    MulStrict(st, m, total);
  }

  lemma MulStrict(a: nat, b: nat, c: nat)
    ensures a < b ==> a * c + c <= b * c
    ensures a <= b ==> a * c <= b * c
  {
    if a < b { assert b * c == a * c + (b - a) * c; MulMonotone(1, b - a, c); }
  }

  lemma {:induction false} DispersedSum(t: seq<nat>, laps: nat, k: nat, i: nat)
    requires i <= |t|
    ensures Sum(Dispersed(t, laps, k)[..i]) == Sum(t[..i]) + i * laps + if i < k then i else k
  {
    if i == 0 {
    } else {
      DispersedSum(t, laps, k, i - 1);
      SumStep(Dispersed(t, laps, k), i - 1);
      SumStep(t, i - 1);
      assert i * laps == (i - 1) * laps + laps;
    }
  }

  /** A table fit for coding: every symbol has a slot and the slots fill 2^scale. */
  ghost predicate IsTable(t: seq<nat>, scale: nat) {
    && (forall i :: 0 <= i < |t| ==> t[i] >= 1)
    && Sum(t) == Pow2(scale)
  }

  /** Dealing out whatever the floors left makes the total exact. */
  lemma DispersedIsTable(t: seq<nat>, laps: nat, k: nat, scale: nat)
    requires forall i :: 0 <= i < |t| ==> t[i] >= 1
    requires k <= |t| && Sum(t) + |t| * laps + k == Pow2(scale)
    ensures IsTable(Dispersed(t, laps, k), scale)
  {
    DispersedSum(t, laps, k, |t|);
    assert Dispersed(t, laps, k)[..|t|] == Dispersed(t, laps, k) && t[..|t|] == t;
  }

  /** `rest` further slots dealt out, however many laps that takes. */
  ghost function DealtOut(t: seq<nat>, rest: nat): (d: seq<nat>)
    requires t != []
    ensures |d| == |t|
  {
    Dispersed(t, rest / |t|, rest % |t|)
  }

  lemma DealtIsTable(t: seq<nat>, rest: nat, scale: nat)
    requires t != [] && (forall i :: 0 <= i < |t| ==> t[i] >= 1)
    requires Sum(t) + rest == Pow2(scale)
    ensures IsTable(DealtOut(t, rest), scale)
  {
    hide Sum, Pow2;
    assert |t| * (rest / |t|) + rest % |t| == rest;
    DispersedIsTable(t, rest / |t|, rest % |t|, scale);
  }

  /** The divisor of the normalisers: an all-zero row divides by one. */
  ghost function Divisor(w: seq<nat>): (d: nat)
    ensures d > 0
  {
    if Sum(w) == 0 then 1 else Sum(w)
  }

  /** Floored shares of 2^scale - |w|, then the residue dealt out. */
  ghost function Normalized(w: seq<nat>, scale: nat): (t: seq<nat>)
    requires 0 < |w| <= Pow2(scale)
    ensures |t| == |w|
  {
    var f := Floored(w, Pow2(scale) - |w|, Divisor(w));
    DealtOut(f, if Sum(f) <= Pow2(scale) then Pow2(scale) - Sum(f) else 0)
  }

  lemma ZeroSum(w: seq<nat>, i: nat)
    requires Sum(w) == 0 && i < |w|
    ensures w[i] == 0
  {
    assert w[..|w|] == w;
    SumMonotone(w, i, |w|);
  }

  lemma FlooredRange(w: seq<nat>, m: nat)
    ensures |w| <= Sum(Floored(w, m, Divisor(w))) <= m + |w|
  {
    if Sum(w) > 0 {
      Residue(w, m);
    } else {
      var t := Floored(w, m, 1);
      FlooredSum(w, m, 1, |w|);
      assert w[..|w|] == w && t[..|w|] == t;
    }
  }

  /** Every symbol gets a slot and the total is exact, for all weights. */
  lemma NormalizedIsTable(w: seq<nat>, scale: nat)
    requires 0 < |w| <= Pow2(scale)
    ensures IsTable(Normalized(w, scale), scale)
  {
    hide Sum, Pow2, Share, DealtOut;
    var f := Floored(w, Pow2(scale) - |w|, Divisor(w));
    FlooredRange(w, Pow2(scale) - |w|);
    DealtIsTable(f, Pow2(scale) - Sum(f), scale);
  }

  /** A row without counts becomes uniform. */
  lemma ZeroRowIsUniform(w: seq<nat>, i: nat)
    requires |w| == 256 && Sum(w) == 0 && i < 256 && Pow2(24) == 0x100_0000
    ensures Normalized(w, 24)[i] == 65536
  {
    hide Pow2;
    var m := Pow2(24) - |w|;
    var f := Floored(w, m, 1);
    forall k | 0 <= k < 256 ensures f[k] == 1 { ZeroSum(w, k); }
    FlooredRange(w, m);
    FlooredSum(w, m, 1, |w|);
    assert w[..|w|] == w && f[..|w|] == f;
    assert Sum(f) == 256;
  }

  lemma {:induction false} SumOfTwo(w: seq<nat>, i: nat)
    requires 2 <= i <= |w| && forall k :: 2 <= k < |w| ==> w[k] == 0
    ensures Sum(w[..i]) == w[0] + w[1]
  {
    SumStep(w, i - 1);
    if i > 2 {
      SumOfTwo(w, i - 1);
    } else {
      SumStep(w, 0);
      assert w[..0] == [];
    }
  }

  // ----- The same in 64-bit registers -----

  /** What 64-bit registers keep of the entries. */
  ghost function Wrapped(t: seq<nat>): (r: seq<nat>)
    ensures |r| == |t|
  {
    seq(|t|, i requires 0 <= i < |t| => U64(t[i]))
  }

  /** The divisor as the code adds it up: the sum may wrap, and a zero is replaced. */
  ghost function Divisor64(w: seq<nat>): (d: nat)
    ensures 0 < d < TWO_64
  {
    if U64(Sum(w)) == 0 then 1 else U64(Sum(w))
  }

  /** One slot each, plus the floored shares of 2^scale - |w|. */
  ghost function Shares64(w: seq<nat>, scale: nat): (f: seq<nat>)
    requires |w| <= Pow2(scale)
    ensures |f| == |w|
  {
    Floored(w, Pow2(scale) - |w|, Divisor64(w))
  }

  /** Deals out what a 64-bit register says is missing from 2^scale. */
  ghost function Dealt64(f: seq<nat>, scale: nat): (d: seq<nat>)
    requires f != [] && Pow2(scale) < TWO_64
    ensures |d| == |f|
  {
    DealtOut(f, Sub64(Pow2(scale), U64(Sum(f))))
  }

  /** What the normalisers compute for any weights: the sums, the shares and the table all wrap. */
  ghost function Normalized64(w: seq<nat>, scale: nat): (t: seq<nat>)
    requires 0 < |w| <= Pow2(scale) < TWO_64
    ensures |t| == |w|
  {
    Wrapped(Dealt64(Shares64(w, scale), scale))
  }

  lemma EntryBound(t: seq<nat>, i: nat)
    requires i < |t|
    ensures t[i] <= Sum(t)
  {
    SumMonotone(t, i, |t|);
    assert t[..|t|] == t;
  }

  /** Registers hold the cumulative frequencies of a table as they are. */
  lemma PrefixExact(t: seq<nat>)
    requires Sum(t) < TWO_64
    ensures forall k :: 0 <= k <= |t| ==> U64(Sum(t[..k])) == Sum(t[..k])
  {
    hide Sum;
    assert t[..|t|] == t;
    forall k | 0 <= k <= |t| ensures U64(Sum(t[..k])) == Sum(t[..k]) { SumMonotone(t, k, |t|); }
  }

  lemma WrappedExact(t: seq<nat>)
    requires Sum(t) < TWO_64
    ensures Wrapped(t) == t
  {
    forall i | 0 <= i < |t| ensures Wrapped(t)[i] == t[i] {
      EntryBound(t, i);
    }
  }

  /** Shares that fit leave a table, whatever wrapped on the way to them. */
  lemma FittingShares(f: seq<nat>, scale: nat)
    requires f != [] && (forall i :: 0 <= i < |f| ==> f[i] >= 1)
    requires Sum(f) <= Pow2(scale) < TWO_64
    ensures Wrapped(Dealt64(f, scale)) == DealtOut(f, Pow2(scale) - Sum(f))
    ensures IsTable(Wrapped(Dealt64(f, scale)), scale)
  {
    hide Sum, Pow2, Wrapped, DealtOut;
    U64Exact(Sum(f));
    DealtIsTable(f, Pow2(scale) - Sum(f), scale);
    WrappedExact(Dealt64(f, scale));
  }

  /** Weights whose sum does not wrap are normalised as if no register could. */
  lemma UnwrappedSum(w: seq<nat>, scale: nat)
    requires 0 < |w| <= Pow2(scale) < TWO_64 && Sum(w) < TWO_64
    ensures Sum(Shares64(w, scale)) <= Pow2(scale)
    ensures Normalized64(w, scale) == Normalized(w, scale)
  {
    hide Sum, Pow2, DealtOut, Share, Dealt64, Wrapped;
    FlooredRange(w, Pow2(scale) - |w|);
    assert Divisor64(w) == Divisor(w);
    FittingShares(Shares64(w, scale), scale);
  }

  /** A total above 2^scale stays wrong in registers: an entry either keeps its value or becomes zero. */
  lemma Overfull(d: seq<nat>, scale: nat)
    requires Sum(d) > Pow2(scale) && forall i :: 0 <= i < |d| ==> d[i] <= TWO_64
    ensures !IsTable(Wrapped(d), scale)
  {
    hide Sum, Pow2;
    if i: nat :| i < |d| && d[i] == TWO_64 {
      assert Wrapped(d)[i] == 0;
    } else {
      assert Wrapped(d) == d;
    }
  }

  /** Divided by two or more, shares and laps are too small to wrap past zero together. */
  lemma LapBound(w: nat, m: nat, total: nat, rest: nat, n: nat, k: nat)
    requires total >= 2 && n >= 2 && rest < TWO_64
    ensures 1 + Share(w, m, total) + rest / n + (if k < rest % n then 1 else 0) <= TWO_64
  {
    var p, q := U64(w * m), rest / n;
    DivLower(p / total, p, total);
    MulMonotone(2, total, p / total);
    assert rest == n * q + rest % n;
    MulMonotone(2, n, q);
  }

  lemma DealtBound(w: seq<nat>, m: nat, total: nat, scale: nat)
    requires total >= 2 && |w| >= 2 && Pow2(scale) < TWO_64
    ensures forall i :: 0 <= i < |w| ==> Dealt64(Floored(w, m, total), scale)[i] <= TWO_64
  {
    hide Share, Sum, Pow2;
    var f := Floored(w, m, total);
    var rest := Sub64(Pow2(scale), U64(Sum(f)));
    forall i | 0 <= i < |w| ensures Dealt64(f, scale)[i] <= TWO_64 {
      LapBound(w[i], m, total, rest, |w|, i);
    }
  }

  lemma DealtGrows(f: seq<nat>, scale: nat)
    requires f != [] && Pow2(scale) < TWO_64
    ensures Sum(Dealt64(f, scale)) >= Sum(f)
  {
    hide Pow2, Sum;
    var rest := Sub64(Pow2(scale), U64(Sum(f)));
    DispersedSum(f, rest / |f|, rest % |f|, |f|);
    assert f[..|f|] == f && Dealt64(f, scale)[..|f|] == Dealt64(f, scale);
  }

  /** Undivided, the shares add up to Sum(w) * m but for multiples of 2^64. */
  lemma {:induction false} UndividedSum(w: seq<nat>, m: nat, i: nat) returns (q: nat)
    requires i <= |w|
    ensures Sum(Floored(w, m, 1)[..i]) + q * TWO_64 == i + Sum(w[..i]) * m
  {
    hide Share, Sum;
    if i == 0 {
      SumNone();
      assert w[..0] == [] && Floored(w, m, 1)[..0] == [];
      q := 0;
    } else {
      q := UndividedSum(w, m, i - 1);
      SumStep(Floored(w, m, 1), i - 1);
      SumStep(w, i - 1);
      UndividedStep(Sum(w[..i - 1]), w[i - 1], m);
      q := q + w[i - 1] * m / TWO_64;
    }
  }

  lemma UndividedStep(s: nat, x: nat, m: nat)
    ensures (s + x) * m == s * m + Share(x, m, 1) + x * m / TWO_64 * TWO_64
  {
    assert (s + x) * m == s * m + x * m;
    U64Split(x * m, 1);
  }

  /** Undivided, the register that adds up the shares ends at |w| + U64(Sum(w)) * m. */
  lemma UndividedRegister(w: seq<nat>, m: nat)
    ensures U64(Sum(Floored(w, m, 1))) == U64(|w| + U64(Sum(w)) * m)
  {
    hide Sum, Floored, U64;
    var f := Floored(w, m, 1);
    var q := UndividedSum(w, m, |w|);
    assert w[..|w|] == w && f[..|w|] == f;
    U64Split(Sum(w), m);
    SameRegister(Sum(f), |w| + U64(Sum(w)) * m, q, Sum(w) / TWO_64 * m);
  }

  /** When the sum of the weights wraps to one, nothing seems to be missing. */
  lemma UndividedDealt(w: seq<nat>, scale: nat)
    requires 0 < |w| <= Pow2(scale) < TWO_64 && U64(Sum(w)) == 1
    ensures forall i :: 0 <= i < |w| ==> Dealt64(Shares64(w, scale), scale)[i] <= TWO_64
  {
    hide Sum, Pow2, U64, Dealt64;
    UndividedRegister(w, Pow2(scale) - |w|);
    U64Exact(Pow2(scale));
    NothingDealt(Shares64(w, scale), scale);
  }

  lemma NothingDealt(f: seq<nat>, scale: nat)
    requires f != [] && U64(Sum(f)) == Pow2(scale) < TWO_64
    ensures Dealt64(f, scale) == f
  {
    hide Sum, Pow2;
    SmallMod(0, |f|);
    assert 0 / |f| == 0;
  }

  /** Weights whose 64-bit sum is not zero become a table if and only if their floored shares fit. */
  lemma TableIff(w: seq<nat>, scale: nat)
    requires 0 < |w| <= Pow2(scale) < TWO_64 && U64(Sum(w)) != 0
    requires forall i :: 0 <= i < |w| ==> w[i] < TWO_64
    ensures IsTable(Normalized64(w, scale), scale) <==> Sum(Shares64(w, scale)) <= Pow2(scale)
  {
    hide Sum, Pow2, Share, Dealt64, IsTable, Wrapped;
    var f := Shares64(w, scale);
    if Sum(f) <= Pow2(scale) {
      FittingShares(f, scale);
    } else {
      if |w| == 1 {
        SingleSum(w);
        UnwrappedSum(w, scale);
      } else if Divisor64(w) == 1 {
        UndividedDealt(w, scale);
      } else {
        DealtBound(w, Pow2(scale) - |w|, Divisor64(w), scale);
      }
      DealtGrows(f, scale);
      Overfull(Dealt64(f, scale), scale);
    }
  }

  lemma SingleSum(w: seq<nat>)
    requires |w| == 1
    ensures Sum(w) == w[0]
  {
    assert w[..0] == [];
  }

  /** How many entries no longer fit a register. */
  ghost function Carries(t: seq<nat>): nat {
    if t == [] then 0 else Carries(t[..|t| - 1]) + if t[|t| - 1] >= TWO_64 then 1 else 0
  }

  lemma {:induction false} WrappedSum(t: seq<nat>, i: nat)
    requires i <= |t| && forall k :: 0 <= k < |t| ==> t[k] < 2 * TWO_64
    ensures Sum(Wrapped(t)[..i]) + Carries(t[..i]) * TWO_64 == Sum(t[..i])
  {
    if i == 0 {
    } else {
      WrappedSum(t, i - 1);
      SumStep(Wrapped(t), i - 1);
      SumStep(t, i - 1);
      assert t[..i][..i - 1] == t[..i - 1];
      assert U64(t[i - 1]) == if t[i - 1] >= TWO_64 then t[i - 1] - TWO_64 else t[i - 1];
    }
  }

  /** Wrapping the entries first does not change what a register adds them up to. */
  lemma {:induction false} WrappedRegister(t: seq<nat>, i: nat)
    requires i <= |t|
    ensures U64(Sum(Wrapped(t)[..i])) == U64(Sum(t[..i]))
  {
    hide Sum, U64;
    if i == 0 {
      assert Wrapped(t)[..0] == t[..0];
    } else {
      WrappedRegister(t, i - 1);
      SumStep(Wrapped(t), i - 1);
      SumStep(t, i - 1);
      U64Add(Sum(t[..i - 1]), t[i - 1]);
      U64Add(Sum(Wrapped(t)[..i - 1]), Wrapped(t)[i - 1]);
    }
  }

  lemma WrappedTotal(t: seq<nat>)
    ensures U64(Sum(Wrapped(t))) == U64(Sum(t))
  {
    hide Sum, U64, Wrapped;
    WrappedRegister(t, |t|);
    assert Wrapped(t)[..|t|] == Wrapped(t) && t[..|t|] == t;
  }

  /** A row whose 64-bit sum is zero: 65536 slots each, on top of undivided shares. */
  ghost function ZeroDealt(w: seq<nat>): (d: seq<nat>)
    ensures |d| == |w|
  {
    seq(|w|, i requires 0 <= i < |w| => Share(w[i], 16776960, 1) + 65536)
  }

  lemma ZeroDealtSum(w: seq<nat>)
    requires |w| == 256 && U64(Sum(w)) == 0 && Pow2(24) == 0x100_0000
    ensures Dealt64(Shares64(w, 24), 24) == ZeroDealt(w)
    ensures Sum(ZeroDealt(w)) == Sum(Shares64(w, 24)) + 16776960
  {
    hide Sum, Pow2, Share, U64;
    var f := Shares64(w, 24);
    UndividedRegister(w, 16776960);
    U64Exact(256);
    assert Sub64(Pow2(24), U64(Sum(f))) == 256 * 65535;
    assert DealtOut(f, 256 * 65535) == Dispersed(f, 65535, 0) == ZeroDealt(w);
    DispersedSum(f, 65535, 0, 256);
    assert f[..256] == f && ZeroDealt(w)[..256] == ZeroDealt(w);
  }

  /** A row whose 64-bit sum is zero becomes a table if and only if the shares that wrap around when
      65536 is added make up all of the shares, and none of them wraps to zero. */
  lemma ZeroTableIff(w: seq<nat>)
    requires |w| == 256 && U64(Sum(w)) == 0 && Pow2(24) == 0x100_0000
    ensures IsTable(Normalized64(w, 24), 24) <==>
            Sum(Shares64(w, 24)) == 256 + Carries(ZeroDealt(w)) * TWO_64
            && forall i :: 0 <= i < 256 ==> ZeroDealt(w)[i] != TWO_64
  {
    hide Sum, Pow2, Dealt64, Shares64, Carries;
    var d := ZeroDealt(w);
    ZeroDealtSum(w);
    forall i | 0 <= i < 256 ensures 65536 <= d[i] < 2 * TWO_64 && (Wrapped(d)[i] == 0 <==> d[i] == TWO_64) {
      ShareOfOne(w[i], 16776960);
    }
    WrappedSum(d, 256);
    assert d[..256] == d && Wrapped(d)[..256] == Wrapped(d);
  }

  lemma ShareOfOne(w: nat, m: nat)
    ensures Share(w, m, 1) < TWO_64
  {
  }

  /** What a caller can check before it has a row of counts normalised: the shares that the wrapping
      registers compute fit the table, or, when the sum wraps to zero, wrap around exactly. */
  ghost predicate Sound(w: seq<nat>)
    requires |w| == 256 && Pow2(24) == 0x100_0000
  {
    if U64(Sum(w)) != 0 then
      Sum(Shares64(w, 24)) <= 0x100_0000
    else
      && Sum(Shares64(w, 24)) == 256 + Carries(ZeroDealt(w)) * TWO_64
      && forall i :: 0 <= i < 256 ==> ZeroDealt(w)[i] != TWO_64
  }

  /** The exact condition for all rows of 64-bit counts. */
  lemma SoundIff(w: seq<nat>)
    requires |w| == 256 && Pow2(24) == 0x100_0000 && forall i :: 0 <= i < 256 ==> w[i] < TWO_64
    ensures IsTable(Normalized64(w, 24), 24) <==> Sound(w)
  {
    hide Sum, Pow2, Shares64, ZeroDealt, Carries, IsTable, Normalized64;
    if U64(Sum(w)) != 0 { TableIff(w, 24); } else { ZeroTableIff(w); }
  }

  // ----- Which symbols get the residue -----

  ghost function Excess(f: seq<nat>, t: seq<nat>, i: nat): int
    requires i < |f| == |t|
  {
    t[i] as int - f[i] as int
  }

  /** t hands out f and more, and nobody gets less than a later symbol, or two more than one. */
  ghost predicate EvenlyDealt(f: seq<nat>, t: seq<nat>) {
    && |t| == |f|
    && (forall i :: 0 <= i < |f| ==> Excess(f, t, i) >= 0)
    && (forall i, j :: 0 <= i < j < |f| ==> Excess(f, t, j) <= Excess(f, t, i) <= Excess(f, t, j) + 1)
  }

  lemma DispersedEvenly(f: seq<nat>, laps: nat, k: nat)
    ensures EvenlyDealt(f, Dispersed(f, laps, k))
  {
  }

  lemma DealtEvenly(f: seq<nat>, rest: nat)
    requires f != []
    ensures EvenlyDealt(f, DealtOut(f, rest))
  {
    hide EvenlyDealt, Dispersed;
    DispersedEvenly(f, rest / |f|, rest % |f|);
  }

  lemma {:induction false} Dominated(t: seq<nat>, u: seq<nat>, k: nat)
    requires |t| == |u| && k <= |t| && forall i :: 0 <= i < |t| ==> t[i] <= u[i]
    ensures Sum(t[..k]) <= Sum(u[..k])
    ensures (exists i :: 0 <= i < k && t[i] < u[i]) ==> Sum(t[..k]) < Sum(u[..k])
  {
    if k == 0 {
    } else {
      Dominated(t, u, k - 1);
      SumStep(t, k - 1);
      SumStep(u, k - 1);
    }
  }

  /** A total leaves only one way to deal evenly. */
  lemma EvenUnique(f: seq<nat>, t: seq<nat>, u: seq<nat>)
    requires EvenlyDealt(f, t) && EvenlyDealt(f, u) && Sum(t) == Sum(u)
    ensures t == u
  {
    assert t[..|t|] == t && u[..|u|] == u;
    forall i | 0 <= i < |f| ensures t[i] == u[i] {
      if t[i] < u[i] {
        EvenBelow(f, t, u, i);
        Dominated(t, u, |t|);
      } else if u[i] < t[i] {
        EvenBelow(f, u, t, i);
        Dominated(u, t, |t|);
      }
    }
  }

  lemma EvenBelow(f: seq<nat>, t: seq<nat>, u: seq<nat>, i: nat)
    requires EvenlyDealt(f, t) && EvenlyDealt(f, u) && i < |f| && t[i] < u[i]
    ensures forall j :: 0 <= j < |f| ==> t[j] <= u[j]
  {
    forall j | 0 <= j < |f| ensures t[j] <= u[j] {
      assert Excess(f, t, i) < Excess(f, u, i);
      assert Excess(f, t, j) <= Excess(f, u, j);
    }
  }

  /** One slot each plus the floored shares of m, with the product in a 64-bit register. */
  ghost function FlooredShares(w: seq<nat>, m: nat, divisor: nat): (f: seq<nat>)
    requires divisor > 0
    ensures |f| == |w|
  {
    seq(|w|, i requires 0 <= i < |w| => 1 + (w[i] * m % TWO_64) / divisor)
  }

  lemma FlooredAre(w: seq<nat>, m: nat, divisor: nat)
    requires divisor > 0
    ensures Floored(w, m, divisor) == FlooredShares(w, m, divisor)
  {
  }

  lemma SharesAre(w: seq<nat>, scale: nat)
    requires |w| <= Pow2(scale)
    ensures var sum := Sum(w) % TWO_64;
            Shares64(w, scale) == FlooredShares(w, Pow2(scale) - |w|, if sum == 0 then 1 else sum)
  {
    hide Sum, Pow2, Floored, FlooredShares;
    FlooredAre(w, Pow2(scale) - |w|, Divisor64(w));
  }

  lemma DealtExactly(w: seq<nat>, scale: nat, t: seq<nat>)
    requires 0 < |w| <= Pow2(scale) < TWO_64
    ensures var f := Shares64(w, scale);
            Sum(t) == Pow2(scale) && EvenlyDealt(f, t) <==> t == Normalized64(w, scale) && Sum(f) <= Pow2(scale)
  {
    hide Sum, Pow2, EvenlyDealt, DealtOut, Dealt64, Shares64, Floored;
    var f := Shares64(w, scale);
    SharesOnes(w, scale);
    if Sum(f) <= Pow2(scale) {
      FittingShares(f, scale);
      DealtEvenly(f, Pow2(scale) - Sum(f));
      if Sum(t) == Pow2(scale) && EvenlyDealt(f, t) { EvenUnique(f, t, Normalized64(w, scale)); }
    } else if EvenlyDealt(f, t) {
      EvenTotal(f, t);
    }
  }

  /** What the normalisers compute, without the loop that deals: the one table of 2^scale slots whose
      excess over the floored shares never rises, and never differs by more than one. */
  lemma NormalizedExactly(w: seq<nat>, scale: nat, t: seq<nat>)
    requires 0 < |w| <= Pow2(scale) < TWO_64
    ensures var sum := Sum(w) % TWO_64;
            var f := FlooredShares(w, Pow2(scale) - |w|, if sum == 0 then 1 else sum);
            Sum(t) == Pow2(scale) && EvenlyDealt(f, t) <==> t == Normalized64(w, scale) && Sum(f) <= Pow2(scale)
  {
    hide *;
    SharesAre(w, scale);
    DealtExactly(w, scale, t);
  }

  lemma UnwrappedShares(w: seq<nat>, scale: nat)
    requires |w| <= Pow2(scale) && 0 < Sum(w) < TWO_64
    ensures Shares64(w, scale) == FlooredShares(w, Pow2(scale) - |w|, Sum(w))
  {
    hide Sum, Pow2, Floored, FlooredShares, U64;
    U64Exact(Sum(w));
    FlooredAre(w, Pow2(scale) - |w|, Sum(w));
  }

  /** In particular while the sum fits 64 bits and is not zero. */
  lemma UnwrappedExactly(w: seq<nat>, scale: nat, t: seq<nat>)
    requires 0 < |w| <= Pow2(scale) < TWO_64 && 0 < Sum(w) < TWO_64
    ensures t == Normalized64(w, scale) <==>
              Sum(t) == Pow2(scale) && EvenlyDealt(FlooredShares(w, Pow2(scale) - |w|, Sum(w)), t)
  {
    hide *;
    UnwrappedSum(w, scale);
    UnwrappedShares(w, scale);
    DealtExactly(w, scale, t);
  }

  lemma EvenTotal(f: seq<nat>, t: seq<nat>)
    requires EvenlyDealt(f, t)
    ensures Sum(f) <= Sum(t)
  {
    hide Sum;
    assert forall i :: 0 <= i < |f| ==> Excess(f, t, i) + f[i] == t[i];
    assert t[..|t|] == t && f[..|f|] == f;
    Dominated(f, t, |f|);
  }

  lemma SharesOnes(w: seq<nat>, scale: nat)
    requires |w| <= Pow2(scale)
    ensures forall i :: 0 <= i < |w| ==> Shares64(w, scale)[i] >= 1
  {
  }

  /** A row that fails: its 64-bit sum is 1, the shares alone add up to 2^64 + 2^24. */
  lemma WrappedSumFails(w: seq<nat>)
    requires |w| == 256 && w[0] == TWO_64 - 1 && w[1] == 2 && forall k :: 2 <= k < |w| ==> w[k] == 0
    requires Pow2(24) == 0x100_0000
    ensures U64(Sum(w)) == 1 && !IsTable(Normalized64(w, 24), 24)
  {
    hide Pow2, IsTable, Normalized64, Floored, Share, Sum;
    SumOfTwo(w, 256);
    assert w[..256] == w;
    FlooredAt(w, 16776960, 1, 0);
    LargestShare();
    EntryBound(Shares64(w, 24), 0);
    TableIff(w, 24);
  }

  lemma LargestShare()
    ensures Share(TWO_64 - 1, 16776960, 1) == TWO_64 - 16776960
  {
  }

  lemma ZeroShare(w: seq<nat>, i: nat)
    requires |w| == 256 && U64(Sum(w)) == 0 && i < 256 && Share(w[i], 16776960, 1) == 0
    requires Pow2(24) == 0x100_0000
    ensures Normalized64(w, 24)[i] == 65536
  {
    hide Pow2, Shares64, Dealt64, Share, Sum;
    ZeroDealtSum(w);
  }

  /** A row that survives: its sum 2^64 wraps to zero, but so does every share. */
  lemma WrappedSumSurvives(w: seq<nat>, i: nat)
    requires |w| == 256 && (forall k :: 0 <= k < 256 ==> w[k] == 0x100_0000_0000_0000) && i < 256
    requires Pow2(24) == 0x100_0000
    ensures Sum(w) == TWO_64 && Normalized64(w, 24)[i] == 65536
  {
    hide Pow2, Share, Sum, Normalized64;
    ConstantSum(w, 0x100_0000_0000_0000, 256);
    assert w[..256] == w;
    ShareOfTwo56();
    ZeroShare(w, i);
  }

  lemma ShareOfTwo56()
    ensures Share(0x100_0000_0000_0000, 16776960, 1) == 0
  {
  }

  lemma {:induction false} ConstantSum(w: seq<nat>, c: nat, i: nat)
    requires i <= |w| && forall k :: 0 <= k < |w| ==> w[k] == c
    ensures Sum(w[..i]) == i * c
  {
    if i == 0 {
    } else {
      ConstantSum(w, c, i - 1);
      SumStep(w, i - 1);
      assert i * c == (i - 1) * c + c;
    }
  }

  /** for (k = 0; rest > 0; k = (k + 1) % size, rest--) row[k]++ */
  method Disperse(row: array<nat>, size: nat, rest: nat, ghost t: seq<nat>)
    requires 0 < size == row.Length && row[..] == Wrapped(t)
    modifies row
    ensures row[..] == Wrapped(DealtOut(t, rest))
  {
    ghost var laps: nat := 0;
    var k: nat, togo: nat := 0, rest;
    while togo > 0
      invariant k < size == |t| && laps * size + k + togo == rest
      invariant forall i :: 0 <= i < size ==> row[i] == U64(t[i] + laps + if i < k then 1 else 0)
    {
      U64Add(t[k] + laps, 1);
      row[k] := U64(row[k] + 1);
      if k + 1 == size {
        assert (laps + 1) * size == laps * size + size;
        laps := laps + 1;
      }
      SmallMod(k + 1, size);
      k := (k + 1) % size;
      togo := togo - 1;
    }
    DivModUnique(laps, size, k);
    assert row[..] == Wrapped(DealtOut(t, rest));
  }

  lemma SmallMod(k: nat, n: nat)
    requires 0 < n && k <= n
    ensures k % n == if k == n then 0 else k
  {
  }

  // ----- Intervals and lookup -----

  ghost function Slots(t: seq<nat>, s: nat): Interval {
    if s < |t| then Interval(t[s], Sum(t[..s])) else Interval(0, 0)
  }

  lemma SlotsFit(t: seq<nat>, scale: nat, s: nat)
    requires IsTable(t, scale) && s < |t|
    ensures Fits(Slots(t, s), scale)
  {
    SumMonotone(t, s, |t|);
    assert t[..|t|] == t;
  }

  lemma SlotsDisjoint(t: seq<nat>, s: nat, s': nat)
    requires s < s' < |t|
    ensures Slots(t, s).bs + Slots(t, s).ls <= Slots(t, s').bs
  {
    SumMonotone(t, s, s');
  }

  /** Only one interval holds a slot. */
  lemma SlotUnique(t: seq<nat>, slot: nat, s: nat, s': nat)
    requires s < |t| && s' < |t| && Holds(Slots(t, s), slot) && Holds(Slots(t, s'), slot)
    ensures s == s'
  {
    if s < s' { SlotsDisjoint(t, s, s'); }
    if s' < s { SlotsDisjoint(t, s', s); }
  }

  /** Every slot below a prefix sum lies in an interval of the prefix. */
  lemma {:induction false} SlotCovered(t: seq<nat>, slot: nat, i: nat)
    requires i <= |t| && slot < Sum(t[..i])
    ensures exists s: nat :: s < i && Holds(Slots(t, s), slot)
  {
    if i == 0 {
    } else {
      SumStep(t, i - 1);
      if slot < Sum(t[..i - 1]) {
        SlotCovered(t, slot, i - 1);
      } else {
        assert Holds(Slots(t, i - 1), slot);
      }
    }
  }

  /** The intervals of a table tile its slots: each slot belongs to exactly one symbol. */
  lemma SlotsTile(t: seq<nat>, scale: nat, slot: nat)
    requires IsTable(t, scale) && slot < Pow2(scale)
    ensures exists s: nat :: s < |t| && Holds(Slots(t, s), slot)
    ensures forall s: nat, s': nat :: s < |t| && s' < |t| && Holds(Slots(t, s), slot) && Holds(Slots(t, s'), slot) ==>
            s == s'
  {
    hide Sum, Pow2, Slots;
    assert t[..|t|] == t;
    SlotCovered(t, slot, |t|);
    forall s: nat, s': nat | s < |t| && s' < |t| && Holds(Slots(t, s), slot) && Holds(Slots(t, s'), slot)
      ensures s == s'
    {
      SlotUnique(t, slot, s, s');
    }
  }
}
