/** The rANS coder as functions on states and word lists, and why decoding undoes encoding. */
module RansSpec {
  import opened Words

  /** The slots [bs, bs + ls) a model assigns to a symbol. */
  datatype Interval = Interval(ls: nat, bs: nat)

  ghost predicate Fits(iv: Interval, scale: nat) {
    iv.ls >= 1 && iv.bs + iv.ls <= Pow2(scale)
  }

  ghost predicate InState(x: nat) {
    TWO_31 <= x < TWO_63
  }

  function UpPrefix(scale: nat): nat
    requires scale <= 31
  {
    Pow2(31 - scale) * TWO_32
  }

  /** The state once a word has been pushed if needed. */
  function Shrunk(x: nat, iv: Interval, scale: nat): nat
    requires scale <= 31
  {
    if x >= iv.ls * UpPrefix(scale) then x / TWO_32 else x
  }

  function Pushed(x: nat, iv: Interval, scale: nat): seq<nat>
    requires scale <= 31
  {
    if x >= iv.ls * UpPrefix(scale) then [x % TWO_32] else []
  }

  function Absorb(y: nat, iv: Interval, scale: nat): nat
    requires iv.ls >= 1
  {
    (y / iv.ls) * Pow2(scale) + iv.bs + y % iv.ls
  }

  function EncodeStep(x: nat, iv: Interval, scale: nat): nat
    requires scale <= 31 && iv.ls >= 1
  {
    Absorb(Shrunk(x, iv, scale), iv, scale)
  }

  /** The state before a word is read back in. */
  function Release(x: nat, iv: Interval, scale: nat): int {
    iv.ls * (x / Pow2(scale)) + x % Pow2(scale) - iv.bs
  }

  // ----- One step -----

  lemma ScaleSplit(scale: nat)
    requires scale <= 31
    ensures Pow2(scale) * Pow2(31 - scale) == TWO_31
    ensures Pow2(scale) * UpPrefix(scale) == TWO_63
    ensures TWO_32 <= UpPrefix(scale)
    ensures UpPrefix(scale) == Pow2(63 - scale)
  {
    hide Pow2;
    Pow2Values();
    Pow2Add(scale, 31 - scale);
    Pow2Add(31 - scale, 32);
    var p, l := Pow2(scale), Pow2(31 - scale);
    assert p * (l * TWO_32) == (p * l) * TWO_32;
  }

  /** One push always suffices: afterwards the state is below the bound, yet large enough to absorb. */
  lemma ShrunkRange(x: nat, iv: Interval, scale: nat)
    requires scale <= 31 && InState(x) && Fits(iv, scale)
    ensures iv.ls * Pow2(31 - scale) <= Shrunk(x, iv, scale) < iv.ls * UpPrefix(scale) <= TWO_63
    ensures Shrunk(x, iv, scale) < TWO_31 <==> Pushed(x, iv, scale) != []
    ensures Pushed(x, iv, scale) == [] ==> x == Shrunk(x, iv, scale)
    ensures Pushed(x, iv, scale) != [] ==> x == Shrunk(x, iv, scale) * TWO_32 + Pushed(x, iv, scale)[0]
  {
    hide Pow2;
    ScaleSplit(scale);
    var l, p, up := Pow2(31 - scale), Pow2(scale), UpPrefix(scale);
    MulMonotone(iv.ls, p, up);
    MulMonotone(iv.ls, p, l);
    MulMonotone(1, iv.ls, up);
    if x >= iv.ls * up {
      assert iv.ls * up == (iv.ls * l) * TWO_32;
      DivLower(iv.ls * l, x, TWO_32);
    }
  }

  lemma AbsorbRange(y: nat, iv: Interval, scale: nat)
    requires scale <= 31 && Fits(iv, scale)
    requires iv.ls * Pow2(31 - scale) <= y < iv.ls * UpPrefix(scale)
    ensures InState(Absorb(y, iv, scale))
    ensures Absorb(y, iv, scale) / Pow2(scale) == y / iv.ls
    ensures Absorb(y, iv, scale) % Pow2(scale) == iv.bs + y % iv.ls
  {
    hide Pow2, UpPrefix;
    ScaleSplit(scale);
    var p, q := Pow2(scale), y / iv.ls;
    QuotientRange(y, iv.ls, Pow2(31 - scale), UpPrefix(scale), p);
    DivModUnique(q, p, iv.bs + y % iv.ls);
  }

  /** Bounds of a quotient, scaled up. */
  lemma QuotientRange(y: nat, d: nat, l: nat, up: nat, p: nat)
    requires d > 0 && d * l <= y < d * up
    ensures l * p <= y / d * p && y / d * p + p <= up * p
  {
    var q := y / d;
    assert l * d == d * l && up * d == d * up;
    DivLower(l, y, d);
    DivLower(up, y, d);
    MulMonotone(l, q, p);
    MulMonotone(q + 1, up, p);
    assert (q + 1) * p == q * p + p;
  }

  /** The state stays in [2^31, 2^63), its low bits fall in the symbol's interval, and releasing the
      interval gives back the state before absorption. */
  lemma StepInverse(x: nat, iv: Interval, scale: nat)
    requires scale <= 31 && InState(x) && Fits(iv, scale)
    ensures var x' := EncodeStep(x, iv, scale);
            && InState(x')
            && iv.bs <= x' % Pow2(scale) < iv.bs + iv.ls
            && Release(x', iv, scale) == Shrunk(x, iv, scale)
  {
    hide Pow2, UpPrefix, Absorb;
    var y := Shrunk(x, iv, scale);
    ShrunkRange(x, iv, scale);
    AbsorbRange(y, iv, scale);
    assert iv.ls * (y / iv.ls) + y % iv.ls == y;
  }

  // ----- Whole sequences -----

  ghost predicate AllFit(ivs: seq<Interval>, scale: nat) {
    forall i :: 0 <= i < |ivs| ==> Fits(ivs[i], scale)
  }

  /** The state after encoding ivs from last to first, starting at 2^31. */
  ghost function StateOf(ivs: seq<Interval>, scale: nat): (x: nat)
    requires scale <= 31 && AllFit(ivs, scale)
    ensures InState(x)
  {
    if ivs == [] then TWO_31
    else
      var x := StateOf(ivs[1..], scale);
      StepInverse(x, ivs[0], scale);
      EncodeStep(x, ivs[0], scale)
  }

  /** The words pushed on the way, the latest first: the order in which the stack is drained. */
  ghost function WordsOf(ivs: seq<Interval>, scale: nat): (w: seq<nat>)
    requires scale <= 31 && AllFit(ivs, scale)
    ensures |w| <= |ivs|
    ensures forall i :: 0 <= i < |w| ==> w[i] < TWO_32
  {
    if ivs == [] then []
    else Pushed(StateOf(ivs[1..], scale), ivs[0], scale) + WordsOf(ivs[1..], scale)
  }

  /** The coded block: the final state, low word first, then the drained words. */
  ghost function CodeOf(ivs: seq<Interval>, scale: nat): (code: seq<nat>)
    requires scale <= 31 && AllFit(ivs, scale)
    ensures 2 <= |code| <= |ivs| + 2
    ensures forall i :: 0 <= i < |code| ==> code[i] < TWO_32
  {
    var x := StateOf(ivs, scale);
    [x % TWO_32, x / TWO_32] + WordsOf(ivs, scale)
  }

  /** A model: the interval of a symbol after a history of symbols. */
  type Model = (seq<nat>, nat) -> Interval

  ghost predicate Decodable(m: Model, size: nat, scale: nat) {
    && (forall h: seq<nat>, s: nat :: s < size ==> Fits(m(h, s), scale))
    && (forall h: seq<nat>, s: nat, s': nat :: s < size && s' < size && s != s' ==>
          m(h, s).bs + m(h, s).ls <= m(h, s').bs || m(h, s').bs + m(h, s').ls <= m(h, s).bs)
  }

  ghost function IntervalsOf(m: Model, h: seq<nat>, syms: seq<nat>): (ivs: seq<Interval>)
    ensures |ivs| == |syms|
    decreases |syms|
  {
    if syms == [] then [] else [m(h, syms[0])] + IntervalsOf(m, h + [syms[0]], syms[1..])
  }

  lemma {:induction false} IntervalsFit(m: Model, size: nat, scale: nat, h: seq<nat>, syms: seq<nat>)
    requires Decodable(m, size, scale) && forall i :: 0 <= i < |syms| ==> syms[i] < size
    ensures AllFit(IntervalsOf(m, h, syms), scale)
    decreases |syms|
  {
    if syms == [] {
    } else {
      IntervalsFit(m, size, scale, h + [syms[0]], syms[1..]);
    }
  }

  ghost predicate Holds(iv: Interval, slot: nat) {
    iv.bs <= slot < iv.bs + iv.ls
  }

  /** The first symbol from s on whose interval holds the slot. */
  ghost function Lookup(m: Model, h: seq<nat>, size: nat, slot: nat, s: nat): nat
    decreases size - s
  {
    if s >= size || Holds(m(h, s), slot) then s else Lookup(m, h, size, slot, s + 1)
  }

  lemma {:induction false} LookupFinds(m: Model, h: seq<nat>, size: nat, scale: nat, slot: nat, s: nat, sym: nat)
    requires Decodable(m, size, scale) && s <= sym < size && Holds(m(h, sym), slot)
    ensures Lookup(m, h, size, slot, s) == sym
    decreases size - s
  {
    if s < sym { LookupFinds(m, h, size, scale, slot, s + 1, sym); }
  }

  datatype Decoded = Decoded(syms: seq<nat>, x: nat, rest: seq<nat>) | OutOfWords

  /** Decodes n symbols: look the low bits up, release the interval, read a word if the state is small. */
  ghost function Decode(m: Model, size: nat, scale: nat, h: seq<nat>, x: nat, words: seq<nat>, n: nat): Decoded
    decreases n
  {
    if n == 0 then Decoded([], x, words)
    else
      var sym := Lookup(m, h, size, x % Pow2(scale), 0);
      var y := Release(x, m(h, sym), scale);
      if y < 0 || (y < TWO_31 && words == []) then OutOfWords
      else
        Prepend(sym, if y < TWO_31 then Decode(m, size, scale, h + [sym], y * TWO_32 + words[0], words[1..], n - 1)
                     else Decode(m, size, scale, h + [sym], y, words, n - 1))
  }

  ghost function Prepend(sym: nat, d: Decoded): Decoded {
    if d.OutOfWords? then OutOfWords else d.(syms := [sym] + d.syms)
  }

  /** Decoding inverts encoding for every adaptive model with disjoint intervals: it recovers the
      symbols, reads every pushed word once in reverse push order, and ends at 2^31. */
  lemma {:induction false} DecodeInverts(m: Model, size: nat, scale: nat, h: seq<nat>, syms: seq<nat>, rest: seq<nat>)
    requires scale <= 31 && Decodable(m, size, scale) && forall i :: 0 <= i < |syms| ==> syms[i] < size
    requires AllFit(IntervalsOf(m, h, syms), scale)
    ensures var ivs := IntervalsOf(m, h, syms);
            Decode(m, size, scale, h, StateOf(ivs, scale), WordsOf(ivs, scale) + rest, |syms|) ==
              Decoded(syms, TWO_31, rest)
    decreases |syms|
  {
    var ivs := IntervalsOf(m, h, syms);
    if syms == [] {
      assert WordsOf(ivs, scale) + rest == rest;
    } else {
      hide Decodable, Pow2, Release, Shrunk, Pushed, StateOf, WordsOf, Decode, Lookup, Fits, Prepend;
      assert ivs[1..] == IntervalsOf(m, h + [syms[0]], syms[1..]);
      TailFits(ivs, scale);
      DecodeInverts(m, size, scale, h + [syms[0]], syms[1..], rest);
      FirstSymbol(m, size, scale, h, ivs, syms[0]);
      DecodeOne(m, size, scale, h, ivs, syms[0], |syms|, rest);
      Prepended(syms, rest);
    }
  }

  lemma TailFits(ivs: seq<Interval>, scale: nat)
    requires AllFit(ivs, scale) && ivs != []
    ensures AllFit(ivs[1..], scale)
  {
  }

  lemma Prepended(syms: seq<nat>, rest: seq<nat>)
    requires syms != []
    ensures Prepend(syms[0], Decoded(syms[1..], TWO_31, rest)) == Decoded(syms, TWO_31, rest)
  {
    assert [syms[0]] + syms[1..] == syms;
  }

  /** The state of a sequence shows the slot of its first symbol. */
  lemma FirstSymbol(m: Model, size: nat, scale: nat, h: seq<nat>, ivs: seq<Interval>, s: nat)
    requires scale <= 31 && Decodable(m, size, scale) && s < size && AllFit(ivs, scale) && ivs != [] &&
             ivs[0] == m(h, s)
    ensures Lookup(m, h, size, StateOf(ivs, scale) % Pow2(scale), 0) == s
  {
    hide Decodable, Pow2, EncodeStep, Release, Shrunk, Pushed, StateOf, WordsOf, Lookup, Fits;
    var x := StateOf(ivs[1..], scale);
    CodeStep(ivs, scale);
    StepInverse(x, ivs[0], scale);
    LookupFinds(m, h, size, scale, StateOf(ivs, scale) % Pow2(scale), 0, s);
  }

  /** One decoding step takes the state of the sequence to the state of its tail. */
  lemma DecodeOne(m: Model, size: nat, scale: nat, h: seq<nat>, ivs: seq<Interval>, s: nat, n: nat, rest: seq<nat>)
    requires scale <= 31 && AllFit(ivs, scale) && ivs != [] && n > 0 && ivs[0] == m(h, s)
    requires Lookup(m, h, size, StateOf(ivs, scale) % Pow2(scale), 0) == s
    ensures Decode(m, size, scale, h, StateOf(ivs, scale), WordsOf(ivs, scale) + rest, n) ==
            Prepend(s, Decode(m, size, scale, h + [s], StateOf(ivs[1..], scale),
                              WordsOf(ivs[1..], scale) + rest, n - 1))
  {
    hide Pow2, Lookup, Fits, UpPrefix, Absorb, Release, EncodeStep, Shrunk, Pushed, StateOf, WordsOf, Decode, Prepend;
    var x, words := StateOf(ivs[1..], scale), WordsOf(ivs, scale) + rest;
    var tail := WordsOf(ivs[1..], scale) + rest;
    StepInverse(x, ivs[0], scale);
    ShrunkRange(x, ivs[0], scale);
    CodeStep(ivs, scale);
    DecodeUnfold(m, size, scale, h, StateOf(ivs, scale), words, n);
    if Pushed(x, ivs[0], scale) != [] {
      assert words[0] == Pushed(x, ivs[0], scale)[0];
      assert words[1..] == Pushed(x, ivs[0], scale)[1..] + tail;
      PushedOne(x, ivs[0], scale);
      assert words[1..] == tail;
    } else {
      assert words == tail;
    }
  }

  lemma CodeStep(ivs: seq<Interval>, scale: nat)
    requires scale <= 31 && AllFit(ivs, scale) && ivs != []
    ensures var x := StateOf(ivs[1..], scale);
            && StateOf(ivs, scale) == EncodeStep(x, ivs[0], scale)
            && WordsOf(ivs, scale) == Pushed(x, ivs[0], scale) + WordsOf(ivs[1..], scale)
  {
    hide Pow2, EncodeStep, Pushed, Fits;
  }

  lemma PushedOne(x: nat, iv: Interval, scale: nat)
    requires scale <= 31
    ensures |Pushed(x, iv, scale)| <= 1
  {
  }

  lemma DecodeUnfold(m: Model, size: nat, scale: nat, h: seq<nat>, x: nat, words: seq<nat>, n: nat)
    requires n > 0
    ensures var sym := Lookup(m, h, size, x % Pow2(scale), 0);
            var y := Release(x, m(h, sym), scale);
            && (y >= TWO_31 ==> Decode(m, size, scale, h, x, words, n)
                                == Prepend(sym, Decode(m, size, scale, h + [sym], y, words, n - 1)))
            && (0 <= y < TWO_31 && words != [] ==>
                  Decode(m, size, scale, h, x, words, n)
                  == Prepend(sym, Decode(m, size, scale, h + [sym], y * TWO_32 + words[0], words[1..], n - 1)))
  {
  }
}
