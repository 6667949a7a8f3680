/** Victini's entropy coding loops: the cross encoder and decoder closures inlined into the rANS
    codec loops that call them once per symbol. */
module VictiniCoder {
  import opened Words
  import opened RansSpec
  import opened FrequencyTable
  import opened FirstOrderContext
  import opened VictiniSpec
  import opened VictiniModel
  import opened Rans
  import opened BufferStack

  ghost function Reverse(s: seq<nat>): (r: seq<nat>)
    ensures |r| == |s|
  {
    if s == [] then [] else [s[|s| - 1]] + Reverse(s[..|s| - 1])
  }

  lemma ReverseSnoc(s: seq<nat>, x: nat)
    ensures Reverse(s + [x]) == [x] + Reverse(s)
  {
    assert (s + [x])[..|s|] == s;
  }

  lemma ReverseNone()
    ensures Reverse([]) == []
  {
  }

  /** The cross encoder: the interval of data[index] in the context of the symbol before it. */
  method CrossEncode(state: Hzrans64, dict: seq<array<nat>>, cdict: seq<array<nat>>, data: array<int>, index: nat,
                     ghost tables: seq<seq<nat>>, ghost syms: seq<nat>)
    requires HoldTables(dict, cdict, tables) && AreTables(tables)
    requires data[..] == syms && index < |syms| && forall k :: 0 <= k < |syms| ==> syms[k] < 256
    modifies state`ls, state`bs
    ensures Interval(state.ls, state.bs) == Intervals(tables, syms)[index] && Fits(Interval(state.ls, state.bs), 24)
  {
    hide Sum, Slots, IsTable, Intervals, Fits;
    IntervalOfSymbol(tables, syms, index);
    assert data[index] == syms[index];
    if index != 0 {
      assert data[index - 1] == syms[index - 1];
      var prev, sym := data[index - 1], data[index];
      assert RowHolds(dict[prev], cdict[prev], tables[prev]);
      TableExact(tables[prev]);
      assert dict[prev][..][sym] == tables[prev][sym];
      state.ls := dict[prev][sym];
      state.bs := cdict[prev][sym];
      SlotsAre(tables[prev], sym);
    } else {
      state.ls := 65536;
      state.bs := data[index] * 65536;
      UniformSum(syms[index]);
      SlotsAre(Uniform(), syms[index]);
    }
  }

  /** The running sums of a table are held as they are. */
  lemma TableExact(t: seq<nat>)
    requires IsTable(t, 24)
    ensures Sum(t) == 0x100_0000 && forall k :: 0 <= k <= |t| ==> U64(Sum(t[..k])) == Sum(t[..k])
  {
    hide Sum;
    Pow2Values();
    PrefixExact(t);
  }

  lemma SlotsAre(t: seq<nat>, s: nat)
    requires s < |t|
    ensures Slots(t, s) == Interval(t[s], Sum(t[..s]))
  {
  }

  lemma CodeEnd(ivs: seq<Interval>, scale: nat)
    requires scale <= 31 && AllFit(ivs, scale)
    ensures AllFit([], scale) && ivs[|ivs|..] == [] && StateOf([], scale) == TWO_31 && WordsOf([], scale) == []
  {
  }

  lemma CodeBack(ivs: seq<Interval>, scale: nat, i: nat)
    requires scale <= 31 && AllFit(ivs, scale) && i < |ivs|
    ensures AllFit(ivs[i..], scale) && AllFit(ivs[i + 1..], scale)
    ensures var x := StateOf(ivs[i + 1..], scale);
            && StateOf(ivs[i..], scale) == EncodeStep(x, ivs[i], scale)
            && WordsOf(ivs[i..], scale) == Pushed(x, ivs[i], scale) + WordsOf(ivs[i + 1..], scale)
  {
    hide StateOf, WordsOf, EncodeStep, Pushed;
    assert ivs[i..][1..] == ivs[i + 1..];
    CodeStep(ivs[i..], scale);
  }

  /** Encodes the symbols from last to first and drains the stack into the code. */
  method EncodeSymbols(dict: seq<array<nat>>, cdict: seq<array<nat>>, data: array<int>,
                       ghost tables: seq<seq<nat>>, ghost syms: seq<nat>) returns (code: array<nat>, n: nat)
    requires HoldTables(dict, cdict, tables) && AreTables(tables)
    requires data[..] == syms && forall k :: 0 <= k < |syms| ==> syms[k] < 256
    ensures AllFit(Intervals(tables, syms), 24)
    ensures fresh(code) && code[..] == CodeOf(Intervals(tables, syms), 24) && n == code.Length
  {
    hide Sum, Slots, IsTable, Intervals, Fits, StateOf, WordsOf, EncodeStep, Pushed, AllFit, Stack.Valid,
         Stack.Contents, Stack.Emptied,
      HoldTables, Hzrans64.Ready, Reverse;
    ghost var ivs := Intervals(tables, syms);
    AllIntervalsFit(tables, syms);
    var state := new Hzrans64(256, 24);
    var stack := new Stack<nat>();
    var index: nat := data.Length;
    CodeEnd(ivs, 24);
    ReverseNone();
    while index > 0
      invariant fresh(state) && fresh(stack.Repr) && state !in stack.Repr && state.ftable !in stack.Repr
      invariant index <= |syms| && HoldTables(dict, cdict, tables) && data[..] == syms
      invariant state.Ready() && state.scale == 24
      invariant stack.Valid() && !stack.Emptied()
      invariant AllFit(ivs[index..], 24) && InState(state.x) && state.x == StateOf(ivs[index..], 24)
      invariant Reverse(stack.Contents()) == WordsOf(ivs[index..], 24) && state.count == |stack.Contents()|
    {
      index := index - 1;
      CrossEncode(state, dict, cdict, data, index, tables, syms);
      CodeBack(ivs, 24, index);
      EncodeOne(state, stack, ivs, index);
    }
    assert ivs[0..] == ivs;
    code, n := FlushAndDrain(state, stack, ivs);
  }

  method EncodeOne(state: Hzrans64, stack: Stack<nat>, ghost ivs: seq<Interval>, ghost index: nat)
    requires state.Ready() && state.scale == 24 && stack.Valid() && !stack.Emptied()
    requires state !in stack.Repr && state.ftable !in stack.Repr
    requires index < |ivs| && AllFit(ivs, 24) && AllFit(ivs[index + 1..], 24) && AllFit(ivs[index..], 24)
    requires InState(state.x) && state.x == StateOf(ivs[index + 1..], 24)
    requires Reverse(stack.Contents()) == WordsOf(ivs[index + 1..], 24) && state.count == |stack.Contents()|
    requires Interval(state.ls, state.bs) == ivs[index]
    modifies state`x, state`count, stack.Repr
    ensures stack.Valid() && !stack.Emptied() && fresh(stack.Repr - old(stack.Repr))
    ensures InState(state.x) && state.x == StateOf(ivs[index..], 24)
    ensures Reverse(stack.Contents()) == WordsOf(ivs[index..], 24) && state.count == |stack.Contents()|
  {
    hide StateOf, WordsOf, EncodeStep, Pushed, Stack.Valid, Stack.Contents, Stack.Emptied, Hzrans64.Ready, Reverse,
         Fits;
    CodeBack(ivs, 24, index);
    ghost var before, out := stack.Contents(), Pushed(state.x, ivs[index], 24);
    state.EncodeS(stack);
    PushedOne(old(state.x), ivs[index], 24);
    if out == [] {
      assert before + out == before && out + WordsOf(ivs[index + 1..], 24) == WordsOf(ivs[index + 1..], 24);
    } else {
      assert out == [out[0]];
      ReverseSnoc(before, out[0]);
    }
  }

  method FlushAndDrain(state: Hzrans64, stack: Stack<nat>, ghost ivs: seq<Interval>) returns (code: array<nat>, n: nat)
    requires state !in stack.Repr && stack.Valid() && !stack.Emptied() && AllFit(ivs, 24)
    requires InState(state.x) && state.x == StateOf(ivs, 24)
    requires Reverse(stack.Contents()) == WordsOf(ivs, 24) && state.count == |stack.Contents()|
    modifies state`count, stack.Repr
    ensures fresh(code) && code[..] == CodeOf(ivs, 24) && n == code.Length
  {
    hide StateOf, WordsOf, Stack.Valid, Stack.Contents, Stack.Emptied, Reverse, AllFit;
    ghost var before, hi: nat, lo: nat := stack.Contents(), state.x / TWO_32, state.x % TWO_32;
    state.EncFlush(stack);
    assert before + [hi, lo] == (before + [hi]) + [lo];
    ReverseSnoc(before, hi);
    ReverseSnoc(before + [hi], lo);
    n := state.count;
    ghost var words := WordsOf(ivs, 24);
    assert [lo] + ([hi] + words) == [lo, hi] + words;
    code := Drain(stack);
  }

  /** `for (i = 0; !data->empty(); i++) { _data[i] = data->top(); data->pop(); }` */
  method Drain(stack: Stack<nat>) returns (code: array<nat>)
    requires stack.Valid() && !stack.Emptied()
    modifies stack
    ensures fresh(code) && code[..] == Reverse(old(stack.Contents()))
  {
    hide Stack.Valid, Stack.Linked, Stack.Contents, Stack.Emptied, Reverse;
    var size := stack.Size();
    code := new nat[size];
    ghost var all := Reverse(stack.Contents());
    var i := 0;
    var empty := stack.Empty();
    while !empty
      invariant stack.Valid() && stack.Repr == old(stack.Repr) && code !in stack.Repr
      invariant empty == (stack.Contents() == [])
      invariant i + |stack.Contents()| == size == |all|
      invariant all == code[..i] + Reverse(stack.Contents())
      decreases |stack.Contents()|
    {
      PopInto(stack, code, i);
      i := i + 1;
      empty := stack.Empty();
    }
    ReverseNone();
    assert code[..] == code[..i];
  }

  method PopInto(stack: Stack<nat>, code: array<nat>, i: nat)
    requires stack.Valid() && stack.Contents() != [] && code !in stack.Repr && i < code.Length
    modifies stack, code
    ensures stack.Valid() && stack.Repr == old(stack.Repr)
    ensures |stack.Contents()| == old(|stack.Contents()|) - 1
    ensures code[..i + 1] + Reverse(stack.Contents()) == old(code[..i]) + Reverse(old(stack.Contents()))
  {
    hide Stack.Valid, Stack.Linked, Stack.Contents, Stack.Emptied, Reverse;
    ghost var done, c := code[..i], stack.Contents();
    code[i] := stack.Top();
    stack.Pop();
    ReverseSnoc(stack.Contents(), c[|c| - 1]);
    assert code[..i + 1] == done + [c[|c| - 1]];
  }

  // ----- Decoding -----

  /** The first context-free symbol whose 2^16 slots reach past the slot. */
  method FindUniform(slot: nat) returns (symbol: nat)
    requires slot < 0x100_0000
    ensures symbol < 256 && Holds(Slots(Uniform(), symbol), slot)
  {
    hide Sum, Slots;
    symbol := 0xff;
    for i := 0 to 256
      invariant 65536 * i <= slot && symbol == 0xff
    {
      if (i + 1) * 65536 > slot {
        symbol := i;
        break;
      }
    }
    UniformSum(symbol);
    SlotsAre(Uniform(), symbol);
  }

  /** The symbol before the first one whose cumulative count passes the slot. */
  method FindInRow(crow: array<nat>, slot: nat, ghost row: array<nat>, ghost t: seq<nat>) returns (symbol: nat)
    requires RowHolds(row, crow, t) && |t| == 256 && IsTable(t, 24) && slot < 0x100_0000
    ensures symbol < 256 && Holds(Slots(t, symbol), slot)
  {
    hide Sum, Slots, IsTable, U64;
    symbol := 0xff;
    assert t[..256] == t && t[..0] == [];
    SumNone();
    TableExact(t);
    for i := 0 to 256
      invariant symbol == 0xff && (i > 0 ==> Sum(t[..i - 1]) <= slot)
    {
      if crow[i] > slot {
        assert i > 0;
        symbol := i - 1;
        break;
      }
    }
    SumStep(t, symbol);
    SlotsAre(t, symbol);
  }

  /** The cross decoder: looks the slot up in the context of the previous symbol. */
  method CrossDecode(state: Hzrans64, dict: seq<array<nat>>, cdict: seq<array<nat>>, prevSymbol: int,
                     ghost tables: seq<seq<nat>>, ghost sym: nat) returns (symbol: nat)
    requires state.Ready() && state.scale == 24 && HoldTables(dict, cdict, tables) && AreTables(tables)
    requires -1 <= prevSymbol < 256 && sym < 256
    requires Holds(Slots(if prevSymbol == -1 then Uniform() else tables[prevSymbol], sym), state.x % Pow2(24))
    modifies state`ls, state`bs
    ensures symbol == sym
    ensures Interval(state.ls, state.bs) == Slots(if prevSymbol == -1 then Uniform() else tables[prevSymbol], sym)
  {
    hide Sum, Slots, Pow2;
    Pow2Values();
    var bs := state.x % (state.mask + 1);
    ghost var t := if prevSymbol == -1 then Uniform() else tables[prevSymbol];
    if prevSymbol == -1 {
      symbol := FindUniform(bs);
      SlotUnique(t, bs, symbol, sym);
      UniformSum(symbol);
      state.ls := 65536;
      state.bs := symbol * 65536;
    } else {
      assert RowHolds(dict[prevSymbol], cdict[prevSymbol], t) && IsTable(t, 24);
      TableExact(t);
      symbol := FindInRow(cdict[prevSymbol], bs, dict[prevSymbol], t);
      SlotUnique(t, bs, symbol, sym);
      assert dict[prevSymbol][..][symbol] == t[symbol];
      state.ls := dict[prevSymbol][symbol];
      state.bs := cdict[prevSymbol][symbol];
    }
    SlotsAre(t, symbol);
  }

  /** Where the decoder stands before symbol i. */
  ghost predicate DecoderAt(x: nat, rest: seq<nat>, ivs: seq<Interval>, i: nat) {
    && i <= |ivs| && AllFit(ivs[i..], 24)
    && x == StateOf(ivs[i..], 24) && rest == WordsOf(ivs[i..], 24)
  }

  lemma DecoderStarts(code: seq<nat>, ivs: seq<Interval>)
    requires AllFit(ivs, 24) && code == CodeOf(ivs, 24)
    ensures DecoderAt(code[0] + code[1] * TWO_32, code[2..], ivs, 0) && InState(code[0] + code[1] * TWO_32)
  {
    hide StateOf, WordsOf, AllFit;
    assert ivs[0..] == ivs;
    assert code[2..] == WordsOf(ivs, 24);
  }

  /** The state before symbol i shows its slot; releasing it leads to the state before symbol i + 1. */
  lemma DecoderMoves(x: nat, rest: seq<nat>, ivs: seq<Interval>, i: nat)
    requires DecoderAt(x, rest, ivs, i) && i < |ivs| && AllFit(ivs, 24)
    ensures InState(x) && Fits(ivs[i], 24) && Holds(ivs[i], x % Pow2(24))
    ensures var y := Release(x, ivs[i], 24);
            if y < TWO_31 then
              rest != [] && 0 <= y && rest[0] < TWO_32 && DecoderAt(y * TWO_32 + rest[0], rest[1..], ivs, i + 1)
            else DecoderAt(y, rest, ivs, i + 1)
  {
    hide Pow2, StateOf, WordsOf, Fits, EncodeStep, Pushed, Shrunk, Release, AllFit;
    CodeBack(ivs, 24, i);
    assert Fits(ivs[i], 24) by { OneFits(ivs, 24, i); }
    var x1 := StateOf(ivs[i + 1..], 24);
    StepInverse(x1, ivs[i], 24);
    ShrunkRange(x1, ivs[i], 24);
    PushedOne(x1, ivs[i], 24);
    var tail := WordsOf(ivs[i + 1..], 24);
    if Pushed(x1, ivs[i], 24) == [] {
      assert rest == tail;
    } else {
      assert rest[1..] == tail;
    }
  }

  lemma OneFits(ivs: seq<Interval>, scale: nat, i: nat)
    requires AllFit(ivs, scale) && i < |ivs|
    ensures Fits(ivs[i], scale)
  {
  }

  method DecodeSymbols(dict: seq<array<nat>>, cdict: seq<array<nat>>, raw: array<nat>, length: nat,
                       ghost tables: seq<seq<nat>>, ghost syms: seq<nat>) returns (sym: array<nat>)
    requires HoldTables(dict, cdict, tables) && AreTables(tables)
    requires length == |syms| && forall k :: 0 <= k < |syms| ==> syms[k] < 256
    requires AllFit(Intervals(tables, syms), 24) && raw[..] == CodeOf(Intervals(tables, syms), 24)
    ensures fresh(sym) && sym[..] == syms
  {
    hide HoldTables, AreTables, Intervals, AllFit, CodeOf, DecoderAt, Hzrans64.Ready, Fits;
    ghost var ivs, code := Intervals(tables, syms), raw[..];
    DecoderStarts(code, ivs);
    var state := new Hzrans64(256, 24);
    assert raw[0] == code[0] && raw[1] == code[1];
    state.DecLoadState(raw);
    sym := new nat[length];
    var prevSymbol: int := -1;
    for i := 0 to length
      invariant fresh(state) && state.Ready() && state.scale == 24
      invariant raw[..] == code && HoldTables(dict, cdict, tables)
      invariant state.count <= |code| && DecoderAt(state.x, code[state.count..], ivs, i)
      invariant sym[..i] == syms[..i] && prevSymbol == if i == 0 then -1 else syms[i - 1]
    {
      prevSymbol := DecodeOne(state, dict, cdict, raw, prevSymbol, tables, syms, i);
      sym[i] := prevSymbol;
      assert sym[..i + 1] == syms[..i] + [syms[i]] == syms[..i + 1];
    }
    assert sym[..] == sym[..length] && syms[..length] == syms;
  }

  method DecodeOne(state: Hzrans64, dict: seq<array<nat>>, cdict: seq<array<nat>>, raw: array<nat>, prevSymbol: int,
                   ghost tables: seq<seq<nat>>, ghost syms: seq<nat>, ghost i: nat) returns (symbol: nat)
    requires state.Ready() && state.scale == 24 && HoldTables(dict, cdict, tables) && AreTables(tables)
    requires i < |syms| && (forall k :: 0 <= k < |syms| ==> syms[k] < 256) && AllFit(Intervals(tables, syms), 24)
    requires prevSymbol == if i == 0 then -1 else syms[i - 1]
    requires state.count <= raw.Length && DecoderAt(state.x, raw[state.count..], Intervals(tables, syms), i)
    modifies state`x, state`count, state`ls, state`bs
    ensures symbol == syms[i] && state.count <= raw.Length
    ensures DecoderAt(state.x, raw[state.count..], Intervals(tables, syms), i + 1)
  {
    hide HoldTables, AreTables, Intervals, AllFit, DecoderAt, Fits, Slots, Pow2, Release;
    ghost var iv, rest := Intervals(tables, syms)[i], raw[state.count..];
    IntervalOfSymbol(tables, syms, i);
    DecoderMoves(state.x, rest, Intervals(tables, syms), i);
    assert prevSymbol == -1 <==> i == 0;
    symbol := CrossDecode(state, dict, cdict, prevSymbol, tables, syms[i]);
    state.DecodeS(raw);
    assert raw[state.count..] == if Release(old(state.x), iv, 24) < TWO_31 then rest[1..] else rest;
  }
}
