/** Sharingan's chunked adaptive precoding of the leading-byte planes. */
module Sharingan {
  import opened Words
  import opened RansSpec
  import opened FrequencyTable
  import opened FirstOrderContext
  import opened Rans
  import opened SharinganGrid
  import opened SharinganSpec
  import opened VictiniSpec

  function UniformPair(symbol: nat): (iv: Interval)
    ensures symbol < 256 ==> iv == Slots(Uniform(), symbol)
  {
    UniformSlots(symbol);
    Interval(65536, symbol * 0x10000)
  }

  lemma UniformSlots(symbol: nat)
    ensures symbol < 256 ==> Slots(Uniform(), symbol) == Interval(65536, symbol * 0x10000)
  {
    if symbol < 256 { UniformSum(symbol); }
  }

  // ----- One pixel -----

  /** Pixel k of a chunk stands at row y and column x. */
  ghost predicate Located(k: nat, x: nat, y: nat, width: nat) {
    && x < width && k == y * width + x
    && (x > 0 ==> k >= 1) && (y > 0 ==> k >= width) && (x > 0 && y > 0 ==> k >= width + 1)
  }

  lemma Locate(x: nat, y: nat, width: nat)
    requires x < width
    ensures Located(y * width + x, x, y, width)
  {
    if y > 0 { MulMonotone(1, y, width); }
  }

  /** The table and the lesson of pixel k, by row and column. */
  lemma PixelCases(syms: seq<nat>, p: Params, k: nat, x: nat, y: nat)
    requires Located(k, x, y, p.width) && k < |syms| && forall i :: 0 <= i < |syms| ==> syms[i] < 256
    ensures var m := MapsOf(syms[..k], p);
            TableFor(syms[..k], p) ==
              if x > 0 then Normalized(Plus1(m[syms[k - 1]]), 24)
              else if y > 0 && p.order > 1 then Normalized(Plus1(m[syms[k - p.width]]), 24)
              else Uniform()
    ensures var m := MapsOf(syms[..k], p);
            MapsOf(syms[..k + 1], p) ==
              if x > 0 then
                var left := Teach(m, syms[k - 1], syms[k], p.rate);
                var up := if y > 0 && p.order > 1 then Teach(left, syms[k - p.width], syms[k], p.rate) else left;
                if y > 0 && p.order > 2 then Teach(up, syms[k - p.width - 1], syms[k], p.rate / 2) else up
              else if y > 0 && p.order > 1 then Teach(m, syms[k - p.width], syms[k], p.rate)
              else m
  {
    hide Pow2, Normalized, Teach, MapsOf;
    DivModUnique(y, p.width, x);
    MapsStep(syms, p, k);
  }

  lemma MapsStep(syms: seq<nat>, p: Params, k: nat)
    requires p.width > 0 && k < |syms|
    ensures MapsOf(syms[..k + 1], p) == Taught(MapsOf(syms[..k], p), syms[..k + 1], k, p)
  {
    hide Taught;
    assert syms[..k + 1][..k] == syms[..k];
  }

  /** A chunk's symbols stand in the data. */
  ghost predicate Stands(data: seq<nat>, base: nat, width: nat, p: Params, shift: nat, syms: seq<nat>)
    requires p.width > 0
  {
    forall k :: 0 <= k < |syms| ==> SymbolAt(data, base, width, p, shift, syms, k)
  }

  ghost predicate SymbolAt(data: seq<nat>, base: nat, width: nat, p: Params, shift: nat, syms: seq<nat>, k: nat)
    requires p.width > 0 && k < |syms|
  {
    Pos(base, width, p.width, k) < |data| && syms[k] == Symbol(data[Pos(base, width, p.width, k)], shift)
  }

  /** The neighbours' indexes, as the loop computes them. */
  lemma NeighbourPos(base: nat, width: nat, p: Params, k: nat, x: nat, y: nat, index: nat)
    requires Located(k, x, y, p.width) && index == base + y * width + x
    ensures Pos(base, width, p.width, k) == index
    ensures x > 0 ==> Pos(base, width, p.width, k - 1) == index - 1
    ensures y > 0 ==> index >= width && Pos(base, width, p.width, k - p.width) == index - width
    ensures x > 0 && y > 0 ==> index >= width + 1 && Pos(base, width, p.width, k - p.width - 1) == index - width - 1
  {
    DivModUnique(y, p.width, x);
    if x > 0 { DivModUnique(y, p.width, x - 1); }
    if y > 0 {
      assert y * p.width == (y - 1) * p.width + p.width && y * width == (y - 1) * width + width;
      DivModUnique(y - 1, p.width, x);
      if x > 0 { DivModUnique(y - 1, p.width, x - 1); }
    }
  }

  /** What the loop reads for pixel k and its neighbours are the chunk's symbols. */
  lemma NeighbourSymbols(data: seq<nat>, base: nat, width: nat, p: Params, shift: nat, syms: seq<nat>, k: nat,
      x: nat, y: nat, index: nat)
    requires Located(k, x, y, p.width) && index == base + y * width + x && k < |syms| &&
             Stands(data, base, width, p, shift, syms)
    ensures index < |data| && Symbol(data[index], shift) == syms[k]
    ensures x > 0 ==> Symbol(data[index - 1], shift) == syms[k - 1]
    ensures y > 0 ==> index >= width && Symbol(data[index - width], shift) == syms[k - p.width]
    ensures x > 0 && y > 0 ==> index >= width + 1 && Symbol(data[index - width - 1], shift) == syms[k - p.width - 1]
  {
    hide Pos, Symbol;
    NeighbourPos(base, width, p, k, x, y, index);
    assert SymbolAt(data, base, width, p, shift, syms, k);
    if x > 0 { assert SymbolAt(data, base, width, p, shift, syms, k - 1); }
    if y > 0 { assert SymbolAt(data, base, width, p, shift, syms, k - p.width); }
    if x > 0 && y > 0 { assert SymbolAt(data, base, width, p, shift, syms, k - p.width - 1); }
  }

  ghost predicate IsState(state: Hzrans64) {
    state.Ready() && state.size == 256 == state.ftable.Length && state.scale == 24
  }

  /** The pair of a symbol in a row of counts. */
  method PairFrom(state: Hzrans64, row: array<nat>, symbol: nat) returns (iv: Interval)
    requires IsState(state) && row.Length == 256 && row != state.ftable && 256 + Sum(row[..]) < TWO_64
    requires symbol < 256
    modifies state`ls, state`bs, state.ftable
    ensures iv == Slots(Normalized(Plus1(row[..]), 24), symbol)
  {
    hide Pow2, Sum, Normalized, Normalized64, Weights, U64, Slots;
    Pow2Values();
    assert row[..256] == row[..];
    UnwrappedWeights(row[..], 24);
    PairFits(Plus1(row[..]), symbol);
    state.CreateFtableNf(row);
    state.AddToSeq(symbol);
    iv := Interval(state.ls % TWO_32, state.bs % TWO_32);
  }

  /** Both halves of a pair fit 32 bits. */
  lemma PairFits(w: seq<nat>, symbol: nat)
    requires |w| == 256 && symbol < 256
    ensures var iv := Slots(Normalized(w, 24), symbol); iv.ls < TWO_32 && iv.bs < TWO_32
    ensures Sum(Normalized(w, 24)) < TWO_64
  {
    hide Pow2, Sum, Normalized;
    Pow2Values();
    NormalizedIsTable(w, 24);
    SlotsFit(Normalized(w, 24), 24, symbol);
  }

  method TeachRow(fmap: seq<array<nat>>, a: nat, b: nat, delta: nat)
    requires IsGrid(fmap, 256) && a < 256 && b < 256
    modifies fmap[a]
    ensures IsGrid(fmap, 256) && Rows(fmap) == Teach(old(Rows(fmap)), a, b, delta)
  {
    ghost var rows := Rows(fmap);
    var row := fmap[a];
    row[b] := row[b] + delta;
    assert row[..] == Bump(rows[a], b, delta);
  }

  /** A row's counts and the whole alphabet fit 64 bits. */
  lemma RowFits(syms: seq<nat>, p: Params, k: nat, r: nat)
    requires p.width > 0 && k <= |syms| && r < 256 && 256 + 3 * p.rate * |syms| < TWO_64
    ensures 256 + Sum(MapsOf(syms[..k], p)[r]) < TWO_64
  {
    hide Sum, MapsOf;
    MapsBound(syms[..k], p, r);
    MulMonotone(k, |syms|, 3 * p.rate);
  }

  /** What coding a pixel needs: a ready coder, separate buffers, and the model after the pixels before. */
  ghost predicate Ready(state: Hzrans64, fmap: seq<array<nat>>, data: array<nat>, p: Params, syms: seq<nat>, k: nat)
    requires p.width > 0 && k <= |syms|
    reads fmap
  {
    && IsState(state) && IsGrid(fmap, 256) && state.ftable !in fmap && data !in fmap && data != state.ftable
    && 256 + 3 * p.rate * |syms| < TWO_64 && (forall i :: 0 <= i < |syms| ==> syms[i] < 256)
    && Rows(fmap) == MapsOf(syms[..k], p)
  }

  /** A pixel with a left neighbour. */
  method CodeInner(state: Hzrans64, fmap: seq<array<nat>>, data: array<nat>, index: nat, x: nat, y: nat, width: nat,
                   p: Params, shift: nat, ghost base: nat, ghost syms: seq<nat>, ghost k: nat) returns (iv: Interval)
    requires Located(k, x, y, p.width) && x > 0 && index == base + y * width + x && k < |syms|
    requires Stands(data[..], base, width, p, shift, syms) && Ready(state, fmap, data, p, syms, k)
    modifies state`ls, state`bs, state.ftable, fmap
    ensures Ready(state, fmap, data, p, syms, k + 1)
    ensures iv == PairAt(syms, p, k)
  {
    hide Normalized, Teach, MapsOf, TableFor, Sum, Pow2, Slots, Symbol, Plus1, Stands, Located;
    PixelCases(syms, p, k, x, y);
    NeighbourSymbols(data[..], base, width, p, shift, syms, k, x, y, index);
    LocatedBefore(k, x, y, p.width);
    var s := Symbol(data[index], shift);
    var left := Symbol(data[index - 1], shift);
    RowFits(syms, p, k, left);
    iv := PairFrom(state, fmap[left], s);
    TeachRow(fmap, left, s, p.rate);
    if y > 0 {
      if p.order > 1 {
        TeachRow(fmap, Symbol(data[index - width], shift), s, p.rate);
      }
      if p.order > 2 {
        TeachRow(fmap, Symbol(data[index - width - 1], shift), s, p.rate / 2);
      }
    }
  }

  lemma LocatedBefore(k: nat, x: nat, y: nat, width: nat)
    requires Located(k, x, y, width)
    ensures width > 0
    ensures x > 0 ==> k >= 1
    ensures y > 0 ==> k >= width
    ensures x > 0 && y > 0 ==> k >= width + 1
  {
  }

  /** A pixel in the first column. */
  method CodeFirst(state: Hzrans64, fmap: seq<array<nat>>, data: array<nat>, index: nat, y: nat, width: nat,
                   p: Params, shift: nat, ghost base: nat, ghost syms: seq<nat>, ghost k: nat) returns (iv: Interval)
    requires Located(k, 0, y, p.width) && index == base + y * width && k < |syms|
    requires Stands(data[..], base, width, p, shift, syms) && Ready(state, fmap, data, p, syms, k)
    modifies state`ls, state`bs, state.ftable, fmap
    ensures Ready(state, fmap, data, p, syms, k + 1)
    ensures iv == PairAt(syms, p, k)
  {
    hide Normalized, Teach, MapsOf, TableFor, Sum, Pow2, Slots, Symbol, Plus1, Stands, Located, Uniform;
    PixelCases(syms, p, k, 0, y);
    NeighbourSymbols(data[..], base, width, p, shift, syms, k, 0, y, index);
    LocatedBefore(k, 0, y, p.width);
    var s := Symbol(data[index], shift);
    if y > 0 {
      if p.order > 1 {
        var up := Symbol(data[index - width], shift);
        RowFits(syms, p, k, up);
        iv := PairFrom(state, fmap[up], s);
        TeachRow(fmap, up, s, p.rate);
      } else {
        iv := UniformPair(s);
      }
    } else {
      iv := UniformPair(s);
    }
  }

  // ----- One chunk -----

  method ZeroMaps() returns (fmap: seq<array<nat>>)
    ensures fresh(fmap) && IsGrid(fmap, 256) && Rows(fmap) == Zeros()
  {
    fmap := [];
    for i := 0 to 256
      invariant |fmap| == i && fresh(fmap)
      invariant forall k :: 0 <= k < i ==> fmap[k].Length == 256 && fmap[k][..] == Zeros()[k]
      invariant forall k, l :: 0 <= k < l < i ==> fmap[k] != fmap[l]
    {
      var row := new nat[256](_ => 0);
      assert row[..] == Zeros()[i];
      fmap := fmap + [row];
    }
  }

  lemma ChunkStands(g: Grid, data: seq<nat>, code: Coding, c: Chunk)
    requires Proper(g) && IsChunk(g, c) && Total(g) <= |data|
    ensures ChunkWidth(g, c) > 0 && ChunkHeight(g, c) > 0
    ensures Stands(data, Base(g, c), g.width, Params(ChunkWidth(g, c), code.order, code.rate), code.shift,
                   ChunkSyms(data, Base(g, c), g.width, ChunkWidth(g, c), ChunkHeight(g, c), code.shift))
  {
    hide Symbol, Pos, Base, Chunks, Span;
    SpanEnd(c.cx, g.width, g.chunkWidth);
    SpanEnd(c.cy, g.height, g.chunkHeight);
    var cw, ch := ChunkWidth(g, c), ChunkHeight(g, c);
    var syms := ChunkSyms(data, Base(g, c), g.width, cw, ch, code.shift);
    forall k | 0 <= k < |syms|
      ensures SymbolAt(data, Base(g, c), g.width, Params(cw, code.order, code.rate), code.shift, syms, k)
    {
      ChunkUnique(g, c, k);
    }
  }

  lemma NothingRead(syms: seq<nat>, p: Params)
    requires p.width > 0
    ensures MapsOf(syms[..0], p) == Zeros()
  {
  }

  lemma KOf(x: nat, y: nat, cw: nat, ch: nat)
    requires x < cw && y < ch
    ensures y * cw + x < cw * ch && (y + 1) * cw == y * cw + cw
  {
    MulMonotone(y + 1, ch, cw);
  }

  /** What the line scan of chunk c keeps at its pixel k. */
  ghost predicate Scanning(state: Hzrans64, fmap: seq<array<nat>>, data: array<nat>, out: array<Interval>,
                           g: Grid, code: Coding, c: Chunk, before: seq<Interval>, k: nat)
    requires Proper(g) && IsChunk(g, c) && ChunkWidth(g, c) > 0
    reads fmap, data, out
  {
    var p, syms := Params(ChunkWidth(g, c), code.order, code.rate), SymsOf(g, data[..], code, c);
    && Total(g) <= data.Length && Total(g) <= out.Length
    && k <= |syms| && Ready(state, fmap, data, p, syms, k)
    && Stands(data[..], Base(g, c), g.width, p, code.shift, syms)
    && ChunkCoded(out[..], before, g, data[..], code, c, k)
  }

  ghost function SymsOf(g: Grid, data: seq<nat>, code: Coding, c: Chunk): (syms: seq<nat>)
    requires Proper(g) && ChunkWidth(g, c) > 0
    ensures |syms| == ChunkWidth(g, c) * ChunkHeight(g, c)
  {
    ChunkSyms(data, Base(g, c), g.width, ChunkWidth(g, c), ChunkHeight(g, c), code.shift)
  }

  /** The loop body. */
  method PrecodePixel(state: Hzrans64, fmap: seq<array<nat>>, data: array<nat>, out: array<Interval>, yOffset: nat,
      x: nat, y: nat,
                      g: Grid, code: Coding, p: Params, ghost c: Chunk, ghost before: seq<Interval>, ghost k: nat)
    requires Proper(g) && IsChunk(g, c) && ChunkWidth(g, c) > 0
    requires p == Params(ChunkWidth(g, c), code.order, code.rate) && Located(k, x, y, p.width) &&
             k < ChunkWidth(g, c) * ChunkHeight(g, c)
    requires yOffset == Base(g, c) + y * g.width && Scanning(state, fmap, data, out, g, code, c, before, k)
    modifies state`ls, state`bs, state.ftable, fmap, out
    ensures Scanning(state, fmap, data, out, g, code, c, before, k + 1)
  {
    hide Pow2, Stands, Rows, IsGrid, MapsOf, ChunkCoded, ChunkWidth, ChunkHeight, Base, Pos, IsChunk, Proper,
         Located, PairAt,
         ChunkSyms, Total, IsState;
    ghost var base, syms := Base(g, c), SymsOf(g, data[..], code, c);
    var index := yOffset + x;
    NeighbourPos(base, g.width, p, k, x, y, index);
    ChunkCodedStep(out[..], before, g, data[..], code, c, k);
    var iv;
    if x > 0 {
      iv := CodeInner(state, fmap, data, index, x, y, g.width, p, code.shift, base, syms, k);
    } else {
      iv := CodeFirst(state, fmap, data, index, y, g.width, p, code.shift, base, syms, k);
    }
    ghost var was := out[..];
    out[index] := iv;
    assert out[..] == was[index := iv];
  }

  /** One line of a chunk. */
  method PrecodeLine(state: Hzrans64, fmap: seq<array<nat>>, data: array<nat>, out: array<Interval>, yOffset: nat,
      cw: nat, y: nat,
                     g: Grid, code: Coding, ghost c: Chunk, ghost before: seq<Interval>)
    requires Proper(g) && IsChunk(g, c) && cw == ChunkWidth(g, c) > 0 && y < ChunkHeight(g, c)
    requires yOffset == Base(g, c) + y * g.width && Scanning(state, fmap, data, out, g, code, c, before, y * cw)
    modifies state`ls, state`bs, state.ftable, fmap, out
    ensures Scanning(state, fmap, data, out, g, code, c, before, (y + 1) * cw)
  {
    hide ChunkWidth, ChunkHeight, Base, IsChunk, Located, Scanning;
    var p := Params(cw, code.order, code.rate);
    ghost var k := y * cw;
    for x := 0 to cw
      invariant Scanning(state, fmap, data, out, g, code, c, before, k + x)
    {
      KOf(x, y, cw, ChunkHeight(g, c));
      Locate(x, y, cw);
      PrecodePixel(state, fmap, data, out, yOffset, x, y, g, code, p, c, before, k + x);
    }
    KOf(0, y, cw, ChunkHeight(g, c));
  }

  /** The line scan of one chunk: its pairs go to their places, and nowhere else. */
  method PrecodeChunk(state: Hzrans64, data: array<nat>, out: array<Interval>, base: nat, cw: nat, ch: nat,
                      g: Grid, code: Coding, ghost c: Chunk)
    requires Proper(g) && IsChunk(g, c) && base == Base(g, c) && cw == ChunkWidth(g, c) && ch == ChunkHeight(g, c)
    requires Total(g) <= data.Length && Total(g) <= out.Length && IsState(state) && data != state.ftable
    requires 256 + 3 * code.rate * (cw * ch) < TWO_64
    modifies state`ls, state`bs, state.ftable, out
    ensures ChunkCoded(out[..], old(out[..]), g, data[..], code, c, cw * ch)
  {
    hide Pow2, Stands, Rows, IsGrid, MapsOf, ChunkCoded, ChunkWidth, ChunkHeight, Base, Pos, IsChunk, Proper, Located,
         ChunkSyms, Total, IsState, Zeros, Scanning;
    ChunkStands(g, data[..], code, c);
    ghost var before := out[..];
    var p := Params(cw, code.order, code.rate);
    NothingRead(SymsOf(g, data[..], code, c), p);
    NothingCoded(out[..], g, data[..], code, c);
    var fmap := ZeroMaps();
    StartScanning(state, fmap, data, out, g, code, c);
    for y := 0 to ch
      invariant fresh(fmap) && Scanning(state, fmap, data, out, g, code, c, before, y * cw)
    {
      PrecodeLine(state, fmap, data, out, base + y * g.width, cw, y, g, code, c, before);
    }
    StopScanning(state, fmap, data, out, g, code, c, before);
  }

  lemma StartScanning(state: Hzrans64, fmap: seq<array<nat>>, data: array<nat>, out: array<Interval>, g: Grid,
      code: Coding, c: Chunk)
    requires Proper(g) && IsChunk(g, c) && ChunkWidth(g, c) > 0
    requires Total(g) <= data.Length && Total(g) <= out.Length && IsState(state) && data != state.ftable
    requires 256 + 3 * code.rate * (ChunkWidth(g, c) * ChunkHeight(g, c)) < TWO_64
    requires IsGrid(fmap, 256) && Rows(fmap) == Zeros() && state.ftable !in fmap && data !in fmap
    ensures Scanning(state, fmap, data, out, g, code, c, out[..], 0)
  {
    hide Pow2, Rows, IsGrid, ChunkCoded, ChunkWidth, ChunkHeight, Base, Pos, IsChunk, Total, IsState, Zeros;
    ChunkStands(g, data[..], code, c);
    NothingRead(SymsOf(g, data[..], code, c), Params(ChunkWidth(g, c), code.order, code.rate));
    NothingCoded(out[..], g, data[..], code, c);
  }

  lemma StopScanning(state: Hzrans64, fmap: seq<array<nat>>, data: array<nat>, out: array<Interval>, g: Grid,
      code: Coding, c: Chunk,
                     before: seq<Interval>)
    requires Proper(g) && IsChunk(g, c) && ChunkWidth(g, c) > 0
    requires Scanning(state, fmap, data, out, g, code, c, before, ChunkHeight(g, c) * ChunkWidth(g, c))
    ensures ChunkCoded(out[..], before, g, data[..], code, c, ChunkWidth(g, c) * ChunkHeight(g, c))
  {
    hide Pow2, ChunkCoded, ChunkWidth, ChunkHeight;
  }

  // ----- Trained maps -----

  /** A row of counts that became its own frequency table, beside its cumulative frequencies. */
  ghost predicate RowDone(ls: seq<nat>, bs: seq<nat>, counts: seq<nat>) {
    && |counts| == |ls| == |bs| == 256 && Pow2(24) == 0x100_0000
    && ls == Normalized64(Weights(counts), 24)
    && forall s :: 0 <= s < 256 ==> bs[s] == U64(Sum(ls[..s]))
  }

  /** Such a row is an exact table with its intervals, if and only if the floored shares fit. */
  lemma RowDoneIff(ls: seq<nat>, bs: seq<nat>, counts: seq<nat>)
    requires RowDone(ls, bs, counts) && U64(256 + Sum(counts)) != 0
    ensures IsTable(ls, 24) <==> Sum(Shares64(Weights(counts), 24)) <= 0x100_0000
    ensures IsTable(ls, 24) ==> forall s :: 0 <= s < 256 ==> Interval(ls[s], bs[s]) == Slots(ls, s)
  {
    hide Pow2, Sum, Normalized64, Shares64, Weights, U64;
    FtableIff(counts, 24);
    if IsTable(ls, 24) { PrefixExact(ls); }
  }

  /** `preprocess_maps` for one row. A sum that wraps to zero would be divided by. */
  method PreprocessRow(ls: array<nat>, bs: array<nat>)
    requires ls.Length == bs.Length == 256 && ls != bs && U64(256 + Sum(ls[..])) != 0
    modifies ls, bs
    ensures RowDone(ls[..], bs[..], old(ls[..]))
  {
    hide Pow2, Sum, Normalized64, Weights, U64;
    Pow2Values();
    var state := new Hzrans64.WithTable(ls, 24);
    ghost var counts := ls[..];
    assert ls[..256] == counts;
    state.CreateFtableNf(state.ftable);
    ghost var t := ls[..];
    var sum: nat := 0;
    SumNone();
    U64Exact(0);
    assert t[..0] == [];
    for s := 0 to 256
      invariant ls[..] == t && sum == U64(Sum(t[..s]))
      invariant forall k :: 0 <= k < s ==> bs[k] == U64(Sum(t[..k]))
    {
      SumStep(t, s);
      U64Add(Sum(t[..s]), ls[s]);
      bs[s] := sum;
      sum := U64(sum + ls[s]);
    }
    assert RowDone(ls[..], bs[..], counts);
  }

  /** No row's total wraps to exactly zero. */
  ghost predicate Divisible(rows: seq<seq<nat>>) {
    forall i :: 0 <= i < |rows| ==> U64(256 + Sum(rows[i])) != 0
  }

  ghost predicate ChannelDone(ls: seq<seq<nat>>, bs: seq<seq<nat>>, counts: seq<seq<nat>>) {
    && |ls| == |bs| == |counts| == 256
    && forall i :: 0 <= i < 256 ==> RowDone(ls[i], bs[i], counts[i])
  }

  /** Rows of two grids are different arrays. */
  ghost predicate Apart(g: seq<array<nat>>, h: seq<array<nat>>) {
    forall i, j :: 0 <= i < |g| && 0 <= j < |h| ==> g[i] != h[j]
  }

  /** ... for the rows of one channel. */
  method PreprocessChannel(lsChan: seq<array<nat>>, bsChan: seq<array<nat>>)
    requires IsGrid(lsChan, 256) && IsGrid(bsChan, 256) && Apart(lsChan, bsChan) && Divisible(Rows(lsChan))
    modifies lsChan, bsChan
    ensures ChannelDone(Rows(lsChan), Rows(bsChan), old(Rows(lsChan)))
  {
    hide RowDone, Sum, U64;
    ghost var rows := Rows(lsChan);
    for i := 0 to 256
      invariant forall k :: 0 <= k < i ==> RowDone(lsChan[k][..], bsChan[k][..], rows[k])
      invariant forall k :: i <= k < 256 ==> lsChan[k][..] == rows[k]
    {
      PreprocessRow(lsChan[i], bsChan[i]);
    }
  }

  /** Maps of all channels in rows of their own, beside rows of their own for the sums. */
  ghost predicate AreMaps(locality: seq<seq<array<nat>>>, cumulative: seq<seq<array<nat>>>) {
    && |locality| == |cumulative|
    && (forall c :: 0 <= c < |locality| ==> IsGrid(locality[c], 256) && IsGrid(cumulative[c], 256))
    && (forall c, d :: 0 <= c < |locality| && 0 <= d < |locality| ==> Apart(locality[c], cumulative[d]))
    && (forall c, d :: 0 <= c < |locality| && 0 <= d < |locality| && c != d ==>
          Apart(locality[c], locality[d]) && Apart(cumulative[c], cumulative[d]))
  }

  /** The loop's step: one channel done, the others as they were. */
  method PreprocessStep(locality: seq<seq<array<nat>>>, cumulative: seq<seq<array<nat>>>, c: nat)
    requires AreMaps(locality, cumulative) && c < |locality| && Divisible(Rows(locality[c]))
    modifies locality[c], cumulative[c]
    ensures ChannelDone(Rows(locality[c]), Rows(cumulative[c]), old(Rows(locality[c])))
    ensures forall d :: 0 <= d < |locality| && d != c ==>
              Rows(locality[d]) == old(Rows(locality[d])) && Rows(cumulative[d]) == old(Rows(cumulative[d]))
  {
    hide ChannelDone, Sum, U64, Divisible;
    PreprocessChannel(locality[c], cumulative[c]);
    forall d | 0 <= d < |locality| && d != c
      ensures Rows(locality[d]) == old(Rows(locality[d])) && Rows(cumulative[d]) == old(Rows(cumulative[d]))
    {
      assert Apart(locality[d], cumulative[c]) && Apart(locality[c], cumulative[d]);
      assert Apart(locality[d], locality[c]) && Apart(cumulative[d], cumulative[c]);
    }
  }

  /** `preprocess_maps`: every row of every channel. */
  method PreprocessMaps(locality: seq<seq<array<nat>>>, cumulative: seq<seq<array<nat>>>)
    requires AreMaps(locality, cumulative)
    requires forall c :: 0 <= c < |locality| ==> Divisible(Rows(locality[c]))
    modifies set c, i | 0 <= c < |locality| && 0 <= i < |locality[c]| :: locality[c][i]
    modifies set c, i | 0 <= c < |cumulative| && 0 <= i < |cumulative[c]| :: cumulative[c][i]
    ensures forall c :: 0 <= c < |locality| ==>
              ChannelDone(Rows(locality[c]), Rows(cumulative[c]), old(Rows(locality[c])))
  {
    hide ChannelDone, Sum, U64, Divisible, Apart, Rows;
    for c := 0 to |locality|
      invariant forall d :: 0 <= d < c ==> ChannelDone(Rows(locality[d]), Rows(cumulative[d]), old(Rows(locality[d])))
      invariant forall d :: c <= d < |locality| ==> Rows(locality[d]) == old(Rows(locality[d]))
    {
      PreprocessStep(locality, cumulative, c);
    }
  }

  // ----- The image -----

  class SharinganStateTransition {
    const data: array<nat>
    const width: nat
    const height: nat
    const nchannels: nat
    const chunkWidth: nat
    const chunkHeight: nat
    const localityContextOrder: nat
    const bitDepth: nat
    const learningRate: nat

    constructor (data: array<nat>, width: nat, height: nat, nchannels: nat, bitDepth: nat, chunkWidth: nat,
                 chunkHeight: nat, localityContextOrder: nat, learningRate: nat)
      ensures this.data == data && Layout() == Grid(width, height, nchannels, chunkWidth, chunkHeight)
      ensures Code() == Coding(localityContextOrder, learningRate, if bitDepth > 8 then bitDepth - 8 else 0)
    {
      this.data, this.width, this.height, this.nchannels := data, width, height, nchannels;
      this.chunkWidth, this.chunkHeight := chunkWidth, chunkHeight;
      this.localityContextOrder, this.bitDepth, this.learningRate := localityContextOrder, bitDepth, learningRate;
    }

    function Layout(): Grid {
      Grid(width, height, nchannels, chunkWidth, chunkHeight)
    }

    function Code(): Coding {
      Coding(localityContextOrder, learningRate, if bitDepth > 8 then bitDepth - 8 else 0)
    }

    /** `cpu_dynamic_precode`, up to the residue planes: every pixel of every channel gets the pair its
        chunk's model assigns it. */
    method CpuDynamicPrecode() returns (out: array<Interval>)
      requires Proper(Layout()) && Total(Layout()) <= data.Length
      requires 256 + 3 * learningRate * (chunkWidth * chunkHeight) < TWO_64
      ensures fresh(out) && out.Length == (if Code().shift != 0 then 2 else 1) * Total(Layout())
      ensures forall i: nat :: i < Total(Layout()) ==> out[i] == Expected(Layout(), data[..], Code(), i)
    {
      hide Pow2, Precoded, Expected, IsState, Chunks;
      var g, code := Layout(), Code();
      var totalSize := nchannels * (width * height);
      if code.shift != 0 {
        totalSize := 2 * totalSize;
      }
      out := new Interval[totalSize](_ => Interval(0, 0));
      var state := new Hzrans64(256, 24);
      ghost var d := data[..];
      NewState(state);
      StartPrecode(out[..], g, d, code);
      for channel := 0 to nchannels
        invariant fresh(state) && fresh(state.ftable) && IsState(state) &&
                  Precoded(out[..], g, d, code, Chunk(channel, 0, 0))
      {
        PrecodeChannel(state, out, channel);
      }
      AllPrecoded(out[..], g, d, code);
    }

    /** Where the row of chunks at cy begins in its channel's plane. */
    function RowOffset(channel: nat, cy: nat): nat {
      var yPartial := cy * chunkHeight;
      channel * (width * height) + yPartial * width
    }

    /** How many pixels high it is: the last row may be cut short. */
    function RowHeight(cy: nat): nat
      requires chunkHeight > 0
    {
      var yPartial := cy * chunkHeight;
      if yPartial + chunkHeight > height then height % chunkHeight else chunkHeight
    }

    /** The chunk at (cx, cy). */
    method PrecodeAt(state: Hzrans64, out: array<Interval>, ghost channel: nat, ghost cy: nat, cx: nat, yOffset: nat,
                     chunkH: nat)
      requires Proper(Layout()) && Total(Layout()) <= data.Length && Total(Layout()) <= out.Length
      requires 256 + 3 * learningRate * (chunkWidth * chunkHeight) < TWO_64
      requires IsState(state) && data != state.ftable && channel < nchannels
      requires cy < Chunks(height, chunkHeight) && cx < Chunks(width, chunkWidth)
      requires yOffset == RowOffset(channel, cy) && chunkHeight > 0 && chunkH == RowHeight(cy)
      requires Precoded(out[..], Layout(), data[..], Code(), Chunk(channel, cy, cx))
      modifies state`ls, state`bs, state.ftable, out
      ensures Precoded(out[..], Layout(), data[..], Code(), Chunk(channel, cy, cx + 1))
    {
      hide Pow2, ChunkCoded, Precoded, Expected, IsState, Chunks, Span, Base, ChunkWidth, ChunkHeight, IsChunk, Total,
           Proper;
      var g, code := Layout(), Code();
      var xPartial := cx * chunkWidth;
      var chunkW := if xPartial + chunkWidth > width then width % chunkWidth else chunkWidth;
      ghost var c, before := Chunk(channel, cy, cx), out[..];
      Extents(g, c, yOffset);
      ChunkRate(g, c, learningRate);
      PrecodeChunk(state, data, out, yOffset + xPartial, chunkW, chunkH, g, code, c);
      NextChunk(out[..], before, g, data[..], code, c);
    }

    /** The row of chunks at cy. */
    method PrecodeRow(state: Hzrans64, out: array<Interval>, channel: nat, cy: nat)
      requires Proper(Layout()) && Total(Layout()) <= data.Length && Total(Layout()) <= out.Length
      requires 256 + 3 * learningRate * (chunkWidth * chunkHeight) < TWO_64
      requires IsState(state) && data != state.ftable && channel < nchannels && cy < Chunks(height, chunkHeight)
      requires Precoded(out[..], Layout(), data[..], Code(), Chunk(channel, cy, 0))
      modifies state`ls, state`bs, state.ftable, out
      ensures Precoded(out[..], Layout(), data[..], Code(), Chunk(channel, cy + 1, 0))
    {
      hide Pow2, Precoded, IsState, Chunks, Total, RowOffset, RowHeight;
      var g, code := Layout(), Code();
      ghost var d := data[..];
      var xChunks := Chunks(width, chunkWidth);
      var yOffset := RowOffset(channel, cy);
      var chunkH := RowHeight(cy);
      for cx := 0 to xChunks
        invariant data[..] == d && Precoded(out[..], g, d, code, Chunk(channel, cy, cx))
      {
        PrecodeAt(state, out, channel, cy, cx, yOffset, chunkH);
      }
      NextRow(out[..], g, d, code, channel, cy);
    }

    method PrecodeChannel(state: Hzrans64, out: array<Interval>, channel: nat)
      requires Proper(Layout()) && Total(Layout()) <= data.Length && Total(Layout()) <= out.Length
      requires 256 + 3 * learningRate * (chunkWidth * chunkHeight) < TWO_64
      requires IsState(state) && data != state.ftable && channel < nchannels
      requires Precoded(out[..], Layout(), data[..], Code(), Chunk(channel, 0, 0))
      modifies state`ls, state`bs, state.ftable, out
      ensures Precoded(out[..], Layout(), data[..], Code(), Chunk(channel + 1, 0, 0))
    {
      hide Pow2, Precoded, IsState, Chunks;
      ghost var d := data[..];
      var yChunks := Chunks(height, chunkHeight);
      for cy := 0 to yChunks
        invariant data[..] == d && Precoded(out[..], Layout(), d, Code(), Chunk(channel, cy, 0))
      {
        PrecodeRow(state, out, channel, cy);
      }
      NextChannel(out[..], Layout(), d, Code(), channel);
    }
  }

  /** The loops' own arithmetic for a chunk. */
  lemma Extents(g: Grid, c: Chunk, yOffset: nat)
    requires Proper(g) && c.channel < g.channels && c.cy < Chunks(g.height, g.chunkHeight) &&
             c.cx < Chunks(g.width, g.chunkWidth)
    requires yOffset == c.channel * (g.width * g.height) + c.cy * g.chunkHeight * g.width
    ensures IsChunk(g, c) && Base(g, c) == yOffset + c.cx * g.chunkWidth
    ensures ChunkWidth(g, c) ==
            if c.cx * g.chunkWidth + g.chunkWidth > g.width then g.width % g.chunkWidth else g.chunkWidth
    ensures ChunkHeight(g, c) ==
            if c.cy * g.chunkHeight + g.chunkHeight > g.height then g.height % g.chunkHeight else g.chunkHeight
  {
  }

  lemma NewState(state: Hzrans64)
    requires state.Ready() && state.size == 256 == state.ftable.Length && state.scale == 24
    ensures IsState(state)
  {
  }

  lemma ChunkRate(g: Grid, c: Chunk, rate: nat)
    requires Proper(g) && IsChunk(g, c) && 256 + 3 * rate * (g.chunkWidth * g.chunkHeight) < TWO_64
    ensures 256 + 3 * rate * (ChunkWidth(g, c) * ChunkHeight(g, c)) < TWO_64
  {
    SpanEnd(c.cx, g.width, g.chunkWidth);
    SpanEnd(c.cy, g.height, g.chunkHeight);
    hide Span, Chunks;
    var cw, ch := ChunkWidth(g, c), ChunkHeight(g, c);
    MulMonotone(cw, g.chunkWidth, ch);
    MulMonotone(ch, g.chunkHeight, g.chunkWidth);
    MulMonotone(cw * ch, g.chunkWidth * g.chunkHeight, 3 * rate);
  }
}
