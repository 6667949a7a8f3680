/** How chunks partition the planes of an image. */
module SharinganGrid {
  import opened Words
  import opened RansSpec
  import opened SharinganSpec

  datatype Grid = Grid(width: nat, height: nat, channels: nat, chunkWidth: nat, chunkHeight: nat)

  ghost predicate Proper(g: Grid) {
    g.width > 0 && g.height > 0 && g.chunkWidth > 0 && g.chunkHeight > 0
  }

  // ----- One axis -----

  /** The extent of chunk c: the last one may be cut short. */
  function Span(c: nat, total: nat, size: nat): nat
    requires size > 0
  {
    if c * size + size > total then total % size else size
  }

  lemma SpanEnd(c: nat, total: nat, size: nat)
    requires size > 0 && c < Chunks(total, size)
    ensures 0 < Span(c, total, size) <= size && c * size + Span(c, total, size) <= total
  {
    DivLower(c + 1, total, size);
    assert (c + 1) * size == c * size + size;
    assert total == size * (total / size) + total % size && size * (total / size) == (total / size) * size;
    if c * size + size > total {
      assert c == total / size;
    }
  }

  /** Each coordinate lies in exactly one chunk, at one place. */
  lemma AxisPlace(x: nat, total: nat, size: nat)
    requires size > 0 && x < total
    ensures x / size < Chunks(total, size) && x % size < Span(x / size, total, size)
    ensures x / size * size + x % size == x
  {
    var c := x / size;
    assert x == size * c + x % size && size * c == c * size;
    DivLower(c, total, size);
    DivLower(c + 1, total, size);
    assert (c + 1) * size == c * size + size;
    assert total == size * (total / size) + total % size && size * (total / size) == (total / size) * size;
    if c * size + size > total { assert c == total / size; }
  }

  lemma AxisUnique(c: nat, x: nat, total: nat, size: nat)
    requires size > 0 && c < Chunks(total, size) && x < Span(c, total, size)
    ensures (c * size + x) / size == c && (c * size + x) % size == x && c * size + x < total
  {
    SpanEnd(c, total, size);
    DivModUnique(c, size, x);
  }

  // ----- Planes -----

  datatype Chunk = Chunk(channel: nat, cy: nat, cx: nat)

  /** A pixel's place: its channel, row and column. */
  datatype Pixel = Pixel(channel: nat, y: nat, x: nat)

  function IndexOf(g: Grid, p: Pixel): nat {
    p.channel * (g.width * g.height) + (p.y * g.width + p.x)
  }

  ghost predicate InImage(g: Grid, p: Pixel) {
    p.channel < g.channels && p.y < g.height && p.x < g.width
  }

  ghost function PixelOf(g: Grid, i: nat): Pixel
    requires Proper(g)
  {
    AreaPositive(g.width, g.height);
    var n := g.width * g.height;
    Pixel(i / n, i % n / g.width, i % n % g.width)
  }

  lemma AreaPositive(a: nat, b: nat)
    requires a > 0 && b > 0
    ensures a * b > 0
  {
  }

  lemma PixelBack(g: Grid, p: Pixel)
    requires Proper(g) && InImage(g, p)
    ensures PixelOf(g, IndexOf(g, p)) == p && IndexOf(g, p) < g.channels * (g.width * g.height)
  {
    AreaPositive(g.width, g.height);
    var n := g.width * g.height;
    MulMonotone(p.y + 1, g.height, g.width);
    DivModUnique(p.y, g.width, p.x);
    DivModUnique(p.channel, n, p.y * g.width + p.x);
    MulMonotone(p.channel + 1, g.channels, n);
    assert (p.y + 1) * g.width == p.y * g.width + g.width && (p.channel + 1) * n == p.channel * n + n;
  }

  lemma PixelPlace(g: Grid, i: nat)
    requires Proper(g) && i < g.channels * (g.width * g.height)
    ensures InImage(g, PixelOf(g, i)) && IndexOf(g, PixelOf(g, i)) == i
  {
    AreaPositive(g.width, g.height);
    var n := g.width * g.height;
    var p := PixelOf(g, i);
    assert i == n * (i / n) + i % n && n * p.channel == p.channel * n;
    assert i % n == g.width * p.y + p.x && g.width * p.y == p.y * g.width;
    DivLower(g.channels, i, n);
    DivLower(g.height, i % n, g.width);
    assert g.height * g.width == n;
  }

  // ----- Chunks of a plane -----

  ghost predicate IsChunk(g: Grid, c: Chunk)
    requires Proper(g)
  {
    c.channel < g.channels && c.cy < Chunks(g.height, g.chunkHeight) && c.cx < Chunks(g.width, g.chunkWidth)
  }

  function ChunkWidth(g: Grid, c: Chunk): nat
    requires g.chunkWidth > 0
  {
    Span(c.cx, g.width, g.chunkWidth)
  }

  function ChunkHeight(g: Grid, c: Chunk): nat
    requires g.chunkHeight > 0
  {
    Span(c.cy, g.height, g.chunkHeight)
  }

  /** The index of a chunk's first pixel, as the loops compute it. */
  function Base(g: Grid, c: Chunk): nat {
    c.channel * (g.width * g.height) + c.cy * g.chunkHeight * g.width + c.cx * g.chunkWidth
  }

  /** The index of a chunk's k-th pixel in raster order. */
  function Pos(base: nat, width: nat, cw: nat, k: nat): nat
    requires cw > 0
  {
    base + k / cw * width + k % cw
  }

  ghost function ChunkOf(g: Grid, i: nat): Chunk
    requires Proper(g)
  {
    var p := PixelOf(g, i);
    Chunk(p.channel, p.y / g.chunkHeight, p.x / g.chunkWidth)
  }

  /** The place of pixel i in its chunk. */
  ghost function Local(g: Grid, i: nat): nat
    requires Proper(g)
  {
    var p := PixelOf(g, i);
    p.y % g.chunkHeight * ChunkWidth(g, ChunkOf(g, i)) + p.x % g.chunkWidth
  }

  lemma PosOf(g: Grid, c: Chunk, y: nat, x: nat)
    requires Proper(g) && IsChunk(g, c) && y < ChunkHeight(g, c) && x < ChunkWidth(g, c)
    ensures var k := y * ChunkWidth(g, c) + x;
            && k < ChunkWidth(g, c) * ChunkHeight(g, c)
            && k / ChunkWidth(g, c) == y && k % ChunkWidth(g, c) == x
            && Pos(Base(g, c), g.width, ChunkWidth(g, c), k)
               == IndexOf(g, Pixel(c.channel, c.cy * g.chunkHeight + y, c.cx * g.chunkWidth + x))
  {
    var cw, ch := ChunkWidth(g, c), ChunkHeight(g, c);
    MulMonotone(y + 1, ch, cw);
    assert (y + 1) * cw == y * cw + cw && ch * cw == cw * ch;
    DivModUnique(y, cw, x);
    assert (c.cy * g.chunkHeight + y) * g.width == c.cy * g.chunkHeight * g.width + y * g.width;
  }

  /** Every pixel lies in exactly one chunk, at exactly one place. */
  lemma ChunkPlace(g: Grid, i: nat)
    requires Proper(g) && i < g.channels * (g.width * g.height)
    ensures var c := ChunkOf(g, i);
            && IsChunk(g, c) && ChunkWidth(g, c) > 0 && Local(g, i) < ChunkWidth(g, c) * ChunkHeight(g, c)
            && Pos(Base(g, c), g.width, ChunkWidth(g, c), Local(g, i)) == i
  {
    PixelPlace(g, i);
    var p, c := PixelOf(g, i), ChunkOf(g, i);
    AxisPlace(p.y, g.height, g.chunkHeight);
    AxisPlace(p.x, g.width, g.chunkWidth);
    PosOf(g, c, p.y % g.chunkHeight, p.x % g.chunkWidth);
  }

  lemma PixelUnique(g: Grid, c: Chunk, y: nat, x: nat)
    requires Proper(g) && IsChunk(g, c) && y < ChunkHeight(g, c) && x < ChunkWidth(g, c)
    ensures var i := IndexOf(g, Pixel(c.channel, c.cy * g.chunkHeight + y, c.cx * g.chunkWidth + x));
            i < g.channels * (g.width * g.height) && ChunkOf(g, i) == c && Local(g, i) == y * ChunkWidth(g, c) + x
  {
    hide Span, Chunks, IndexOf, PixelOf;
    AxisUnique(c.cy, y, g.height, g.chunkHeight);
    AxisUnique(c.cx, x, g.width, g.chunkWidth);
    PixelBack(g, Pixel(c.channel, c.cy * g.chunkHeight + y, c.cx * g.chunkWidth + x));
  }

  lemma ChunkUnique(g: Grid, c: Chunk, k: nat)
    requires Proper(g) && IsChunk(g, c) && ChunkWidth(g, c) > 0 && k < ChunkWidth(g, c) * ChunkHeight(g, c)
    ensures var i := Pos(Base(g, c), g.width, ChunkWidth(g, c), k);
            i < g.channels * (g.width * g.height) && ChunkOf(g, i) == c && Local(g, i) == k
  {
    hide Span, Chunks, IndexOf, PixelOf, ChunkOf, Local, Base, ChunkWidth, ChunkHeight, Pos;
    var cw, ch := ChunkWidth(g, c), ChunkHeight(g, c);
    Split(k, cw, ch);
    PosOf(g, c, k / cw, k % cw);
    PixelUnique(g, c, k / cw, k % cw);
  }

  lemma Split(k: nat, cw: nat, ch: nat)
    requires cw > 0 && k < cw * ch
    ensures k / cw < ch && k % cw < cw && k / cw * cw + k % cw == k
  {
    assert k == cw * (k / cw) + k % cw && cw * (k / cw) == k / cw * cw && cw * ch == ch * cw;
    DivLower(ch, k, cw);
  }

  // ----- The expected pairs -----

  /** The leading byte of a sample. */
  function Symbol(v: nat, shift: nat): (s: nat)
    ensures s < 256
  {
    Shr(v, shift) % 256
  }

  /** Of a sample of at most 8 bits above the shift: its leading byte and the bits below rebuild it. */
  lemma SymbolRebuilds(v: nat, shift: nat)
    requires v < Pow2(shift + 8)
    ensures v == Symbol(v, shift) * Pow2(shift) + v % Pow2(shift)
  {
    hide Pow2;
    Pow2Values();
    Pow2Add(shift, 8);
    var p := Pow2(shift);
    assert v == p * (v / p) + v % p;
    DivLower(256, v, p);
  }

  /** A chunk's symbols in raster order. */
  ghost function ChunkSyms(data: seq<nat>, base: nat, width: nat, cw: nat, ch: nat, shift: nat): (syms: seq<nat>)
    requires cw > 0
    ensures |syms| == cw * ch && forall k :: 0 <= k < |syms| ==> syms[k] < 256
  {
    seq(cw * ch, k requires 0 <= k < cw * ch =>
      if Pos(base, width, cw, k) < |data| then Symbol(data[Pos(base, width, cw, k)], shift) else 0)
  }

  datatype Coding = Coding(order: nat, rate: nat, shift: nat)

  /** The pair of pixel k of a chunk. */
  ghost function ChunkPair(g: Grid, data: seq<nat>, code: Coding, c: Chunk, k: nat): Interval
    requires Proper(g) && ChunkWidth(g, c) > 0 && k < ChunkWidth(g, c) * ChunkHeight(g, c)
  {
    var cw := ChunkWidth(g, c);
    PairAt(ChunkSyms(data, Base(g, c), g.width, cw, ChunkHeight(g, c), code.shift),
           Params(cw, code.order, code.rate), k)
  }

  /** The pair of pixel i of the image. */
  ghost function Expected(g: Grid, data: seq<nat>, code: Coding, i: nat): Interval
    requires Proper(g) && i < g.channels * (g.width * g.height)
  {
    ChunkPlace(g, i);
    ChunkPair(g, data, code, ChunkOf(g, i), Local(g, i))
  }

  // ----- Coded so far -----

  ghost function Total(g: Grid): nat {
    g.channels * (g.width * g.height)
  }

  ghost predicate CodedAt(out: seq<Interval>, before: seq<Interval>, g: Grid, data: seq<nat>, code: Coding, c: Chunk,
      k: nat, i: nat)
    requires Proper(g) && i < |out| == |before|
  {
    out[i] == if i < Total(g) && ChunkOf(g, i) == c && Local(g, i) < k then Expected(g, data, code, i) else before[i]
  }

  /** The first k pixels of chunk c have their pairs; nothing else has changed. */
  ghost predicate ChunkCoded(out: seq<Interval>, before: seq<Interval>, g: Grid, data: seq<nat>, code: Coding,
      c: Chunk, k: nat)
    requires Proper(g)
  {
    |out| == |before| && forall i: nat {:trigger CodedAt(out, before, g, data, code, c, k, i)} :: i < |out| ==>
      CodedAt(out, before, g, data, code, c, k, i)
  }

  lemma NothingCoded(out: seq<Interval>, g: Grid, data: seq<nat>, code: Coding, c: Chunk)
    requires Proper(g)
    ensures ChunkCoded(out, out, g, data, code, c, 0)
  {
    hide Expected, ChunkOf, Local, Total, Pow2;
  }

  lemma ChunkCodedStep(out: seq<Interval>, before: seq<Interval>, g: Grid, data: seq<nat>, code: Coding, c: Chunk,
      k: nat)
    requires Proper(g) && Total(g) <= |out| && ChunkCoded(out, before, g, data, code, c, k)
    requires IsChunk(g, c) && ChunkWidth(g, c) > 0 && k < ChunkWidth(g, c) * ChunkHeight(g, c)
    ensures var i := Pos(Base(g, c), g.width, ChunkWidth(g, c), k);
            i < |out| && ChunkCoded(out[i := ChunkPair(g, data, code, c, k)], before, g, data, code, c, k + 1)
  {
    hide Pow2, ChunkPair, ChunkOf, Local, Pos, Base, ChunkWidth, ChunkHeight, IsChunk;
    ChunkUnique(g, c, k);
    var i := Pos(Base(g, c), g.width, ChunkWidth(g, c), k);
    var out', next := out[i := ChunkPair(g, data, code, c, k)], k + 1;
    forall j: nat | j < |out'| ensures CodedAt(out', before, g, data, code, c, next, j) {
      assert CodedAt(out, before, g, data, code, c, k, j);
      if j < Total(g) { ChunkPlace(g, j); }
    }
  }

  /** The loops' order on chunks. */
  ghost predicate Earlier(a: Chunk, b: Chunk) {
    || a.channel < b.channel
    || (a.channel == b.channel && (a.cy < b.cy || (a.cy == b.cy && a.cx < b.cx)))
  }

  ghost predicate PairDone(out: seq<Interval>, g: Grid, data: seq<nat>, code: Coding, cur: Chunk, i: nat)
    requires Proper(g) && i < Total(g) <= |out|
  {
    Earlier(ChunkOf(g, i), cur) ==> out[i] == Expected(g, data, code, i)
  }

  /** All chunks before `cur` have their pairs. */
  ghost predicate Precoded(out: seq<Interval>, g: Grid, data: seq<nat>, code: Coding, cur: Chunk)
    requires Proper(g)
  {
    && Total(g) <= |out|
    && forall i: nat {:trigger PairDone(out, g, data, code, cur, i)} ::
         i < Total(g) ==> PairDone(out, g, data, code, cur, i)
  }

  lemma StartPrecode(out: seq<Interval>, g: Grid, data: seq<nat>, code: Coding)
    requires Proper(g) && Total(g) <= |out|
    ensures Precoded(out, g, data, code, Chunk(0, 0, 0))
  {
  }

  /** A finished chunk moves `cur` on. */
  lemma NextChunk(out: seq<Interval>, before: seq<Interval>, g: Grid, data: seq<nat>, code: Coding, c: Chunk)
    requires Proper(g) && IsChunk(g, c) && Precoded(before, g, data, code, c)
    requires ChunkCoded(out, before, g, data, code, c, ChunkWidth(g, c) * ChunkHeight(g, c))
    ensures Precoded(out, g, data, code, c.(cx := c.cx + 1))
  {
    hide Pow2, Expected, ChunkOf, Local, ChunkWidth, ChunkHeight;
    var next := c.(cx := c.cx + 1);
    forall i: nat | i < Total(g) ensures PairDone(out, g, data, code, next, i) {
      ChunkPlace(g, i);
      assert PairDone(before, g, data, code, c, i);
      assert CodedAt(out, before, g, data, code, c, ChunkWidth(g, c) * ChunkHeight(g, c), i);
    }
  }

  /** A finished row of chunks, and a finished channel. */
  lemma NextRow(out: seq<Interval>, g: Grid, data: seq<nat>, code: Coding, channel: nat, cy: nat)
    requires Proper(g) && Precoded(out, g, data, code, Chunk(channel, cy, Chunks(g.width, g.chunkWidth)))
    ensures Precoded(out, g, data, code, Chunk(channel, cy + 1, 0))
  {
    hide Pow2, Expected, ChunkOf, Local;
    var next := Chunk(channel, cy + 1, 0);
    forall i: nat | i < Total(g) ensures PairDone(out, g, data, code, next, i) {
      ChunkPlace(g, i);
      assert PairDone(out, g, data, code, Chunk(channel, cy, Chunks(g.width, g.chunkWidth)), i);
    }
  }

  lemma NextChannel(out: seq<Interval>, g: Grid, data: seq<nat>, code: Coding, channel: nat)
    requires Proper(g) && Precoded(out, g, data, code, Chunk(channel, Chunks(g.height, g.chunkHeight), 0))
    ensures Precoded(out, g, data, code, Chunk(channel + 1, 0, 0))
  {
    hide Pow2, Expected, ChunkOf, Local;
    var next := Chunk(channel + 1, 0, 0);
    forall i: nat | i < Total(g) ensures PairDone(out, g, data, code, next, i) {
      ChunkPlace(g, i);
      assert PairDone(out, g, data, code, Chunk(channel, Chunks(g.height, g.chunkHeight), 0), i);
    }
  }

  lemma AllPrecoded(out: seq<Interval>, g: Grid, data: seq<nat>, code: Coding)
    requires Proper(g) && Precoded(out, g, data, code, Chunk(g.channels, 0, 0))
    ensures forall i: nat :: i < Total(g) ==> out[i] == Expected(g, data, code, i)
  {
    hide Pow2, Expected, ChunkOf, Local;
    forall i: nat | i < Total(g) ensures out[i] == Expected(g, data, code, i) {
      ChunkPlace(g, i);
      assert PairDone(out, g, data, code, Chunk(g.channels, 0, 0), i);
    }
  }
}
