/** The Paeth filter for 16-bit samples: one definition per pixel, the in-place descending loop, and
    the strided data-parallel kernel. */
module Paeth {
  import opened Words

  function AbsDiff(x: nat, y: nat): nat {
    if x > y then x - y else y - x
  }

  function Min3(x: nat, y: nat, z: nat): nat {
    var m := if y < x then y else x;
    if z < m then z else m
  }

  /** The predictor: the neighbour closest to |a + b - c|, left before up before diagonal. */
  function Predictor(a: nat, b: nat, c: nat): (d: nat)
    ensures d == a || d == b || d == c
  {
    var d := AbsDiff(a + b, c);
    var dd := Min3(AbsDiff(a, d), AbsDiff(b, d), AbsDiff(c, d));
    if AbsDiff(a, d) == dd then a else if AbsDiff(b, d) == dd then b else c
  }

  /** In plain arithmetic: with p = |a + b - c| the prediction is as near to p as any of the three
      neighbours; the left one if it is a nearest one, else the upper one if that is, else the diagonal. */
  lemma PredictorNearest(a: int, b: int, c: int)
    requires a >= 0 && b >= 0 && c >= 0
    ensures var p := if a + b - c >= 0 then a + b - c else c - a - b;
            var da := if a - p >= 0 then a - p else p - a;
            var db := if b - p >= 0 then b - p else p - b;
            var dc := if c - p >= 0 then c - p else p - c;
            Predictor(a, b, c) == if da <= db && da <= dc then a else if db <= dc then b else c
  {
  }

  /** The difference of two samples, stored in 16 bits. */
  function Diff(t: nat, d: nat, depth: nat): (diff: nat)
    ensures d == 0 ==> diff == t
  {
    if t >= d then t - d else (Pow2(depth) + t - d) % 0x10000
  }

  /** What pixel i of a plane of the given width is predicted from: pixels before i only. */
  function Prediction(plane: seq<nat>, width: nat, i: nat): nat
    requires width > 0 && i <= |plane|
  {
    var x, y := i % width, i / width;
    Coordinates(width, i);
    if x > 0 && y > 0 then Predictor(plane[i - 1], plane[i - width], plane[i - width - 1])
    else if x > 0 then plane[i - 1]
    else if y > 0 then plane[i - width]
    else 0
  }

  function FilteredAt(plane: seq<nat>, width: nat, depth: nat, i: nat): nat
    requires width > 0 && i < |plane|
  {
    Diff(plane[i], Prediction(plane, width, i), depth)
  }

  /** The filter of a whole plane, pixel by pixel. */
  function Filtered(plane: seq<nat>, width: nat, depth: nat): (r: seq<nat>)
    requires width > 0
    ensures |r| == |plane|
  {
    seq(|plane|, i requires 0 <= i < |plane| => FilteredAt(plane, width, depth, i))
  }

  // ----- Recovering the plane -----

  function Undiff(v: nat, d: nat, depth: nat): nat {
    if v + d < Pow2(depth) then v + d else v + d - Pow2(depth)
  }

  /** The first k pixels, rebuilt in order from their differences. */
  function Unfiltered(f: seq<nat>, width: nat, depth: nat, k: nat): (r: seq<nat>)
    requires width > 0 && k <= |f|
    ensures |r| == k
  {
    if k == 0 then []
    else
      var before := Unfiltered(f, width, depth, k - 1);
      before + [Undiff(f[k - 1], Prediction(before, width, k - 1), depth)]
  }

  ghost predicate Samples(plane: seq<nat>, depth: nat) {
    forall i :: 0 <= i < |plane| ==> plane[i] < Pow2(depth)
  }

  lemma Pow2Small(depth: nat)
    requires depth <= 16
    ensures Pow2(depth) <= 0x10000
  {
    hide Pow2;
    Pow2Values();
    Pow2Add(depth, 16 - depth);
    MulMonotone(1, Pow2(16 - depth), Pow2(depth));
  }

  lemma DiffInverts(t: nat, d: nat, depth: nat)
    requires depth <= 16 && t < Pow2(depth) && d < Pow2(depth)
    ensures Diff(t, d, depth) < Pow2(depth) && Undiff(Diff(t, d, depth), d, depth) == t
  {
    hide Pow2;
    Pow2Small(depth);
  }

  /** Stored differences are differences modulo 2^depth. */
  lemma DiffModulo(t: nat, d: nat, depth: nat)
    requires depth <= 16 && t < Pow2(depth) && d < Pow2(depth)
    ensures Diff(t, d, depth) < Pow2(depth) && (d + Diff(t, d, depth)) % Pow2(depth) == t
  {
    hide Pow2;
    Pow2Small(depth);
    if t < d { DivModUnique(1, Pow2(depth), t); } else { DivModUnique(0, Pow2(depth), t); }
  }

  lemma PredictionBounded(plane: seq<nat>, width: nat, depth: nat, i: nat)
    requires width > 0 && i <= |plane| && Samples(plane, depth)
    ensures Prediction(plane, width, i) < Pow2(depth)
  {
    Coordinates(width, i);
  }

  /** Predictions look only at earlier pixels. */
  lemma PredictionCausal(plane: seq<nat>, width: nat, i: nat)
    requires width > 0 && i <= |plane|
    ensures Prediction(plane[..i], width, i) == Prediction(plane, width, i)
  {
    Coordinates(width, i);
  }

  /** For samples of the stated depth the plane can be rebuilt from its filter. */
  lemma {:induction false} FilterRecoverable(plane: seq<nat>, width: nat, depth: nat, k: nat)
    requires width > 0 && depth <= 16 && Samples(plane, depth) && k <= |plane|
    ensures Unfiltered(Filtered(plane, width, depth), width, depth, k) == plane[..k]
  {
    hide Diff, Undiff, Prediction;
    if k == 0 {
    } else {
      FilterRecoverable(plane, width, depth, k - 1);
      PredictionCausal(plane, width, k - 1);
      PredictionBounded(plane, width, depth, k - 1);
      DiffInverts(plane[k - 1], Prediction(plane, width, k - 1), depth);
      assert plane[..k] == plane[..k - 1] + [plane[k - 1]];
    }
  }

  // ----- The loop -----

  /** The first i pixels of a plane stand in a buffer. */
  ghost predicate Intact(buffer: seq<nat>, base: nat, plane: seq<nat>, i: nat) {
    base + |plane| <= |buffer| && i <= |plane| && forall j :: 0 <= j < i ==> buffer[base + j] == plane[j]
  }

  /** The pixels from i on have been filtered. */
  ghost predicate Done(output: seq<nat>, base: nat, plane: seq<nat>, width: nat, depth: nat, i: nat)
    requires width > 0
  {
    base + |plane| <= |output| && i <= |plane|
    && forall j :: i <= j < |plane| ==> output[base + j] == FilteredAt(plane, width, depth, j)
  }

  /** Nothing outside the plane has changed. */
  ghost predicate Elsewhere(after: seq<nat>, before: seq<nat>, base: nat, n: nat) {
    |after| == |before| && forall k :: 0 <= k < |after| && !(base <= k < base + n) ==> after[k] == before[k]
  }

  lemma StoreStep(buffer: seq<nat>, output: seq<nat>, before: seq<nat>, base: nat, plane: seq<nat>, width: nat,
      depth: nat, i: nat)
    requires width > 0 && i < |plane| && Intact(buffer, base, plane, i + 1)
    requires Done(output, base, plane, width, depth, i + 1) && Elsewhere(output, before, base, |plane|)
    ensures var v := FilteredAt(plane, width, depth, i);
            && Intact(buffer, base, plane, i) && Intact(buffer[base + i := v], base, plane, i)
            && Done(output[base + i := v], base, plane, width, depth, i)
            && Elsewhere(output[base + i := v], before, base, |plane|)
  {
    hide FilteredAt;
  }

  lemma PixelIndex(width: nat, height: nat, x: nat, y: nat)
    requires x < width && y < height
    ensures y * width + x < width * height
    ensures (y * width + x) / width == y && (y * width + x) % width == x
    ensures y > 0 ==> y * width >= width
  {
    MulMonotone(y + 1, height, width);
    DivModUnique(y, width, x);
    if y > 0 { MulMonotone(1, y, width); }
  }

  /** The filter at column x and row y. */
  lemma PixelFilter(plane: seq<nat>, width: nat, height: nat, depth: nat, x: nat, y: nat)
    requires x < width && y < height && |plane| == width * height
    ensures y * width + x < |plane|
    ensures var i := y * width + x;
            && (x > 0 ==> i >= 1) && (y > 0 ==> i >= width) && (x > 0 && y > 0 ==> i >= width + 1)
            && FilteredAt(plane, width, depth, i) == Diff(plane[i],
                 if x > 0 && y > 0 then Predictor(plane[i - 1], plane[i - width], plane[i - width - 1])
                 else if x > 0 then plane[i - 1] else if y > 0 then plane[i - width] else 0, depth)
  {
    hide Diff, Predictor;
    PixelIndex(width, height, x, y);
  }

  /** One pixel of the loop, in terms of its row's offset. */
  method CpuPixel(buffer: array<nat>, offset: nat, x: nat, y: nat, width: nat, height: nat, depth: nat,
                  ghost base: nat, ghost plane: seq<nat>) returns (diff: nat)
    requires x < width && y < height && |plane| == width * height && offset == base + y * width
    requires y * width + x < |plane| && Intact(buffer[..], base, plane, y * width + x + 1)
    ensures diff == FilteredAt(plane, width, depth, y * width + x)
  {
    hide FilteredAt, Prediction, Diff;
    PixelIndex(width, height, x, y);
    PixelFilter(plane, width, height, depth, x, y);
    ghost var i := y * width + x;
    assert offset + x == base + i;
    var t := buffer[offset + x];
    if y > 0 && x > 0 {
      var a := buffer[offset + x - 1];
      var b := buffer[offset + x - width];
      var c := buffer[offset + x - width - 1];
      assert a == plane[i - 1] && b == plane[i - width] && c == plane[i - width - 1];
      var d := AbsDiff(a + b, c);
      var da, db, dc := AbsDiff(a, d), AbsDiff(b, d), AbsDiff(c, d);
      var dd := Min3(da, db, dc);
      if da == dd {
        d := a;
      } else if db == dd {
        d := b;
      } else {
        d := c;
      }
      return Diff(t, d, depth);
    }
    if y == 0 && x > 0 {
      assert buffer[offset + x - 1] == plane[i - 1];
      return Diff(t, buffer[offset + x - 1], depth);
    }
    if y > 0 && x == 0 {
      assert buffer[offset + x - width] == plane[i - width];
      return Diff(t, buffer[offset + x - width], depth);
    }
    return t;
  }

  /** One channel, from the last pixel to the first; output may be the buffer itself. */
  method FilterChannel(buffer: array<nat>, output: array<nat>, base: nat, width: nat, height: nat, depth: nat,
                       ghost plane: seq<nat>)
    requires width > 0 && |plane| == width * height && Intact(buffer[..], base, plane, |plane|)
    requires output.Length == buffer.Length
    modifies output
    ensures Done(output[..], base, plane, width, depth, 0)
    ensures Elsewhere(output[..], old(output[..]), base, |plane|)
    ensures buffer != output ==> buffer[..] == old(buffer[..])
  {
    hide Intact, Done, Elsewhere, FilteredAt;
    PlaneInBuffer(buffer[..], base, plane);
    NothingDone(output[..], base, plane, width, depth);
    for y := height downto 0
      invariant Intact(buffer[..], base, plane, y * width) && Done(output[..], base, plane, width, depth, y * width)
      invariant Elsewhere(output[..], old(output[..]), base, |plane|)
      invariant buffer != output ==> buffer[..] == old(buffer[..])
    {
      var offset := base + y * width;
      assert (y + 1) * width == y * width + width;
      for x := width downto 0
        invariant Intact(buffer[..], base, plane, y * width + x) &&
                  Done(output[..], base, plane, width, depth, y * width + x)
        invariant Elsewhere(output[..], old(output[..]), base, |plane|)
        invariant buffer != output ==> buffer[..] == old(buffer[..])
      {
        PixelIndex(width, height, x, y);
        var diff := CpuPixel(buffer, offset, x, y, width, height, depth, base, plane);
        StoreStep(buffer[..], output[..], old(output[..]), base, plane, width, depth, y * width + x);
        ghost var was := output[..];
        InBuffer(buffer[..], base, plane, y * width + x);
        output[offset + x] := diff;
        assert output[..] == was[base + (y * width + x) := diff];
      }
    }
  }

  lemma NothingDone(output: seq<nat>, base: nat, plane: seq<nat>, width: nat, depth: nat)
    requires width > 0 && base + |plane| <= |output|
    ensures Done(output, base, plane, width, depth, |plane|) && Elsewhere(output, output, base, |plane|)
  {
  }

  lemma InBuffer(buffer: seq<nat>, base: nat, plane: seq<nat>, i: nat)
    requires Intact(buffer, base, plane, i) && i < |plane|
    ensures base + i < |buffer|
  {
  }

  lemma PlaneInBuffer(buffer: seq<nat>, base: nat, plane: seq<nat>)
    requires Intact(buffer, base, plane, |plane|)
    ensures base + |plane| <= |buffer|
  {
  }

  // ----- All channels -----

  /** Channel c of the image, filtered. */
  ghost predicate ChannelDone(output: seq<nat>, image: seq<nat>, c: nat, n: nat, width: nat, depth: nat)
    requires width > 0
  {
    && c * n + n <= |image| == |output|
    && Done(output, c * n, image[c * n..c * n + n], width, depth, 0)
  }

  lemma ChannelKept(after: seq<nat>, before: seq<nat>, image: seq<nat>, b: nat, c: nat, n: nat, width: nat, depth: nat)
    requires width > 0 && b < c && ChannelDone(before, image, b, n, width, depth) && Elsewhere(after, before, c * n, n)
    ensures ChannelDone(after, image, b, n, width, depth)
  {
    hide FilteredAt;
    MulMonotone(b + 1, c, n);
    assert b * n + n <= c * n;
  }

  lemma ChannelRange(c: nat, channels: nat, n: nat, size: nat)
    requires c < channels && channels * n <= size
    ensures c * n + n <= size
  {
    MulMonotone(c + 1, channels, n);
  }

  /** `cpu_filter`: out of place, or over the input itself. */
  method CpuFilter(buffer: array<nat>, width: nat, height: nat, channels: nat, inplace: bool, depth: nat)
    returns (output: array<nat>)
    requires width > 0 && channels * (width * height) <= buffer.Length
    modifies buffer
    ensures if inplace then output == buffer else fresh(output) && buffer[..] == old(buffer[..])
    ensures forall c :: 0 <= c < channels ==> ChannelDone(output[..], old(buffer[..]), c, width * height, width, depth)
  {
    hide ChannelDone, Done, Elsewhere, Intact;
    if inplace {
      output := buffer;
    } else {
      output := new nat[buffer.Length];
    }
    ghost var n, image := width * height, buffer[..];
    for c := 0 to channels
      invariant inplace ==> output == buffer
      invariant !inplace ==> fresh(output) && output != buffer && buffer[..] == image
      invariant output.Length == buffer.Length && Behind(buffer[..], image, c * n)
      invariant forall b :: 0 <= b < c ==> ChannelDone(output[..], image, b, n, width, depth)
    {
      var base := c * (width * height);
      ChannelRange(c, channels, n, buffer.Length);
      ghost var plane, before := image[base..base + n], output[..];
      BehindIntact(buffer[..], image, base, n);
      FilterChannel(buffer, output, base, width, height, depth, plane);
      forall b | 0 <= b < c ensures ChannelDone(output[..], image, b, n, width, depth) {
        ChannelKept(output[..], before, image, b, c, n, width, depth);
      }
      ThisChannel(output[..], image, c, n, width, depth);
      if inplace { BehindNext(output[..], before, image, base, n); } else { BehindLess(image, base, n); }
      assert (c + 1) * n == base + n;
    }
  }

  /** From position k on the buffer still holds the image. */
  ghost predicate Behind(buffer: seq<nat>, image: seq<nat>, k: nat) {
    |buffer| == |image| && forall i :: k <= i < |image| ==> buffer[i] == image[i]
  }

  lemma BehindIntact(buffer: seq<nat>, image: seq<nat>, base: nat, n: nat)
    requires Behind(buffer, image, base) && base + n <= |image|
    ensures Intact(buffer, base, image[base..base + n], n)
  {
  }

  lemma BehindNext(after: seq<nat>, before: seq<nat>, image: seq<nat>, base: nat, n: nat)
    requires Behind(before, image, base) && Elsewhere(after, before, base, n)
    ensures Behind(after, image, base + n)
  {
  }

  lemma BehindLess(image: seq<nat>, base: nat, n: nat)
    ensures Behind(image, image, base + n)
  {
  }

  lemma ThisChannel(output: seq<nat>, image: seq<nat>, c: nat, n: nat, width: nat, depth: nat)
    requires width > 0 && c * n + n <= |image| == |output| &&
             Done(output, c * n, image[c * n..c * n + n], width, depth, 0)
    ensures ChannelDone(output, image, c, n, width, depth)
  {
  }

  /** The filter in place gives what it gives out of place: either way channel c is the filtered plane. */
  lemma ChannelIsFiltered(output: seq<nat>, image: seq<nat>, c: nat, n: nat, width: nat, depth: nat)
    requires width > 0 && ChannelDone(output, image, c, n, width, depth)
    ensures output[c * n..c * n + n] == Filtered(image[c * n..c * n + n], width, depth)
  {
    hide FilteredAt;
  }
}
