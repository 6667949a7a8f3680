/** The strided data-parallel form of the Paeth filter: any schedule of its work items computes the
    same filter as the loop. */
module PaethKernel {
  import opened Words
  import opened Paeth

  /** Work item tid writes pixel i. */
  predicate Handles(tid: nat, i: nat, n: nat, s: nat) {
    tid < n && tid * s <= i < tid * s + s && i < n
  }

  /** The work item a pixel belongs to. */
  function Owner(i: nat, s: nat): nat
    requires s > 0
  {
    i / s
  }

  lemma ChunksCover(n: nat, s: nat, i: nat)
    requires s > 0 && i < n
    ensures Owner(i, s) < Chunks(n, s)
  {
    DivLower(i / s, i, s);
    DivLower(i / s, n, s);
    if i / s == n / s {
      assert n == s * (n / s) + n % s && i == s * (i / s) + i % s;
    }
  }

  /** Each pixel belongs to exactly one work item. */
  lemma OneWorkItem(i: nat, n: nat, s: nat, tid: nat)
    requires s > 0 && i < n
    ensures Handles(tid, i, n, s) <==> tid == Owner(i, s)
  {
    assert i == s * (i / s) + i % s;
    DivLower(tid, i, s);
    DivLower(tid + 1, i, s);
    assert (tid + 1) * s == tid * s + s;
    DivLower(i / s, i, s);
    MulMonotone(1, s, i / s);
  }

  /** One pixel of the kernel, in terms of its index. */
  method KernelPixel(input: array<nat>, index: nat, width: nat, depth: nat) returns (diff: nat)
    requires width > 0 && index < input.Length
    ensures diff == FilteredAt(input[..], width, depth, index)
  {
    Coordinates(width, index);
    var t := input[index];
    var x := index % width;
    var y := index / width;
    if x > 0 && y > 0 {
      var a := input[index - 1];
      var b := input[index - width];
      var c := input[index - width - 1];
      var d := AbsDiff(a + b, c);
      var da, db, dc := AbsDiff(a, d), AbsDiff(b, d), AbsDiff(c, d);
      var dd := Min3(da, db, dc);
      if da == dd {
        d := a;
      } else if db == dd {
        d := b;
      } else {
        d := c;
      }
      return Diff(t, d, depth);
    }
    if x > 0 && y == 0 {
      return Diff(t, input[index - 1], depth);
    }
    if x == 0 && y > 0 {
      return Diff(t, input[index - width], depth);
    }
    return t;
  }

  /** `paeth_differential16`: what work item tid does, and nothing else. */
  method WorkItem(tid: nat, input: array<nat>, output: array<nat>, width: nat, depth: nat, n: nat, s: nat)
    requires input != output && n == input.Length == output.Length && s > 0 && width > 0
    modifies output
    ensures forall i :: 0 <= i < n ==>
      output[i] == if Handles(tid, i, n, s) then FilteredAt(input[..], width, depth, i) else old(output[i])
  {
    hide FilteredAt;
    if tid >= n {
      return;
    }
    var start := tid * s;
    var end := start + s - 1;
    if end >= n {
      end := n - 1;
    }
    var index := start;
    while index <= end
      invariant start <= index && (index <= end + 1 || index == start)
      invariant input[..] == old(input[..])
      invariant forall i :: 0 <= i < n ==>
        output[i] == if start <= i < index then FilteredAt(input[..], width, depth, i) else old(output[i])
    {
      var diff := KernelPixel(input, index, width, depth);
      output[index] := diff;
      index := index + 1;
    }
  }

  /** An order in which all work items of a range run; some may be listed more than once. */
  ghost predicate Schedule(order: seq<nat>, size: nat) {
    forall tid :: 0 <= tid < size ==> tid in order
  }

  /** All work items over one channel, in any order. */
  method RunKernel(order: seq<nat>, input: array<nat>, output: array<nat>, width: nat, depth: nat, n: nat, s: nat,
      ghost size: nat)
    requires input != output && n == input.Length == output.Length && s > 0 && width > 0
    requires Schedule(order, size) && size >= Chunks(n, s)
    modifies output
    ensures output[..] == Filtered(input[..], width, depth)
  {
    hide FilteredAt, Handles, Owner, Chunks;
    for k := 0 to |order|
      invariant input[..] == old(input[..])
      invariant forall i :: 0 <= i < n && Owner(i, s) in order[..k] ==>
                output[i] == FilteredAt(input[..], width, depth, i)
    {
      forall i | 0 <= i < n ensures Handles(order[k], i, n, s) <==> order[k] == Owner(i, s) {
        OneWorkItem(i, n, s, order[k]);
      }
      WorkItem(order[k], input, output, width, depth, n, s);
    }
    assert order[..|order|] == order;
    forall i | 0 <= i < n ensures output[i] == FilteredAt(input[..], width, depth, i) { ChunksCover(n, s, i); }
  }

  /** `opencl_filter`: each channel is copied out, filtered by the kernel and copied back. */
  method OpenclFilter(buffer: array<nat>, width: nat, height: nat, channels: nat, inplace: bool, depth: nat,
                      kernels: nat, localSize: nat, orders: seq<seq<nat>>) returns (output: array<nat>)
    requires width > 0 && height > 0 && channels * (width * height) <= buffer.Length && kernels > 0 && localSize > 0
    requires |orders| == channels && forall c :: 0 <= c < channels ==>
             Schedule(orders[c], GlobalSize(width * height, kernels, localSize))
    modifies buffer
    ensures if inplace then output == buffer else fresh(output) && buffer[..] == old(buffer[..])
    ensures forall c :: 0 <= c < channels ==> ChannelDone(output[..], old(buffer[..]), c, width * height, width, depth)
  {
    hide ChannelDone, Done, Elsewhere, Intact, Behind, Schedule, Filtered, Chunks, GlobalSize;
    if inplace {
      output := buffer;
    } else {
      output := new nat[buffer.Length];
    }
    var n := width * height;
    Positive(width, height);
    var s := Chunks(n, kernels);
    ghost var image := buffer[..];
    StrideFits(n, kernels, localSize);
    BehindLess(image, 0, 0);
    for c := 0 to channels
      invariant inplace ==> output == buffer
      invariant !inplace ==> fresh(output) && output != buffer && buffer[..] == image
      invariant output.Length == buffer.Length && Behind(buffer[..], image, c * n)
      invariant forall b :: 0 <= b < c ==> ChannelDone(output[..], image, b, n, width, depth)
    {
      var base := c * n;
      ChannelRange(c, channels, n, buffer.Length);
      ghost var before := output[..];
      var input := new nat[n](i requires 0 <= i < n && base + n <= buffer.Length reads buffer => buffer[base + i]);
      var result := new nat[n];
      CopiedOut(buffer[..], image, base, input[..]);
      RunKernel(orders[c], input, result, width, depth, n, s, GlobalSize(n, kernels, localSize));
      CopyBack(result, output, base);
      CopiedBack(output[..], before, image, c, n, width, depth, result[..]);
      forall b | 0 <= b < c ensures ChannelDone(output[..], image, b, n, width, depth) {
        ChannelKept(output[..], before, image, b, c, n, width, depth);
      }
      if inplace { BehindNext(output[..], before, image, base, n); } else { BehindLess(image, base, n); }
      assert (c + 1) * n == base + n;
    }
  }

  /** The stride, the number of work items that have pixels, and the launched range. */
  function GlobalSize(n: nat, kernels: nat, localSize: nat): nat
    requires n > 0 && kernels > 0 && localSize > 0
  {
    ChunksPositive(n, kernels);
    Chunks(Chunks(n, Chunks(n, kernels)), localSize) * localSize
  }

  lemma ChunksPositive(n: nat, k: nat)
    requires n > 0 && k > 0
    ensures Chunks(n, k) > 0
  {
    assert n == k * (n / k) + n % k;
  }

  /** The launched range reaches every work item that has pixels. */
  lemma StrideFits(n: nat, kernels: nat, localSize: nat)
    requires n > 0 && kernels > 0 && localSize > 0
    ensures Chunks(n, kernels) > 0 && GlobalSize(n, kernels, localSize) >= Chunks(n, Chunks(n, kernels))
  {
    ChunksPositive(n, kernels);
    RoundUp(Chunks(n, Chunks(n, kernels)), localSize);
  }

  lemma RoundUp(m: nat, k: nat)
    requires k > 0
    ensures Chunks(m, k) * k >= m
  {
    assert m == k * (m / k) + m % k;
    assert (m / k + 1) * k == k * (m / k) + k;
  }

  lemma Positive(a: nat, b: nat)
    requires a > 0 && b > 0
    ensures a * b > 0
  {
  }

  method CopyBack(from: array<nat>, to: array<nat>, base: nat)
    requires from != to && base + from.Length <= to.Length
    modifies to
    ensures to[..] == old(to[..])[..base] + from[..] + old(to[..])[base + from.Length..]
  {
    for i := 0 to from.Length
      invariant to[..] == old(to[..])[..base] + from[..i] + old(to[..])[base + i..]
      invariant from[..] == old(from[..])
    {
      to[base + i] := from[i];
    }
  }

  lemma CopiedOut(buffer: seq<nat>, image: seq<nat>, base: nat, input: seq<nat>)
    requires Behind(buffer, image, base) && base + |input| <= |image|
    requires forall i :: 0 <= i < |input| ==> input[i] == buffer[base + i]
    ensures input == image[base..base + |input|]
  {
  }

  lemma CopiedBack(after: seq<nat>, before: seq<nat>, image: seq<nat>, c: nat, n: nat, width: nat, depth: nat,
      result: seq<nat>)
    requires width > 0 && c * n + n <= |image| == |before| && |result| == n
    requires after == before[..c * n] + result + before[c * n + n..]
    requires result == Filtered(image[c * n..c * n + n], width, depth)
    ensures ChannelDone(after, image, c, n, width, depth) && Elsewhere(after, before, c * n, n)
  {
    hide FilteredAt;
    assert forall j :: 0 <= j < n ==> after[c * n + j] == result[j];
  }
}
