/** The Burrows-Wheeler transformer working in place on its data, proved against the functions
    of BurrowsWheelerSpec. */
module BurrowsWheeler {
  import opened Permutations
  import opened Suffixes
  import opened RadixPass
  import opened BurrowsWheelerSpec
  import opened DifferenceCover
  import SkewSort

  class BurrowsWheelerTransformer {
    const data: array<int>
    const alphabetSize: nat

    constructor (data: array<int>, bound: nat)
      ensures this.data == data && alphabetSize == bound
    {
      this.data := data;
      alphabetSize := bound;
    }

    method Transform() returns (bwIndex: nat)
      requires KeysBelow(data[..], alphabetSize)
      modifies data
      ensures (data[..], bwIndex) == Bwt(old(data[..]))
    {
      ghost var d := data[..];
      var zdata := WithSentinel(data);
      var suffixes := SortedSuffixes(zdata, data, alphabetSize);
      bwIndex := ReadColumn(zdata, suffixes, d);
    }

    /** Reads the column off the suffix array, dropping the sentinel. */
    method ReadColumn(zdata: array<int>, suffixes: array<int>, ghost d: seq<int>) returns (bwIndex: nat)
      requires KeysBelow(d, alphabetSize) && data.Length == |d| && zdata != data && suffixes != data
      requires zdata[..] == Sentinel(d) && suffixes.Length >= |d| + 1
      requires ColumnIndices(zdata[..], suffixes[..|d| + 1])
      modifies data
      ensures (data[..], bwIndex) == Bwt(d)
    {
      hide Column, Strip, LastZero;
      var dataLen := zdata.Length;
      ghost var l := Column(d);
      ghost var z, sa := zdata[..], suffixes[..dataLen];
      BwtRange(d, alphabetSize);
      var j := 0;
      bwIndex := 0;
      assert l[..0] == [] && l[..dataLen] == l;
      StripNone();
      for i := 0 to dataLen
        invariant j == |Strip(l[..i])| && j <= |d| && data[..j] == Strip(l[..i])
        invariant bwIndex == LastZero(l[..i])
      {
        StripStep(l, i);
        StripGrows(l, i + 1);
        assert suffixes[i] == sa[i];
        var val := zdata[(suffixes[i] + dataLen - 1) % dataLen];
        assert val == l[i] by { ColumnValue(d, sa, i); }
        if val == 0 {
          bwIndex := i;
        } else {
          data[j] := val - 1;
          j := j + 1;
        }
      }
      assert data[..] == data[..j];
    }

    /** Undoes Transform; for any data and index it stays within its buffers. */
    method Invert(bwIndex: nat)
      requires KeysBelow(data[..], alphabetSize) && bwIndex <= data.Length
      modifies data
      ensures var out := UnBwt(old(data[..]), bwIndex, alphabetSize);
              |out| <= data.Length && data[..] == out + old(data[..])[|out|..]
    {
      hide Walk, Rebuild, IsStableOrder;
      ghost var d := data[..];
      var zdata := InsertSentinel(data, bwIndex);
      ghost var l := zdata[..];
      assert l == Rebuild(d, bwIndex) && KeysBelow(l, alphabetSize + 1) by { RebuildKeys(d, bwIndex, alphabetSize); }
      var jumpers := MakeJumpers(zdata, alphabetSize);
      WalkBack(zdata, jumpers, bwIndex);
    }

    method WalkBack(zdata: array<int>, jumpers: seq<int>, bwIndex: nat)
      requires zdata != data && zdata.Length == |jumpers| == data.Length + 1 && bwIndex <= data.Length
      requires IsPermutation(jumpers) && zdata[bwIndex] == 0
      modifies data
      ensures var out := Walk(zdata[..], jumpers, bwIndex, data.Length + 1);
              |out| <= data.Length && data[..] == out + old(data[..])[|out|..]
    {
      var n := zdata.Length;
      ghost var l := zdata[..];
      ghost var out := Walk(l, jumpers, bwIndex, n);
      WalkFits(l, jumpers, bwIndex);
      hide Walk, Distinct;
      var index, j: nat := bwIndex, 0;
      ghost var d := data[..];
      for count := 0 to n
        invariant 0 <= index < n && j <= data.Length
        invariant out == data[..][..j] + Walk(l, jumpers, index, n - count)
        invariant data[..][j..] == d[j..]
      {
        WalkStep(l, jumpers, index, n - count);
        index := jumpers[index];
        if zdata[index] != 0 {
          WriteAt(data[..], j, zdata[index] - 1, Walk(l, jumpers, index, n - count - 1));
          data[j] := zdata[index] - 1;
          j := j + 1;
        }
      }
      WalkNone(l, jumpers, index);
      assert data[..] == data[..][..j] + data[..][j..];
    }
  }

  lemma StripNone()
    ensures Strip([]) == [] && LastZero([]) == 0
  {
  }

  lemma WalkNone(l: seq<int>, jumpers: seq<int>, index: int)
    requires |jumpers| == |l| && IsPermutation(jumpers) && 0 <= index < |l|
    ensures Walk(l, jumpers, index, 0) == []
  {
  }

  /** The indices the column is read at: the suffix array, or the single entry of an empty input. */
  ghost predicate ColumnIndices(z: seq<int>, sa: seq<int>) {
    |sa| == |z| && if |z| == 1 then sa[0] == 1 else sa == SuffixesOf(z)
  }

  lemma ColumnValue(d: seq<int>, sa: seq<int>, i: nat)
    requires ColumnIndices(Sentinel(d), sa) && i <= |d|
    ensures 0 <= (sa[i] + |d|) % (|d| + 1) && Column(d)[i] == Sentinel(d)[(sa[i] + |d|) % (|d| + 1)]
  {
  }

  method WithSentinel(data: array<int>) returns (zdata: array<int>)
    ensures fresh(zdata) && zdata[..] == Sentinel(data[..])
  {
    zdata := new int[data.Length + 1];
    zdata[0] := 0;
    for i := 0 to data.Length
      invariant zdata[0] == 0 && forall k :: 0 <= k < i ==> zdata[k + 1] == data[k] + 1
    {
      zdata[i + 1] := data[i] + 1;
    }
    assert forall k :: 0 < k < zdata.Length ==> zdata[k] == data[k - 1] + 1;
  }

  method SortedSuffixes(zdata: array<int>, ghost data: array<int>, bound: nat) returns (suffixes: array<int>)
    requires zdata[..] == Sentinel(data[..]) && KeysBelow(data[..], bound)
    ensures fresh(suffixes) && suffixes.Length == zdata.Length + 3 && ColumnIndices(zdata[..], suffixes[..zdata.Length])
  {
    hide IsSuffixArray;
    var dataLen := zdata.Length;
    var input := new int[dataLen + 3];
    suffixes := new int[dataLen + 3];
    for i := 0 to dataLen + 3
      invariant forall k :: 0 <= k < i ==> input[k] == 0
    {
      input[i], suffixes[i] := 0, 0;
    }
    for i := 0 to dataLen
      invariant forall k :: 0 <= k < i ==> input[k] == zdata[k]
      invariant forall k :: dataLen <= k < dataLen + 3 ==> input[k] == 0
    {
      input[i], suffixes[i] := zdata[i], 1;
    }
    assert input[..dataLen] == zdata[..];
    SentinelText(data[..], bound);
    SkewSort.SuffixArray(input, suffixes, dataLen, bound + 1);
    if dataLen >= 2 {
      SuffixArrayUnique(zdata[..], suffixes[..dataLen], SuffixesOf(zdata[..]));
    }
  }

  lemma SentinelText(d: seq<int>, bound: nat)
    requires KeysBelow(d, bound)
    ensures IsText(Sentinel(d), bound + 1)
  {
  }

  method InsertSentinel(data: array<int>, bwIndex: nat) returns (zzdata: array<int>)
    requires bwIndex <= data.Length
    ensures fresh(zzdata) && zzdata[..] == Rebuild(data[..], bwIndex)
  {
    var dataLen := data.Length;
    var zdata := new int[dataLen];
    for i := 0 to dataLen
      invariant forall k :: 0 <= k < i ==> zdata[k] == data[k] + 1
    {
      zdata[i] := data[i] + 1;
    }
    zzdata := new int[dataLen + 1];
    var j := 0;
    for i := 0 to dataLen + 1
      invariant j == if i <= bwIndex then i else if i <= dataLen then i + 1 else dataLen + 1
      invariant forall k :: 0 <= k < i && k < dataLen ==> zzdata[if k < bwIndex then k else k + 1] == zdata[k]
      invariant i > bwIndex ==> zzdata[bwIndex] == 0
      invariant forall k :: 0 <= k < dataLen ==> zdata[k] == data[k] + 1
    {
      if i == bwIndex {
        zzdata[j] := 0;
        j := j + 1;
      }
      if i < dataLen {
        zzdata[j] := zdata[i];
        j := j + 1;
      }
    }
    forall k | 0 <= k < zzdata.Length ensures zzdata[k] == Rebuild(data[..], bwIndex)[k] {
      if k < bwIndex {
        assert zzdata[k] == zdata[k] == data[k] + 1;
      } else if k > bwIndex {
        var m := k - 1;
        assert zzdata[k] == zdata[m] == data[m] + 1;
      }
    }
  }

  lemma RebuildKeys(d: seq<int>, i: nat, bound: nat)
    requires KeysBelow(d, bound) && i <= |d|
    ensures KeysBelow(Rebuild(d, i), bound + 1)
  {
  }

  /** The rows among the first n that show c. */
  ghost function Bucket(l: seq<int>, c: int, n: nat): (b: seq<int>)
    requires n <= |l|
    ensures |b| == Count(l, c, n)
  {
    if n == 0 then [] else Bucket(l, c, n - 1) + (if l[n - 1] == c then [n - 1] else [])
  }

  /** The buckets of 0 .. c, one after another. */
  ghost function Chain(l: seq<int>, c: nat): (b: seq<int>)
    ensures |b| == Below(l, c)
  {
    if c == 0 then [] else Chain(l, c - 1) + Bucket(l, c - 1, |l|)
  }

  lemma {:induction false} BucketAt(l: seq<int>, c: int, n: nat, i: nat)
    requires i < n <= |l| && l[i] == c
    ensures Count(l, c, i) < |Bucket(l, c, n)| && Bucket(l, c, n)[Count(l, c, i)] == i
  {
    if i < n - 1 { BucketAt(l, c, n - 1, i); }
  }

  lemma {:induction false} ChainAt(l: seq<int>, c: nat, i: nat)
    requires i < |l| && 0 <= l[i] < c
    ensures Slot(l, i) < |Chain(l, c)| && Chain(l, c)[Slot(l, i)] == i
  {
    hide Bucket, Count, Below;
    if l[i] == c - 1 { BucketAt(l, c - 1, |l|, i); } else { ChainAt(l, c - 1, i); }
  }

  /** Concatenated buckets are the stable order of the column. */
  lemma ChainIsStableOrder(l: seq<int>, bound: nat)
    requires KeysBelow(l, bound)
    ensures Chain(l, bound) == StableOrder(l, bound)
  {
    hide Chain, IsStableOrder, Slot;
    var pi := SlotsGiveStableOrder(l, bound);
    assert |pi| == |l| by { StableOrderPermutes(l, pi); }
    BelowAll(l, bound);
    forall r | 0 <= r < |l| ensures Chain(l, bound)[r] == pi[r] { ChainAt(l, bound, pi[r]); }
    StableOrderUnique(l, pi, StableOrder(l, bound));
  }

  method MakeJumpers(zdata: array<int>, alphabetSize: nat) returns (jumpers: seq<int>)
    requires KeysBelow(zdata[..], alphabetSize + 1)
    ensures |jumpers| == zdata.Length && IsPermutation(jumpers)
    ensures jumpers == StableOrder(zdata[..], alphabetSize + 1)
  {
    hide Chain, Bucket, IsStableOrder, Below, Count;
    ghost var l := zdata[..];
    var baseList := FillBuckets(zdata, alphabetSize);
    assert zdata[..] == l;
    jumpers := [];
    ChainNone(l);
    for i := 0 to alphabetSize + 1
      invariant jumpers == Chain(l, i)
      invariant forall c :: 0 <= c <= alphabetSize ==> baseList[c] == Bucket(l, c, |l|)
    {
      ChainStep(l, i);
      var elem := baseList[i];
      if elem != [] {
        jumpers := jumpers + elem;
      }
    }
    ChainIsStableOrder(l, alphabetSize + 1);
    StableOrderPermutes(l, jumpers);
  }

  lemma ChainNone(l: seq<int>)
    ensures Chain(l, 0) == []
  {
  }

  lemma ChainStep(l: seq<int>, c: nat)
    ensures Chain(l, c + 1) == Chain(l, c) + Bucket(l, c, |l|)
  {
  }

  method FillBuckets(zdata: array<int>, alphabetSize: nat) returns (baseList: array<seq<int>>)
    requires KeysBelow(zdata[..], alphabetSize + 1)
    ensures fresh(baseList) && baseList.Length == alphabetSize + 1
    ensures forall c :: 0 <= c <= alphabetSize ==> baseList[c] == Bucket(zdata[..], c, zdata.Length)
  {
    ghost var l := zdata[..];
    baseList := new seq<int>[alphabetSize + 1];
    for i := 0 to alphabetSize + 1
      invariant forall c :: 0 <= c < i ==> baseList[c] == []
    {
      baseList[i] := [];
    }
    for i := 0 to zdata.Length
      invariant forall c {:trigger baseList[c]} :: 0 <= c <= alphabetSize ==> baseList[c] == Bucket(l, c, i)
    {
      assert zdata[i] == l[i];
      baseList[zdata[i]] := baseList[zdata[i]] + [i];
    }
  }
}
