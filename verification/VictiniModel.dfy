/** Victini's context model: counts in an mstate, normalised into frequency and cumulative tables. */
module VictiniModel {
  import opened Words
  import opened Bits
  import opened RansSpec
  import opened FrequencyTable
  import opened FirstOrderContext
  import opened VictiniSpec
  import opened Rans

  const UNCOMPRESSED: nat := 0
  const VICTINI: nat := 1

  /** An mstate is empty until a codec claims it. */
  class MState {
    var data: seq<bool>
    var alg: nat

    constructor ()
      ensures data == [] && alg == UNCOMPRESSED
    {
      data, alg := [], UNCOMPRESSED;
    }
  }

  /** dict and cdict, as separately allocated rows. */
  ghost predicate IsGridPair(dict: seq<array<nat>>, cdict: seq<array<nat>>) {
    && IsGrid(dict, 256) && IsGrid(cdict, 256)
    && forall i, j :: 0 <= i < 256 && 0 <= j < 256 ==> dict[i] != cdict[j]
  }

  /** The rows hold the tables and their running sums. */
  ghost predicate HoldTables(dict: seq<array<nat>>, cdict: seq<array<nat>>, tables: seq<seq<nat>>)
    reads dict, cdict
  {
    && IsGridPair(dict, cdict) && |tables| == 256
    && forall i :: 0 <= i < 256 ==> RowHolds(dict[i], cdict[i], tables[i])
  }

  ghost predicate RowHolds(row: array<nat>, crow: array<nat>, t: seq<nat>)
    reads row, crow
  {
    && row.Length == crow.Length == 256
    && row[..] == t
    && forall k :: 0 <= k < 256 ==> crow[k] == U64(Sum(t[..k]))
  }

  method NewGrid() returns (g: seq<array<nat>>)
    ensures IsGrid(g, 256) && fresh(g)
  {
    g := [];
    for i := 0 to 256
      invariant |g| == i && fresh(g)
      invariant forall k :: 0 <= k < i ==> g[k].Length == 256
      invariant forall k, l :: 0 <= k < l < i ==> g[k] != g[l]
    {
      var row := new nat[256];
      g := g + [row];
    }
  }

  /** One row of `_normalize`, whatever the counts add up to. */
  method NormalizeRow(row: array<nat>, crow: array<nat>)
    requires row != crow && row.Length == crow.Length == 256 && Pow2(24) == 0x100_0000
    modifies row, crow
    ensures RowHolds(row, crow, Normalized64(old(row[..]), 24))
  {
    hide Sum, Floored, DealtOut, Pow2, U64, Wrapped;
    ghost var w := row[..];
    var sum := AddRow(row);
    if sum == 0 {
      sum := 1;
    }
    var dsum := FloorRow(row, sum);
    dsum := Sub64(16777216, dsum);
    Disperse(row, 256, dsum, Shares64(w, 24));
    Accumulate(row, crow);
  }

  method AddRow(row: array<nat>) returns (sum: nat)
    requires row.Length == 256
    ensures sum == U64(Sum(row[..]))
  {
    hide Sum, U64;
    ghost var w := row[..];
    sum := 0;
    SumNone();
    U64Exact(0);
    assert w[..0] == [] && w[..256] == w;
    for k := 0 to 256
      invariant sum == U64(Sum(w[..k]))
    {
      SumStep(w, k);
      U64Add(Sum(w[..k]), row[k]);
      sum := U64(sum + row[k]);
    }
  }

  method FloorRow(row: array<nat>, sum: nat) returns (dsum: nat)
    requires row.Length == 256 && sum > 0
    modifies row
    ensures row[..] == Wrapped(Floored(old(row[..]), 16776960, sum))
    ensures dsum == U64(Sum(Floored(old(row[..]), 16776960, sum)))
  {
    hide Sum, Share, Floored, U64;
    ghost var w := row[..];
    ghost var t := Floored(w, 16776960, sum);
    dsum := 0;
    SumNone();
    U64Exact(0);
    assert t[..0] == [] && t[..256] == t;
    for k := 0 to 256
      invariant dsum == U64(Sum(t[..k]))
      invariant forall i :: 0 <= i < k ==> row[i] == U64(t[i])
      invariant forall i :: k <= i < 256 ==> row[i] == w[i]
    {
      SumStep(t, k);
      FlooredAt(w, 16776960, sum, k);
      U64Add(Sum(t[..k]), t[k]);
      row[k] := U64(1 + Share(row[k], 16776960, sum));
      dsum := U64(dsum + row[k]);
    }
    assert row[..] == Wrapped(t);
  }

  method Accumulate(row: array<nat>, crow: array<nat>)
    requires row != crow && row.Length == crow.Length == 256
    modifies crow
    ensures RowHolds(row, crow, row[..])
  {
    hide Sum, U64;
    ghost var t := row[..];
    var sum: nat := 0;
    SumNone();
    U64Exact(0);
    assert t[..0] == [];
    for k := 0 to 256
      invariant row[..] == t && sum == U64(Sum(t[..k]))
      invariant forall i :: 0 <= i < k ==> crow[i] == U64(Sum(t[..i]))
    {
      SumStep(t, k);
      U64Add(Sum(t[..k]), row[k]);
      crow[k] := sum;
      sum := U64(sum + row[k]);
    }
  }

  /** `_normalize` */
  method Normalize(dict: seq<array<nat>>, cdict: seq<array<nat>>)
    requires IsGridPair(dict, cdict) && IsCounts(Rows(dict))
    modifies dict, cdict
    ensures HoldTables(dict, cdict, Tables(old(Rows(dict))))
  {
    hide Normalized64, Sum, Pow2, RowHolds;
    Pow2Values();
    ghost var counts := Rows(dict);
    for i := 0 to 256
      invariant forall k :: 0 <= k < i ==> RowHolds(dict[k], cdict[k], Normalized64(counts[k], 24))
      invariant forall k :: i <= k < 256 ==> dict[k][..] == counts[k]
    {
      NormalizeRow(dict[i], cdict[i]);
    }
  }

  // ----- Counts in and out of an mstate -----

  lemma WordAfterWrite(b: seq<bool>, k: nat, v: nat)
    requires 64 * k + 64 <= |b| && v < TWO_64
    ensures WordAt(Overwrite(b, 64 * k, BitsOf(v, 64)), k) == v
  {
    Pow2Values();
    ValueOfBits(v, 64);
    assert Overwrite(b, 64 * k, BitsOf(v, 64))[64 * k..64 * k + 64] == BitsOf(v, 64);
  }

  lemma WordInPrefix(b: seq<bool>, c: seq<bool>, p: nat, k: nat)
    requires p <= |b| && p <= |c| && b[..p] == c[..p] && 64 * k + 64 <= p
    ensures WordAt(b, k) == WordAt(c, k)
  {
    assert b[64 * k..64 * k + 64] == b[..p][64 * k..64 * k + 64] == c[..p][64 * k..64 * k + 64] ==
           c[64 * k..64 * k + 64];
  }

  lemma RowInPrefix(b: seq<bool>, c: seq<bool>, p: nat, i: nat)
    requires |b| >= 64 * 0x1_0000 && |c| >= 64 * 0x1_0000 && i < 256
    requires 0x4000 * i + 0x4000 <= p <= |b| && p <= |c| && b[..p] == c[..p]
    ensures CountsRow(b, i) == CountsRow(c, i)
  {
    forall j | 0 <= j < 256 ensures CountsRow(b, i)[j] == CountsRow(c, i)[j] {
      WordInPrefix(b, c, p, 256 * i + j);
    }
  }

  /** Writes row i of the counts at the stream's position. */
  method StoreRow(stream: BitStream, row: array<nat>, i: nat)
    requires i < 256 && row.Length == 256 && forall j :: 0 <= j < 256 ==> row[j] < TWO_64
    requires |stream.bits| == 64 * 0x1_0001 && stream.pos == 0x4000 * i
    modifies stream
    ensures |stream.bits| == 64 * 0x1_0001 && stream.pos == 0x4000 * (i + 1)
    ensures stream.bits[..0x4000 * i] == old(stream.bits)[..0x4000 * i]
    ensures CountsRow(stream.bits, i) == row[..]
  {
    hide Overwrite, BitsOf, WordAt;
    ghost var b0, p0 := stream.bits, 0x4000 * i;
    for j := 0 to 256
      invariant |stream.bits| == 64 * 0x1_0001 && stream.pos == p0 + 64 * j
      invariant stream.bits[..p0] == b0[..p0]
      invariant forall k :: 0 <= k < j ==> WordAt(stream.bits, 256 * i + k) == row[k]
    {
      ghost var b := stream.bits;
      WordAfterWrite(b, 256 * i + j, row[j]);
      stream.Write(row[j], 64);
      ghost var c := stream.bits;
      assert c[..p0 + 64 * j] == b[..p0 + 64 * j];
      assert c[..p0] == c[..p0 + 64 * j][..p0] == b[..p0];
      forall k | 0 <= k < j ensures WordAt(c, 256 * i + k) == row[k] {
        WordInPrefix(b, c, p0 + 64 * j, 256 * i + k);
      }
    }
  }

  /** The image of an mstate holding the rows of a grid. */
  method StoreCounts(dict: seq<array<nat>>) returns (bits: seq<bool>)
    requires IsGrid(dict, 256) && IsCounts(Rows(dict))
    ensures |bits| == 64 * 0x1_0001 && CountsOf(bits) == Rows(dict)
  {
    hide CountsRow, WordAt, Sum;
    ghost var rows := Rows(dict);
    var stream := new BitStream(seq(64 * 0x1_0001, i => false));
    for i := 0 to 256
      invariant |stream.bits| == 64 * 0x1_0001 && stream.pos == 0x4000 * i
      invariant forall k :: 0 <= k < i ==> CountsRow(stream.bits, k) == rows[k]
    {
      ghost var b := stream.bits;
      assert IsRow(rows[i]) && dict[i][..] == rows[i];
      StoreRow(stream, dict[i], i);
      forall k | 0 <= k < i ensures CountsRow(stream.bits, k) == rows[k] {
        RowInPrefix(b, stream.bits, 0x4000 * i, k);
      }
    }
    bits := stream.bits;
    assert CountsOf(bits) == rows;
  }

  /** Reads the counts of an mstate into a grid. */
  method LoadCounts(bits: seq<bool>, dict: seq<array<nat>>)
    requires IsGrid(dict, 256) && 64 * 0x1_0000 <= |bits|
    modifies dict
    ensures Rows(dict) == CountsOf(bits)
  {
    hide CountsRow, WordAt;
    var stream := new BitStream(bits);
    for i := 0 to 256
      invariant fresh(stream) && stream.bits == bits && stream.pos == 0x4000 * i
      invariant forall k :: 0 <= k < i ==> dict[k][..] == CountsRow(bits, k)
    {
      LoadRow(stream, dict[i], i);
    }
    assert Rows(dict) == CountsOf(bits);
  }

  method LoadRow(stream: BitStream, row: array<nat>, i: nat)
    requires i < 256 && row.Length == 256 && 64 * 0x1_0000 <= |stream.bits| && stream.pos == 0x4000 * i
    modifies row, stream`pos
    ensures row[..] == CountsRow(stream.bits, i) && stream.pos == 0x4000 * (i + 1)
  {
    ghost var t := CountsRow(stream.bits, i);
    hide ValueOf, CountsRow;
    for j := 0 to 256
      invariant stream.pos == 0x4000 * i + 64 * j
      invariant forall k :: 0 <= k < j ==> row[k] == t[k]
    {
      assert t[j] == WordAt(stream.bits, 256 * i + j) by { CountsRowAt(stream.bits, i, j); }
      row[j] := stream.Read(64);
    }
  }

  lemma CountsRowAt(bits: seq<bool>, i: nat, j: nat)
    requires i < 256 && j < 256 && 64 * 0x1_0000 <= |bits|
    ensures CountsRow(bits, i)[j] == WordAt(bits, 256 * i + j)
  {
  }

  // ----- The model of a block -----

  ghost predicate Fresh(data: seq<int>) {
    AreSymbols(data, 256) && |data| < 0x8000_0000
  }

  /** The counts a fresh model learns never wrap: at most 32 per symbol on top of 256. */
  lemma LearnedCounts(data: seq<int>)
    requires Fresh(data)
    ensures IsCounts(Counts(data, 256, 32, |data|)) && AreSound(Counts(data, 256, 32, |data|))
  {
    hide Sum, Counts, Sound;
    forall i | 0 <= i < 256 ensures SoundRow(Counts(data, 256, 32, |data|)[i]) {
      CountsBound(data, 256, 32, |data|, i);
      CountableRow(Counts(data, 256, 32, |data|)[i]);
    }
  }

  /** Addition entry by entry, in 64-bit registers. */
  ghost function Added(a: seq<nat>, b: seq<nat>): (c: seq<nat>)
    requires |a| == |b|
    ensures |c| == |a| && forall k :: 0 <= k < |c| ==> c[k] < TWO_64
  {
    seq<nat>(|a|, k requires 0 <= k < |a| => U64(a[k] + b[k]))
  }

  ghost function AddedRows(a: seq<seq<nat>>, b: seq<seq<nat>>): (c: seq<seq<nat>>)
    requires IsSquare(a, 256) && IsSquare(b, 256)
    ensures IsCounts(c) && forall i :: 0 <= i < 256 ==> c[i] == Added(a[i], b[i])
  {
    seq(256, i requires 0 <= i < 256 => Added(a[i], b[i]))
  }

  /** Copies what a model learned into dict. */
  method CopyRows(focm: FirstOrderContextModel, dict: seq<array<nat>>)
    requires IsGrid(focm.contextMap, 256) && IsGrid(dict, 256)
    requires forall i, j :: 0 <= i < 256 && 0 <= j < 256 ==> focm.contextMap[i] != dict[j]
    modifies dict
    ensures Rows(dict) == Rows(focm.contextMap) == old(Rows(focm.contextMap))
  {
    ghost var rows := focm.contextMap;
    ghost var r := Rows(rows);
    for i := 0 to 256
      invariant forall k :: 0 <= k < 256 ==> rows[k][..] == r[k]
      invariant forall k :: 0 <= k < i ==> dict[k][..] == r[k]
    {
      var row := focm.GetDist(i);
      CopyRow(row, dict[i]);
    }
    assert Rows(dict) == r && Rows(rows) == r;
  }

  method CopyRow(row: array<nat>, target: array<nat>)
    requires target != row && target.Length == row.Length == 256
    modifies target
    ensures target[..] == row[..] == old(row[..])
  {
    for j := 0 to 256
      invariant row[..] == old(row[..])
      invariant forall k :: 0 <= k < j ==> target[k] == row[k]
    {
      target[j] := row[j];
    }
  }

  /** `target[k] += row[k]` for a whole row. */
  method AddToRow(target: array<nat>, row: array<nat>)
    requires target != row && target.Length == row.Length == 256
    modifies target
    ensures target[..] == Added(old(target[..]), row[..])
  {
    ghost var a := Added(target[..], row[..]);
    for k := 0 to 256
      invariant forall i :: 0 <= i < k ==> target[i] == a[i]
      invariant forall i :: k <= i < 256 ==> U64(target[i] + row[i]) == a[i]
    {
      target[k] := U64(target[k] + row[k]);
    }
  }

  method AddRows(dict: seq<array<nat>>, focm: FirstOrderContextModel)
    requires IsGrid(focm.contextMap, 256) && IsGrid(dict, 256)
    requires forall i, j :: 0 <= i < 256 && 0 <= j < 256 ==> focm.contextMap[i] != dict[j]
    modifies dict
    ensures Rows(dict) == AddedRows(old(Rows(dict)), old(Rows(focm.contextMap)))
  {
    hide U64, Added, IsCounts;
    ghost var rows := focm.contextMap;
    ghost var d, r := Rows(dict), Rows(rows);
    ghost var sum := AddedRows(d, r);
    for i := 0 to 256
      invariant forall k :: 0 <= k < 256 ==> rows[k][..] == r[k]
      invariant forall k :: 0 <= k < i ==> dict[k][..] == sum[k]
      invariant forall k :: i <= k < 256 ==> dict[k][..] == d[k]
    {
      var row := focm.GetDist(i);
      AddToRow(dict[i], row);
    }
  }

  /** What training on ranks turns the counts of an mstate into. */
  ghost function TrainedCounts(bits: seq<bool>, empty: bool, data: seq<int>): (counts: seq<seq<nat>>)
    requires Fresh(data) && (!empty ==> HoldsCounts(bits))
    ensures IsCounts(counts)
  {
    LearnedCounts(data);
    var learned := Counts(data, 256, 32, |data|);
    if empty then learned else AddedRows(CountsOf(bits), learned)
  }

  /** Every count grew by one and by 32 for each time b directly follows a among the ranks, in a 64-bit
      register; on an empty mstate it is that number. */
  ghost predicate LearnedPairs(counts: seq<seq<nat>>, bits: seq<bool>, empty: bool, ranks: seq<int>)
    requires IsSquare(counts, 256) && (!empty ==> HoldsCounts(bits))
  {
    forall a, b :: 0 <= a < 256 && 0 <= b < 256 ==>
      counts[a][b] ==
        if empty then 1 + 32 * Followers(ranks, a, b, |ranks|)
        else (CountsOf(bits)[a][b] + 1 + 32 * Followers(ranks, a, b, |ranks|)) % TWO_64
  }

  /** A model state as the code leaves it behind: its image is full size, its counts those of the ranks alone. */
  ghost predicate LearnedFrom(bits: seq<bool>, ranks: seq<int>)
    requires Fresh(ranks)
  {
    |bits| == 64 * 0x1_0001 && CountsOf(bits) == Counts(ranks, 256, 32, |ranks|)
  }

  lemma AddedAt(r: seq<seq<nat>>, s: seq<seq<nat>>, i: nat, j: nat)
    requires IsSquare(r, 256) && IsSquare(s, 256) && i < 256 && j < 256
    ensures AddedRows(r, s)[i][j] == (r[i][j] + s[i][j]) % TWO_64
  {
  }

  lemma TrainedPairs(bits: seq<bool>, empty: bool, ranks: seq<int>)
    requires Fresh(ranks) && (!empty ==> HoldsCounts(bits))
    ensures LearnedPairs(TrainedCounts(bits, empty, ranks), bits, empty, ranks)
  {
    hide Counts, Followers, CountsOf, AddedRows, Fresh;
    assert AreSymbols(ranks, 256) by { FreshSymbols(ranks); }
    forall a: nat, b: nat | a < 256 && b < 256
      ensures TrainedCounts(bits, empty, ranks)[a][b] ==
              if empty then 1 + 32 * Followers(ranks, a, b, |ranks|)
              else (CountsOf(bits)[a][b] + 1 + 32 * Followers(ranks, a, b, |ranks|)) % TWO_64
    {
      CountsPairs(ranks, 256, 32, |ranks|, a, b);
      if !empty { AddedAt(CountsOf(bits), Counts(ranks, 256, 32, |ranks|), a, b); }
    }
  }

  lemma FreshSymbols(data: seq<int>)
    requires Fresh(data)
    ensures AreSymbols(data, 256)
  {
  }

  /** `_model_transform`: an empty mstate learns the block's counts, a trained one is read back, and in
      training mode what the block adds is stored too. The tables always follow what is stored. */
  method ModelTransform(mstate: MState, dict: seq<array<nat>>, cdict: seq<array<nat>>, data: array<int>, training: bool)
    requires IsGridPair(dict, cdict) && Fresh(data[..])
    requires mstate.alg != UNCOMPRESSED ==> HoldsCounts(mstate.data)
    modifies mstate`data, dict, cdict
    ensures HoldsCounts(mstate.data) && HoldTables(dict, cdict, Tables(CountsOf(mstate.data)))
    ensures mstate.alg == UNCOMPRESSED || training ==>
              CountsOf(mstate.data) == TrainedCounts(old(mstate.data), mstate.alg == UNCOMPRESSED, data[..])
    ensures mstate.alg == UNCOMPRESSED || training ==> |mstate.data| == 64 * 0x1_0001
    ensures mstate.alg != UNCOMPRESSED && !training ==> mstate.data == old(mstate.data)
  {
    hide CountsOf, Counts, Sum, Pow2, RowHolds, IsCounts, AddedRows;
    ghost var d := data[..];
    if mstate.alg == UNCOMPRESSED {
      LearnedCounts(d);
      var focm := Train(data, 256, 32);
      CopyRows(focm, dict);
      mstate.data := StoreCounts(dict);
    } else {
      LoadCounts(mstate.data, dict);
      if training {
        var focm := Train(data, 256, 32);
        AddRows(dict, focm);
        mstate.data := StoreCounts(dict);
      }
    }
    assert Rows(dict) == CountsOf(mstate.data);
    Normalize(dict, cdict);
  }
}
