/** What a Victini block holds: the model built from stored counts, and the coded symbols. */
module VictiniSpec {
  import opened Words
  import opened Bits
  import opened RansSpec
  import opened FrequencyTable
  import opened FirstOrderContext
  import opened Packing
  import MTF = MoveToFront
  import BWT = BurrowsWheelerSpec

  // ----- Counts kept in an mstate -----

  /** A row of 64-bit counts. */
  ghost predicate IsRow(row: seq<nat>) {
    |row| == 256 && forall k :: 0 <= k < 256 ==> row[k] < TWO_64
  }

  ghost predicate IsCounts(counts: seq<seq<nat>>) {
    |counts| == 256 && forall i :: 0 <= i < 256 ==> IsRow(counts[i])
  }

  /** The normaliser's exact condition on a row of counts. */
  ghost predicate SoundRow(row: seq<nat>) {
    && IsRow(row)
    && Pow2(24) == 0x100_0000
    && Sound(row)
  }

  ghost predicate AreSound(counts: seq<seq<nat>>) {
    |counts| == 256 && forall i :: 0 <= i < 256 ==> SoundRow(counts[i])
  }

  /** Counts whose total does not wrap around in 64 bits are sound. */
  lemma CountableRow(row: seq<nat>)
    requires |row| == 256 && Sum(row) < TWO_64
    ensures SoundRow(row)
  {
    hide Sum, Sound, Normalized64, Normalized, IsTable;
    Pow2Values();
    forall k | 0 <= k < 256 ensures row[k] < TWO_64 {
      EntryBound(row, k);
    }
    UnwrappedSum(row, 24);
    NormalizedIsTable(row, 24);
    SoundIff(row);
  }

  /** The 64-bit number at index k of a bit image. */
  ghost function WordAt(bits: seq<bool>, k: nat): (v: nat)
    requires 64 * k + 64 <= |bits|
    ensures v < TWO_64
  {
    Pow2Values();
    BitsOfValue(bits[64 * k..64 * k + 64]);
    ValueOf(bits[64 * k..64 * k + 64])
  }

  ghost function CountsRow(bits: seq<bool>, i: nat): (row: seq<nat>)
    requires i < 256 && 64 * 0x1_0000 <= |bits|
    ensures IsRow(row)
  {
    var row := seq<nat>(256, j requires 0 <= j < 256 => WordAt(bits, 256 * i + j));
    assert forall j :: 0 <= j < 256 ==> row[j] == WordAt(bits, 256 * i + j);
    row
  }

  /** The 256 x 256 counts of an mstate image, row by row. */
  ghost function CountsOf(bits: seq<bool>): (counts: seq<seq<nat>>)
    requires 64 * 0x1_0000 <= |bits|
    ensures IsCounts(counts)
    ensures forall i :: 0 <= i < 256 ==> counts[i] == CountsRow(bits, i)
  {
    seq(256, i requires 0 <= i < 256 => CountsRow(bits, i))
  }

  /** An image large enough to hold counts. */
  ghost predicate HoldsCounts(bits: seq<bool>) {
    64 * 0x1_0000 <= |bits|
  }

  /** ... and counts that normalise to exact tables. */
  ghost predicate IsTrained(bits: seq<bool>) {
    HoldsCounts(bits) && AreSound(CountsOf(bits))
  }

  // ----- The model -----

  ghost function Tables(counts: seq<seq<nat>>): (tables: seq<seq<nat>>)
    requires IsCounts(counts)
    ensures |tables| == 256 && forall i :: 0 <= i < 256 ==> tables[i] == Normalized64(counts[i], 24)
  {
    Pow2Values();
    seq(256, i requires 0 <= i < 256 => Normalized64(counts[i], 24))
  }

  ghost predicate AreTables(tables: seq<seq<nat>>) {
    |tables| == 256 && forall i :: 0 <= i < 256 ==> |tables[i]| == 256 && IsTable(tables[i], 24)
  }

  /** All rows become exact tables if and only if all are sound. */
  lemma TablesAreTables(counts: seq<seq<nat>>)
    requires IsCounts(counts)
    ensures AreTables(Tables(counts)) <==> AreSound(counts)
  {
    hide IsTable, Normalized64, Sound;
    Pow2Values();
    forall i | 0 <= i < 256 ensures IsTable(Tables(counts)[i], 24) <==> SoundRow(counts[i]) {
      assert IsRow(counts[i]);
      SoundIff(counts[i]);
    }
  }

  /** The first symbol has no context: every symbol gets 2^16 slots. */
  ghost function Uniform(): (t: seq<nat>)
    ensures |t| == 256 && forall i :: 0 <= i < 256 ==> t[i] == 65536
  {
    seq(256, i => 65536 as nat)
  }

  lemma {:induction false} UniformSum(s: nat)
    requires s <= 256
    ensures Sum(Uniform()[..s]) == 65536 * s
  {
    if s == 0 {
    } else {
      UniformSum(s - 1);
      SumStep(Uniform(), s - 1);
    }
  }

  lemma UniformIsTable()
    ensures IsTable(Uniform(), 24)
  {
    UniformSum(256);
    Pow2Values();
    assert Uniform()[..256] == Uniform();
  }

  ghost function TableAfter(tables: seq<seq<nat>>, h: seq<nat>): seq<nat> {
    if h == [] || h[|h| - 1] >= |tables| then Uniform() else tables[h[|h| - 1]]
  }

  ghost function ModelOf(tables: seq<seq<nat>>): Model {
    (h: seq<nat>, s: nat) => Slots(TableAfter(tables, h), s)
  }

  lemma ModelDecodable(tables: seq<seq<nat>>)
    requires AreTables(tables)
    ensures Decodable(ModelOf(tables), 256, 24)
  {
    UniformIsTable();
    var m := ModelOf(tables);
    forall h: seq<nat>, s: nat | s < 256 ensures Fits(m(h, s), 24) {
      SlotsFit(TableAfter(tables, h), 24, s);
    }
    forall h: seq<nat>, s: nat, s': nat | s < 256 && s' < 256 && s != s'
      ensures m(h, s).bs + m(h, s).ls <= m(h, s').bs || m(h, s').bs + m(h, s').ls <= m(h, s).bs
    {
      if s < s' { SlotsDisjoint(TableAfter(tables, h), s, s'); } else { SlotsDisjoint(TableAfter(tables, h), s', s); }
    }
  }

  lemma {:induction false} IntervalAt(m: Model, h: seq<nat>, syms: seq<nat>, i: nat)
    requires i < |syms|
    ensures IntervalsOf(m, h, syms)[i] == m(h + syms[..i], syms[i])
    decreases i
  {
    if i == 0 {
      assert h + syms[..0] == h;
    } else {
      IntervalAt(m, h + [syms[0]], syms[1..], i - 1);
      assert h + [syms[0]] + syms[1..][..i - 1] == h + syms[..i];
    }
  }

  ghost function Intervals(tables: seq<seq<nat>>, syms: seq<nat>): (ivs: seq<Interval>)
    ensures |ivs| == |syms|
  {
    IntervalsOf(ModelOf(tables), [], syms)
  }

  /** The interval of symbol i depends on the symbol before it only. */
  lemma IntervalOfSymbol(tables: seq<seq<nat>>, syms: seq<nat>, i: nat)
    requires AreTables(tables) && i < |syms| && forall k :: 0 <= k < |syms| ==> syms[k] < 256
    ensures Intervals(tables, syms)[i] ==
            Slots(if i == 0 then Uniform() else tables[syms[i - 1]], syms[i])
    ensures AllFit(Intervals(tables, syms), 24)
  {
    IntervalAt(ModelOf(tables), [], syms, i);
    var h := syms[..i];
    assert [] + h == h;
    assert TableAfter(tables, h) == if i == 0 then Uniform() else tables[syms[i - 1]];
    AllIntervalsFit(tables, syms);
  }

  lemma AllIntervalsFit(tables: seq<seq<nat>>, syms: seq<nat>)
    requires AreTables(tables) && forall k :: 0 <= k < |syms| ==> syms[k] < 256
    ensures AllFit(Intervals(tables, syms), 24)
  {
    ModelDecodable(tables);
    IntervalsFit(ModelOf(tables), 256, 24, [], syms);
  }

  // ----- The block -----

  ghost predicate InBytes(d: seq<int>) {
    forall i :: 0 <= i < |d| ==> 0 <= d[i] < 256
  }

  /** The symbols that are entropy coded: recency ranks of the transformed bytes. */
  ghost function RanksOf(d: seq<int>): (r: seq<nat>)
    requires InBytes(d)
    ensures |r| == |d| && InBytes(r)
  {
    BWT.BwtRange(d, 256);
    MTF.Ranks(MTF.Alphabet(256), BWT.Bwt(d).0)
  }

  /** Data that is the packed code of the ranks under the counts of an mstate. */
  ghost predicate CodesRanks(data: seq<nat>, bits: seq<bool>, ranks: seq<nat>) {
    && IsTrained(bits)
    && AllFit(Intervals(Tables(CountsOf(bits)), ranks), 24)
    && data == BytesOf(CodeOf(Intervals(Tables(CountsOf(bits)), ranks), 24))
  }

  /** A block encodes the bytes d under the counts of an mstate. */
  ghost predicate Encodes(header: seq<nat>, data: seq<nat>, oSize: nat, bits: seq<bool>, d: seq<int>)
  {
    && InBytes(d) && oSize == |d|
    && header == LittleEndian(BWT.Bwt(d).1, 8)
    && CodesRanks(data, bits, RanksOf(d))
  }

  /** Every stage of a block has its inverse, for any tables: the code decodes to the ranks, the ranks
      lead back to the transformed bytes, and these to the bytes. */
  lemma BlockDecodes(tables: seq<seq<nat>>, d: seq<int>)
    requires AreTables(tables) && InBytes(d)
    ensures AllFit(Intervals(tables, RanksOf(d)), 24)
    ensures var ivs := Intervals(tables, RanksOf(d));
            Decode(ModelOf(tables), 256, 24, [], StateOf(ivs, 24), WordsOf(ivs, 24), |d|) ==
              Decoded(RanksOf(d), TWO_31, [])
    ensures MTF.Symbols(MTF.Alphabet(256), RanksOf(d)) == BWT.Bwt(d).0
    ensures BWT.UnBwt(BWT.Bwt(d).0, BWT.Bwt(d).1, 256) == d
  {
    hide AreTables, Decode, StateOf, WordsOf, MTF.Symbols, MTF.Ranks, BWT.Bwt, BWT.UnBwt, IntervalsOf;
    BWT.BwtRange(d, 256);
    BWT.InvertsTransform(d, 256);
    MTF.SymbolsOfRanks(MTF.Alphabet(256), BWT.Bwt(d).0);
    AllIntervalsFit(tables, RanksOf(d));
    ModelDecodable(tables);
    DecodeInverts(ModelOf(tables), 256, 24, [], RanksOf(d), []);
    assert WordsOf(Intervals(tables, RanksOf(d)), 24) + [] == WordsOf(Intervals(tables, RanksOf(d)), 24);
  }
}
