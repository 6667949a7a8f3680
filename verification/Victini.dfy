/** The Victini codec: Burrows-Wheeler, move-to-front, first-order contexts and rANS, end to end. */
module Victini {
  import opened Words
  import opened RansSpec
  import opened FirstOrderContext
  import opened VictiniSpec
  import opened VictiniModel
  import opened VictiniCoder
  import opened Packing
  import BurrowsWheeler
  import BWT = BurrowsWheelerSpec
  import RadixPass
  import MTF = MoveToFront

  datatype Blob = Blob(header: seq<nat>, mstate: MState, data: seq<nat>, oSize: nat)

  /** An mstate a codec can start from: unclaimed, or holding counts that normalise to exact tables. */
  ghost predicate Usable(mstate: MState)
    reads mstate
  {
    mstate.alg != UNCOMPRESSED ==> IsTrained(mstate.data)
  }

  /** The bytes of a blob: at most as many as the codec's signed 32-bit indices reach. */
  ghost predicate HasBytes(blob: Blob) {
    && blob.oSize <= |blob.data| && AreBytes(blob.data)
    && blob.oSize + 4 <= TWO_31
  }

  /** A model state that has learned the bytes of one block and nothing else. */
  ghost predicate LearnedBytes(bits: seq<bool>, d: seq<int>) {
    InBytes(d) && |d| + 4 <= TWO_31 && LearnedFrom(bits, RanksOf(d))
  }

  method Compress(blob: Blob) returns (cblob: Blob)
    requires HasBytes(blob) && Usable(blob.mstate)
    modifies blob.mstate
    ensures Encodes(cblob.header, cblob.data, cblob.oSize, cblob.mstate.data, blob.data[..blob.oSize])
    ensures cblob.mstate == blob.mstate && cblob.mstate.alg == VICTINI
    ensures old(blob.mstate.alg) != UNCOMPRESSED ==> cblob.mstate.data == old(blob.mstate.data)
    ensures old(blob.mstate.alg) == UNCOMPRESSED ==> LearnedBytes(cblob.mstate.data, blob.data[..blob.oSize])
  {
    hide CodesRanks, IsTrained, CountsOf, RanksOf, LittleEndian, LearnedFrom;
    ghost var d: seq<int> := blob.data[..blob.oSize];
    var data, bwtIndex := ToRanks(blob.data, blob.oSize);
    var header := U64ToBytes(bwtIndex);
    var bytes := EncodeRanks(blob.mstate, data, RanksOf(d));
    blob.mstate.alg := VICTINI;
    cblob := Blob(header[..], blob.mstate, bytes, blob.oSize);
  }

  /** Builds the model of the block and codes its ranks with it. */
  method EncodeRanks(mstate: MState, data: array<int>, ghost ranks: seq<nat>) returns (bytes: seq<nat>)
    requires Usable(mstate) && data[..] == ranks && InBytes(ranks) && |ranks| + 4 <= TWO_31
    modifies mstate`data
    ensures CodesRanks(bytes, mstate.data, ranks)
    ensures mstate.alg != UNCOMPRESSED ==> mstate.data == old(mstate.data)
    ensures mstate.alg == UNCOMPRESSED ==> LearnedFrom(mstate.data, ranks)
  {
    hide CountsOf, AllFit, Tables, HoldTables, AreTables, AreSound, Intervals, Counts, CodeOf, Pow2;
    Pow2Values();
    var dict := NewGrid();
    var cdict := NewGrid();
    ModelTransform(mstate, dict, cdict, data, false);
    ghost var tables := Tables(CountsOf(mstate.data));
    LearnedCounts(ranks);
    TablesAreTables(CountsOf(mstate.data));
    var code, n := EncodeSymbols(dict, cdict, data, tables, ranks);
    var packed := WordsToBytes(code);
    bytes := packed[..];
  }

  /** The bytes of a block through the two transforms. */
  method ToRanks(bytes: seq<nat>, length: nat) returns (data: array<int>, bwtIndex: nat)
    requires length <= |bytes| && AreBytes(bytes)
    ensures InBytes(bytes[..length])
    ensures fresh(data) && data[..] == RanksOf(bytes[..length]) && bwtIndex == BWT.Bwt(bytes[..length]).1
  {
    ghost var d: seq<int> := bytes[..length];
    data := new int[length];
    for i := 0 to length
      invariant forall k :: 0 <= k < i ==> data[k] == bytes[k]
    {
      data[i] := bytes[i];
    }
    assert data[..] == d;
    var bwt := new BurrowsWheeler.BurrowsWheelerTransformer(data, 256);
    bwtIndex := bwt.Transform();
    BWT.BwtRange(d, 256);
    var mtf := new MTF.MoveToFrontTransformer(data, 256);
    mtf.Transform();
  }

  /** ... and back. */
  method FromRanks(sdata: array<int>, bwtIndex: nat, ghost d: seq<int>)
    requires InBytes(d) && sdata[..] == RanksOf(d) && bwtIndex == BWT.Bwt(d).1
    modifies sdata
    ensures sdata[..] == d
  {
    BWT.BwtRange(d, 256);
    MTF.SymbolsOfRanks(MTF.Alphabet(256), BWT.Bwt(d).0);
    var mtf := new MTF.MoveToFrontTransformer(sdata, 256);
    mtf.Invert();
    BWT.InvertsTransform(d, 256);
    var bwt := new BurrowsWheeler.BurrowsWheelerTransformer(sdata, 256);
    bwt.Invert(bwtIndex);
  }

  /** The words of a block's code. */
  method Unpack(bytes: seq<nat>, ghost code: seq<nat>) returns (words: array<nat>)
    requires AreWords(code) && bytes == BytesOf(code)
    ensures fresh(words) && words[..] == code
  {
    words := BytesToWords(bytes);
    WordsBack(code, words[..]);
  }

  /** Decodes ranks with the model of the counts they were coded with. */
  method DecodeRanks(bits: seq<bool>, data: seq<nat>, oSize: nat, ghost ranks: seq<nat>) returns (symbols: array<nat>)
    requires CodesRanks(data, bits, ranks) && oSize == |ranks| && InBytes(ranks)
    ensures fresh(symbols) && symbols[..] == ranks
  {
    hide CountsOf, AllFit, Tables, HoldTables, AreTables, AreSound, Intervals, CodeOf;
    ghost var counts := CountsOf(bits);
    ghost var code := CodeOf(Intervals(Tables(counts), ranks), 24);
    var dict := NewGrid();
    var cdict := NewGrid();
    LoadCounts(bits, dict);
    Normalize(dict, cdict);
    TablesAreTables(counts);
    var blobData := Unpack(data, code);
    symbols := DecodeSymbols(dict, cdict, blobData, oSize, Tables(counts), ranks);
  }

  /** Restores the bytes of any block Compress can produce. */
  method Decompress(blob: Blob, ghost d: seq<int>) returns (dblob: Blob)
    requires Encodes(blob.header, blob.data, blob.oSize, blob.mstate.data, d) && |d| + 4 <= TWO_31
    modifies blob.mstate`alg
    ensures dblob.data == d && dblob.oSize == |d| && dblob.mstate == blob.mstate
    ensures blob.mstate.alg == VICTINI
  {
    hide CodesRanks, RanksOf, LittleEndian;
    var bwtIndex := BytesToU64(blob.header);
    assert bwtIndex == BWT.Bwt(d).1 by { HeaderInverse(d); }
    var symbols := DecodeRanks(blob.mstate.data, blob.data, blob.oSize, RanksOf(d));
    var sdata := Copy(symbols);
    FromRanks(sdata, bwtIndex, d);
    var bytes := ToBytes(sdata);
    blob.mstate.alg := VICTINI;
    dblob := Blob([], blob.mstate, bytes, blob.oSize);
  }

  lemma HeaderInverse(d: seq<int>)
    requires InBytes(d) && |d| + 4 <= TWO_31
    ensures FromLittleEndian(LittleEndian(BWT.Bwt(d).1, 8)) == BWT.Bwt(d).1
  {
    BWT.BwtRange(d, 256);
    Pow2Values();
    LittleEndianInverse(BWT.Bwt(d).1, 8);
  }

  method Copy(symbols: array<nat>) returns (sdata: array<int>)
    ensures fresh(sdata) && sdata[..] == symbols[..]
  {
    sdata := new int[symbols.Length];
    for i := 0 to symbols.Length
      invariant forall k :: 0 <= k < i ==> sdata[k] == symbols[k]
    {
      sdata[i] := symbols[i];
    }
  }

  method ToBytes(sdata: array<int>) returns (bytes: seq<nat>)
    requires InBytes(sdata[..])
    ensures bytes == sdata[..]
  {
    ghost var d := sdata[..];
    bytes := [];
    for i := 0 to sdata.Length
      invariant |bytes| == i && forall k :: 0 <= k < i ==> bytes[k] == d[k]
    {
      assert d[i] == sdata[i];
      bytes := bytes + [sdata[i]];
    }
  }

  /** Learns a blob's symbols into its mstate, on top of whatever counts it holds. A codec can use it
      afterwards if and only if the new counts are sound. */
  method Train(blob: Blob) returns (mstate: MState)
    requires HasBytes(blob) && (blob.mstate.alg != UNCOMPRESSED ==> HoldsCounts(blob.mstate.data))
    modifies blob.mstate
    ensures mstate == blob.mstate && mstate.alg == VICTINI
    ensures HoldsCounts(mstate.data) && |mstate.data| == 64 * 0x1_0001
    ensures Fresh(RanksOf(blob.data[..blob.oSize]))
    ensures CountsOf(mstate.data) ==
            TrainedCounts(old(blob.mstate.data), old(blob.mstate.alg) == UNCOMPRESSED, RanksOf(blob.data[..blob.oSize]))
    ensures LearnedPairs(CountsOf(mstate.data), old(blob.mstate.data), old(blob.mstate.alg) == UNCOMPRESSED,
                         RanksOf(blob.data[..blob.oSize]))
    ensures Usable(mstate) <==> AreSound(CountsOf(mstate.data))
  {
    hide CountsOf, Tables, HoldTables, RanksOf, IsCounts, Counts, AreSound, TrainedCounts, Usable, LearnedPairs;
    ghost var bits, empty := blob.mstate.data, blob.mstate.alg == UNCOMPRESSED;
    var data, bwtIndex := ToRanks(blob.data, blob.oSize);
    var dict := NewGrid();
    var cdict := NewGrid();
    mstate := blob.mstate;
    ModelTransform(mstate, dict, cdict, data, true);
    mstate.alg := VICTINI;
    UsableIff(mstate);
    TrainedPairs(bits, empty, RanksOf(blob.data[..blob.oSize]));
  }

  lemma UsableIff(mstate: MState)
    requires mstate.alg != UNCOMPRESSED && HoldsCounts(mstate.data)
    ensures Usable(mstate) <==> AreSound(CountsOf(mstate.data))
  {
  }

  /** decompress(compress(b)) gives back exactly b's bytes, whatever mstate it starts from; and the
      block stays readable after further blobs are compressed with the same mstate. */
  method RoundTrip(blob: Blob, other: Blob) returns (dblob: Blob)
    requires HasBytes(blob) && HasBytes(other) && other.mstate == blob.mstate && Usable(blob.mstate)
    modifies blob.mstate
    ensures dblob.data == blob.data[..blob.oSize] && dblob.oSize == blob.oSize
  {
    hide Encodes;
    var cblob := Compress(blob);
    assert Usable(other.mstate) by {
      EncodesTrained(cblob.header, cblob.data, cblob.oSize, cblob.mstate.data, blob.data[..blob.oSize]);
    }
    var ignored := Compress(other);
    dblob := Decompress(cblob, blob.data[..blob.oSize]);
  }

  lemma EncodesTrained(header: seq<nat>, data: seq<nat>, oSize: nat, bits: seq<bool>, d: seq<int>)
    requires Encodes(header, data, oSize, bits, d)
    ensures IsTrained(bits)
  {
  }
}
