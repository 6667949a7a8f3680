/** The bit image of an archive: tagged, length-prefixed blocks laid end to end. */
module ArchiveLayout {
  import opened Words
  import opened Bits

  /** A number written in a given number of bits. */
  datatype Field = Field(value: nat, width: nat)

  ghost predicate Narrow(f: Field) {
    f.value < Pow2(f.width)
  }

  ghost predicate AllNarrow(fs: seq<Field>) {
    forall i :: 0 <= i < |fs| ==> Narrow(fs[i])
  }

  ghost function FieldBits(fs: seq<Field>): seq<bool> {
    if fs == [] then [] else FieldBits(fs[..|fs| - 1]) + BitsOf(fs[|fs| - 1].value, fs[|fs| - 1].width)
  }

  lemma FieldBitsSnoc(fs: seq<Field>, f: Field)
    ensures FieldBits(fs + [f]) == FieldBits(fs) + BitsOf(f.value, f.width)
  {
    assert (fs + [f])[..|fs|] == fs;
  }

  lemma FieldBitsNone()
    ensures FieldBits([]) == []
  {
  }

  lemma {:induction false} FieldBitsConcat(fs: seq<Field>, gs: seq<Field>)
    ensures FieldBits(fs + gs) == FieldBits(fs) + FieldBits(gs)
  {
    hide FieldBits, BitsOf;
    if gs == [] {
      FieldBitsNone();
      assert fs + gs == fs && FieldBits(fs) + [] == FieldBits(fs);
    } else {
      var h, g := gs[..|gs| - 1], gs[|gs| - 1];
      var a, b, c := FieldBits(fs), FieldBits(h), BitsOf(g.value, g.width);
      FieldBitsConcat(fs, h);
      FieldBitsSnoc(fs + h, g);
      FieldBitsSnoc(h, g);
      assert h + [g] == gs && (fs + h) + [g] == fs + gs;
      assert (a + b) + c == a + (b + c);
    }
  }

  lemma FieldBitsHead(fs: seq<Field>)
    requires fs != []
    ensures FieldBits(fs) == BitsOf(fs[0].value, fs[0].width) + FieldBits(fs[1..])
  {
    FieldBitsConcat([fs[0]], fs[1..]);
    assert [fs[0]] + fs[1..] == fs;
    assert FieldBits([fs[0]]) == BitsOf(fs[0].value, fs[0].width) by { FieldBitsSnoc([], fs[0]); }
  }

  /** One field per element. */
  ghost function Each(vs: seq<nat>, width: nat): (fs: seq<Field>)
    ensures |fs| == |vs| && forall i :: 0 <= i < |vs| ==> fs[i] == Field(vs[i], width)
  {
    seq(|vs|, i requires 0 <= i < |vs| => Field(vs[i], width))
  }

  lemma {:induction false} EachSize(vs: seq<nat>, width: nat)
    ensures |FieldBits(Each(vs, width))| == |vs| * width
  {
    hide FieldBits, BitsOf, Each;
    if vs == [] {
      FieldBitsNone();
      assert Each(vs, width) == [];
    } else {
      var n := |vs| - 1;
      EachSize(vs[..n], width);
      FieldBitsSnoc(Each(vs[..n], width), Field(vs[n], width));
      assert Each(vs, width) == Each(vs[..n], width) + [Field(vs[n], width)];
      assert |vs| * width == n * width + width;
    }
  }

  // ----- Blocks -----

  type Path = seq<nat>

  datatype Block =
    | Version(version: nat)
    | FileInfo(path: Path, blobIds: seq<nat>)
    | MstateAux(path: Path, mstate: nat)
    | Blob(id: nat, header: seq<nat>, oSize: nat, mstateId: nat, data: seq<nat>)
    | Mstate(id: nat, alg: nat, state: seq<nat>)
    | Empty(body: seq<bool>)

  const EMPTY: nat := 0x0
  const METADATA: nat := 0x1
  const BLOB: nat := 0x2
  const MSTATE: nat := 0x3
  const END: nat := 0xff

  function Marker(b: Block): (m: nat)
    ensures m <= 3
  {
    if b.Empty? then EMPTY else if b.Blob? then BLOB else if b.Mstate? then MSTATE else METADATA
  }

  /** What follows the marker and the block length. */
  ghost function BodyFields(b: Block): seq<Field>
    requires !b.Empty?
  {
    match b
    case Version(v) => [Field(0, 8), Field(v, 0x18)]
    case FileInfo(path, ids) => [Field(1, 8), Field(|path|, 0x40)] + Each(path, 8) + [Field(|ids|, 0x3A)] +
      Each(ids, 0x40)
    case MstateAux(path, id) => [Field(2, 8), Field(|path|, 0x40)] + Each(path, 8) + [Field(id, 0x40)]
    case Blob(id, header, oSize, mstateId, data) =>
      [Field(id, 0x40), Field(|header|, 0x40)] + Each(header, 8)
      + [Field(oSize, 0x40), Field(mstateId, 0x40), Field(|data|, 0x40)] + Each(data, 8)
    case Mstate(id, alg, data) => [Field(id, 0x40), Field(alg, 0x40), Field(|data|, 0x40)] + Each(data, 8)
  }

  /** A length, as many values, and what follows. */
  ghost function Prefixed(vs: seq<nat>, lengthWidth: nat, width: nat, rest: seq<Field>): (fs: seq<Field>)
    ensures fs != [] && fs[0] == Field(|vs|, lengthWidth)
  {
    [Field(|vs|, lengthWidth)] + (Each(vs, width) + rest)
  }

  lemma FileInfoFields(b: Block)
    requires b.FileInfo?
    ensures BodyFields(b)[1..] == Prefixed(b.path, 0x40, 8, Prefixed(b.blobIds, 0x3A, 0x40, []))
  {
  }

  lemma MstateAuxFields(b: Block)
    requires b.MstateAux?
    ensures BodyFields(b)[1..] == Prefixed(b.path, 0x40, 8, [Field(b.mstate, 0x40)])
  {
  }

  ghost function Body(b: Block): seq<bool> {
    if b.Empty? then b.body else FieldBits(BodyFields(b))
  }

  ghost function Prefix(b: Block): (fs: seq<Field>) {
    [Field(Marker(b), 8), Field(|Body(b)|, 0x40)]
  }

  ghost function Encode(b: Block): (e: seq<bool>)
    ensures |e| == 0x48 + |Body(b)|
  {
    PrefixSize(Field(Marker(b), 8), Field(|Body(b)|, 0x40));
    FieldBits(Prefix(b)) + Body(b)
  }

  lemma PrefixSize(f: Field, g: Field)
    ensures |FieldBits([f, g])| == f.width + g.width
    ensures FieldBits([f, g]) == BitsOf(f.value, f.width) + BitsOf(g.value, g.width)
  {
    FieldBitsSnoc([f], g);
    FieldBitsSnoc([], f);
    assert [f] + [g] == [f, g] && [] + [f] == [f];
  }

  ghost function Size(b: Block): (n: nat)
    ensures n >= 0x48
  {
    0x48 + |Body(b)|
  }

  /** Everything the writers store fits its field. */
  ghost predicate Storable(b: Block) {
    |Body(b)| < TWO_64 && (!b.Empty? ==> AllNarrow(BodyFields(b)))
  }

  lemma SingleSize(f: Field)
    ensures FieldBits([f]) == BitsOf(f.value, f.width)
  {
    FieldBitsSnoc([], f);
    assert [] + [f] == [f];
  }

  lemma ConcatSize(fs: seq<Field>, gs: seq<Field>)
    ensures |FieldBits(fs + gs)| == |FieldBits(fs)| + |FieldBits(gs)|
  {
    hide FieldBits;
    FieldBitsConcat(fs, gs);
  }

  lemma FileInfoSize(path: Path, ids: seq<nat>)
    ensures |FieldBits(BodyFields(FileInfo(path, ids)))| == 0x40 + 8 * |path| + 0x42 + 0x40 * |ids|
  {
    hide FieldBits, BitsOf, Each;
    var p, q := [Field(1, 8), Field(|path|, 0x40)], [Field(|ids|, 0x3A)];
    PrefixSize(p[0], p[1]);
    SingleSize(q[0]);
    EachSize(path, 8);
    EachSize(ids, 0x40);
    ConcatSize(p, Each(path, 8));
    ConcatSize(p + Each(path, 8), q);
    ConcatSize(p + Each(path, 8) + q, Each(ids, 0x40));
  }

  lemma MstateAuxSize(path: Path, id: nat)
    ensures |FieldBits(BodyFields(MstateAux(path, id)))| == 0x48 + 0x40 + 8 * |path|
  {
    hide FieldBits, BitsOf, Each;
    var p, q := [Field(2, 8), Field(|path|, 0x40)], [Field(id, 0x40)];
    PrefixSize(p[0], p[1]);
    SingleSize(q[0]);
    EachSize(path, 8);
    ConcatSize(p, Each(path, 8));
    ConcatSize(p + Each(path, 8), q);
  }

  lemma BlobSize(id: nat, header: seq<nat>, oSize: nat, mstateId: nat, data: seq<nat>)
    ensures |FieldBits(BodyFields(Blob(id, header, oSize, mstateId, data)))| == 0x140 + 8 * |header| + 8 * |data|
  {
    hide FieldBits, BitsOf, Each;
    var p, q := [Field(id, 0x40), Field(|header|, 0x40)], [Field(oSize, 0x40), Field(mstateId, 0x40)];
    var r := [Field(|data|, 0x40)];
    PrefixSize(p[0], p[1]);
    PrefixSize(q[0], q[1]);
    SingleSize(r[0]);
    EachSize(header, 8);
    EachSize(data, 8);
    ConcatSize(p, Each(header, 8));
    ConcatSize(q, r);
    ConcatSize(p + Each(header, 8), q + r);
    ConcatSize(p + Each(header, 8) + (q + r), Each(data, 8));
    assert q + r == [Field(oSize, 0x40), Field(mstateId, 0x40), Field(|data|, 0x40)];
  }

  lemma MstateSize(id: nat, alg: nat, data: seq<nat>)
    ensures |FieldBits(BodyFields(Mstate(id, alg, data)))| == 0xC0 + 8 * |data|
  {
    hide FieldBits, BitsOf, Each;
    var p, q := [Field(id, 0x40), Field(alg, 0x40)], [Field(|data|, 0x40)];
    PrefixSize(p[0], p[1]);
    SingleSize(q[0]);
    EachSize(data, 8);
    ConcatSize(p, q);
    ConcatSize(p + q, Each(data, 8));
    assert p + q == [Field(id, 0x40), Field(alg, 0x40), Field(|data|, 0x40)];
  }

  /** The lengths the writers compute before they ask for space. */
  lemma BodySizes(b: Block)
    ensures b.Version? ==> |Body(b)| == 0x20
    ensures b.FileInfo? ==> |Body(b)| == 0x40 + 8 * |b.path| + 0x42 + 0x40 * |b.blobIds|
    ensures b.MstateAux? ==> |Body(b)| == 0x48 + 0x40 + 8 * |b.path|
    ensures b.Blob? ==> |Body(b)| == 0x140 + 8 * |b.header| + 8 * |b.data|
    ensures b.Mstate? ==> |Body(b)| == 0xC0 + 8 * |b.state|
  {
    hide FieldBits, BitsOf;
    match b
    case Version(v) => PrefixSize(Field(0, 8), Field(v, 0x18));
    case FileInfo(path, ids) => FileInfoSize(path, ids);
    case MstateAux(path, id) => MstateAuxSize(path, id);
    case Blob(id, header, oSize, mstateId, data) => BlobSize(id, header, oSize, mstateId, data);
    case Mstate(id, alg, data) => MstateSize(id, alg, data);
    case Empty(_) =>
  }

  // ----- Where the fields stand -----

  /** The bits of width w at offset o of an encoding read as v. */
  ghost predicate FieldAt(e: seq<bool>, o: nat, w: nat, v: nat) {
    o + w <= |e| && ValueOf(e[o..o + w]) == v
  }

  lemma SizeStep(fs: seq<Field>, k: nat)
    requires k < |fs|
    ensures |FieldBits(fs[..k + 1])| == |FieldBits(fs[..k])| + fs[k].width
  {
    assert fs[..k + 1][..k] == fs[..k];
  }

  /** n fields of one width take n times that width. */
  lemma {:induction false} RunSize(fs: seq<Field>, k: nat, n: nat, w: nat)
    requires k + n <= |fs| && forall i :: k <= i < k + n ==> fs[i].width == w
    ensures |FieldBits(fs[..k + n])| == |FieldBits(fs[..k])| + n * w
  {
    hide FieldBits;
    if n == 0 {
    } else {
      RunSize(fs, k, n - 1, w);
      SizeStep(fs, k + n - 1);
      assert n * w == (n - 1) * w + w;
    }
  }

  /** Field k of a block stands behind the header and the fields before it. */
  lemma BodyFieldAt(b: Block, k: nat)
    requires Storable(b) && !b.Empty? && k < |BodyFields(b)|
    ensures var fs := BodyFields(b);
            FieldAt(Encode(b), 0x48 + |FieldBits(fs[..k])|, fs[k].width, fs[k].value)
  {
    hide FieldBits, BitsOf, BodyFields, ValueOf, Pow2;
    var fs := BodyFields(b);
    var x, y, z := FieldBits(fs[..k]), BitsOf(fs[k].value, fs[k].width), FieldBits(fs[k + 1..]);
    assert fs[..k] + fs[k..] == fs && fs[k..][0] == fs[k] && fs[k..][1..] == fs[k + 1..];
    FieldBitsConcat(fs[..k], fs[k..]);
    FieldBitsHead(fs[k..]);
    assert Narrow(fs[k]);
    ValueOfBits(fs[k].value, fs[k].width);
    var head, e := FieldBits(Prefix(b)), Encode(b);
    PrefixSize(Field(Marker(b), 8), Field(|Body(b)|, 0x40));
    assert e == head + (x + (y + z)) && |head| == 0x48;
    assert e[0x48 + |x|..0x48 + |x| + |y|] == y;
  }

  lemma HeaderAt(b: Block)
    requires Storable(b)
    ensures FieldAt(Encode(b), 0, 8, Marker(b)) && FieldAt(Encode(b), 8, 0x40, |Body(b)|)
  {
    hide FieldBits, BitsOf, Body, ValueOf, Pow2;
    Pow2Values();
    PrefixSize(Field(Marker(b), 8), Field(|Body(b)|, 0x40));
    ValueOfBits(Marker(b), 8);
    ValueOfBits(|Body(b)|, 0x40);
    var x, y := BitsOf(Marker(b), 8), BitsOf(|Body(b)|, 0x40);
    assert Encode(b) == x + y + Body(b);
    assert Encode(b)[0..8] == x && Encode(b)[8..0x48] == y;
  }

  lemma BlobFront(b: Block)
    requires b.Blob? && Storable(b)
    ensures |FieldBits(BodyFields(b)[..2 + |b.header|])| == 0x80 + 8 * |b.header|
    ensures var e := Encode(b);
            && FieldAt(e, 0, 8, 2) && FieldAt(e, 8, 0x40, |Body(b)|)
            && FieldAt(e, 0x48, 0x40, b.id) && FieldAt(e, 0x88, 0x40, |b.header|)
            && forall i: nat :: i < |b.header| ==> FieldAt(e, 0xC8 + 8 * i, 8, b.header[i])
  {
    hide FieldBits, Encode, Storable, FieldAt, Body;
    var fs := BodyFields(b);
    FieldBitsNone();
    assert fs[..0] == [];
    HeaderAt(b);
    BodyFieldAt(b, 0);
    SizeStep(fs, 0);
    BodyFieldAt(b, 1);
    SizeStep(fs, 1);
    forall i: nat | i < |b.header| ensures FieldAt(Encode(b), 0xC8 + 8 * i, 8, b.header[i]) {
      RunSize(fs, 2, i, 8);
      BodyFieldAt(b, 2 + i);
    }
    RunSize(fs, 2, |b.header|, 8);
  }

  /** A blob block: marker 2, length, id, header length, header, original size, model state, data
      length, data. */
  lemma BlobLayout(b: Block)
    requires b.Blob? && Storable(b)
    ensures var e, p := Encode(b), 0xC8 + 8 * |b.header|;
            && FieldAt(e, 0, 8, 2) && FieldAt(e, 8, 0x40, |Body(b)|)
            && FieldAt(e, 0x48, 0x40, b.id) && FieldAt(e, 0x88, 0x40, |b.header|)
            && (forall i: nat :: i < |b.header| ==> FieldAt(e, 0xC8 + 8 * i, 8, b.header[i]))
            && FieldAt(e, p, 0x40, b.oSize) && FieldAt(e, p + 0x40, 0x40, b.mstateId)
            && FieldAt(e, p + 0x80, 0x40, |b.data|)
            && (forall i: nat :: i < |b.data| ==> FieldAt(e, p + 0xC0 + 8 * i, 8, b.data[i]))
  {
    hide FieldBits, Encode, Storable, FieldAt, Body;
    var fs, h := BodyFields(b), |b.header|;
    BlobFront(b);
    BodyFieldAt(b, 2 + h);
    SizeStep(fs, 2 + h);
    BodyFieldAt(b, 3 + h);
    SizeStep(fs, 3 + h);
    BodyFieldAt(b, 4 + h);
    SizeStep(fs, 4 + h);
    forall i: nat | i < |b.data| ensures FieldAt(Encode(b), 0xC8 + 8 * h + 0xC0 + 8 * i, 8, b.data[i]) {
      RunSize(fs, 5 + h, i, 8);
      BodyFieldAt(b, 5 + h + i);
    }
  }

  /** A model-state block: marker 3, length, id, algorithm, data length, data. */
  lemma MstateLayout(b: Block)
    requires b.Mstate? && Storable(b)
    ensures var e := Encode(b);
            && FieldAt(e, 0, 8, 3) && FieldAt(e, 8, 0x40, |Body(b)|)
            && FieldAt(e, 0x48, 0x40, b.id) && FieldAt(e, 0x88, 0x40, b.alg) && FieldAt(e, 0xC8, 0x40, |b.state|)
            && forall i: nat :: i < |b.state| ==> FieldAt(e, 0x108 + 8 * i, 8, b.state[i])
  {
    hide FieldBits, Encode, Storable, FieldAt, Body;
    var fs := BodyFields(b);
    FieldBitsNone();
    assert fs[..0] == [];
    HeaderAt(b);
    BodyFieldAt(b, 0);
    SizeStep(fs, 0);
    BodyFieldAt(b, 1);
    SizeStep(fs, 1);
    BodyFieldAt(b, 2);
    SizeStep(fs, 2);
    forall i: nat | i < |b.state| ensures FieldAt(Encode(b), 0x108 + 8 * i, 8, b.state[i]) {
      RunSize(fs, 3, i, 8);
      BodyFieldAt(b, 3 + i);
    }
  }

  /** A version block: marker 1, length, entry type 0, the version in 24 bits. */
  lemma VersionLayout(b: Block)
    requires b.Version? && Storable(b)
    ensures var e := Encode(b);
            && FieldAt(e, 0, 8, 1) && FieldAt(e, 8, 0x40, |Body(b)|)
            && FieldAt(e, 0x48, 8, 0) && FieldAt(e, 0x50, 0x18, b.version)
  {
    hide FieldBits, Encode, Storable, FieldAt, Body;
    FieldBitsNone();
    assert BodyFields(b)[..0] == [];
    HeaderAt(b);
    BodyFieldAt(b, 0);
    SizeStep(BodyFields(b), 0);
    BodyFieldAt(b, 1);
  }

  /** A file block: marker 1, length, entry type 1, path length, path, the number of blobs in 58 bits,
      their ids. */
  lemma FileInfoLayout(b: Block)
    requires b.FileInfo? && Storable(b)
    ensures var e, p := Encode(b), 0x90 + 8 * |b.path|;
            && FieldAt(e, 0, 8, 1) && FieldAt(e, 8, 0x40, |Body(b)|)
            && FieldAt(e, 0x48, 8, 1) && FieldAt(e, 0x50, 0x40, |b.path|)
            && (forall i: nat :: i < |b.path| ==> FieldAt(e, 0x90 + 8 * i, 8, b.path[i]))
            && FieldAt(e, p, 0x3A, |b.blobIds|)
            && forall i: nat :: i < |b.blobIds| ==> FieldAt(e, p + 0x3A + 0x40 * i, 0x40, b.blobIds[i])
  {
    hide FieldBits, Encode, Storable, FieldAt, Body;
    var fs, n := BodyFields(b), |b.path|;
    PathLayout(b);
    RunSize(fs, 2, n, 8);
    BodyFieldAt(b, 2 + n);
    SizeStep(fs, 2 + n);
    forall i: nat | i < |b.blobIds| ensures FieldAt(Encode(b), 0x90 + 8 * n + 0x3A + 0x40 * i, 0x40, b.blobIds[i]) {
      RunSize(fs, 3 + n, i, 0x40);
      BodyFieldAt(b, 3 + n + i);
    }
  }

  /** A name block: marker 1, length, entry type 2, path length, path, the model state's id. */
  lemma MstateAuxLayout(b: Block)
    requires b.MstateAux? && Storable(b)
    ensures var e := Encode(b);
            && FieldAt(e, 0, 8, 1) && FieldAt(e, 8, 0x40, |Body(b)|)
            && FieldAt(e, 0x48, 8, 2) && FieldAt(e, 0x50, 0x40, |b.path|)
            && (forall i: nat :: i < |b.path| ==> FieldAt(e, 0x90 + 8 * i, 8, b.path[i]))
            && FieldAt(e, 0x90 + 8 * |b.path|, 0x40, b.mstate)
  {
    hide FieldBits, Encode, Storable, FieldAt, Body;
    var fs, n := BodyFields(b), |b.path|;
    PathLayout(b);
    RunSize(fs, 2, n, 8);
    BodyFieldAt(b, 2 + n);
  }

  /** The fields up to the path, in both kinds of blocks that begin with one. */
  lemma PathLayout(b: Block)
    requires (b.FileInfo? || b.MstateAux?) && Storable(b)
    ensures |FieldBits(BodyFields(b)[..2])| == 0x48
    ensures var e := Encode(b);
            && FieldAt(e, 0, 8, 1) && FieldAt(e, 8, 0x40, |Body(b)|)
            && FieldAt(e, 0x48, 8, if b.FileInfo? then 1 else 2) && FieldAt(e, 0x50, 0x40, |b.path|)
            && forall i: nat :: i < |b.path| ==> FieldAt(e, 0x90 + 8 * i, 8, b.path[i])
  {
    hide FieldBits, Encode, Storable, FieldAt, Body;
    var fs := BodyFields(b);
    FieldBitsNone();
    assert fs[..0] == [];
    HeaderAt(b);
    BodyFieldAt(b, 0);
    SizeStep(fs, 0);
    BodyFieldAt(b, 1);
    SizeStep(fs, 1);
    forall i: nat | i < |b.path| ensures FieldAt(Encode(b), 0x90 + 8 * i, 8, b.path[i]) {
      RunSize(fs, 2, i, 8);
      BodyFieldAt(b, 2 + i);
    }
  }

  // ----- Tilings -----

  type Blocks = map<nat, Block>

  ghost function EndOf(blocks: Blocks, o: nat): nat
    requires o in blocks
  {
    o + Size(blocks[o])
  }

  /** The block at o ends where another one starts, or at the end of the file. */
  ghost predicate Adjoins(blocks: Blocks, eof: nat, o: nat)
    requires o in blocks
  {
    EndOf(blocks, o) <= eof && (EndOf(blocks, o) in blocks || EndOf(blocks, o) == eof)
  }

  ghost predicate Apart(blocks: Blocks, o: nat, p: nat)
    requires o in blocks
  {
    EndOf(blocks, o) <= p
  }

  /** The blocks lie end to end from 0 to eof: no gap, no overlap. */
  ghost predicate Tiled(blocks: Blocks, eof: nat) {
    && (0 in blocks || eof == 0)
    && (forall o {:trigger Adjoins(blocks, eof, o)} :: o in blocks ==> Adjoins(blocks, eof, o))
    && (forall o, p {:trigger Apart(blocks, o, p)} :: o in blocks && p in blocks && o < p ==> Apart(blocks, o, p))
  }

  ghost predicate Covers(blocks: Blocks, o: nat, i: nat) {
    o in blocks && o <= i < EndOf(blocks, o)
  }

  lemma {:induction false} CoverFrom(blocks: Blocks, eof: nat, o: nat, i: nat)
    requires Tiled(blocks, eof) && o in blocks && o <= i < eof
    ensures exists p :: Covers(blocks, p, i)
    decreases eof - o
  {
    assert Adjoins(blocks, eof, o);
    if i < EndOf(blocks, o) {
      assert Covers(blocks, o, i);
    } else {
      CoverFrom(blocks, eof, EndOf(blocks, o), i);
    }
  }

  lemma TileOrder(blocks: Blocks, eof: nat, o: nat, p: nat)
    requires Tiled(blocks, eof) && o in blocks && p in blocks
    ensures o < p ==> EndOf(blocks, o) <= p
    ensures p < o ==> EndOf(blocks, p) <= o
  {
    if o < p { assert Apart(blocks, o, p); }
    if p < o { assert Apart(blocks, p, o); }
  }

  /** Every bit below eof belongs to exactly one block. */
  lemma ExactPartition(blocks: Blocks, eof: nat, i: nat)
    requires Tiled(blocks, eof) && i < eof
    ensures exists o :: Covers(blocks, o, i)
    ensures forall o, p :: Covers(blocks, o, i) && Covers(blocks, p, i) ==> o == p
  {
    CoverFrom(blocks, eof, 0, i);
    forall o, p | Covers(blocks, o, i) && Covers(blocks, p, i) ensures o == p {
      TileOrder(blocks, eof, o, p);
    }
  }

  lemma NothingAtEnd(blocks: Blocks, eof: nat)
    requires Tiled(blocks, eof)
    ensures forall o :: o in blocks ==> o < eof
  {
    forall o | o in blocks ensures o < eof { assert Adjoins(blocks, eof, o); }
  }

  lemma NothingInside(blocks: Blocks, eof: nat, o: nat, q: nat)
    requires Tiled(blocks, eof) && o in blocks && o < q < EndOf(blocks, o)
    ensures q !in blocks
  {
    if q in blocks { TileOrder(blocks, eof, o, q); }
  }

  lemma TiledAppend(blocks: Blocks, eof: nat, b: Block)
    requires Tiled(blocks, eof)
    ensures Tiled(blocks[eof := b], eof + Size(b)) && eof !in blocks
  {
    NothingAtEnd(blocks, eof);
    hide Size;
    var after := blocks[eof := b];
    forall o | o in after ensures Adjoins(after, eof + Size(b), o) {
      if o != eof { assert Adjoins(blocks, eof, o) && EndOf(after, o) == EndOf(blocks, o); }
    }
    forall o, p | o in after && p in after && o < p ensures Apart(after, o, p) {
      if p == eof { assert Adjoins(blocks, eof, o); } else { assert Apart(blocks, o, p); }
    }
  }

  lemma TiledReplace(blocks: Blocks, eof: nat, o: nat, b: Block)
    requires Tiled(blocks, eof) && o in blocks && Size(b) == Size(blocks[o])
    ensures Tiled(blocks[o := b], eof)
  {
    hide Size;
    var after := blocks[o := b];
    forall q | q in after ensures Adjoins(after, eof, q) { assert Adjoins(blocks, eof, q); }
    forall q, r | q in after && r in after && q < r ensures Apart(after, q, r) { assert Apart(blocks, q, r); }
  }

  /** A block at o gives way to one that ends at m and the rest behind it. */
  ghost function SplitAt(blocks: Blocks, o: nat, m: nat, b: Block, rest: Block): Blocks {
    blocks[o := b][m := rest]
  }

  lemma TiledSplit(blocks: Blocks, eof: nat, o: nat, m: nat, b: Block, rest: Block)
    requires Tiled(blocks, eof) && o in blocks && m == o + Size(b) && m + Size(rest) == EndOf(blocks, o)
    ensures Tiled(SplitAt(blocks, o, m, b, rest), eof)
    ensures m !in blocks
  {
    hide Size, Tiled, Adjoins, Apart;
    var after := SplitAt(blocks, o, m, b, rest);
    NothingInside(blocks, eof, o, m);
    assert after.Keys == blocks.Keys + {m};
    assert EndOf(after, o) == m && EndOf(after, m) == EndOf(blocks, o);
    assert forall k {:trigger EndOf(after, k)} :: k in blocks && k != o ==>
           k in after && EndOf(after, k) == EndOf(blocks, k);
    SplitTiled(blocks, eof, o, m, after);
  }

  lemma SplitTiled(blocks: Blocks, eof: nat, o: nat, m: nat, after: Blocks)
    requires Tiled(blocks, eof) && o in blocks && o < m < EndOf(blocks, o) && m in after &&
             after.Keys == blocks.Keys + {m}
    requires o in after && EndOf(after, o) == m && EndOf(after, m) == EndOf(blocks, o)
    requires forall k {:trigger EndOf(after, k)} :: k in blocks && k != o ==>
             k in after && EndOf(after, k) == EndOf(blocks, k)
    ensures Tiled(after, eof)
  {
    hide EndOf;
    forall q | q in after ensures Adjoins(after, eof, q) {
      assert Adjoins(blocks, eof, if q == m then o else q);
      assert Adjoins(blocks, eof, o);
      NothingInside(blocks, eof, o, m);
    }
    forall q, r | q in after && r in after && q < r ensures Apart(after, q, r) {
      SplitOrder(blocks, eof, o, m, after, q, r);
    }
  }

  lemma SplitOrder(blocks: Blocks, eof: nat, o: nat, m: nat, after: Blocks, q: nat, r: nat)
    requires Tiled(blocks, eof) && o in blocks && o < m < EndOf(blocks, o) && m in after &&
             after.Keys == blocks.Keys + {m}
    requires q in after && r in after && q < r
    requires o in after && EndOf(after, o) == m && EndOf(after, m) == EndOf(blocks, o)
    requires forall k {:trigger EndOf(after, k)} :: k in blocks && k != o ==>
             k in after && EndOf(after, k) == EndOf(blocks, k)
    ensures EndOf(after, q) <= r
  {
    hide Tiled, EndOf;
    NothingInside(blocks, eof, o, m);
    TileOrder(blocks, eof, if q == m then o else q, if r == m then o else r);
    if q != m && q != o && r == m { BesideBlock(blocks, eof, o, q); }
  }

  lemma BesideBlock(blocks: Blocks, eof: nat, o: nat, q: nat)
    requires Tiled(blocks, eof) && o in blocks && q in blocks
    ensures q <= o || EndOf(blocks, o) <= q
  {
    TileOrder(blocks, eof, o, q);
  }
}
