/** Writing and reading blocks field by field through the stream. */
module ArchiveFields {
  import opened Words
  import opened Bits
  import opened ArchiveLayout
  import opened ArchiveImage

  // ----- Writing -----

  /** Since position p0 of image b0 the fields fs have been written. */
  ghost predicate Written(s: BitStream, b0: seq<bool>, p0: nat, fs: seq<Field>)
    reads s
  {
    p0 <= |b0| && s.bits == Overwrite(b0, p0, FieldBits(fs)) && s.pos == p0 + |FieldBits(fs)| <= |s.bits|
  }

  method StartWriting(s: BitStream, p: nat)
    requires p <= |s.bits|
    modifies s`pos
    ensures Written(s, s.bits, p, [])
  {
    s.SeekTo(p);
    FieldBitsNone();
  }

  method WriteField(s: BitStream, v: nat, width: nat, ghost b0: seq<bool>, ghost p0: nat, ghost fs: seq<Field>)
    requires Written(s, b0, p0, fs)
    modifies s
    ensures Written(s, b0, p0, fs + [Field(v, width)])
  {
    hide Overwrite, FieldBits, BitsOf;
    FieldBitsSnoc(fs, Field(v, width));
    OverwriteConcat(b0, p0, FieldBits(fs), BitsOf(v, width));
    OverwriteConcat(b0, p0, FieldBits(fs) + BitsOf(v, width), []);
    s.Write(v, width);
  }

  method WriteEach(s: BitStream, vs: seq<nat>, width: nat, ghost b0: seq<bool>, ghost p0: nat, ghost fs: seq<Field>)
    requires Written(s, b0, p0, fs)
    modifies s
    ensures Written(s, b0, p0, fs + Each(vs, width))
  {
    hide Written;
    assert fs + Each(vs[..0], width) == fs && vs[..|vs|] == vs;
    for i := 0 to |vs|
      invariant Written(s, b0, p0, fs + Each(vs[..i], width))
    {
      WriteField(s, vs[i], width, b0, p0, fs + Each(vs[..i], width));
      assert fs + Each(vs[..i], width) + [Field(vs[i], width)] == fs + Each(vs[..i + 1], width);
    }
  }

  /** Prefix and body together are the whole block. */
  lemma WholeBlock(b: Block)
    requires !b.Empty?
    ensures FieldBits(Prefix(b) + BodyFields(b)) == Encode(b)
  {
    FieldBitsConcat(Prefix(b), BodyFields(b));
  }

  method WritePrefix(s: BitStream, p: nat, length: nat, ghost b: Block, marker: nat)
    requires p <= |s.bits| && !b.Empty? && marker == Marker(b) && length == |Body(b)|
    modifies s
    ensures Written(s, old(s.bits), p, Prefix(b))
  {
    hide Written, Body, Marker;
    ghost var b0 := s.bits;
    StartWriting(s, p);
    WriteField(s, marker, 8, b0, p, []);
    WriteField(s, length, 0x40, b0, p, [] + [Field(marker, 8)]);
    assert [] + [Field(marker, 8)] + [Field(length, 0x40)] == Prefix(b);
  }

  lemma WrittenBlock(s: BitStream, b0: seq<bool>, p0: nat, b: Block, fs: seq<Field>)
    requires !b.Empty? && fs == Prefix(b) + BodyFields(b) && Written(s, b0, p0, fs)
    ensures p0 <= |b0| && s.bits == Overwrite(b0, p0, Encode(b)) && s.pos == p0 + |Encode(b)|
  {
    WholeBlock(b);
  }

  method WriteFileInfo(s: BitStream, p: nat, length: nat, path: Path, ids: seq<nat>)
    requires p <= |s.bits| && length == |Body(FileInfo(path, ids))|
    modifies s
    ensures s.bits == Overwrite(old(s.bits), p, Encode(FileInfo(path, ids)))
  {
    hide Written, Encode, Body, Prefix, Overwrite, FieldBits;
    ghost var b, b0 := FileInfo(path, ids), s.bits;
    ghost var fs := Prefix(b);
    WritePrefix(s, p, length, b, METADATA);
    WriteField(s, 1, 8, b0, p, fs);
    WriteField(s, |path|, 0x40, b0, p, fs + [Field(1, 8)]);
    ghost var gs := fs + [Field(1, 8)] + [Field(|path|, 0x40)];
    WriteEach(s, path, 8, b0, p, gs);
    WriteField(s, |ids|, 0x3A, b0, p, gs + Each(path, 8));
    WriteEach(s, ids, 0x40, b0, p, gs + Each(path, 8) + [Field(|ids|, 0x3A)]);
    assert gs + Each(path, 8) + [Field(|ids|, 0x3A)] + Each(ids, 0x40) == fs + BodyFields(b);
    WrittenBlock(s, b0, p, b, fs + BodyFields(b));
  }

  method WriteMstateAux(s: BitStream, p: nat, length: nat, path: Path, id: nat)
    requires p <= |s.bits| && length == |Body(MstateAux(path, id))|
    modifies s
    ensures s.bits == Overwrite(old(s.bits), p, Encode(MstateAux(path, id)))
  {
    hide Written, Encode, Body, Prefix, Overwrite, FieldBits;
    ghost var b, b0 := MstateAux(path, id), s.bits;
    ghost var fs := Prefix(b);
    WritePrefix(s, p, length, b, METADATA);
    WriteField(s, 2, 8, b0, p, fs);
    WriteField(s, |path|, 0x40, b0, p, fs + [Field(2, 8)]);
    ghost var gs := fs + [Field(2, 8)] + [Field(|path|, 0x40)];
    WriteEach(s, path, 8, b0, p, gs);
    WriteField(s, id, 0x40, b0, p, gs + Each(path, 8));
    assert gs + Each(path, 8) + [Field(id, 0x40)] == fs + BodyFields(b);
    WrittenBlock(s, b0, p, b, fs + BodyFields(b));
  }

  method WriteBlobBlock(s: BitStream, p: nat, length: nat, id: nat, header: seq<nat>, oSize: nat, mstateId: nat,
      data: seq<nat>)
    requires p <= |s.bits| && length == |Body(Blob(id, header, oSize, mstateId, data))|
    modifies s
    ensures s.bits == Overwrite(old(s.bits), p, Encode(Blob(id, header, oSize, mstateId, data)))
  {
    hide Written, Encode, Body, Prefix, Overwrite, FieldBits;
    ghost var b, b0 := Blob(id, header, oSize, mstateId, data), s.bits;
    ghost var fs := Prefix(b);
    WritePrefix(s, p, length, b, BLOB);
    WriteField(s, id, 0x40, b0, p, fs);
    WriteField(s, |header|, 0x40, b0, p, fs + [Field(id, 0x40)]);
    ghost var gs := fs + [Field(id, 0x40)] + [Field(|header|, 0x40)];
    WriteEach(s, header, 8, b0, p, gs);
    gs := gs + Each(header, 8);
    WriteField(s, oSize, 0x40, b0, p, gs);
    WriteField(s, mstateId, 0x40, b0, p, gs + [Field(oSize, 0x40)]);
    WriteField(s, |data|, 0x40, b0, p, gs + [Field(oSize, 0x40)] + [Field(mstateId, 0x40)]);
    gs := gs + [Field(oSize, 0x40)] + [Field(mstateId, 0x40)] + [Field(|data|, 0x40)];
    WriteEach(s, data, 8, b0, p, gs);
    assert gs + Each(data, 8) == fs + BodyFields(b);
    WrittenBlock(s, b0, p, b, fs + BodyFields(b));
  }

  method WriteMstateBlock(s: BitStream, p: nat, length: nat, id: nat, alg: nat, state: seq<nat>)
    requires p <= |s.bits| && length == |Body(Mstate(id, alg, state))|
    modifies s
    ensures s.bits == Overwrite(old(s.bits), p, Encode(Mstate(id, alg, state)))
  {
    hide Written, Encode, Body, Prefix, Overwrite, FieldBits;
    ghost var b, b0 := Mstate(id, alg, state), s.bits;
    ghost var fs := Prefix(b);
    WritePrefix(s, p, length, b, MSTATE);
    WriteField(s, id, 0x40, b0, p, fs);
    WriteField(s, alg, 0x40, b0, p, fs + [Field(id, 0x40)]);
    WriteField(s, |state|, 0x40, b0, p, fs + [Field(id, 0x40)] + [Field(alg, 0x40)]);
    ghost var gs := fs + [Field(id, 0x40)] + [Field(alg, 0x40)] + [Field(|state|, 0x40)];
    WriteEach(s, state, 8, b0, p, gs);
    assert gs + Each(state, 8) == fs + BodyFields(b);
    WrittenBlock(s, b0, p, b, fs + BodyFields(b));
  }

  /** The EMPTY marker and length of a fragment's remainder. */
  method WriteEmptyHeader(s: BitStream, p: nat, length: nat)
    requires p <= |s.bits|
    modifies s
    ensures s.bits == Overwrite(old(s.bits), p, EmptyHeader(length))
  {
    hide Overwrite, FieldBits;
    ghost var b0 := s.bits;
    StartWriting(s, p);
    WriteField(s, EMPTY, 8, b0, p, []);
    WriteField(s, length, 0x40, b0, p, [] + [Field(EMPTY, 8)]);
    assert [] + [Field(EMPTY, 8)] + [Field(length, 0x40)] == [Field(EMPTY, 8), Field(length, 0x40)];
  }

  // ----- Reading -----

  /** The stream stands before the fields fs, which reach up to `end`. */
  ghost predicate Reading(s: BitStream, end: nat, fs: seq<Field>)
    reads s
  {
    s.pos + |FieldBits(fs)| == end <= |s.bits| && s.bits[s.pos..end] == FieldBits(fs) && AllNarrow(fs)
  }

  method ReadField(s: BitStream, width: nat, ghost end: nat, ghost fs: seq<Field>) returns (v: nat)
    requires Reading(s, end, fs) && fs != [] && fs[0].width == width
    modifies s`pos
    ensures v == fs[0].value && Reading(s, end, fs[1..]) && s.pos == old(s.pos) + width
  {
    hide FieldBits, BitsOf, ValueOf, Pow2;
    FieldBitsHead(fs);
    assert Narrow(fs[0]);
    ValueOfBits(fs[0].value, width);
    ghost var rest := s.bits[s.pos..end];
    assert s.bits[s.pos..s.pos + width] == rest[..width] == BitsOf(fs[0].value, width);
    assert s.bits[s.pos + width..end] == rest[width..] == FieldBits(fs[1..]);
    v := s.Read(width);
  }

  method SkipField(s: BitStream, width: nat, ghost end: nat, ghost fs: seq<Field>)
    requires Reading(s, end, fs) && fs != [] && fs[0].width == width
    modifies s`pos
    ensures Reading(s, end, fs[1..])
  {
    hide FieldBits, BitsOf;
    FieldBitsHead(fs);
    ghost var rest := s.bits[s.pos..end];
    assert s.bits[s.pos + width..end] == rest[width..] == FieldBits(fs[1..]);
    s.Seek(width);
  }

  method ReadEach(s: BitStream, n: nat, width: nat, ghost end: nat, ghost vs: seq<nat>, ghost rest: seq<Field>)
    returns (r: seq<nat>)
    requires Reading(s, end, Each(vs, width) + rest) && n == |vs|
    modifies s`pos
    ensures r == vs && Reading(s, end, rest)
  {
    hide Reading;
    r := [];
    assert vs[0..] == vs && Each([], width) + rest == rest && vs[n..] == [];
    for i := 0 to n
      invariant r == vs[..i] && Reading(s, end, Each(vs[i..], width) + rest)
    {
      ghost var fs := Each(vs[i..], width) + rest;
      assert fs[1..] == Each(vs[i + 1..], width) + rest;
      var v := ReadField(s, width, end, fs);
      r := r + [v];
    }
  }

  /** Positions the stream behind a block's marker and length, before its body fields. */
  method StartReading(s: BitStream, o: nat, ghost b: Block)
    requires HoldsAt(s.bits, o, Encode(b)) && !b.Empty? && AllNarrow(BodyFields(b))
    modifies s`pos
    ensures Reading(s, o + Size(b), BodyFields(b)) && s.pos == o + 0x48
  {
    hide FieldBits, BodyFields, BitsOf, Narrow;
    s.SeekTo(o);
    s.Seek(0x48);
    PrefixSize(Field(Marker(b), 8), Field(|Body(b)|, 0x40));
    HoldsSuffix(s.bits, o, Encode(b), 0x48);
    assert Encode(b)[0x48..] == Body(b);
  }

  /** Reads the length that follows a marker. */
  method ReadLength(s: BitStream, ghost o: nat, ghost b: Block) returns (length: nat)
    requires HoldsAt(s.bits, o, BitsOf(Marker(b), 8) + Unmarked(b)) && s.pos == o + 8 && |Body(b)| < TWO_64
    modifies s`pos
    ensures length == |Body(b)| && s.pos == o + 0x48
  {
    hide Body, BitsOf, ValueOf, Pow2;
    Pow2Values();
    ValueOfBits(|Body(b)|, 0x40);
    ghost var e := BitsOf(Marker(b), 8) + Unmarked(b);
    HoldsSuffix(s.bits, o, e, 8);
    assert e[8..] == BitsOf(|Body(b)|, 0x40) + Body(b);
    assert s.bits[s.pos..s.pos + 0x40] == s.bits[s.pos..o + |e|][..0x40];
    length := s.Read(0x40);
  }

  /** The fields of a block's body, read from behind its length. */
  lemma BodyReading(s: BitStream, o: nat, marker: nat, b: Block)
    requires HoldsAt(s.bits, o, BitsOf(marker, 8) + Unmarked(b)) && s.pos == o + 0x48 && Storable(b) && !b.Empty?
    ensures Reading(s, o + Size(b), BodyFields(b))
  {
    hide FieldBits, BodyFields, BitsOf, Narrow;
    var e := BitsOf(marker, 8) + Unmarked(b);
    HoldsSuffix(s.bits, o, e, 0x48);
    assert e[0x48..] == Body(b);
  }

  /** The stream stands behind a block's length. */
  ghost predicate AtBody(s: BitStream, o: nat, b: Block)
    reads s
  {
    !b.Empty? && Reading(s, o + Size(b), BodyFields(b)) && s.pos == o + 0x48
  }

  method ReadBlobBody(s: BitStream, ghost o: nat, ghost b: Block)
    returns (header: seq<nat>, oSize: nat, mstateId: nat, data: seq<nat>)
    requires b.Blob? && AtBody(s, o, b)
    modifies s`pos
    ensures b == Blob(b.id, header, oSize, mstateId, data)
  {
    hide Reading, Size;
    ghost var end := o + Size(b);
    ghost var tail := [Field(b.oSize, 0x40), Field(b.mstateId, 0x40), Field(|b.data|, 0x40)] + Each(b.data, 8);
    ghost var fs := [Field(b.id, 0x40), Field(|b.header|, 0x40)] + (Each(b.header, 8) + tail);
    assert BodyFields(b) == fs;
    SkipField(s, 0x40, end, fs);
    var n := ReadField(s, 0x40, end, fs[1..]);
    assert fs[1..][1..] == Each(b.header, 8) + tail;
    header := ReadEach(s, n, 8, end, b.header, tail);
    oSize := ReadField(s, 0x40, end, tail);
    mstateId := ReadField(s, 0x40, end, tail[1..]);
    n := ReadField(s, 0x40, end, tail[1..][1..]);
    assert tail[1..][1..][1..] == Each(b.data, 8) + [];
    data := ReadEach(s, n, 8, end, b.data, []);
  }

  /** The model state a blob depends on, found behind its header. */
  method ReadDependency(s: BitStream, ghost o: nat, ghost b: Block) returns (mstateId: nat)
    requires b.Blob? && AtBody(s, o, b)
    modifies s`pos
    ensures mstateId == b.mstateId
  {
    hide Reading, Size;
    ghost var end := o + Size(b);
    ghost var tail := [Field(b.oSize, 0x40), Field(b.mstateId, 0x40), Field(|b.data|, 0x40)] + Each(b.data, 8);
    ghost var fs := [Field(b.id, 0x40), Field(|b.header|, 0x40)] + (Each(b.header, 8) + tail);
    assert BodyFields(b) == fs;
    SkipField(s, 0x40, end, fs);
    var n := ReadField(s, 0x40, end, fs[1..]);
    assert fs[1..][1..] == Each(b.header, 8) + tail;
    SkipEach(s, n, 8, end, b.header, tail);
    SkipField(s, 0x40, end, tail);
    mstateId := ReadField(s, 0x40, end, tail[1..]);
  }

  /** Skips n fields of the given width in one seek. */
  method SkipEach(s: BitStream, n: nat, width: nat, ghost end: nat, ghost vs: seq<nat>, ghost rest: seq<Field>)
    requires Reading(s, end, Each(vs, width) + rest) && n == |vs|
    modifies s`pos
    ensures Reading(s, end, rest)
  {
    hide FieldBits, BitsOf, Narrow, Each;
    FieldBitsConcat(Each(vs, width), rest);
    EachSize(vs, width);
    ghost var all := s.bits[s.pos..end];
    ghost var k := n * width;
    assert s.bits[s.pos + k..end] == all[k..] == FieldBits(rest);
    assert forall i :: 0 <= i < |rest| ==> rest[i] == (Each(vs, width) + rest)[|vs| + i];
    s.Seek(n * width);
  }

  method ReadMstateBody(s: BitStream, ghost o: nat, ghost b: Block) returns (alg: nat, state: seq<nat>)
    requires b.Mstate? && AtBody(s, o, b)
    modifies s`pos
    ensures b == Mstate(b.id, alg, state)
  {
    hide Reading, Size;
    ghost var end := o + Size(b);
    ghost var fs := [Field(b.id, 0x40), Field(b.alg, 0x40), Field(|b.state|, 0x40)] + Each(b.state, 8);
    assert BodyFields(b) == fs;
    SkipField(s, 0x40, end, fs);
    alg := ReadField(s, 0x40, end, fs[1..]);
    var n := ReadField(s, 0x40, end, fs[1..][1..]);
    assert fs[1..][1..][1..] == Each(b.state, 8) + [];
    state := ReadEach(s, n, 8, end, b.state, []);
  }
}
