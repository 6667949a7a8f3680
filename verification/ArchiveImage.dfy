/** Blocks in the bit image: what overwriting does to them, and the field-wise writers and readers. */
module ArchiveImage {
  import opened Words
  import opened Bits
  import opened ArchiveLayout

  ghost predicate HoldsAt(bits: seq<bool>, o: nat, e: seq<bool>) {
    o + |e| <= |bits| && bits[o..o + |e|] == e
  }

  lemma OverwriteHolds(bits: seq<bool>, p: nat, c: seq<bool>)
    requires p <= |bits|
    ensures HoldsAt(Overwrite(bits, p, c), p, c)
  {
  }

  lemma OverwriteKeeps(bits: seq<bool>, p: nat, c: seq<bool>, o: nat, e: seq<bool>)
    requires p <= |bits| && HoldsAt(bits, o, e) && (o + |e| <= p || p + |c| <= o)
    ensures HoldsAt(Overwrite(bits, p, c), o, e)
  {
    var r := Overwrite(bits, p, c);
    forall i | 0 <= i < |e| ensures r[o + i] == e[i] {
      assert bits[o..o + |e|][i] == e[i];
    }
    assert r[o..o + |e|] == e;
  }

  lemma OverwriteConcat(bits: seq<bool>, p: nat, c: seq<bool>, d: seq<bool>)
    requires p <= |bits|
    ensures p + |c| <= |Overwrite(bits, p, c)|
    ensures Overwrite(Overwrite(bits, p, c), p + |c|, d) == Overwrite(bits, p, c + d)
  {
  }

  /** Overwriting the front of what is held leaves the rest. */
  lemma OverwriteFront(bits: seq<bool>, o: nat, x: seq<bool>, y: seq<bool>, x': seq<bool>)
    requires HoldsAt(bits, o, x + y) && |x'| == |x|
    ensures HoldsAt(Overwrite(bits, o, x'), o, x' + y)
  {
    var r := Overwrite(bits, o, x');
    var e := x + y;
    forall i | 0 <= i < |e| ensures r[o + i] == (x' + y)[i] {
      assert bits[o..o + |e|][i] == e[i];
      if i < |x| { assert r[o..o + |x'|][i] == x'[i]; }
    }
    assert r[o..o + |x' + y|] == x' + y;
  }

  lemma HoldsPrefix(bits: seq<bool>, o: nat, m: seq<bool>, rest: seq<bool>)
    requires HoldsAt(bits, o, m + rest)
    ensures HoldsAt(bits, o, m)
  {
    var e := m + rest;
    assert bits[o..o + |m|] == bits[o..o + |e|][..|m|] == m;
  }

  lemma HoldsSuffix(bits: seq<bool>, o: nat, e: seq<bool>, k: nat)
    requires HoldsAt(bits, o, e) && k <= |e|
    ensures HoldsAt(bits, o + k, e[k..])
  {
    assert bits[o + k..o + |e|] == bits[o..o + |e|][k..];
  }

  // ----- Images of tilings -----

  ghost predicate HoldsBlock(bits: seq<bool>, blocks: Blocks, o: nat)
    requires o in blocks
  {
    HoldsAt(bits, o, Encode(blocks[o]))
  }

  /** Every block but the one at `hole` stands in the image. */
  ghost predicate ImageExcept(bits: seq<bool>, blocks: Blocks, hole: int) {
    forall o {:trigger HoldsBlock(bits, blocks, o)} :: o in blocks && o != hole ==> HoldsBlock(bits, blocks, o)
  }

  ghost predicate Image(bits: seq<bool>, blocks: Blocks, eof: nat) {
    eof <= |bits| && Tiled(blocks, eof) && ImageExcept(bits, blocks, -1)
  }

  /** Space for a block: a slot of the tiling whose content is not in the image yet. */
  ghost predicate HasHole(bits: seq<bool>, blocks: Blocks, eof: nat, hole: nat, length: nat) {
    && Tiled(blocks, eof) && ImageExcept(bits, blocks, hole)
    && hole in blocks && blocks[hole].Empty? && |blocks[hole].body| == length
    && hole <= |bits| && (eof <= |bits| || EndOf(blocks, hole) == eof)
  }

  lemma HoldsElsewhere(bits: seq<bool>, blocks: Blocks, eof: nat, hole: nat, c: seq<bool>, p: nat, q: nat)
    requires Tiled(blocks, eof) && hole in blocks && q in blocks && q != hole && HoldsBlock(bits, blocks, q)
    requires p <= |bits| && hole <= p && p + |c| <= EndOf(blocks, hole)
    ensures HoldsBlock(Overwrite(bits, p, c), blocks, q)
  {
    TileOrder(blocks, eof, hole, q);
    hide Overwrite, Encode, Tiled;
    OverwriteKeeps(bits, p, c, q, Encode(blocks[q]));
  }

  /** Writing a block into its slot completes the image. */
  lemma CommitImage(bits: seq<bool>, blocks: Blocks, eof: nat, hole: nat, b: Block)
    requires HasHole(bits, blocks, eof, hole, |Body(b)|)
    ensures Image(Overwrite(bits, hole, Encode(b)), blocks[hole := b], eof)
  {
    hide Overwrite, Encode, Tiled, Body;
    var after, c := blocks[hole := b], Encode(b);
    var r := Overwrite(bits, hole, c);
    assert Size(b) == Size(blocks[hole]) by { EmptyBody(blocks[hole]); }
    TiledReplace(blocks, eof, hole, b);
    OverwriteHolds(bits, hole, c);
    forall q | q in after ensures HoldsBlock(r, after, q) {
      if q != hole { HoldsElsewhere(bits, blocks, eof, hole, c, hole, q); }
    }
    assert eof <= |r| by { EndInImage(blocks, eof, hole); }
  }

  lemma EmptyBody(b: Block)
    requires b.Empty?
    ensures Body(b) == b.body
  {
  }

  lemma EndInImage(blocks: Blocks, eof: nat, o: nat)
    requires Tiled(blocks, eof) && o in blocks
    ensures EndOf(blocks, o) <= eof
  {
    assert Adjoins(blocks, eof, o);
  }

  ghost function Freed(b: Block): Block {
    Empty(Body(b))
  }

  /** A block behind its marker. */
  ghost function Unmarked(b: Block): seq<bool> {
    BitsOf(|Body(b)|, 0x40) + Body(b)
  }

  lemma EncodingParts(b: Block)
    ensures Encode(b) == BitsOf(Marker(b), 8) + Unmarked(b)
  {
    hide BitsOf, FieldBits, BodyFields, Body;
    var m, n, y := BitsOf(Marker(b), 8), BitsOf(|Body(b)|, 0x40), Body(b);
    PrefixSize(Field(Marker(b), 8), Field(|Body(b)|, 0x40));
    assert (m + n) + y == m + (n + y);
  }

  lemma FreedParts(b: Block)
    ensures Unmarked(Freed(b)) == Unmarked(b) && Size(Freed(b)) == Size(b) && Marker(Freed(b)) == EMPTY
  {
    hide BitsOf, FieldBits, BodyFields;
  }

  lemma BlockInImage(bits: seq<bool>, blocks: Blocks, eof: nat, o: nat)
    requires Image(bits, blocks, eof) && o in blocks
    ensures HoldsBlock(bits, blocks, o) && EndOf(blocks, o) <= eof <= |bits|
  {
    EndInImage(blocks, eof, o);
  }

  /** Writing the EMPTY marker over a block's own marker frees exactly its bits. */
  lemma FreeImage(bits: seq<bool>, blocks: Blocks, eof: nat, o: nat)
    requires Image(bits, blocks, eof) && o in blocks
    ensures o <= |bits|
    ensures Image(Overwrite(bits, o, BitsOf(EMPTY, 8)), blocks[o := Freed(blocks[o])], eof)
  {
    hide Overwrite, Encode, Tiled, Body, BitsOf, Freed, Unmarked, Size, Marker;
    var b := blocks[o];
    EncodingParts(b);
    EncodingParts(Freed(b));
    FreedParts(b);
    BlockInImage(bits, blocks, eof, o);
    var c, after := BitsOf(EMPTY, 8), blocks[o := Freed(b)];
    OverwriteFront(bits, o, BitsOf(Marker(b), 8), Unmarked(b), c);
    TiledReplace(blocks, eof, o, Freed(b));
    var r := Overwrite(bits, o, c);
    forall q | q in after ensures HoldsBlock(r, after, q) {
      if q != o {
        assert HoldsBlock(bits, blocks, q);
        HoldsElsewhere(bits, blocks, eof, o, c, o, q);
      }
    }
  }

  /** A slot appended at the end of the file. */
  lemma AppendHole(bits: seq<bool>, blocks: Blocks, eof: nat, junk: seq<bool>)
    requires Image(bits, blocks, eof)
    ensures eof !in blocks
    ensures HasHole(bits, blocks[eof := Empty(junk)], eof + 0x48 + |junk|, eof, |junk|)
  {
    hide Encode, Tiled;
    TiledAppend(blocks, eof, Empty(junk));
    var after := blocks[eof := Empty(junk)];
    forall q | q in after && q != eof ensures HoldsBlock(bits, after, q) { assert HoldsBlock(bits, blocks, q); }
  }

  /** A whole fragment taken as a slot. */
  lemma WholeHole(bits: seq<bool>, blocks: Blocks, eof: nat, o: nat)
    requires Image(bits, blocks, eof) && o in blocks && blocks[o].Empty?
    ensures HasHole(bits, blocks, eof, o, |blocks[o].body|)
  {
    hide Encode, Tiled;
    EndInImage(blocks, eof, o);
    forall q | q in blocks && q != o ensures HoldsBlock(bits, blocks, q) { assert HoldsBlock(bits, blocks, q); }
  }

  /** What is left of a fragment behind a slot of the given length: an empty block of its own. */
  ghost function Remainder(b: Block, length: nat): Block
    requires b.Empty? && length + 0x48 <= |b.body|
  {
    Empty(b.body[length + 0x48..])
  }

  lemma EmptyEncoding(b: Block)
    requires b.Empty?
    ensures Encode(b) == FieldBits([Field(EMPTY, 8), Field(|b.body|, 0x40)]) + b.body
    ensures |FieldBits([Field(EMPTY, 8), Field(|b.body|, 0x40)])| == 0x48
  {
    PrefixSize(Field(EMPTY, 8), Field(|b.body|, 0x40));
  }

  /** The header of an empty block. */
  ghost function EmptyHeader(length: nat): (h: seq<bool>)
    ensures |h| == 0x48
  {
    PrefixSize(Field(EMPTY, 8), Field(length, 0x40));
    FieldBits([Field(EMPTY, 8), Field(length, 0x40)])
  }

  /** Writing the remainder's header makes a block of it: its body is already there. */
  lemma RemainderHolds(bits: seq<bool>, o: nat, b: Block, length: nat)
    requires b.Empty? && length + 0x48 <= |b.body| && HoldsAt(bits, o, Encode(b))
    ensures o + 0x48 + length <= |bits|
    ensures HoldsAt(Overwrite(bits, o + 0x48 + length, EmptyHeader(|Remainder(b, length).body|)),
                    o + 0x48 + length, Encode(Remainder(b, length)))
  {
    var rest := Remainder(b, length);
    EmptyEncoding(rest);
    SuffixOfEncoding(b, length);
    HoldsSuffix(bits, o, Encode(b), 0x48 + length);
    hide Overwrite, Encode, FieldBits;
    OverwriteFront(bits, o + 0x48 + length, b.body[length..length + 0x48], rest.body, EmptyHeader(|rest.body|));
  }

  /** Splitting a fragment: writing the remainder's header behind the slot leaves a slot and a
      smaller fragment; no bit is lost. */
  lemma SplitHole(bits: seq<bool>, blocks: Blocks, eof: nat, o: nat, length: nat)
    requires Image(bits, blocks, eof) && o in blocks && blocks[o].Empty? && length + 0x48 <= |blocks[o].body|
    ensures o + 0x48 + length <= |bits| && o + 0x48 + length !in blocks
    ensures var m := o + 0x48 + length;
            var rest := Remainder(blocks[o], length);
            HasHole(Overwrite(bits, m, EmptyHeader(|rest.body|)),
                    blocks[o := Empty(blocks[o].body[..length])][m := rest], eof, o, length)
  {
    hide FieldBits, BodyFields, Overwrite, Encode, Tiled, EmptyHeader;
    var b, m := blocks[o], o + 0x48 + length;
    var rest, slot := Remainder(b, length), Empty(b.body[..length]);
    var head := EmptyHeader(|rest.body|);
    BlockInImage(bits, blocks, eof, o);
    assert Size(slot) + Size(rest) == Size(b) && Size(slot) == 0x48 + length;
    RemainderHolds(bits, o, b, length);
    TiledSplit(blocks, eof, o, o + Size(slot), slot, rest);
    var after := blocks[o := slot][m := rest];
    var r := Overwrite(bits, m, head);
    assert m + |head| <= EndOf(blocks, o);
    assert EndOf(after, o) <= eof by { EndInImage(after, eof, o); }
    hide Size, Remainder;
    forall q | q in after && q != o ensures HoldsBlock(r, after, q) {
      if q != m {
        assert HoldsBlock(bits, blocks, q);
        HoldsElsewhere(bits, blocks, eof, o, head, m, q);
      }
    }
  }

  lemma SuffixOfEncoding(b: Block, length: nat)
    requires b.Empty? && length + 0x48 <= |b.body|
    ensures Encode(b)[0x48 + length..] == b.body[length..length + 0x48] + b.body[length + 0x48..]
  {
    EmptyEncoding(b);
  }
}
