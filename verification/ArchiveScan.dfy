/** What a scan of the image has seen so far, on values. */
module ArchiveScan {
  import opened Words
  import opened Bits
  import L = ArchiveLayout
  import opened ArchiveImage
  import opened ArchiveIndex
  import opened ArchiveSpace
  import opened ArchiveState
  import opened ArchiveStore
  import opened Paths

  /** The blocks before a position. */
  ghost function Below(tiles: Blocks, o: nat): (r: Blocks)
    ensures r.Keys <= tiles.Keys
    ensures forall p :: p in tiles && p < o ==> p in r
    ensures forall p :: p in r ==> p < o && r[p] == tiles[p]
  {
    map p | p in tiles && p < o :: tiles[p]
  }

  lemma BelowNext(tiles: Blocks, eof: nat, o: nat)
    requires L.Tiled(tiles, eof) && o in tiles
    ensures Below(tiles, L.EndOf(tiles, o)) == Below(tiles, o)[o := tiles[o]] && o !in Below(tiles, o)
  {
    hide L.Tiled, L.Size;
    forall p | p in tiles ensures p < L.EndOf(tiles, o) <==> p <= o { L.TileOrder(tiles, eof, o, p); }
  }

  lemma BelowEnds(tiles: Blocks, eof: nat)
    requires L.Tiled(tiles, eof)
    ensures Below(tiles, 0) == map[] && Below(tiles, eof) == tiles
  {
    L.NothingAtEnd(tiles, eof);
  }

  lemma LiveBelow(tiles: Blocks, o: nat)
    ensures forall p :: p in Live(Below(tiles, o)) ==>
            p < o && p in Live(tiles) && Live(tiles)[p] == Live(Below(tiles, o))[p]
  {
  }

  lemma LiveNext(below: Blocks, o: nat, b: Block)
    requires o !in below
    ensures Live(below[o := b]) == if b.Empty? then Live(below) else Live(below)[o := b]
    ensures o !in Live(below)
  {
  }

  /** The indexes hold exactly what lies before o. */
  ghost predicate Scanned(meta: Metadata, tiles: Blocks, o: nat) {
    && meta.eof == o
    && MapsAgree(meta, Live(Below(tiles, o)))
    && FragmentsAgree(meta.fragments, Below(tiles, o), -1)
  }

  /** Blocks that would be listed alike. */
  ghost predicate Alike(a: Block, b: Block) {
    || (a.FileInfo? && b.FileInfo? && Tokens(a.path) == Tokens(b.path))
    || (a.MstateAux? && b.MstateAux? && Tokens(a.path) == Tokens(b.path))
    || (a.Blob? && b.Blob? && a.id == b.id)
    || (a.Mstate? && b.Mstate? && a.id == b.id)
  }

  /** Indexes that agree with the blocks leave no room for two alike. */
  lemma ListedOnce(saved: Metadata, live: Blocks, o: nat, p: nat)
    requires MapsAgree(saved, live) && o in live && p in live && Alike(live[o], live[p])
    ensures o == p
  {
    hide Tokens;
    if live[o].FileInfo? { assert FileListed(saved.fileMap, live, o) && FileListed(saved.fileMap, live, p); }
    if live[o].MstateAux? { assert AuxListed(saved.auxMap, live, o) && AuxListed(saved.auxMap, live, p); }
    if live[o].Blob? { assert BlobListed(saved.blobMap, live, o) && BlobListed(saved.blobMap, live, p); }
    if live[o].Mstate? { assert MstateListed(saved.mstateMap, live, o) && MstateListed(saved.mstateMap, live, p); }
  }

  /** The next block is not listed yet, because the saved indexes list it once. */
  lemma NextUnlisted(meta: Metadata, saved: Metadata, tiles: Blocks, o: nat)
    requires MapsAgree(meta, Live(Below(tiles, o))) && MapsAgree(saved, Live(tiles)) && o in tiles
    ensures Unlisted(meta, tiles[o])
  {
    LiveBelow(tiles, o);
    hide Live, Tokens, Below;
    var b, live, below := tiles[o], Live(tiles), Live(Below(tiles, o));
    match b
    case FileInfo(path, _) =>
      var k := Tokens(path);
      if k in meta.fileMap {
        assert FileAt(meta.fileMap, below, k);
        ListedOnce(saved, live, o, meta.fileMap[k].sof);
      }
    case MstateAux(path, _) =>
      var k := Tokens(path);
      if k in meta.auxMap {
        assert AuxAt(meta.auxMap, below, k);
        ListedOnce(saved, live, o, meta.auxMap[k].sof);
      }
    case Blob(id, _, _, _, _) =>
      if id in meta.blobMap {
        assert BlobAt(meta.blobMap, below, id);
        ListedOnce(saved, live, o, meta.blobMap[id]);
      }
    case Mstate(id, _, _) =>
      if id in meta.mstateMap {
        assert MstateAt(meta.mstateMap, below, id);
        ListedOnce(saved, live, o, meta.mstateMap[id]);
      }
    case _ =>
  }

  lemma FilesBelow(meta: Metadata, saved: Metadata, tiles: Blocks, o: nat)
    requires MapsAgree(meta, Live(Below(tiles, o))) && MapsAgree(saved, Live(tiles))
    ensures forall k :: k in meta.fileMap ==> k in saved.fileMap
    ensures forall k :: k in meta.auxMap ==> k in saved.auxMap
  {
    LiveBelow(tiles, o);
    hide Live, Tokens, Below;
    forall k | k in meta.fileMap ensures k in saved.fileMap {
      assert FileAt(meta.fileMap, Live(Below(tiles, o)), k);
      assert FileListed(saved.fileMap, Live(tiles), meta.fileMap[k].sof);
    }
    forall k | k in meta.auxMap ensures k in saved.auxMap {
      assert AuxAt(meta.auxMap, Live(Below(tiles, o)), k);
      assert AuxListed(saved.auxMap, Live(tiles), meta.auxMap[k].sof);
    }
  }

  lemma KeyListed(saved: Metadata, tiles: Blocks, o: nat)
    requires MapsAgree(saved, Live(tiles)) && o in tiles
    ensures tiles[o].FileInfo? ==> Tokens(tiles[o].path) in saved.fileMap
    ensures tiles[o].MstateAux? ==> Tokens(tiles[o].path) in saved.auxMap
  {
    hide Tokens;
    if tiles[o].FileInfo? { assert FileListed(saved.fileMap, Live(tiles), o); }
    if tiles[o].MstateAux? { assert AuxListed(saved.auxMap, Live(tiles), o); }
  }

  /** The tries accept every key the scan sets. */
  lemma NextSettable(meta: Metadata, saved: Metadata, tiles: Blocks, o: nat)
    requires MapsAgree(meta, Live(Below(tiles, o))) && MapsAgree(saved, Live(tiles)) && o in tiles
    requires PrefixFree(saved.fileMap) && PrefixFree(saved.auxMap)
    ensures tiles[o].FileInfo? ==> Settable(meta.fileMap, Tokens(tiles[o].path))
    ensures tiles[o].MstateAux? ==> Settable(meta.auxMap, Tokens(tiles[o].path))
  {
    hide MapsAgree, Live, Tokens, Below;
    FilesBelow(meta, saved, tiles, o);
    KeyListed(saved, tiles, o);
  }

  /** A scanned fragment joins the list; any other block leaves it. */
  lemma FragmentsNext(frags: seq<Fragment>, below: Blocks, o: nat, b: Block)
    requires FragmentsAgree(frags, below, -1) && o !in below
    ensures FragmentsAgree(if b.Empty? then frags + [Fragment(o, |b.body|)] else frags, below[o := b], -1)
  {
    var frags', after := if b.Empty? then frags + [Fragment(o, |b.body|)] else frags, below[o := b];
    forall i | 0 <= i < |frags'| ensures FragmentAt(frags', after, i) && (i < |frags| ==> frags'[i].sof != o) {
      if i < |frags| { assert FragmentAt(frags, below, i); }
    }
    forall q | q in after && after[q].Empty? ensures InList(frags', q) <==> q != -1 {
      if q == o {
        assert frags'[|frags|].sof == q;
      } else {
        assert InList(frags, q);
        var k :| 0 <= k < |frags| && frags[k].sof == q;
        assert frags'[k].sof == q;
      }
    }
  }

  /** What the scan does with a block: lists it, or notes a fragment. */
  ghost function Noted(meta: Metadata, o: nat, b: Block): Metadata {
    var m := Listed(meta, o, b).(eof := o + L.Size(b));
    if b.Empty? then m.(fragments := m.fragments + [Fragment(o, |b.body|)]) else m
  }

  lemma ListedFrame(meta: Metadata, o: nat, b: Block)
    ensures Listed(meta, o, b).fragments == meta.fragments
    ensures b.Empty? ==> Listed(meta, o, b) == meta
  {
  }

  lemma ScanStep(meta: Metadata, saved: Metadata, tiles: Blocks, eof: nat, o: nat)
    requires L.Tiled(tiles, eof) && o in tiles && Scanned(meta, tiles, o) && MapsAgree(saved, Live(tiles))
    ensures Scanned(Noted(meta, o, tiles[o]), tiles, L.EndOf(tiles, o))
  {
    hide L.Tiled, Live, Listed, MapsAgree, Unlisted, FragmentsAgree, Below;
    var b, below := tiles[o], Below(tiles, o);
    BelowNext(tiles, eof, o);
    LiveNext(below, o, b);
    ListedFrame(meta, o, b);
    FragmentsNext(meta.fragments, below, o, b);
    NextUnlisted(meta, saved, tiles, o);
    ListedAgrees(meta, Live(below), o, b);
    var live' := if b.Empty? then Live(below) else Live(below)[o := b];
    assert MapsAgree(Listed(meta, o, b), live');
    SameMaps(Listed(meta, o, b), Noted(meta, o, b), live');
  }

  /** Every version block carries the supported version. */
  ghost predicate Supported(tiles: Blocks) {
    forall o :: o in tiles && tiles[o].Version? ==> tiles[o].version == VERSION
  }

  lemma MarkerHolds(bits: seq<bool>, o: nat, b: Block)
    requires HoldsAt(bits, o, L.Encode(b))
    ensures HoldsAt(bits, o, BitsOf(L.Marker(b), 8))
  {
    hide BitsOf, Unmarked, L.Encode, HoldsAt;
    EncodingParts(b);
    HoldsPrefix(bits, o, BitsOf(L.Marker(b), 8), Unmarked(b));
  }

  /** Writing behind the last block keeps the image. */
  lemma ImageBehind(bits: seq<bool>, blocks: Blocks, eof: nat, c: seq<bool>)
    requires Image(bits, blocks, eof)
    ensures Image(Overwrite(bits, eof, c), blocks, eof) && HoldsAt(Overwrite(bits, eof, c), eof, c)
  {
    hide Overwrite, L.Encode, L.Tiled;
    OverwriteHolds(bits, eof, c);
    forall o | o in blocks ensures HoldsBlock(Overwrite(bits, eof, c), blocks, o) {
      BlockInImage(bits, blocks, eof, o);
      OverwriteKeeps(bits, eof, c, o, L.Encode(blocks[o]));
    }
  }

  /** A fresh archive holds its version block and nothing else. */
  ghost function FreshBlocks(): Blocks {
    map[0 := L.Version(VERSION)]
  }

  ghost function FreshMetadata(): Metadata {
    Metadata(VERSION, 0x68, map[], map[], {}, map[], map[], map[], [])
  }

  lemma VersionBlock()
    ensures |L.Body(L.Version(VERSION))| == 0x20 && L.Size(L.Version(VERSION)) == 0x68
    ensures L.Storable(L.Version(VERSION))
  {
    L.BodySizes(L.Version(VERSION));
    Pow2Values();
    var fs := L.BodyFields(L.Version(VERSION));
    assert L.Narrow(fs[0]) && L.Narrow(fs[1]);
  }

  lemma FreshSound(bits: seq<bool>)
    requires HoldsAt(bits, 0, L.Encode(L.Version(VERSION)))
    ensures Sound(bits, FreshMetadata(), FreshBlocks())
  {
    hide L.Encode, L.Body, L.Storable, L.BodyFields, L.Size;
    VersionBlock();
    var blocks := FreshBlocks();
    forall o | o in blocks ensures L.Adjoins(blocks, 0x68, o) && HoldsBlock(bits, blocks, o) {}
    assert forall o :: o in Live(blocks) ==> o == 0;
  }

  /** An empty file after the version block and the end marker are written. */
  lemma InitBits(bits: seq<bool>)
    requires bits == L.Encode(L.Version(VERSION))
    ensures |bits| == 0x68
    ensures var r := Overwrite(bits, 0x68, BitsOf(L.END, 8));
            Sound(r, FreshMetadata(), FreshBlocks()) && HoldsAt(r, 0x68, BitsOf(L.END, 8))
  {
    hide L.Encode, L.Body, L.Storable, L.BodyFields, Sound, BitsOf;
    VersionBlock();
    OverwriteKeeps(bits, 0x68, BitsOf(L.END, 8), 0, bits);
    FreshSound(Overwrite(bits, 0x68, BitsOf(L.END, 8)));
  }

  lemma FreshLive()
    ensures forall o :: o in Live(FreshBlocks()) ==> Live(FreshBlocks())[o].Version?
    ensures Supported(FreshBlocks())
  {
  }

  lemma FreshMaps(meta: Metadata, live: Blocks)
    requires meta.fileMap == map[] && meta.auxMap == map[] && meta.blobMap == map[] && meta.mstateMap == map[]
    requires forall o :: o in live ==> live[o].Version?
    ensures MapsAgree(meta, live)
  {
    hide Tokens;
  }

  lemma FreshAgrees(meta: Metadata)
    requires meta.fileMap == map[] && meta.auxMap == map[] && meta.blobMap == map[] && meta.mstateMap == map[]
    ensures MapsAgree(meta, Live(FreshBlocks())) && Supported(FreshBlocks())
    ensures PrefixFree(meta.fileMap) && PrefixFree(meta.auxMap)
    ensures ViewOf(meta, Live(FreshBlocks())) == EMPTY_STORE.(named := meta.invAux, deps := meta.depCounter)
  {
    hide Live, FreshBlocks, Tokens, MapsAgree, Supported;
    FreshLive();
    FreshMaps(meta, Live(FreshBlocks()));
  }

  lemma NothingAgrees()
    ensures forall meta: Metadata ::
              meta.fileMap == map[] && meta.auxMap == map[] && meta.blobMap == map[] && meta.mstateMap == map[] ==>
                MapsAgree(meta, Live(map[]))
    ensures FragmentsAgree([], map[], -1)
  {
  }

  lemma StartsTiled(tiles: Blocks, eof: nat)
    requires L.Tiled(tiles, eof)
    ensures 0 in tiles || eof == 0
  {
  }

  /** What the scan meets at a block's offset, and where it goes from there. */
  lemma NextBlock(bits: seq<bool>, tiles: Blocks, eof: nat, o: nat)
    requires Image(bits, tiles, eof) && AllStorable(tiles) && o in tiles
    ensures HoldsAt(bits, o, L.Encode(tiles[o])) && HoldsAt(bits, o, BitsOf(L.Marker(tiles[o]), 8)) &&
            L.Storable(tiles[o])
    ensures var n := L.EndOf(tiles, o); n <= eof && (n in tiles || n == eof)
  {
    hide HoldsAt, L.Encode, L.Storable;
    BlockInImage(bits, tiles, eof, o);
    StorableAt(tiles, o);
    MarkerHolds(bits, o, tiles[o]);
    assert L.Adjoins(tiles, eof, o);
  }

  lemma NotedEof(meta: Metadata, meta': Metadata, o: nat, b: Block)
    requires meta' == Noted(meta.(eof := o + 8), o, b)
    ensures meta' == Noted(meta, o, b) && meta'.eof == o + L.Size(b)
    ensures meta'.invAux == meta.invAux && meta'.depCounter == meta.depCounter
  {
    hide Tokens, L.Size;
  }

  lemma VersionsNext(tiles: Blocks, eof: nat, o: nat)
    requires L.Tiled(tiles, eof) && o in tiles
    ensures forall p :: p in tiles && p < L.EndOf(tiles, o) ==> p < o || p == o
  {
    hide L.Tiled, L.Size;
    forall p | p in tiles && p < L.EndOf(tiles, o) ensures p <= o { L.TileOrder(tiles, eof, o, p); }
  }

  lemma SoundSupported(bits: seq<bool>, meta: Metadata, blocks: Blocks)
    requires Sound(bits, meta, blocks)
    ensures Supported(blocks)
  {
    hide Image, FragmentsAgree, AllStorable, L.Body;
  }

  lemma EndWithin(bits: seq<bool>, meta: Metadata, blocks: Blocks)
    requires Sound(bits, meta, blocks)
    ensures meta.eof <= |bits|
  {
  }
}
