/** The state of an open archive on values: its image, its indexes and what they store. */
module ArchiveState {
  import opened Words
  import opened Bits
  import L = ArchiveLayout
  import opened ArchiveImage
  import opened ArchiveIndex
  import opened ArchiveSpace
  import opened Paths
  import opened ArchiveStore

  const VERSION: nat := 0x000100

  /** The version block stands first, and there is no other. */
  ghost predicate Versioned(live: Blocks) {
    && 0 in live && live[0] == L.Version(VERSION)
    && forall o :: o in live && live[o].Version? ==> o == 0
  }

  /** The bits below eof are tiled by the blocks, and the fragment list names the empty ones. */
  ghost predicate Sound(bits: seq<bool>, meta: Metadata, blocks: Blocks) {
    && Image(bits, blocks, meta.eof)
    && FragmentsAgree(meta.fragments, blocks, -1)
    && AllStorable(blocks) && Versioned(Live(blocks))
  }

  /** The same with a slot of the given length handed out at `hole`. */
  ghost predicate Slotted(bits: seq<bool>, meta: Metadata, blocks: Blocks, hole: nat, length: nat) {
    && HasHole(bits, blocks, meta.eof, hole, length)
    && FragmentsAgree(meta.fragments, blocks, hole)
    && AllStorable(blocks) && Versioned(Live(blocks))
  }

  /** Every bit below eof belongs to exactly one block, and that block is either live or a listed
      fragment, never both. */
  lemma EveryBit(bits: seq<bool>, meta: Metadata, blocks: Blocks, i: nat)
    requires Sound(bits, meta, blocks) && i < meta.eof
    ensures exists o: nat :: L.Covers(blocks, o, i) && (o in Live(blocks) <==> !InList(meta.fragments, o))
    ensures forall o: nat, p: nat :: L.Covers(blocks, o, i) && L.Covers(blocks, p, i) ==> o == p
  {
    hide L.Tiled, L.Size, AllStorable, Versioned, HoldsBlock;
    L.ExactPartition(blocks, meta.eof, i);
    var o: nat :| L.Covers(blocks, o, i);
    if !blocks[o].Empty? { assert !InList(meta.fragments, o) by { ListedEmpty(meta.fragments, blocks, o); } }
  }

  lemma ListedEmpty(frags: seq<Fragment>, blocks: Blocks, o: nat)
    requires FragmentsAgree(frags, blocks, -1) && o in blocks && !blocks[o].Empty?
    ensures !InList(frags, o)
  {
    forall i | 0 <= i < |frags| ensures frags[i].sof != o { assert FragmentAt(frags, blocks, i); }
  }

  // ----- Allocation -----

  lemma StorablePut(blocks: Blocks, o: nat, b: Block)
    requires AllStorable(blocks) && L.Storable(b)
    ensures AllStorable(blocks[o := b])
  {
    hide L.Storable;
  }

  lemma StorableEmpty(b: Block)
    requires b.Empty?
    ensures L.Storable(b) <==> |b.body| < TWO_64
  {
  }

  lemma StorableAt(blocks: Blocks, o: nat)
    requires AllStorable(blocks) && o in blocks
    ensures L.Storable(blocks[o]) && |L.Body(blocks[o])| < TWO_64
  {
  }

  lemma TakeSlot(bits: seq<bool>, meta: Metadata, blocks: Blocks, index: nat)
    requires Sound(bits, meta, blocks) && index < |meta.fragments|
    ensures var f := meta.fragments[index];
            Slotted(bits, meta.(fragments := meta.fragments[..index] + meta.fragments[index + 1..]),
                    blocks, f.sof, f.length)
  {
    hide FragmentsAgree, Image, HasHole, AllStorable, Versioned;
    FragmentNotHole(meta.fragments, blocks, -1, index);
    WholeHole(bits, blocks, meta.eof, meta.fragments[index].sof);
    TakeWhole(meta.fragments, blocks, index);
  }

  /** The blocks after a fragment is split behind a slot. */
  ghost function SplitBlocks(blocks: Blocks, o: nat, length: nat): Blocks
    requires o in blocks && blocks[o].Empty? && length + 0x48 <= |blocks[o].body|
  {
    blocks[o := L.Empty(blocks[o].body[..length])][o + 0x48 + length := Remainder(blocks[o], length)]
  }

  lemma SplitSlot(bits: seq<bool>, meta: Metadata, blocks: Blocks, index: nat, length: nat)
    requires Sound(bits, meta, blocks) && index < |meta.fragments| && length + 0x48 <= meta.fragments[index].length
    ensures FragmentAt(meta.fragments, blocks, index)
    ensures var f := meta.fragments[index];
            var m, left := f.sof + 0x48 + length, f.length - length - 0x48;
            && m <= |bits|
            && Slotted(Overwrite(bits, m, EmptyHeader(left)),
               meta.(fragments := meta.fragments[index := Fragment(m, left)]),
                       SplitBlocks(blocks, f.sof, length), f.sof, length)
            && Live(SplitBlocks(blocks, f.sof, length)) == Live(blocks)
  {
    hide FragmentsAgree, Image, HasHole, AllStorable, Versioned, L.Storable, EmptyHeader, Overwrite, Live;
    var f := meta.fragments[index];
    FragmentNotHole(meta.fragments, blocks, -1, index);
    var o, m := f.sof, f.sof + 0x48 + length;
    var slot, rest := L.Empty(blocks[o].body[..length]), Remainder(blocks[o], length);
    SplitHole(bits, blocks, meta.eof, o, length);
    TakeFront(meta.fragments, blocks, index, slot, m, rest);
    StorableAt(blocks, o);
    StorableEmpty(blocks[o]);
    StorableEmpty(slot);
    StorableEmpty(rest);
    StorablePut(blocks, o, slot);
    StorablePut(blocks[o := slot], m, rest);
    LiveSlot(blocks, o, slot);
    LiveSlot(blocks[o := slot], m, rest);
  }

  lemma AppendSlot(bits: seq<bool>, meta: Metadata, blocks: Blocks, junk: seq<bool>)
    requires Sound(bits, meta, blocks) && |junk| < TWO_64
    ensures Slotted(bits, meta.(eof := meta.eof + 0x48 + |junk|), blocks[meta.eof := L.Empty(junk)], meta.eof, |junk|)
    ensures Live(blocks[meta.eof := L.Empty(junk)]) == Live(blocks)
  {
    hide FragmentsAgree, Image, HasHole, AllStorable, Versioned, L.Storable, Live;
    AppendHole(bits, blocks, meta.eof, junk);
    TakeEnd(meta.fragments, blocks, meta.eof, L.Empty(junk));
    StorableEmpty(L.Empty(junk));
    StorablePut(blocks, meta.eof, L.Empty(junk));
    LiveSlot(blocks, meta.eof, L.Empty(junk));
  }

  // ----- Filling a slot, freeing a block -----

  lemma FillSlot(bits: seq<bool>, meta: Metadata, blocks: Blocks, hole: nat, b: Block)
    requires Slotted(bits, meta, blocks, hole, |L.Body(b)|) && L.Storable(b) && !b.Empty? && !b.Version?
    ensures hole <= |bits|
    ensures Sound(Overwrite(bits, hole, L.Encode(b)), meta, blocks[hole := b])
    ensures Live(blocks[hole := b]) == Live(blocks)[hole := b] && hole !in Live(blocks)
  {
    hide FragmentsAgree, Image, AllStorable, L.Storable, L.Encode, L.Body, Overwrite, Live;
    assert hole in blocks && blocks[hole].Empty?;
    CommitImage(bits, blocks, meta.eof, hole, b);
    FillHole(meta.fragments, blocks, hole, b);
    StorablePut(blocks, hole, b);
    LiveFill(blocks, hole, b);
  }

  lemma StorableFreed(b: Block)
    requires L.Storable(b)
    ensures L.Storable(Freed(b))
  {
  }

  lemma FreeBlock(bits: seq<bool>, meta: Metadata, blocks: Blocks, o: nat)
    requires Sound(bits, meta, blocks) && o in Live(blocks) && !blocks[o].Version?
    ensures o <= |bits|
    ensures var b := blocks[o];
            && Sound(Overwrite(bits, o, BitsOf(L.EMPTY, 8)),
                     meta.(fragments := meta.fragments + [Fragment(o, |L.Body(b)|)]), blocks[o := Freed(b)])
            && Live(blocks[o := Freed(b)]) == Live(blocks) - {o}
  {
    hide FragmentsAgree, Image, AllStorable, L.Storable, L.Body, Overwrite, Live, Freed;
    FreeImage(bits, blocks, meta.eof, o);
    GiveBack(meta.fragments, blocks, o);
    StorableAt(blocks, o);
    StorableFreed(blocks[o]);
    StorablePut(blocks, o, Freed(blocks[o]));
    LiveFree(blocks, o);
  }

  // ----- What is stored -----

  ghost function BlobOf(b: Block): BlobData {
    if b.Blob? then BlobData(b.header, b.oSize, b.mstateId, b.data) else BlobData([], 0, 0, [])
  }

  ghost function MstateOf(b: Block): MstateData {
    if b.Mstate? then MstateData(b.alg, b.state) else MstateData(0, [])
  }

  ghost function BlobsOf(blobMap: map<nat, nat>, live: Blocks): map<nat, BlobData> {
    map id | id in blobMap && blobMap[id] in live :: BlobOf(live[blobMap[id]])
  }

  ghost function MstatesOf(mstateMap: map<nat, nat>, live: Blocks): map<nat, MstateData> {
    map id | id in mstateMap && mstateMap[id] in live :: MstateOf(live[mstateMap[id]])
  }

  ghost function FilesOf(fileMap: map<Key, FileEntry>): map<Key, seq<nat>> {
    map k | k in fileMap :: fileMap[k].blobIds
  }

  ghost function NamesOf(auxMap: map<Key, AuxEntry>): map<Key, nat> {
    map k | k in auxMap :: auxMap[k].mstate
  }

  /** The store that the indexes and the live blocks together describe. */
  ghost function ViewOf(meta: Metadata, live: Blocks): (s: Store)
    ensures s.named == meta.invAux && s.deps == meta.depCounter
  {
    Store(FilesOf(meta.fileMap), NamesOf(meta.auxMap), meta.invAux,
          BlobsOf(meta.blobMap, live), MstatesOf(meta.mstateMap, live), meta.depCounter)
  }

  /** The store with a block's content added under its name or id. */
  ghost function Added(s: Store, b: Block): Store {
    match b
    case FileInfo(path, ids) => s.(files := s.files[Tokens(path) := ids])
    case MstateAux(path, id) => s.(names := s.names[Tokens(path) := id])
    case Blob(id, _, _, _, _) => s.(blobs := s.blobs[id := BlobOf(b)])
    case Mstate(id, _, _) => s.(mstates := s.mstates[id := MstateOf(b)])
    case _ => s
  }

  /** The store without a block's content. */
  ghost function Removed(s: Store, b: Block): Store {
    match b
    case FileInfo(path, _) => s.(files := s.files - {Tokens(path)})
    case MstateAux(path, _) => s.(names := s.names - {Tokens(path)})
    case Blob(id, _, _, _, _) => s.(blobs := s.blobs - {id})
    case Mstate(id, _, _) => s.(mstates := s.mstates - {id})
    case _ => s
  }

  lemma BlobsAdded(blobMap: map<nat, nat>, live: Blocks, o: nat, b: Block)
    requires BlobsAgree(blobMap, live) && o !in live && (b.Blob? ==> b.id !in blobMap)
    ensures BlobsOf(if b.Blob? then blobMap[b.id := o] else blobMap, live[o := b])
         == if b.Blob? then BlobsOf(blobMap, live)[b.id := BlobOf(b)] else BlobsOf(blobMap, live)
  {
    forall id | id in blobMap ensures blobMap[id] in live { assert BlobAt(blobMap, live, id); }
  }

  lemma MstatesAdded(mstateMap: map<nat, nat>, live: Blocks, o: nat, b: Block)
    requires MstatesAgree(mstateMap, live) && o !in live && (b.Mstate? ==> b.id !in mstateMap)
    ensures MstatesOf(if b.Mstate? then mstateMap[b.id := o] else mstateMap, live[o := b])
         == if b.Mstate? then MstatesOf(mstateMap, live)[b.id := MstateOf(b)] else MstatesOf(mstateMap, live)
  {
    forall id | id in mstateMap ensures mstateMap[id] in live { assert MstateAt(mstateMap, live, id); }
  }

  lemma FilesMoved(fileMap: map<Key, FileEntry>, k: Key, e: FileEntry)
    ensures FilesOf(fileMap[k := e]) == FilesOf(fileMap)[k := e.blobIds]
    ensures FilesOf(fileMap - {k}) == FilesOf(fileMap) - {k}
  {
  }

  lemma NamesMoved(auxMap: map<Key, AuxEntry>, k: Key, e: AuxEntry)
    ensures NamesOf(auxMap[k := e]) == NamesOf(auxMap)[k := e.mstate]
    ensures NamesOf(auxMap - {k}) == NamesOf(auxMap) - {k}
  {
  }

  lemma ViewListed(meta: Metadata, live: Blocks, o: nat, b: Block)
    requires MapsAgree(meta, live) && o !in live && Unlisted(meta, b)
    ensures ViewOf(Listed(meta, o, b), live[o := b]) == Added(ViewOf(meta, live), b)
  {
    hide FilesAgree, AuxAgree, BlobsAgree, MstatesAgree, BlobsOf, MstatesOf, Tokens, FilesOf, NamesOf, Live, BlobOf,
         MstateOf;
    BlobsAdded(meta.blobMap, live, o, b);
    MstatesAdded(meta.mstateMap, live, o, b);
    if b.FileInfo? { FilesMoved(meta.fileMap, Tokens(b.path), FileEntry(b.blobIds, o)); }
    if b.MstateAux? { NamesMoved(meta.auxMap, Tokens(b.path), AuxEntry(b.mstate, o)); }
  }

  lemma BlobsRemoved(blobMap: map<nat, nat>, live: Blocks, o: nat)
    requires BlobsAgree(blobMap, live) && o in live
    ensures var b := live[o];
            (BlobsOf(if b.Blob? then blobMap - {b.id} else blobMap, live - {o})
             == if b.Blob? then BlobsOf(blobMap, live) - {b.id} else BlobsOf(blobMap, live))
  {
    forall id | id in blobMap ensures blobMap[id] in live && (blobMap[id] == o ==> live[o].Blob? && live[o].id == id) {
      assert BlobAt(blobMap, live, id);
    }
    if live[o].Blob? { assert BlobListed(blobMap, live, o); }
  }

  lemma MstatesRemoved(mstateMap: map<nat, nat>, live: Blocks, o: nat)
    requires MstatesAgree(mstateMap, live) && o in live
    ensures var b := live[o];
            (MstatesOf(if b.Mstate? then mstateMap - {b.id} else mstateMap, live - {o})
             == if b.Mstate? then MstatesOf(mstateMap, live) - {b.id} else MstatesOf(mstateMap, live))
  {
    forall id | id in mstateMap
      ensures mstateMap[id] in live && (mstateMap[id] == o ==> live[o].Mstate? && live[o].id == id)
    {
      assert MstateAt(mstateMap, live, id);
    }
    if live[o].Mstate? { assert MstateListed(mstateMap, live, o); }
  }

  lemma ViewDelisted(meta: Metadata, live: Blocks, o: nat)
    requires MapsAgree(meta, live) && o in live
    ensures ViewOf(Delisted(meta, live[o]), live - {o}) == Removed(ViewOf(meta, live), live[o])
  {
    hide FilesAgree, AuxAgree, BlobsAgree, MstatesAgree, BlobsOf, MstatesOf, Tokens, FilesOf, NamesOf, Live, BlobOf,
         MstateOf;
    BlobsRemoved(meta.blobMap, live, o);
    MstatesRemoved(meta.mstateMap, live, o);
    var b := live[o];
    if b.FileInfo? { FilesMoved(meta.fileMap, Tokens(b.path), FileEntry(b.blobIds, o)); }
    if b.MstateAux? { NamesMoved(meta.auxMap, Tokens(b.path), AuxEntry(b.mstate, o)); }
  }

  /** The indexed blobs and model states are the stored ones. */
  lemma ViewKeys(meta: Metadata, live: Blocks)
    requires MapsAgree(meta, live)
    ensures ViewOf(meta, live).blobs.Keys == meta.blobMap.Keys && ViewOf(meta, live).mstates.Keys == meta.mstateMap.Keys
    ensures ViewOf(meta, live).files.Keys == meta.fileMap.Keys && ViewOf(meta, live).names.Keys == meta.auxMap.Keys
  {
    forall id | id in meta.blobMap ensures meta.blobMap[id] in live { assert BlobAt(meta.blobMap, live, id); }
    forall id | id in meta.mstateMap ensures meta.mstateMap[id] in live { assert MstateAt(meta.mstateMap, live, id); }
    hide FilesAgree, AuxAgree, BlobsAgree, MstatesAgree;
  }

  lemma BlobBlock(meta: Metadata, live: Blocks, id: nat)
    requires MapsAgree(meta, live) && id in meta.blobMap
    ensures var o := meta.blobMap[id];
            && o in live && live[o].Blob? && live[o].id == id
            && id in ViewOf(meta, live).blobs && ViewOf(meta, live).blobs[id] == BlobOf(live[o])
  {
    assert BlobAt(meta.blobMap, live, id);
    hide FilesAgree, AuxAgree, BlobsAgree, MstatesAgree;
  }

  lemma MstateBlock(meta: Metadata, live: Blocks, id: nat)
    requires MapsAgree(meta, live) && id in meta.mstateMap
    ensures var o := meta.mstateMap[id];
            && o in live && live[o].Mstate? && live[o].id == id
            && id in ViewOf(meta, live).mstates && ViewOf(meta, live).mstates[id] == MstateOf(live[o])
  {
    assert MstateAt(meta.mstateMap, live, id);
    hide FilesAgree, AuxAgree, BlobsAgree, MstatesAgree;
  }

  lemma FileBlock(meta: Metadata, live: Blocks, k: Key)
    requires MapsAgree(meta, live) && k in meta.fileMap
    ensures var o := meta.fileMap[k].sof;
            o in live && live[o].FileInfo? && Tokens(live[o].path) == k && live[o].blobIds == meta.fileMap[k].blobIds
    ensures k in ViewOf(meta, live).files && ViewOf(meta, live).files[k] == meta.fileMap[k].blobIds
  {
    assert FileAt(meta.fileMap, live, k);
    hide FilesAgree, AuxAgree, BlobsAgree, MstatesAgree;
  }

  lemma AuxBlock(meta: Metadata, live: Blocks, k: Key)
    requires MapsAgree(meta, live) && k in meta.auxMap
    ensures var o := meta.auxMap[k].sof;
            o in live && live[o].MstateAux? && Tokens(live[o].path) == k && live[o].mstate == meta.auxMap[k].mstate
    ensures k in ViewOf(meta, live).names && ViewOf(meta, live).names[k] == meta.auxMap[k].mstate
  {
    assert AuxAt(meta.auxMap, live, k);
    hide FilesAgree, AuxAgree, BlobsAgree, MstatesAgree;
  }

  // ----- Steps of the open archive -----

  /** The indexes without the entries of some files and blobs: those whose blocks are gone already
      in the middle of a removal. */
  ghost function Without(meta: Metadata, keys: set<Key>, ids: set<nat>): Metadata {
    meta.(fileMap := meta.fileMap - keys, blobMap := meta.blobMap - ids)
  }

  lemma WithoutNone(meta: Metadata)
    ensures Without(meta, {}, {}) == meta
  {
    assert meta.fileMap - {} == meta.fileMap && meta.blobMap - {} == meta.blobMap;
  }

  /** Writing a block into its slot and listing it. */
  lemma Committed(bits: seq<bool>, meta: Metadata, blocks: Blocks, hole: nat, b: Block)
    requires Slotted(bits, meta, blocks, hole, |L.Body(b)|) && L.Storable(b) && !b.Empty? && !b.Version?
    requires MapsAgree(meta, Live(blocks)) && Unlisted(meta, b)
    ensures hole <= |bits|
    ensures var after, meta' := blocks[hole := b], Listed(meta, hole, b);
            && Sound(Overwrite(bits, hole, L.Encode(b)), meta', after)
            && MapsAgree(meta', Live(after))
            && ViewOf(meta', Live(after)) == Added(ViewOf(meta, Live(blocks)), b)
  {
    hide FragmentsAgree, Image, AllStorable, L.Storable, L.Encode, L.Body, Overwrite, Live, Slotted, MapsAgree,
         Unlisted, ViewOf, Added;
    FillSlot(bits, meta, blocks, hole, b);
    ListedAgrees(meta, Live(blocks), hole, b);
    ViewListed(meta, Live(blocks), hole, b);
  }

  /** Freeing a block and delisting it. */
  lemma Delisting(idx: Metadata, live: Blocks, o: nat)
    requires MapsAgree(idx, live) && o in live
    ensures MapsAgree(Delisted(idx, live[o]), live - {o})
    ensures ViewOf(Delisted(idx, live[o]), live - {o}) == Removed(ViewOf(idx, live), live[o])
  {
    DelistedAgrees(idx, live, o);
    ViewDelisted(idx, live, o);
  }

  /** The indexes and the store do not depend on the fragment list or eof. */
  lemma SameMaps(meta: Metadata, meta': Metadata, live: Blocks)
    requires MapsAgree(meta, live)
    requires meta'.fileMap == meta.fileMap && meta'.auxMap == meta.auxMap
    requires meta'.blobMap == meta.blobMap && meta'.mstateMap == meta.mstateMap
    ensures MapsAgree(meta', live)
    ensures ViewOf(meta', live) == ViewOf(meta, live).(named := meta'.invAux, deps := meta'.depCounter)
  {
  }

  lemma LiveBlock(bits: seq<bool>, meta: Metadata, blocks: Blocks, o: nat)
    requires Sound(bits, meta, blocks) && o in Live(blocks)
    ensures HoldsAt(bits, o, L.Encode(blocks[o])) && L.Storable(blocks[o]) && !blocks[o].Empty?
    ensures L.AllNarrow(L.BodyFields(blocks[o]))
  {
    hide Live, L.Encode, L.Tiled, FragmentsAgree, HoldsAt;
    BlockInImage(bits, blocks, meta.eof, o);
    StorableAt(blocks, o);
  }
}
