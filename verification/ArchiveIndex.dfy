/** The in-memory indexes of an archive, and what it means for them to agree with its blocks. */
module ArchiveIndex {
  import opened Paths
  import L = ArchiveLayout
  import opened ArchiveImage

  type Block = L.Block
  type Blocks = L.Blocks

  datatype FileEntry = FileEntry(blobIds: seq<nat>, sof: nat)
  datatype AuxEntry = AuxEntry(mstate: nat, sof: nat)
  datatype Fragment = Fragment(sof: nat, length: nat)

  /** `HZ_ArchiveMetadata`; the tries are maps from path keys. */
  datatype Metadata = Metadata(
    version: nat,
    eof: nat,
    fileMap: map<Key, FileEntry>,
    auxMap: map<Key, AuxEntry>,
    invAux: set<nat>,
    blobMap: map<nat, nat>,
    mstateMap: map<nat, nat>,
    depCounter: map<nat, nat>,
    fragments: seq<Fragment>)

  /** The blocks that are not free space. */
  ghost function Live(blocks: Blocks): (live: Blocks)
    ensures live.Keys <= blocks.Keys
    ensures forall o :: o in blocks && !blocks[o].Empty? ==> o in live
    ensures forall o :: o in live ==> live[o] == blocks[o] && !live[o].Empty?
  {
    map o | o in blocks && !blocks[o].Empty? :: blocks[o]
  }

  // ----- One index each -----

  ghost predicate FileAt(files: map<Key, FileEntry>, live: Blocks, k: Key)
    requires k in files
  {
    var o := files[k].sof;
    o in live && live[o].FileInfo? && Tokens(live[o].path) == k && live[o].blobIds == files[k].blobIds
  }

  ghost predicate FileListed(files: map<Key, FileEntry>, live: Blocks, o: nat)
    requires o in live && live[o].FileInfo?
  {
    var k := Tokens(live[o].path);
    k in files && files[k] == FileEntry(live[o].blobIds, o)
  }

  /** The file map holds exactly the file blocks. */
  ghost predicate FilesAgree(files: map<Key, FileEntry>, live: Blocks) {
    && (forall k {:trigger FileAt(files, live, k)} :: k in files ==> FileAt(files, live, k))
    && (forall o {:trigger FileListed(files, live, o)} :: o in live && live[o].FileInfo? ==> FileListed(files, live, o))
  }

  ghost predicate AuxAt(aux: map<Key, AuxEntry>, live: Blocks, k: Key)
    requires k in aux
  {
    var o := aux[k].sof;
    o in live && live[o].MstateAux? && Tokens(live[o].path) == k && live[o].mstate == aux[k].mstate
  }

  ghost predicate AuxListed(aux: map<Key, AuxEntry>, live: Blocks, o: nat)
    requires o in live && live[o].MstateAux?
  {
    var k := Tokens(live[o].path);
    k in aux && aux[k] == AuxEntry(live[o].mstate, o)
  }

  ghost predicate AuxAgree(aux: map<Key, AuxEntry>, live: Blocks) {
    && (forall k {:trigger AuxAt(aux, live, k)} :: k in aux ==> AuxAt(aux, live, k))
    && (forall o {:trigger AuxListed(aux, live, o)} :: o in live && live[o].MstateAux? ==> AuxListed(aux, live, o))
  }

  ghost predicate BlobAt(blobs: map<nat, nat>, live: Blocks, id: nat)
    requires id in blobs
  {
    blobs[id] in live && live[blobs[id]].Blob? && live[blobs[id]].id == id
  }

  ghost predicate BlobListed(blobs: map<nat, nat>, live: Blocks, o: nat)
    requires o in live && live[o].Blob?
  {
    live[o].id in blobs && blobs[live[o].id] == o
  }

  ghost predicate BlobsAgree(blobs: map<nat, nat>, live: Blocks) {
    && (forall id {:trigger BlobAt(blobs, live, id)} :: id in blobs ==> BlobAt(blobs, live, id))
    && (forall o {:trigger BlobListed(blobs, live, o)} :: o in live && live[o].Blob? ==> BlobListed(blobs, live, o))
  }

  ghost predicate MstateAt(mstates: map<nat, nat>, live: Blocks, id: nat)
    requires id in mstates
  {
    mstates[id] in live && live[mstates[id]].Mstate? && live[mstates[id]].id == id
  }

  ghost predicate MstateListed(mstates: map<nat, nat>, live: Blocks, o: nat)
    requires o in live && live[o].Mstate?
  {
    live[o].id in mstates && mstates[live[o].id] == o
  }

  ghost predicate MstatesAgree(mstates: map<nat, nat>, live: Blocks) {
    && (forall id {:trigger MstateAt(mstates, live, id)} :: id in mstates ==> MstateAt(mstates, live, id))
    && (forall o {:trigger MstateListed(mstates, live, o)} :: o in live && live[o].Mstate? ==>
        MstateListed(mstates, live, o))
  }

  ghost predicate MapsAgree(meta: Metadata, live: Blocks) {
    && FilesAgree(meta.fileMap, live)
    && AuxAgree(meta.auxMap, live)
    && BlobsAgree(meta.blobMap, live)
    && MstatesAgree(meta.mstateMap, live)
  }

  // ----- Adding a block -----

  /** Nothing the block would be listed under is taken. */
  ghost predicate Unlisted(meta: Metadata, b: Block) {
    match b
    case FileInfo(path, _) => Tokens(path) !in meta.fileMap
    case MstateAux(path, _) => Tokens(path) !in meta.auxMap
    case Blob(id, _, _, _, _) => id !in meta.blobMap
    case Mstate(id, _, _) => id !in meta.mstateMap
    case _ => true
  }

  /** The indexes with a block listed: what every writer, and the scan, does to them. */
  function Listed(meta: Metadata, o: nat, b: Block): Metadata {
    match b
    case FileInfo(path, ids) => meta.(fileMap := meta.fileMap[Tokens(path) := FileEntry(ids, o)])
    case MstateAux(path, id) => meta.(auxMap := meta.auxMap[Tokens(path) := AuxEntry(id, o)])
    case Blob(id, _, _, _, _) => meta.(blobMap := meta.blobMap[id := o])
    case Mstate(id, _, _) => meta.(mstateMap := meta.mstateMap[id := o])
    case Version(v) => meta.(version := v)
    case Empty(_) => meta
  }

  lemma FilesAdd(files: map<Key, FileEntry>, live: Blocks, o: nat, b: Block)
    requires FilesAgree(files, live) && o !in live && (b.FileInfo? ==> Tokens(b.path) !in files)
    ensures FilesAgree(if b.FileInfo? then files[Tokens(b.path) := FileEntry(b.blobIds, o)] else files, live[o := b])
  {
    hide Tokens;
    var files' := if b.FileInfo? then files[Tokens(b.path) := FileEntry(b.blobIds, o)] else files;
    var live' := live[o := b];
    forall k | k in files' ensures FileAt(files', live', k) { if k in files { assert FileAt(files, live, k); } }
    forall p | p in live' && live'[p].FileInfo? ensures FileListed(files', live', p) {
      if p != o { assert FileListed(files, live, p); }
    }
  }

  lemma AuxAdd(aux: map<Key, AuxEntry>, live: Blocks, o: nat, b: Block)
    requires AuxAgree(aux, live) && o !in live && (b.MstateAux? ==> Tokens(b.path) !in aux)
    ensures AuxAgree(if b.MstateAux? then aux[Tokens(b.path) := AuxEntry(b.mstate, o)] else aux, live[o := b])
  {
    hide Tokens;
    var aux' := if b.MstateAux? then aux[Tokens(b.path) := AuxEntry(b.mstate, o)] else aux;
    var live' := live[o := b];
    forall k | k in aux' ensures AuxAt(aux', live', k) { if k in aux { assert AuxAt(aux, live, k); } }
    forall p | p in live' && live'[p].MstateAux? ensures AuxListed(aux', live', p) {
      if p != o { assert AuxListed(aux, live, p); }
    }
  }

  lemma BlobsAdd(blobs: map<nat, nat>, live: Blocks, o: nat, b: Block)
    requires BlobsAgree(blobs, live) && o !in live && (b.Blob? ==> b.id !in blobs)
    ensures BlobsAgree(if b.Blob? then blobs[b.id := o] else blobs, live[o := b])
  {
    var blobs' := if b.Blob? then blobs[b.id := o] else blobs;
    var live' := live[o := b];
    forall id | id in blobs' ensures BlobAt(blobs', live', id) { if id in blobs { assert BlobAt(blobs, live, id); } }
    forall p | p in live' && live'[p].Blob? ensures BlobListed(blobs', live', p) {
      if p != o { assert BlobListed(blobs, live, p); }
    }
  }

  lemma MstatesAdd(mstates: map<nat, nat>, live: Blocks, o: nat, b: Block)
    requires MstatesAgree(mstates, live) && o !in live && (b.Mstate? ==> b.id !in mstates)
    ensures MstatesAgree(if b.Mstate? then mstates[b.id := o] else mstates, live[o := b])
  {
    var mstates' := if b.Mstate? then mstates[b.id := o] else mstates;
    var live' := live[o := b];
    forall id | id in mstates' ensures MstateAt(mstates', live', id) {
      if id in mstates { assert MstateAt(mstates, live, id); }
    }
    forall p | p in live' && live'[p].Mstate? ensures MstateListed(mstates', live', p) {
      if p != o { assert MstateListed(mstates, live, p); }
    }
  }

  /** Listing a new block keeps the indexes in agreement. */
  lemma ListedAgrees(meta: Metadata, live: Blocks, o: nat, b: Block)
    requires MapsAgree(meta, live) && o !in live && Unlisted(meta, b)
    ensures MapsAgree(Listed(meta, o, b), live[o := b])
  {
    hide FilesAgree, AuxAgree, BlobsAgree, MstatesAgree, Tokens;
    FilesAdd(meta.fileMap, live, o, b);
    AuxAdd(meta.auxMap, live, o, b);
    BlobsAdd(meta.blobMap, live, o, b);
    MstatesAdd(meta.mstateMap, live, o, b);
  }

  // ----- Removing a block -----

  /** The indexes without a block. */
  function Delisted(meta: Metadata, b: Block): Metadata {
    match b
    case FileInfo(path, _) => meta.(fileMap := meta.fileMap - {Tokens(path)})
    case MstateAux(path, _) => meta.(auxMap := meta.auxMap - {Tokens(path)})
    case Blob(id, _, _, _, _) => meta.(blobMap := meta.blobMap - {id})
    case Mstate(id, _, _) => meta.(mstateMap := meta.mstateMap - {id})
    case _ => meta
  }

  lemma FilesRemove(files: map<Key, FileEntry>, live: Blocks, o: nat)
    requires FilesAgree(files, live) && o in live
    ensures FilesAgree(if live[o].FileInfo? then files - {Tokens(live[o].path)} else files, live - {o})
  {
    hide Tokens;
    var b := live[o];
    var files' := if b.FileInfo? then files - {Tokens(b.path)} else files;
    var live' := live - {o};
    forall k | k in files' ensures FileAt(files', live', k) {
      assert FileAt(files, live, k);
      if b.FileInfo? { assert FileListed(files, live, o); }
    }
    forall p | p in live' && live'[p].FileInfo? ensures FileListed(files', live', p) {
      assert FileListed(files, live, p);
      if b.FileInfo? { assert FileListed(files, live, o); }
    }
  }

  lemma AuxRemove(aux: map<Key, AuxEntry>, live: Blocks, o: nat)
    requires AuxAgree(aux, live) && o in live
    ensures AuxAgree(if live[o].MstateAux? then aux - {Tokens(live[o].path)} else aux, live - {o})
  {
    hide Tokens;
    var b := live[o];
    var aux' := if b.MstateAux? then aux - {Tokens(b.path)} else aux;
    var live' := live - {o};
    forall k | k in aux' ensures AuxAt(aux', live', k) {
      assert AuxAt(aux, live, k);
      if b.MstateAux? { assert AuxListed(aux, live, o); }
    }
    forall p | p in live' && live'[p].MstateAux? ensures AuxListed(aux', live', p) {
      assert AuxListed(aux, live, p);
      if b.MstateAux? { assert AuxListed(aux, live, o); }
    }
  }

  lemma BlobsRemove(blobs: map<nat, nat>, live: Blocks, o: nat)
    requires BlobsAgree(blobs, live) && o in live
    ensures BlobsAgree(if live[o].Blob? then blobs - {live[o].id} else blobs, live - {o})
  {
    var b := live[o];
    var blobs' := if b.Blob? then blobs - {b.id} else blobs;
    var live' := live - {o};
    forall id | id in blobs' ensures BlobAt(blobs', live', id) {
      assert BlobAt(blobs, live, id);
      if b.Blob? { assert BlobListed(blobs, live, o); }
    }
    forall p | p in live' && live'[p].Blob? ensures BlobListed(blobs', live', p) {
      assert BlobListed(blobs, live, p);
      if b.Blob? { assert BlobListed(blobs, live, o); }
    }
  }

  lemma MstatesRemove(mstates: map<nat, nat>, live: Blocks, o: nat)
    requires MstatesAgree(mstates, live) && o in live
    ensures MstatesAgree(if live[o].Mstate? then mstates - {live[o].id} else mstates, live - {o})
  {
    var b := live[o];
    var mstates' := if b.Mstate? then mstates - {b.id} else mstates;
    var live' := live - {o};
    forall id | id in mstates' ensures MstateAt(mstates', live', id) {
      assert MstateAt(mstates, live, id);
      if b.Mstate? { assert MstateListed(mstates, live, o); }
    }
    forall p | p in live' && live'[p].Mstate? ensures MstateListed(mstates', live', p) {
      assert MstateListed(mstates, live, p);
      if b.Mstate? { assert MstateListed(mstates, live, o); }
    }
  }

  /** Dropping a block's entry along with the block keeps the indexes in agreement. */
  lemma DelistedAgrees(meta: Metadata, live: Blocks, o: nat)
    requires MapsAgree(meta, live) && o in live
    ensures MapsAgree(Delisted(meta, live[o]), live - {o})
  {
    hide FilesAgree, AuxAgree, BlobsAgree, MstatesAgree, Tokens;
    FilesRemove(meta.fileMap, live, o);
    AuxRemove(meta.auxMap, live, o);
    BlobsRemove(meta.blobMap, live, o);
    MstatesRemove(meta.mstateMap, live, o);
  }

  // ----- Agreement determines the indexes -----

  /** Two sets of indexes that agree with the same blocks are the same. */
  lemma AgreementUnique(m1: Metadata, m2: Metadata, live: Blocks)
    requires MapsAgree(m1, live) && MapsAgree(m2, live)
    ensures m1.fileMap == m2.fileMap && m1.auxMap == m2.auxMap
    ensures m1.blobMap == m2.blobMap && m1.mstateMap == m2.mstateMap
  {
    FilesUnique(m1.fileMap, m2.fileMap, live);
    AuxUnique(m1.auxMap, m2.auxMap, live);
    BlobsUnique(m1.blobMap, m2.blobMap, live);
    MstatesUnique(m1.mstateMap, m2.mstateMap, live);
  }

  lemma FilesUnique(a: map<Key, FileEntry>, b: map<Key, FileEntry>, live: Blocks)
    requires FilesAgree(a, live) && FilesAgree(b, live)
    ensures a == b
  {
    hide Tokens;
    forall k | k in a ensures k in b && b[k] == a[k] { assert FileAt(a, live, k) && FileListed(b, live, a[k].sof); }
    forall k | k in b ensures k in a { assert FileAt(b, live, k) && FileListed(a, live, b[k].sof); }
  }

  lemma AuxUnique(a: map<Key, AuxEntry>, b: map<Key, AuxEntry>, live: Blocks)
    requires AuxAgree(a, live) && AuxAgree(b, live)
    ensures a == b
  {
    hide Tokens;
    forall k | k in a ensures k in b && b[k] == a[k] { assert AuxAt(a, live, k) && AuxListed(b, live, a[k].sof); }
    forall k | k in b ensures k in a { assert AuxAt(b, live, k) && AuxListed(a, live, b[k].sof); }
  }

  lemma BlobsUnique(a: map<nat, nat>, b: map<nat, nat>, live: Blocks)
    requires BlobsAgree(a, live) && BlobsAgree(b, live)
    ensures a == b
  {
    forall id | id in a ensures id in b && b[id] == a[id] { assert BlobAt(a, live, id) && BlobListed(b, live, a[id]); }
    forall id | id in b ensures id in a { assert BlobAt(b, live, id) && BlobListed(a, live, b[id]); }
  }

  lemma MstatesUnique(a: map<nat, nat>, b: map<nat, nat>, live: Blocks)
    requires MstatesAgree(a, live) && MstatesAgree(b, live)
    ensures a == b
  {
    forall id | id in a ensures id in b && b[id] == a[id] {
      assert MstateAt(a, live, id) && MstateListed(b, live, a[id]);
    }
    forall id | id in b ensures id in a { assert MstateAt(b, live, id) && MstateListed(a, live, b[id]); }
  }
}
