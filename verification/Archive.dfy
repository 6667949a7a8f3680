/** The archive: a growing bit image of tagged blocks, a best-fit allocator over its free fragments,
    and indexes that are kept in step with the image. */
module Archive {
  import opened Words
  import opened Bits
  import L = ArchiveLayout
  import opened ArchiveImage
  import opened ArchiveFields
  import opened ArchiveIndex
  import opened ArchiveScan
  import opened ArchiveSpace
  import opened ArchiveState
  import opened ArchiveStore
  import opened Paths
  import opened Permutations

  lemma FragmentLengths(frags: seq<Fragment>, blocks: Blocks)
    requires FragmentsAgree(frags, blocks, -1) && AllStorable(blocks)
    ensures forall i :: 0 <= i < |frags| ==> frags[i].length < TWO_64
  {
    forall i | 0 <= i < |frags| ensures frags[i].length < TWO_64 {
      assert FragmentAt(frags, blocks, i);
      StorableAt(blocks, frags[i].sof);
      EmptyBody(blocks[frags[i].sof]);
    }
  }

  lemma NoFragments(frags: seq<Fragment>)
    requires FragmentsAgree(frags, FreshBlocks(), -1)
    ensures frags == []
  {
    if frags != [] { FragmentNotHole(frags, FreshBlocks(), -1, 0); }
  }

  lemma OverwriteEmpty(c: seq<bool>)
    ensures Overwrite([], 0, c) == c
  {
  }

  lemma AtBodyReads(s: BitStream, o: nat, b: Block)
    requires AtBody(s, o, b)
    ensures Reading(s, o + L.Size(b), L.BodyFields(b))
  {
  }

  lemma ReadingDone(s: BitStream, end: nat, fs: seq<L.Field>)
    requires Reading(s, end, fs) && fs == []
    ensures s.pos == end
  {
  }

  ghost predicate BlobFits(ids: seq<nat>, contents: seq<BlobData>, i: nat)
    requires i < |ids| == |contents|
  {
    var b := contents[i];
    L.Storable(L.Blob(ids[i], b.header, b.oSize, b.mstateId, b.data))
  }

  lemma BlobStorable(ids: seq<nat>, contents: seq<BlobData>, i: nat)
    requires i < |ids| == |contents| && BlobFits(ids, contents, i)
    ensures L.Storable(L.Blob(ids[i], contents[i].header, contents[i].oSize, contents[i].mstateId, contents[i].data))
  {
  }

  /** Paths name files: none of them is a directory. */
  ghost predicate NoDirectory<V>(entries: map<Key, V>, key: Key) {
    Known(entries, key) ==> key in entries
  }

  ghost function Contents(s: Store, ids: seq<nat>): seq<(BlobData, MstateData)>
    requires forall i :: 0 <= i < |ids| ==> Readable(s, ids[i])
  {
    seq(|ids|, i requires 0 <= i < |ids| => Content(s, ids[i]))
  }

  /** The first blob that cannot be read decides the error. */
  ghost predicate FirstFailure(s: Store, ids: seq<nat>, e: Error) {
    exists i :: 0 <= i < |ids| && !Readable(s, ids[i]) && (forall k :: 0 <= k < i ==> Readable(s, ids[k]))
                && e == if ids[i] in s.blobs then MstateNotFound else BlobNotFound
  }

  lemma FailsAt(s: Store, ids: seq<nat>, i: nat, e: Error)
    requires i < |ids| && !Readable(s, ids[i]) && forall k :: 0 <= k < i ==> Readable(s, ids[k])
    requires e == if ids[i] in s.blobs then MstateNotFound else BlobNotFound
    ensures FirstFailure(s, ids, e)
  {
  }

  lemma WithoutFile(meta: Metadata, key: Key)
    ensures Without(meta, {key}, {}) == meta.(fileMap := meta.fileMap - {key})
  {
    assert meta.blobMap - {} == meta.blobMap;
  }

  lemma DropNone(s: Store)
    ensures Distinct<nat>([]) && AllIn([], s.blobs) && DropBlobs(s, []) == s
  {
  }

  /** Dropping one more blob, whatever the files are. */
  lemma DropOneMore(s: Store, ids: seq<nat>, i: nat, files: map<Key, seq<nat>>)
    requires Distinct(ids) && AllIn(ids, s.blobs) && i < |ids|
    ensures Distinct(ids[..i]) && AllIn(ids[..i], s.blobs) && Distinct(ids[..i + 1]) && AllIn(ids[..i + 1], s.blobs)
    ensures ids[i] in DropBlobs(s, ids[..i]).blobs
    ensures DropBlob(DropBlobs(s, ids[..i]).(files := files), ids[i]) == DropBlobs(s, ids[..i + 1]).(files := files)
  {
    assert ids[..i + 1] == ids[..i] + [ids[i]];
    DropBlobsSnoc(s, ids[..i], ids[i]);
    var d := DropBlobs(s, ids[..i]);
    ReleaseElsewhere(d, d.blobs[ids[i]].mstateId, files, d.blobs);
  }

  lemma WithoutBlobs(meta: Metadata, keys: set<Key>, id: nat)
    ensures Without(meta.(blobMap := meta.blobMap - {id}), keys, {}) == Without(meta, keys, {id})
    ensures Without(meta, keys, {}).blobMap == meta.blobMap
    ensures Without(meta, keys, {id}) == var m := Without(meta, keys, {}); m.(blobMap := m.blobMap - {id})
  {
    assert meta.blobMap - {} == meta.blobMap && meta.blobMap - {id} - {} == meta.blobMap - {id};
  }

  lemma BehindLength(s: BitStream, o: nat, marker: nat, b: Block)
    requires HoldsAt(s.bits, o, BitsOf(marker, 8) + Unmarked(b)) && s.pos == o + 0x48 && L.Storable(b) && !b.Empty?
    ensures AtBody(s, o, b)
  {
    BodyReading(s, o, marker, b);
  }

  lemma StorableBody(b: Block)
    requires L.Storable(b)
    ensures |L.Body(b)| < TWO_64
  {
  }

  lemma SameBody(b: Block)
    ensures L.Body(Freed(b)) == L.Body(b)
  {
  }

  const NOTHING: Metadata := Metadata(0, 0, map[], map[], {}, map[], map[], map[], [])

  class HzArchive {
    const stream: BitStream
    var metadata: Metadata
    ghost var blocks: Blocks

    /** Opens a file: nothing is known of it until it is loaded. */
    constructor (bits: seq<bool>)
      ensures fresh(stream) && stream.bits == bits && stream.pos == 0
      ensures metadata == NOTHING && blocks == map[]
    {
      stream := new BitStream(bits);
      metadata := NOTHING;
      blocks := map[];
    }

    ghost predicate Steady()
      reads this, stream
    {
      Sound(stream.bits, metadata, blocks)
    }

    /** The indexes, but for some doomed entries, agree with the image. */
    ghost predicate Agrees(keys: set<Key>, ids: set<nat>)
      reads this
    {
      MapsAgree(Without(metadata, keys, ids), Live(blocks))
    }

    ghost function ViewBut(keys: set<Key>, ids: set<nat>): Store
      reads this
    {
      ViewOf(Without(metadata, keys, ids), Live(blocks))
    }

    // ----- Space -----

    method AllocFragment(length: nat) returns (found: bool, sof: nat)
      requires Steady() && 0 < length < TWO_64
      modifies this, stream
      ensures metadata == old(metadata).(fragments := metadata.fragments)
      ensures found ==> Slotted(stream.bits, metadata, blocks, sof, length)
      ensures found ==> Taken(old(metadata.fragments), metadata.fragments, sof, length)
      ensures found <==> AnyFits(old(metadata.fragments), length)
      ensures !found ==> stream.bits == old(stream.bits) && metadata == old(metadata) && blocks == old(blocks)
      ensures Live(blocks) == Live(old(blocks))
    {
      hide Image, FragmentsAgree, AllStorable, Versioned, Live, Overwrite, EmptyHeader, HasHole, SplitBlocks, Slotted;
      FragmentLengths(metadata.fragments, blocks);
      var index, fitDiff;
      found, index, fitDiff := BestFit(metadata.fragments, length);
      sof := 0;
      if found {
        sof := metadata.fragments[index].sof;
        if fitDiff > 0 {
          SplitSlot(stream.bits, metadata, blocks, index, length);
          blocks := SplitBlocks(blocks, sof, length);
          metadata := metadata.(fragments := metadata.fragments[
            index := Fragment(sof + 0x48 + length, fitDiff - 0x48)]);
          WriteEmptyHeader(stream, metadata.fragments[index].sof, metadata.fragments[index].length);
        } else {
          TakeSlot(stream.bits, metadata, blocks, index);
          metadata := metadata.(fragments := metadata.fragments[..index] + metadata.fragments[index + 1..]);
        }
      }
    }

    /** Where the writers put a block: a fragment if one fits, else the end of the file. */
    method Reserve(length: nat) returns (sof: nat)
      requires Steady() && 0 < length < TWO_64
      modifies this, stream
      ensures metadata == old(metadata).(fragments := metadata.fragments, eof := metadata.eof)
      ensures Slotted(stream.bits, metadata, blocks, sof, length)
      ensures Placed(old(metadata.fragments), old(metadata.eof), metadata.fragments, metadata.eof, sof, length)
      ensures Live(blocks) == Live(old(blocks))
    {
      hide Image, FragmentsAgree, AllStorable, Versioned, Live, HasHole, Slotted, AnyFits, Taken;
      var found;
      found, sof := AllocFragment(length);
      if !found {
        sof := metadata.eof;
        ghost var junk := seq(length, _ => false);
        AppendSlot(stream.bits, metadata, blocks, junk);
        blocks := blocks[metadata.eof := L.Empty(junk)];
        metadata := metadata.(eof := metadata.eof + 0x48 + length);
      }
    }

    /** Overwrites a live block's marker and gives its space to the fragment list. */
    method FreeSpace(o: nat)
      requires Steady() && o in Live(blocks) && !blocks[o].Version?
      modifies this, stream
      ensures Steady() && Live(blocks) == Live(old(blocks)) - {o}
      ensures metadata == old(metadata).(fragments := metadata.fragments)
      ensures metadata.fragments == old(metadata.fragments) + [Fragment(o, |L.Body(old(blocks[o]))|)]
      ensures HoldsAt(stream.bits, o, BitsOf(L.EMPTY, 8) + Unmarked(old(blocks[o]))) && stream.pos == o + 0x48
    {
      hide Image, FragmentsAgree, AllStorable, Versioned, Live, Overwrite, L.Body, BitsOf, Freed, Unmarked, HoldsAt,
           L.Encode, L.Marker;
      ghost var b := blocks[o];
      FreeBlock(stream.bits, metadata, blocks, o);
      stream.SeekTo(o);
      stream.Write(L.EMPTY, 8);
      blocks := blocks[o := Freed(b)];
      StorableAt(old(blocks), o);
      FreedParts(b);
      EncodingParts(Freed(b));
      BlockInImage(stream.bits, blocks, metadata.eof, o);
      assert |L.Body(Freed(b))| == |L.Body(b)| by { SameBody(b); }
      var length := ReadLength(stream, o, Freed(b));
      metadata := metadata.(fragments := metadata.fragments + [Fragment(o, length)]);
    }

    // ----- Between operations -----

    ghost predicate Valid()
      reads this, stream
    {
      && Steady() && MapsAgree(metadata, Live(blocks))
      && PrefixFree(metadata.fileMap) && PrefixFree(metadata.auxMap)
    }

    ghost function View(): Store
      reads this
    {
      ViewOf(metadata, Live(blocks))
    }

    /** The view and the indexes have the same keys. */
    lemma Keys()
      requires Valid()
      ensures View().files.Keys == metadata.fileMap.Keys && View().names.Keys == metadata.auxMap.Keys
      ensures View().blobs.Keys == metadata.blobMap.Keys && View().mstates.Keys == metadata.mstateMap.Keys
    {
      ViewKeys(metadata, Live(blocks));
    }

    // ----- Writing -----

    method WriteBlob(blob: BlobData, id: nat) returns (r: Result<nat>)
      requires Valid() && id !in View().blobs
      requires L.Storable(L.Blob(id, blob.header, blob.oSize, blob.mstateId, blob.data))
      modifies this, stream
      ensures Valid() && View() == Apply(old(View()), Op.WriteBlob(id, blob))
      ensures r == if blob.mstateId in old(View()).mstates then Ok(id) else Err(MstateNotFound)
      ensures r.Err? ==> metadata == old(metadata) && stream.bits == old(stream.bits)
      ensures r.Ok? ==> id in metadata.blobMap
      ensures r.Ok? ==>
                Placed(old(metadata.fragments), old(metadata.eof), metadata.fragments, metadata.eof,
                       metadata.blobMap[id], 0x140 + 8 * |blob.header| + 8 * |blob.data|)
    {
      hide Placed, Image, FragmentsAgree, AllStorable, Versioned, Slotted, MapsAgree, PrefixFree, Live, ViewOf,
        L.Storable,
           L.Body, L.Encode, Overwrite;
      ViewKeys(metadata, Live(blocks));
      if blob.mstateId !in metadata.mstateMap {
        return Err(MstateNotFound);
      }
      ghost var b := L.Blob(id, blob.header, blob.oSize, blob.mstateId, blob.data);
      var length := 0x140 + 8 * |blob.header| + 8 * |blob.data|;
      L.BodySizes(b);
      StorableBody(b);
      var sof := Reserve(length);
      SameMaps(old(metadata), metadata, Live(blocks));
      Committed(stream.bits, metadata, blocks, sof, b);
      WriteBlobBlock(stream, sof, length, id, blob.header, blob.oSize, blob.mstateId, blob.data);
      blocks := blocks[sof := b];
      metadata := metadata.(blobMap := metadata.blobMap[id := sof]);
      label listed:
      metadata := metadata.(depCounter := Incremented(metadata.depCounter, blob.mstateId));
      SameMaps(old@listed(metadata), metadata, Live(blocks));
      r := Ok(id);
    }

    method WriteMstate(m: MstateData, id: nat)
      requires Valid() && id !in View().mstates && L.Storable(L.Mstate(id, m.alg, m.state))
      modifies this, stream
      ensures Valid() && View() == Apply(old(View()), Op.Install(id, m))
      ensures id in metadata.mstateMap &&
              Placed(old(metadata.fragments), old(metadata.eof), metadata.fragments, metadata.eof,
                     metadata.mstateMap[id], 0xC0 + 8 * |m.state|)
    {
      hide Placed, Image, FragmentsAgree, AllStorable, Versioned, Slotted, MapsAgree, PrefixFree, Live, ViewOf,
        L.Storable,
           L.Body, L.Encode, Overwrite;
      ViewKeys(metadata, Live(blocks));
      ghost var b := L.Mstate(id, m.alg, m.state);
      var length := 0xC0 + 8 * |m.state|;
      L.BodySizes(b);
      StorableBody(b);
      var sof := Reserve(length);
      SameMaps(old(metadata), metadata, Live(blocks));
      Committed(stream.bits, metadata, blocks, sof, b);
      WriteMstateBlock(stream, sof, length, id, m.alg, m.state);
      blocks := blocks[sof := b];
      metadata := metadata.(mstateMap := metadata.mstateMap[id := sof]);
    }

    method CreateFileEntry(path: Path, ids: seq<nat>) returns (r: Result<()>)
      requires Valid() && Unobstructed(View().files, Tokens(path)) && L.Storable(L.FileInfo(path, ids))
      modifies this, stream
      ensures Valid() && View() == Apply(old(View()), Op.CreateEntry(Tokens(path), ids))
      ensures r == if Known(old(View()).files, Tokens(path)) then Err(InvalidOperation) else Ok(())
      ensures r.Err? ==> metadata == old(metadata) && stream.bits == old(stream.bits)
      ensures r.Ok? ==> Tokens(path) in metadata.fileMap
      ensures r.Ok? ==>
                Placed(old(metadata.fragments), old(metadata.eof), metadata.fragments, metadata.eof,
                       metadata.fileMap[Tokens(path)].sof, 0x82 + 8 * |path| + 0x40 * |ids|)
    {
      hide Placed, Image, FragmentsAgree, AllStorable, Versioned, Slotted, MapsAgree, PrefixFree, Live, ViewOf,
        L.Storable,
           L.Body, L.Encode, Overwrite, Unobstructed, Known, Tokens;
      var key := Tokens(path);
      ViewKeys(metadata, Live(blocks));
      KnownKeys(View().files, metadata.fileMap, key);
      if Known(metadata.fileMap, key) {
        return Err(InvalidOperation);
      }
      ghost var b := L.FileInfo(path, ids);
      var length := 0x40 + 8 * |path| + 0x42 + 0x40 * |ids|;
      L.BodySizes(b);
      StorableBody(b);
      UnknownAbsent(metadata.fileMap, key);
      SettableKeys(View().files, metadata.fileMap, key);
      SetPrefixFree(metadata.fileMap, key, FileEntry(ids, 0));
      var sof := Reserve(length);
      SetPrefixFree(metadata.fileMap, key, FileEntry(ids, sof));
      SameMaps(old(metadata), metadata, Live(blocks));
      Committed(stream.bits, metadata, blocks, sof, b);
      metadata := metadata.(fileMap := metadata.fileMap[key := FileEntry(ids, sof)]);
      WriteFileInfo(stream, sof, length, path, ids);
      blocks := blocks[sof := b];
      r := Ok(());
    }

    /** `install_mstate` with a path. */
    method InstallMstate(path: Path, m: MstateData, id: nat) returns (r: Result<()>)
      requires Valid() && Unobstructed(View().names, Tokens(path)) && id !in View().mstates
      requires L.Storable(L.Mstate(id, m.alg, m.state)) && L.Storable(L.MstateAux(path, id))
      modifies this, stream
      ensures Valid()
      ensures View() == if ValidPath(path) then Apply(old(View()), Op.InstallNamed(Tokens(path), id, m))
                        else old(View())
      ensures r == if !ValidPath(path) then Err(ValidationFailed)
                   else if Known(old(View()).names, Tokens(path)) then Err(InvalidOperation) else Ok(())
    {
      hide Image, FragmentsAgree, AllStorable, Versioned, Slotted, MapsAgree, PrefixFree, Live, ViewOf, L.Storable,
           L.Body, L.Encode, Overwrite, Unobstructed, Known, Tokens, ValidPath;
      if !ValidPath(path) {
        return Err(ValidationFailed);
      }
      var key := Tokens(path);
      ViewKeys(metadata, Live(blocks));
      KnownKeys(View().names, metadata.auxMap, key);
      if Known(metadata.auxMap, key) {
        return Err(InvalidOperation);
      }
      UnknownAbsent(metadata.auxMap, key);
      SettableKeys(View().names, metadata.auxMap, key);
      WriteMstate(m, id);
      assert View().names == old(View()).names;
      WriteName(path, id);
      r := Ok(());
    }

    /** The second half of `install_mstate`: the auxiliary entry. */
    method WriteName(path: Path, id: nat)
      requires Valid() && Tokens(path) !in View().names && Settable(View().names, Tokens(path))
      requires L.Storable(L.MstateAux(path, id))
      modifies this, stream
      ensures Valid()
      ensures View() == var s := old(View()); s.(names := s.names[Tokens(path) := id], named := s.named + {id})
      ensures Tokens(path) in metadata.auxMap &&
              Placed(old(metadata.fragments), old(metadata.eof), metadata.fragments, metadata.eof,
                     metadata.auxMap[Tokens(path)].sof, 0x88 + 8 * |path|)
    {
      hide Placed, Image, FragmentsAgree, AllStorable, Versioned, Slotted, MapsAgree, PrefixFree, Live, ViewOf,
        L.Storable,
           L.Body, L.Encode, Overwrite, Tokens, Settable;
      var key := Tokens(path);
      ViewKeys(metadata, Live(blocks));
      ghost var b := L.MstateAux(path, id);
      var length := 0x48 + 0x40 + 8 * |path|;
      L.BodySizes(b);
      StorableBody(b);
      var sof := Reserve(length);
      SettableSame(old(View()).names, metadata.auxMap, key);
      SetPrefixFree(metadata.auxMap, key, AuxEntry(id, sof));
      SameMaps(old(metadata), metadata, Live(blocks));
      Committed(stream.bits, metadata, blocks, sof, b);
      metadata := metadata.(auxMap := metadata.auxMap[key := AuxEntry(id, sof)]);
      label listed:
      metadata := metadata.(invAux := metadata.invAux + {id});
      WriteMstateAux(stream, sof, length, path, id);
      blocks := blocks[sof := b];
      SameMaps(old@listed(metadata), metadata, Live(blocks));
    }

    /** The blobs are written one by one, then the file's entry. A blob whose model state is not
        stored stops it: the blobs before it stay, with no file. */
    method CreateFile(path: Path, contents: seq<BlobData>, ids: seq<nat>) returns (r: Result<()>, ghost written: nat)
      requires Valid() && Unobstructed(View().files, Tokens(path)) && L.Storable(L.FileInfo(path, ids))
      requires |ids| == |contents| && Distinct(ids)
      requires forall i :: 0 <= i < |ids| ==> ids[i] !in View().blobs && BlobFits(ids, contents, i)
      modifies this, stream
      ensures Valid() && written <= |ids|
      ensures !ValidPath(path) ==> r == Err(ValidationFailed) && View() == old(View())
      ensures ValidPath(path) && Known(old(View()).files, Tokens(path)) ==>
              r == Err(InvalidOperation) && View() == old(View())
      ensures ValidPath(path) && !Known(old(View()).files, Tokens(path)) ==>
        && (forall i :: 0 <= i < written ==> contents[i].mstateId in old(View()).mstates)
        && (written < |ids| ==>
              && r == Err(MstateNotFound) && contents[written].mstateId !in old(View()).mstates
              && Legal(old(View()), WriteOps(ids[..written], contents[..written]))
              && View() == Run(old(View()), WriteOps(ids[..written], contents[..written])))
        && (written == |ids| ==>
              && r == Ok(())
              && Legal(old(View()), WriteOps(ids, contents) + [Op.CreateEntry(Tokens(path), ids)])
              && View() == Run(old(View()), WriteOps(ids, contents) + [Op.CreateEntry(Tokens(path), ids)])
              && Tokens(path) in View().files && View().files[Tokens(path)] == ids
              && forall i :: 0 <= i < |ids| ==> ids[i] in View().blobs && View().blobs[ids[i]] == contents[i])
    {
      hide Image, FragmentsAgree, AllStorable, Versioned, Slotted, MapsAgree, PrefixFree, Live, ViewOf, L.Storable,
           L.Body, L.Encode, Overwrite, Unobstructed, Known, Tokens, ValidPath, BlobFits, Run, Legal;
      written := 0;
      if !ValidPath(path) {
        return Err(ValidationFailed), 0;
      }
      var key := Tokens(path);
      ghost var s := View();
      ViewKeys(metadata, Live(blocks));
      KnownKeys(s.files, metadata.fileMap, key);
      if Known(metadata.fileMap, key) {
        return Err(InvalidOperation), 0;
      }
      RunNone(s);
      assert ids[..0] == [] && contents[..0] == [];
      for i := 0 to |ids|
        invariant Valid() && written == i && View().files == s.files && View().mstates == s.mstates
        invariant Legal(s, WriteOps(ids[..i], contents[..i])) && View() == Run(s, WriteOps(ids[..i], contents[..i]))
        invariant forall k :: i <= k < |ids| ==> ids[k] !in View().blobs
        invariant forall k :: 0 <= k < i ==>
                  ids[k] in View().blobs && View().blobs[ids[k]] == contents[k] && contents[k].mstateId in s.mstates
      {
        BlobStorable(ids, contents, i);
        RunSnoc(s, WriteOps(ids[..i], contents[..i]), Op.WriteBlob(ids[i], contents[i]));
        WriteOpsSnoc(ids, contents, i);
        var w := WriteBlob(contents[i], ids[i]);
        if w.Err? {
          return Err(w.error), i;
        }
        written := i + 1;
      }
      assert ids[..|ids|] == ids && contents[..|ids|] == contents;
      RunSnoc(s, WriteOps(ids, contents), Op.CreateEntry(key, ids));
      r := CreateFileEntry(path, ids);
    }

    // ----- Removing -----

    /** `hza_rm_mstate`: ignored if absent, refused while a counter protects it. */
    method RmMstate(id: nat, ghost keys: set<Key>, ghost ids: set<nat>) returns (r: Result<()>)
      requires Steady() && Agrees(keys, ids)
      modifies this, stream
      ensures Steady() && Agrees(keys, ids)
      ensures ViewBut(keys, ids) == FreeMstate(old(ViewBut(keys, ids)), id)
      ensures r == if id in old(ViewBut(keys, ids)).mstates && id in old(metadata.depCounter)
                   then Err(InvalidOperation) else Ok(())
      ensures metadata == old(metadata).(mstateMap := metadata.mstateMap, fragments := metadata.fragments)
      ensures id in old(metadata.mstateMap) && id !in old(metadata.depCounter) ==>
                && id in old(ViewBut(keys, ids)).mstates
                && metadata.fragments == old(metadata.fragments) +
                     [Fragment(old(metadata.mstateMap)[id], 0xC0 + 8 * |old(ViewBut(keys, ids)).mstates[id].state|)]
    {
      hide Image, FragmentsAgree, AllStorable, Versioned, Slotted, MapsAgree, PrefixFree, Live, ViewOf, L.Storable,
           L.Body, L.Encode, Overwrite;
      ghost var before := Without(metadata, keys, ids);
      ViewKeys(before, Live(blocks));
      r := Ok(());
      if id in metadata.mstateMap {
        if id in metadata.depCounter {
          return Err(InvalidOperation);
        }
        var sof := metadata.mstateMap[id];
        MstateBlock(before, Live(blocks), id);
        Delisting(before, Live(blocks), sof);
        ghost var b := Live(blocks)[sof];
        L.BodySizes(b);
        FreeSpace(sof);
        metadata := metadata.(mstateMap := metadata.mstateMap - {id});
        SameMaps(Delisted(before, b), Without(metadata, keys, ids), Live(blocks));
      }
    }

    method DecrementDep(id: nat, ghost keys: set<Key>, ghost ids: set<nat>)
      requires Steady() && Agrees(keys, ids)
      modifies this, stream
      ensures Steady() && Agrees(keys, ids)
      ensures ViewBut(keys, ids) == Release(old(ViewBut(keys, ids)), id)
      ensures metadata == old(metadata).(mstateMap := metadata.mstateMap, depCounter := metadata.depCounter,
              fragments := metadata.fragments)
    {
      hide Image, FragmentsAgree, AllStorable, Versioned, Slotted, MapsAgree, PrefixFree, Live, ViewOf, L.Storable,
           L.Body, L.Encode, Overwrite;
      ghost var before := Without(metadata, keys, ids);
      if id in metadata.depCounter {
        if metadata.depCounter[id] > 1 {
          metadata := metadata.(depCounter := metadata.depCounter[id := metadata.depCounter[id] - 1]);
          SameMaps(before, Without(metadata, keys, ids), Live(blocks));
        } else {
          metadata := metadata.(depCounter := metadata.depCounter - {id});
          SameMaps(before, Without(metadata, keys, ids), Live(blocks));
          if id !in metadata.invAux {
            var _ := RmMstate(id, keys, ids);
          }
        }
      }
    }

    /** Frees a blob's block and reads the model state it depended on from what is left there. */
    method FreeBlob(id: nat, ghost keys: set<Key>) returns (mstateId: nat)
      requires Steady() && Agrees(keys, {}) && id in metadata.blobMap
      modifies this, stream
      ensures Steady() && Agrees(keys, {id}) && id in old(ViewBut(keys, {})).blobs
      ensures mstateId == old(ViewBut(keys, {})).blobs[id].mstateId
      ensures ViewBut(keys, {id}) == var s := old(ViewBut(keys, {})); s.(blobs := s.blobs - {id})
      ensures metadata == old(metadata).(fragments := metadata.fragments)
    {
      hide Image, FragmentsAgree, AllStorable, Versioned, Slotted, MapsAgree, PrefixFree, Live, ViewOf, L.Storable,
           L.Body, L.Encode, Overwrite, Unmarked, HoldsAt, BitsOf, AtBody;
      ghost var before := Without(metadata, keys, {});
      WithoutBlobs(metadata, keys, id);
      var sof := metadata.blobMap[id];
      BlobBlock(before, Live(blocks), id);
      Delisting(before, Live(blocks), sof);
      ghost var b := Live(blocks)[sof];
      LiveBlock(stream.bits, metadata, blocks, sof);
      FreeSpace(sof);
      BehindLength(stream, sof, L.EMPTY, b);
      mstateId := ReadDependency(stream, sof, b);
      WithoutBlobs(metadata, keys, id);
      SameMaps(Delisted(before, b), Without(metadata, keys, {id}), Live(blocks));
    }

    /** `hza_rm_blob`. */
    method RmBlob(id: nat, ghost keys: set<Key>) returns (r: Result<()>)
      requires Steady() && Agrees(keys, {})
      modifies this, stream
      ensures Steady() && Agrees(keys, {})
      ensures metadata.fileMap == old(metadata.fileMap) && metadata.auxMap == old(metadata.auxMap)
      ensures metadata.eof == old(metadata.eof)
      ensures id in old(ViewBut(keys, {})).blobs ==>
              r == Ok(()) && ViewBut(keys, {}) == DropBlob(old(ViewBut(keys, {})), id)
      ensures id !in old(ViewBut(keys, {})).blobs ==>
              r == Err(BlobNotFound) && ViewBut(keys, {}) == old(ViewBut(keys, {}))
    {
      hide Image, FragmentsAgree, AllStorable, Versioned, Slotted, MapsAgree, PrefixFree, Live, ViewOf, L.Storable,
           L.Body, L.Encode, Overwrite, Release;
      ViewKeys(Without(metadata, keys, {}), Live(blocks));
      WithoutBlobs(metadata, keys, id);
      if id in metadata.blobMap {
        ghost var s := ViewBut(keys, {});
        var mstateId := FreeBlob(id, keys);
        ReleaseElsewhere(s, mstateId, s.files, s.blobs - {id});
        DecrementDep(mstateId, keys, {id});
        WithoutBlobs(metadata, keys, id);
        metadata := metadata.(blobMap := metadata.blobMap - {id});
        r := Ok(());
      } else {
        r := Err(BlobNotFound);
      }
    }

    method RemoveFile(path: Path) returns (r: Result<()>)
      requires Valid() && NoDirectory(metadata.fileMap, Tokens(path)) && Enabled(View(), Op.RemoveFile(Tokens(path)))
      modifies this, stream
      ensures Valid()
      ensures View() == if ValidPath(path) then Apply(old(View()), Op.RemoveFile(Tokens(path))) else old(View())
      ensures r == if !ValidPath(path) then Err(ValidationFailed)
                   else if Tokens(path) in old(View()).files then Ok(()) else Err(FileNotFound)
      ensures metadata.eof == old(metadata.eof)
    {
      hide Image, FragmentsAgree, AllStorable, Versioned, Slotted, MapsAgree, PrefixFree, Live, ViewOf, L.Storable,
           L.Body, L.Encode, Overwrite, Known, Tokens, ValidPath, Release, DropBlob, Distinct, AllIn;
      if !ValidPath(path) {
        return Err(ValidationFailed);
      }
      var key := Tokens(path);
      ViewKeys(metadata, Live(blocks));
      if !Known(metadata.fileMap, key) {
        UnknownAbsent(metadata.fileMap, key);
        return Err(FileNotFound);
      }
      var entry := metadata.fileMap[key];
      ghost var s := View();
      FreeFile(key);
      DropNone(s);
      for i := 0 to |entry.blobIds|
        invariant Steady() && Agrees({key}, {})
        invariant metadata.fileMap == old(metadata.fileMap) && metadata.auxMap == old(metadata.auxMap)
        invariant metadata.eof == old(metadata.eof)
        invariant Distinct(entry.blobIds[..i]) && AllIn(entry.blobIds[..i], s.blobs)
        invariant ViewBut({key}, {}) == DropBlobs(s, entry.blobIds[..i]).(files := s.files - {key})
      {
        DropOneMore(s, entry.blobIds, i, s.files - {key});
        var _ := RmBlob(entry.blobIds[i], {key});
      }
      assert entry.blobIds[..|entry.blobIds|] == entry.blobIds;
      WithoutFile(metadata, key);
      metadata := metadata.(fileMap := metadata.fileMap - {key});
      ErasePrefixFree(old(metadata).fileMap, key);
      r := Ok(());
    }

    /** Frees a file's block; its entry is still listed. */
    method FreeFile(key: Key)
      requires Valid() && key in metadata.fileMap
      modifies this, stream
      ensures Steady() && Agrees({key}, {})
      ensures ViewBut({key}, {}) == var s := old(View()); s.(files := s.files - {key})
      ensures key in old(View()).files && old(View()).files[key] == old(metadata).fileMap[key].blobIds
      ensures metadata == old(metadata).(fragments := metadata.fragments)
    {
      hide Image, FragmentsAgree, AllStorable, Versioned, Slotted, MapsAgree, PrefixFree, Live, ViewOf, L.Storable,
           L.Body, L.Encode, Overwrite, Tokens;
      var sof := metadata.fileMap[key].sof;
      FileBlock(metadata, Live(blocks), key);
      Delisting(metadata, Live(blocks), sof);
      ghost var b := Live(blocks)[sof];
      FreeSpace(sof);
      WithoutFile(metadata, key);
      SameMaps(Delisted(old(metadata), b), Without(metadata, {key}, {}), Live(blocks));
    }

    /** `uninstall_mstate` with an id. */
    method UninstallMstate(id: nat) returns (r: Result<()>)
      requires Valid()
      modifies this, stream
      ensures Valid() && View() == Apply(old(View()), Op.Uninstall(id))
      ensures r == if id in old(View()).mstates && id in old(View()).deps then Err(InvalidOperation) else Ok(())
      ensures metadata.eof == old(metadata.eof)
      ensures id in old(metadata.mstateMap) && id !in old(metadata.depCounter) ==>
                && id in old(View()).mstates
                && metadata.fragments == old(metadata.fragments) +
                     [Fragment(old(metadata.mstateMap)[id], 0xC0 + 8 * |old(View()).mstates[id].state|)]
    {
      hide Image, FragmentsAgree, AllStorable, Versioned, Slotted, MapsAgree, PrefixFree, Live, ViewOf, L.Storable,
           L.Body, L.Encode, Overwrite;
      WithoutNone(metadata);
      r := RmMstate(id, {}, {});
      WithoutNone(metadata);
    }

    /** `uninstall_mstate` with a path. */
    method UninstallNamed(path: Path) returns (r: Result<()>)
      requires Valid() && NoDirectory(metadata.auxMap, Tokens(path))
      modifies this, stream
      ensures Valid()
      ensures View() == if ValidPath(path) then Apply(old(View()), Op.UninstallNamed(Tokens(path))) else old(View())
      ensures !ValidPath(path) ==> r == Err(ValidationFailed)
      ensures ValidPath(path) && Tokens(path) !in old(View()).names ==> r == Err(MstateNotFound)
      ensures ValidPath(path) && Tokens(path) in old(View()).names ==>
        r == var m := old(View()).names[Tokens(path)];
             if m in old(View()).mstates && m in old(View()).deps then Err(InvalidOperation) else Ok(())
      ensures metadata.eof == old(metadata.eof)
    {
      hide Image, FragmentsAgree, AllStorable, Versioned, Slotted, MapsAgree, PrefixFree, Live, ViewOf, L.Storable,
           L.Body, L.Encode, Overwrite, Known, Tokens, ValidPath;
      if !ValidPath(path) {
        return Err(ValidationFailed);
      }
      var key := Tokens(path);
      ViewKeys(metadata, Live(blocks));
      if !Known(metadata.auxMap, key) {
        UnknownAbsent(metadata.auxMap, key);
        return Err(MstateNotFound);
      }
      var entry := metadata.auxMap[key];
      AuxBlock(metadata, Live(blocks), key);
      WithoutNone(metadata);
      r := RmMstate(entry.mstate, {}, {});
      WithoutNone(metadata);
      if r.Err? {
        return;
      }
      DropName(key);
    }

    method DropName(key: Key)
      requires Valid() && key in metadata.auxMap
      modifies this, stream
      ensures Valid() && key in old(View()).names && metadata.eof == old(metadata.eof)
      ensures View() == var s := old(View()); s.(names := s.names - {key}, named := s.named - {s.names[key]})
    {
      hide Image, FragmentsAgree, AllStorable, Versioned, Slotted, MapsAgree, PrefixFree, Live, ViewOf, L.Storable,
           L.Body, L.Encode, Overwrite, Tokens;
      var entry := metadata.auxMap[key];
      AuxBlock(metadata, Live(blocks), key);
      Delisting(metadata, Live(blocks), entry.sof);
      ghost var b := Live(blocks)[entry.sof];
      FreeSpace(entry.sof);
      metadata := metadata.(auxMap := metadata.auxMap - {key}, invAux := metadata.invAux - {entry.mstate});
      SameMaps(Delisted(old(metadata), b), metadata, Live(blocks));
      ErasePrefixFree(old(metadata).auxMap, key);
    }

    // ----- Reading -----

    method ReadMstate(id: nat) returns (r: Result<MstateData>)
      requires Valid()
      modifies stream`pos
      ensures r == if id in View().mstates then Ok(View().mstates[id]) else Err(MstateNotFound)
      ensures Valid() && View() == old(View())
    {
      hide Image, FragmentsAgree, AllStorable, Versioned, Slotted, MapsAgree, PrefixFree, Live, ViewOf, L.Storable,
           L.Body, L.Encode, Overwrite, L.BodyFields;
      ViewKeys(metadata, Live(blocks));
      if id !in metadata.mstateMap {
        return Err(MstateNotFound);
      }
      var sof := metadata.mstateMap[id];
      MstateBlock(metadata, Live(blocks), id);
      LiveBlock(stream.bits, metadata, blocks, sof);
      StartReading(stream, sof, blocks[sof]);
      var alg, state := ReadMstateBody(stream, sof, blocks[sof]);
      r := Ok(MstateData(alg, state));
    }

    /** A blob comes with its model state. */
    method ReadBlob(id: nat) returns (r: Result<(BlobData, MstateData)>)
      requires Valid()
      modifies stream`pos
      ensures id !in View().blobs ==> r == Err(BlobNotFound)
      ensures id in View().blobs ==>
        r == var b := View().blobs[id];
             if b.mstateId in View().mstates then Ok((b, View().mstates[b.mstateId])) else Err(MstateNotFound)
      ensures Valid() && View() == old(View())
    {
      hide Image, FragmentsAgree, AllStorable, Versioned, Slotted, MapsAgree, PrefixFree, Live, ViewOf, L.Storable,
           L.Body, L.Encode, Overwrite, L.BodyFields;
      ViewKeys(metadata, Live(blocks));
      if id !in metadata.blobMap {
        return Err(BlobNotFound);
      }
      var sof := metadata.blobMap[id];
      BlobBlock(metadata, Live(blocks), id);
      LiveBlock(stream.bits, metadata, blocks, sof);
      StartReading(stream, sof, blocks[sof]);
      var header, oSize, mstateId, data := ReadBlobBody(stream, sof, blocks[sof]);
      var m := ReadMstate(mstateId);
      if m.Err? {
        return Err(m.error);
      }
      r := Ok((BlobData(header, oSize, mstateId, data), m.value));
    }

    /** All blobs of a file in order. */
    method ReadFile(path: Path) returns (r: Result<seq<(BlobData, MstateData)>>)
      requires Valid() && NoDirectory(metadata.fileMap, Tokens(path))
      modifies stream`pos
      ensures !ValidPath(path) ==> r == Err(ValidationFailed)
      ensures ValidPath(path) && Tokens(path) !in View().files ==> r == Err(FileNotFound)
      ensures ValidPath(path) && Tokens(path) in View().files ==>
        && (r.Ok? <==> forall i :: 0 <= i < |View().files[Tokens(path)]| ==>
            Readable(View(), View().files[Tokens(path)][i]))
        && (r.Ok? ==> r.value == Contents(View(), View().files[Tokens(path)]))
        && (r.Err? ==> FirstFailure(View(), View().files[Tokens(path)], r.error))
      ensures Valid() && View() == old(View())
    {
      hide Image, FragmentsAgree, AllStorable, Versioned, Slotted, MapsAgree, PrefixFree, Live, ViewOf, L.Storable,
           L.Body, L.Encode, Overwrite, Known, Tokens, ValidPath;
      if !ValidPath(path) {
        return Err(ValidationFailed);
      }
      var key := Tokens(path);
      ViewKeys(metadata, Live(blocks));
      if !Known(metadata.fileMap, key) {
        UnknownAbsent(metadata.fileMap, key);
        return Err(FileNotFound);
      }
      FileBlock(metadata, Live(blocks), key);
      var ids := metadata.fileMap[key].blobIds;
      var all: seq<(BlobData, MstateData)> := [];
      for i := 0 to |ids|
        invariant Valid() && View() == old(View())
        invariant |all| == i
        invariant forall k :: 0 <= k < i ==> Readable(View(), ids[k]) && all[k] == Content(View(), ids[k])
      {
        var blob := ReadBlob(ids[i]);
        if blob.Err? {
          assert !Readable(View(), ids[i]);
          FailsAt(View(), ids, i, blob.error);
          return Err(blob.error);
        }
        all := all + [blob.value];
      }
      assert all == Contents(View(), ids);
      r := Ok(all);
    }

    /** `read_mstate`: by path. */
    method ReadNamed(path: Path) returns (r: Result<MstateData>)
      requires Valid() && NoDirectory(metadata.auxMap, Tokens(path))
      modifies stream`pos
      ensures Tokens(path) !in View().names ==> r == Err(InvalidOperation)
      ensures Tokens(path) in View().names ==>
        r == var m := View().names[Tokens(path)];
             if m in View().mstates then Ok(View().mstates[m]) else Err(MstateNotFound)
      ensures Valid() && View() == old(View())
    {
      hide Image, FragmentsAgree, AllStorable, Versioned, Slotted, MapsAgree, PrefixFree, Live, ViewOf, L.Storable,
           L.Body, L.Encode, Overwrite, Known, Tokens;
      var key := Tokens(path);
      ViewKeys(metadata, Live(blocks));
      if !Known(metadata.auxMap, key) {
        UnknownAbsent(metadata.auxMap, key);
        return Err(InvalidOperation);
      }
      AuxBlock(metadata, Live(blocks), key);
      r := ReadMstate(metadata.auxMap[key].mstate);
    }

    // ----- Scanning -----

    /** Reads one field and moves eof along with the stream. */
    method ScanRead(width: nat, ghost end: nat, ghost fs: seq<L.Field>) returns (v: nat)
      requires Reading(stream, end, fs) && fs != [] && fs[0].width == width && stream.pos == metadata.eof
      modifies stream`pos, this`metadata
      ensures v == fs[0].value && Reading(stream, end, fs[1..]) && stream.pos == metadata.eof
      ensures metadata == old(metadata).(eof := old(metadata.eof) + width)
    {
      hide Reading;
      v := ReadField(stream, width, end, fs);
      metadata := metadata.(eof := metadata.eof + width);
    }

    method ScanEach(n: nat, width: nat, ghost end: nat, ghost vs: seq<nat>, ghost rest: seq<L.Field>)
      returns (r: seq<nat>)
      requires Reading(stream, end, L.Each(vs, width) + rest) && n == |vs| && stream.pos == metadata.eof
      modifies stream`pos, this`metadata
      ensures r == vs && Reading(stream, end, rest) && stream.pos == metadata.eof
      ensures metadata == old(metadata).(eof := metadata.eof)
    {
      hide Reading;
      r := [];
      assert vs[0..] == vs && L.Each([], width) + rest == rest && vs[n..] == [];
      for i := 0 to n
        invariant r == vs[..i] && Reading(stream, end, L.Each(vs[i..], width) + rest) && stream.pos == metadata.eof
        invariant metadata == old(metadata).(eof := metadata.eof)
      {
        ghost var fs := L.Each(vs[i..], width) + rest;
        assert fs[1..] == L.Each(vs[i + 1..], width) + rest;
        var v := ScanRead(width, end, fs);
        r := r + [v];
      }
    }

    /** The scan stands behind the marker of block b at o. */
    ghost predicate Scanning(o: nat, b: Block)
      reads this, stream
    {
      stream.pos == metadata.eof == o + 8 && HoldsAt(stream.bits, o, L.Encode(b)) && L.Storable(b)
    }

    /** Reads the block length, moving eof along. */
    method ScanLength(ghost o: nat, ghost b: Block) returns (length: nat)
      requires Scanning(o, b)
      modifies stream`pos, this`metadata
      ensures length == |L.Body(b)| && stream.pos == metadata.eof == o + 0x48
      ensures !b.Empty? ==> AtBody(stream, o, b)
      ensures metadata == old(metadata).(eof := o + 0x48)
    {
      hide L.Body, L.Encode, HoldsAt, AtBody, Unmarked;
      EncodingParts(b);
      StorableBody(b);
      length := ReadLength(stream, o, b);
      metadata := metadata.(eof := metadata.eof + 0x40);
      if !b.Empty? { BehindLength(stream, o, L.Marker(b), b); }
    }

    /** The scan stands behind the entry type of a metadata block, with these fields to come. */
    ghost predicate Entering(o: nat, b: Block, fs: seq<L.Field>)
      reads this, stream
    {
      stream.pos == metadata.eof && !b.Empty? && Reading(stream, o + L.Size(b), fs) && L.BodyFields(b)[1..] == fs
    }

    method ScanMetadata(ghost o: nat, ghost b: Block) returns (ok: bool)
      requires Scanning(o, b) && L.Marker(b) == L.METADATA
      requires b.FileInfo? ==> Settable(metadata.fileMap, Tokens(b.path))
      requires b.MstateAux? ==> Settable(metadata.auxMap, Tokens(b.path))
      modifies stream`pos, this`metadata
      ensures ok <==> (b.Version? ==> b.version == VERSION)
      ensures ok ==> metadata == Noted(old(metadata), o, b) && stream.pos == metadata.eof
    {
      hide L.Body, L.Encode, HoldsAt, AtBody, Reading, L.Size, Tokens, L.Storable, Settable;
      var sof := metadata.eof;
      var _ := ScanLength(o, b);
      AtBodyReads(stream, o, b);
      var entryType := ScanRead(8, o + L.Size(b), L.BodyFields(b));
      ok := true;
      match entryType
      case 0 =>
        ok := ScanVersion(o, b);
      case 1 =>
        ScanFileInfo(sof, o, b);
      case 2 =>
        ScanMstateAux(sof, o, b);
      case _ =>
    }

    method ScanVersion(ghost o: nat, ghost b: Block) returns (ok: bool)
      requires b.Version? && Entering(o, b, L.BodyFields(b)[1..])
      modifies stream`pos, this`metadata
      ensures ok <==> b.version == VERSION
      ensures metadata == old(metadata).(version := b.version, eof := o + L.Size(b)) && stream.pos == metadata.eof
    {
      hide L.Size, Reading;
      ghost var end, fs := o + L.Size(b), [L.Field(b.version, 0x18)];
      assert L.BodyFields(b)[1..] == fs && fs[1..] == [];
      var version := ScanRead(0x18, end, fs);
      ReadingDone(stream, end, fs[1..]);
      metadata := metadata.(version := version);
      ok := version == VERSION;
    }

    /** Reads a length and as many values. */
    method ScanList(lengthWidth: nat, width: nat, ghost end: nat, ghost vs: seq<nat>, ghost rest: seq<L.Field>)
      returns (r: seq<nat>)
      requires Reading(stream, end, L.Prefixed(vs, lengthWidth, width, rest)) && stream.pos == metadata.eof
      modifies stream`pos, this`metadata
      ensures r == vs && Reading(stream, end, rest) && stream.pos == metadata.eof
      ensures metadata == old(metadata).(eof := metadata.eof)
    {
      hide Reading;
      ghost var fs := L.Prefixed(vs, lengthWidth, width, rest);
      assert fs[1..] == L.Each(vs, width) + rest;
      var length := ScanRead(lengthWidth, end, fs);
      r := ScanEach(length, width, end, vs, rest);
    }

    method ScanFileInfo(sof: nat, ghost o: nat, ghost b: Block)
      requires b.FileInfo? && Entering(o, b, L.BodyFields(b)[1..]) && sof >= 8
      requires Settable(metadata.fileMap, Tokens(b.path))
      modifies stream`pos, this`metadata
      ensures var entry := FileEntry(b.blobIds, sof - 8);
              metadata == old(metadata).(fileMap := old(metadata).fileMap[Tokens(b.path) := entry],
                                         eof := o + L.Size(b))
      ensures stream.pos == metadata.eof
    {
      hide L.Size, L.Prefixed, L.BodyFields, Reading, Tokens, Settable;
      ghost var end, tail := o + L.Size(b), L.Prefixed(b.blobIds, 0x3A, 0x40, []);
      L.FileInfoFields(b);
      var path := ScanList(0x40, 8, end, b.path, tail);
      var blobIds := ScanList(0x3A, 0x40, end, b.blobIds, []);
      ReadingDone(stream, end, []);
      metadata := metadata.(fileMap := metadata.fileMap[Tokens(path) := FileEntry(blobIds, sof - 8)]);
    }

    method ScanMstateAux(sof: nat, ghost o: nat, ghost b: Block)
      requires b.MstateAux? && Entering(o, b, L.BodyFields(b)[1..]) && sof >= 8
      requires Settable(metadata.auxMap, Tokens(b.path))
      modifies stream`pos, this`metadata
      ensures var entry := AuxEntry(b.mstate, sof - 8);
              metadata == old(metadata).(auxMap := old(metadata).auxMap[Tokens(b.path) := entry], eof := o + L.Size(b))
      ensures stream.pos == metadata.eof
    {
      hide L.Size, L.Prefixed, L.BodyFields, Reading, Tokens, Settable;
      ghost var end, tail := o + L.Size(b), [L.Field(b.mstate, 0x40)];
      L.MstateAuxFields(b);
      var path := ScanList(0x40, 8, end, b.path, tail);
      var id := ScanRead(0x40, end, tail);
      ReadingDone(stream, end, tail[1..]);
      metadata := metadata.(auxMap := metadata.auxMap[Tokens(path) := AuxEntry(id, sof - 8)]);
    }

    method ScanBlob(ghost o: nat, ghost b: Block)
      requires Scanning(o, b) && b.Blob?
      modifies stream`pos, this`metadata
      ensures metadata == Noted(old(metadata), o, b) && stream.pos == metadata.eof
    {
      hide L.Body, L.Encode, HoldsAt, AtBody, Reading, L.Storable;
      var sof := metadata.eof - 8;
      var size := ScanLength(o, b);
      AtBodyReads(stream, o, b);
      L.BodySizes(b);
      var id := ScanRead(0x40, o + L.Size(b), L.BodyFields(b));
      stream.Seek(size - 0x40);
      metadata := metadata.(eof := metadata.eof + (size - 0x40));
      metadata := metadata.(blobMap := metadata.blobMap[id := sof]);
    }

    method ScanMstate(ghost o: nat, ghost b: Block)
      requires Scanning(o, b) && b.Mstate?
      modifies stream`pos, this`metadata
      ensures metadata == Noted(old(metadata), o, b) && stream.pos == metadata.eof
    {
      hide L.Body, L.Encode, HoldsAt, AtBody, Reading, L.Storable;
      var sof := metadata.eof - 8;
      var size := ScanLength(o, b);
      AtBodyReads(stream, o, b);
      L.BodySizes(b);
      var id := ScanRead(0x40, o + L.Size(b), L.BodyFields(b));
      stream.Seek(size - 0x40);
      metadata := metadata.(eof := metadata.eof + (size - 0x40));
      metadata := metadata.(mstateMap := metadata.mstateMap[id := sof]);
    }

    method ScanFragment(ghost o: nat, ghost b: Block)
      requires Scanning(o, b) && b.Empty?
      modifies stream`pos, this`metadata
      ensures metadata == Noted(old(metadata), o, b) && stream.pos == metadata.eof
    {
      hide L.Body, L.Encode, HoldsAt, L.Storable;
      var sof := metadata.eof - 8;
      var length := ScanLength(o, b);
      EmptyBody(b);
      metadata := metadata.(fragments := metadata.fragments + [Fragment(sof, length)]);
      stream.Seek(length);
      metadata := metadata.(eof := metadata.eof + length);
    }

    /** The marker at o is known to be m. */
    method ScanMarker(ghost o: nat, ghost m: nat) returns (marker: nat)
      requires stream.pos == metadata.eof == o && m < 0x100 && HoldsAt(stream.bits, o, BitsOf(m, 8))
      modifies stream`pos, this`metadata
      ensures marker == m && stream.pos == metadata.eof
      ensures metadata == old(metadata).(eof := o + 8)
    {
      hide BitsOf, ValueOf, Pow2;
      Pow2Values();
      ValueOfBits(m, 8);
      marker := stream.Read(8);
      metadata := metadata.(eof := metadata.eof + 8);
    }

    /** One block of the scan. */
    method ScanBlock(marker: nat, ghost o: nat, ghost b: Block) returns (ok: bool)
      requires Scanning(o, b) && marker == L.Marker(b)
      requires b.FileInfo? ==> Settable(metadata.fileMap, Tokens(b.path))
      requires b.MstateAux? ==> Settable(metadata.auxMap, Tokens(b.path))
      modifies stream`pos, this`metadata
      ensures ok <==> (b.Version? ==> b.version == VERSION)
      ensures ok ==> metadata == Noted(old(metadata), o, b) && stream.pos == metadata.eof
    {
      hide L.Body, L.Encode, HoldsAt, L.Storable, Settable, Tokens, Noted;
      ok := true;
      if marker == L.METADATA {
        ok := ScanMetadata(o, b);
      } else if marker == L.BLOB {
        ScanBlob(o, b);
      } else if marker == L.MSTATE {
        ScanMstate(o, b);
      } else if marker == L.EMPTY {
        ScanFragment(o, b);
      }
    }

    /** `load`: rebuilds the indexes from the image. If the image is that of an archive whose indexes
        were `saved` when it was closed, it rebuilds those, and the same fragments; it refuses exactly
        the images with an unsupported version. */
    method Load(ghost saved: Metadata, ghost tiles: Blocks) returns (ok: bool)
      requires metadata == NOTHING && stream.pos == 0
      requires Image(stream.bits, tiles, saved.eof) && HoldsAt(stream.bits, saved.eof, BitsOf(L.END, 8)) &&
               AllStorable(tiles)
      requires MapsAgree(saved, Live(tiles)) && PrefixFree(saved.fileMap) && PrefixFree(saved.auxMap)
      modifies this, stream`pos
      ensures ok <==> Supported(tiles)
      ensures ok ==> blocks == tiles && FragmentsAgree(metadata.fragments, tiles, -1) && metadata.eof == saved.eof
      ensures ok ==> metadata.fileMap == saved.fileMap && metadata.auxMap == saved.auxMap
      ensures ok ==> metadata.blobMap == saved.blobMap && metadata.mstateMap == saved.mstateMap
      ensures ok ==> metadata.invAux == {} && metadata.depCounter == map[]
    {
      hide L.Tiled, Live, MapsAgree, PrefixFree, FragmentsAgree, AllStorable, L.Storable, L.Encode, L.Body, BitsOf,
           HoldsAt,
           Noted, Settable, Tokens, Below, ImageExcept;
      ghost var eof := saved.eof;
      BelowEnds(tiles, eof);
      NothingAgrees();
      StartsTiled(tiles, eof);
      while true
        invariant stream.pos == metadata.eof <= eof
        invariant metadata.eof in tiles || metadata.eof == eof
        invariant Scanned(metadata, tiles, metadata.eof)
        invariant forall p :: p in tiles && p < metadata.eof && tiles[p].Version? ==> tiles[p].version == VERSION
        invariant metadata.invAux == {} && metadata.depCounter == map[]
        decreases eof - metadata.eof
      {
        ghost var o, before := metadata.eof, metadata;
        L.NothingAtEnd(tiles, eof);
        if o in tiles { NextBlock(stream.bits, tiles, eof, o); }
        var marker := ScanMarker(o, if o == eof then L.END else L.Marker(tiles[o]));
        if marker == L.END {
          metadata := metadata.(eof := metadata.eof - 8);
          break;
        }
        NextSettable(before, saved, tiles, o);
        ok := ScanBlock(marker, o, tiles[o]);
        if !ok {
          return;
        }
        ScanStep(before, saved, tiles, eof, o);
        NotedEof(before, metadata, o, tiles[o]);
        VersionsNext(tiles, eof, o);
      }
      blocks := tiles;
      AgreementUnique(metadata, saved, Live(tiles));
      ok := true;
    }

    /** Marks the end of the archive; whatever lay behind it is no longer read. */
    method Close()
      requires Valid()
      modifies stream
      ensures Valid() && View() == old(View()) && blocks == old(blocks) && metadata == old(metadata)
      ensures HoldsAt(stream.bits, metadata.eof, BitsOf(L.END, 8))
    {
      hide Image, FragmentsAgree, AllStorable, Versioned, Slotted, MapsAgree, PrefixFree, Live, ViewOf, L.Storable,
           L.Body, L.Encode, Overwrite, BitsOf, HoldsAt;
      EndWithin(stream.bits, metadata, blocks);
      ImageBehind(stream.bits, blocks, metadata.eof, BitsOf(L.END, 8));
      stream.SeekTo(metadata.eof);
      stream.Write(L.END, 8);
    }

    /** Writes the version block and the end marker into an empty file. */
    method Init()
      requires stream.bits == []
      modifies stream
      ensures Sound(stream.bits, FreshMetadata(), FreshBlocks())
      ensures HoldsAt(stream.bits, 0x68, BitsOf(L.END, 8)) && stream.pos == 0
    {
      hide Sound, L.Encode, L.Body, Written, Overwrite, BitsOf, L.Size, HoldsAt;
      ghost var b, b0 := L.Version(VERSION), stream.bits;
      ghost var fs := L.Prefix(b);
      VersionBlock();
      WritePrefix(stream, 0, 0x20, b, L.METADATA);
      WriteField(stream, 0, 8, b0, 0, fs);
      WriteField(stream, VERSION, 0x18, b0, 0, fs + [L.Field(0, 8)]);
      assert fs + [L.Field(0, 8)] + [L.Field(VERSION, 0x18)] == fs + L.BodyFields(b);
      WrittenBlock(stream, b0, 0, b, fs + L.BodyFields(b));
      assert Overwrite([], 0, L.Encode(b)) == L.Encode(b) by { OverwriteEmpty(L.Encode(b)); }
      InitBits(stream.bits);
      stream.Write(L.END, 8);
      stream.SeekTo(0);
    }

    /** A new archive: created, initialized and loaded, it stores nothing. */
    static method Create() returns (a: HzArchive)
      ensures fresh(a) && fresh(a.stream) && a.Valid() && a.View() == EMPTY_STORE
      ensures a.metadata.eof == 0x68 && a.metadata.fragments == []
    {
      hide Image, FragmentsAgree, AllStorable, Versioned, L.Encode, L.Body, MapsAgree, L.Storable, ViewOf, BitsOf,
           HoldsAt, PrefixFree, Live, Supported;
      a := new HzArchive([]);
      a.Init();
      FreshAgrees(FreshMetadata());
      var _ := a.Load(FreshMetadata(), FreshBlocks());
      FreshAgrees(a.metadata);
      NoFragments(a.metadata.fragments);
    }

    /** Closing an archive and loading its bits into another restores everything but the counters and
        the marks of named model states, which the image does not hold. */
    static method Reopen(a: HzArchive) returns (b: HzArchive)
      requires a.Valid()
      modifies a.stream
      ensures fresh(b) && fresh(b.stream) && b.Valid() && a.Valid()
      ensures b.blocks == a.blocks && b.metadata.eof == a.metadata.eof
      ensures b.metadata.fileMap == a.metadata.fileMap && b.metadata.auxMap == a.metadata.auxMap
      ensures b.metadata.blobMap == a.metadata.blobMap && b.metadata.mstateMap == a.metadata.mstateMap
      ensures forall f :: f in b.metadata.fragments <==> f in a.metadata.fragments
      ensures b.View() == a.View().(deps := map[], named := {}) && a.View() == old(a.View())
    {
      hide Image, FragmentsAgree, AllStorable, Versioned, Slotted, MapsAgree, PrefixFree, Live, ViewOf, L.Storable,
           L.Body, L.Encode, Overwrite, BitsOf, HoldsAt;
      a.Close();
      b := new HzArchive(a.stream.bits);
      SoundSupported(a.stream.bits, a.metadata, a.blocks);
      var _ := b.Load(a.metadata, a.blocks);
      SameMaps(a.metadata, b.metadata, Live(a.blocks));
      FragmentsUnique(a.metadata.fragments, b.metadata.fragments, a.blocks);
    }
  }
}
