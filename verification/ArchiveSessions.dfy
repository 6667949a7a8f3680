/** What stays readable over a session, and why files can be removed. */
module ArchiveSessions {
  import opened Paths
  import opened Permutations
  import opened ArchiveStore
  import opened ArchiveCounts

  // ----- What is written stays -----

  ghost predicate Drops(s: Store, op: Op, id: nat) {
    op.RemoveFile? && op.key in s.files && id in s.files[op.key]
  }

  /** A stored blob goes exactly when a file that lists it is removed; until then it is unchanged. */
  lemma BlobStep(s: Store, op: Op, id: nat)
    requires Enabled(s, op) && id in s.blobs
    ensures id in Apply(s, op).blobs <==> !Drops(s, op, id)
    ensures id in Apply(s, op).blobs ==> Apply(s, op).blobs[id] == s.blobs[id]
  {
    hide Known;
  }

  /** The removals that free a model state: by id or by name while no blob uses it, or with the last
      blob that uses it when it has no name. */
  ghost predicate Frees(s: Store, op: Op, m: nat) {
    match op
    case RemoveFile(key) =>
      key in s.files && m !in s.named && Dependents(s.blobs, m) != {}
      && forall id :: id in Dependents(s.blobs, m) ==> id in s.files[key]
    case Uninstall(id) => id == m && Dependents(s.blobs, m) == {}
    case UninstallNamed(key) => key in s.names && s.names[key] == m && Dependents(s.blobs, m) == {}
    case _ => false
  }

  lemma {:induction false} DropBlobsMstate(s: Store, ids: seq<nat>, m: nat)
    requires DepsExact(s) && Distinct(ids) && AllIn(ids, s.blobs) && m in s.mstates
    ensures var r := DropBlobs(s, ids);
            && (m !in r.mstates <==> m !in s.named && Dependents(s.blobs, m) != {}
                                     && forall id :: id in Dependents(s.blobs, m) ==> id in ids)
            && (m in r.mstates ==> r.mstates[m] == s.mstates[m])
    decreases |ids|
  {
    if ids == [] {
      if Dependents(s.blobs, m) != {} {
        var id :| id in Dependents(s.blobs, m);
        assert id !in ids;
      }
    } else {
      DropMore(s, ids, m);
    }
  }

  lemma {:induction false} DropMore(s: Store, ids: seq<nat>, m: nat)
    requires DepsExact(s) && Distinct(ids) && AllIn(ids, s.blobs) && m in s.mstates && ids != []
    ensures var r := DropBlobs(s, ids);
            && (m !in r.mstates <==> m !in s.named && Dependents(s.blobs, m) != {}
                                     && forall id :: id in Dependents(s.blobs, m) ==> id in ids)
            && (m in r.mstates ==> r.mstates[m] == s.mstates[m])
    decreases |ids|, 0
  {
    var d := DropBlob(s, ids[0]);
    LastDependent(s, ids[0]);
    DropBlobExact(s, ids[0]);
    DropFirst(s, ids);
    assert Dependents(d.blobs, m) == Dependents(s.blobs, m) - {ids[0]};
    assert forall id :: id in ids <==> id == ids[0] || id in ids[1..];
    hide DepsExact, Release;
    if m in d.mstates {
      DropBlobsMstate(d, ids[1..], m);
    } else {
      GoneStays(d, ids[1..], m);
    }
  }

  lemma {:induction false} GoneStays(s: Store, ids: seq<nat>, m: nat)
    requires Distinct(ids) && AllIn(ids, s.blobs) && m !in s.mstates
    ensures m !in DropBlobs(s, ids).mstates
    decreases |ids|
  {
    if ids == [] {
    } else {
      DropFirst(s, ids);
      GoneStays(DropBlob(s, ids[0]), ids[1..], m);
    }
  }

  /** A stored model state goes exactly when it is freed; until then it is unchanged. */
  lemma MstateStep(s: Store, op: Op, m: nat)
    requires DepsExact(s) && Enabled(s, op) && m in s.mstates
    ensures m in Apply(s, op).mstates <==> !Frees(s, op, m)
    ensures m in Apply(s, op).mstates ==> Apply(s, op).mstates[m] == s.mstates[m]
  {
    hide Known, Dependents;
    assert DepExact(s, m);
    if op.RemoveFile? && op.key in s.files { DropBlobsMstate(s, s.files[op.key], m); }
  }

  ghost predicate NeverFreed(s: Store, ops: seq<Op>, m: nat)
    requires Legal(s, ops)
    decreases |ops|
  {
    ops == [] || (!Frees(s, ops[0], m) && NeverFreed(Apply(s, ops[0]), ops[1..], m))
  }

  lemma {:induction false} MstateStays(s: Store, ops: seq<Op>, m: nat)
    requires DepsExact(s) && Legal(s, ops) && m in s.mstates && NeverFreed(s, ops, m)
    ensures m in Run(s, ops).mstates && Run(s, ops).mstates[m] == s.mstates[m]
    decreases |ops|
  {
    hide Apply, Enabled, Frees, DepsExact;
    if ops == [] {
    } else {
      MstateStep(s, ops[0], m);
      ApplyExact(s, ops[0]);
      MstateStays(Apply(s, ops[0]), ops[1..], m);
    }
  }

  ghost predicate NeverDropped(s: Store, ops: seq<Op>, id: nat)
    requires Legal(s, ops)
    decreases |ops|
  {
    ops == [] || (!Drops(s, ops[0], id) && NeverDropped(Apply(s, ops[0]), ops[1..], id))
  }

  /** With exact counters an operation that leaves a blob leaves its model state too. */
  lemma ReadStep(s: Store, op: Op, id: nat)
    requires DepsExact(s) && Enabled(s, op) && id in s.blobs && !Drops(s, op, id)
    ensures Readable(s, id) && Readable(Apply(s, op), id) && Content(Apply(s, op), id) == Content(s, id)
  {
    hide Apply, Enabled;
    ExactReadable(s, id);
    BlobStep(s, op, id);
    var m := s.blobs[id].mstateId;
    assert id in Dependents(s.blobs, m);
    MstateStep(s, op, m);
  }

  /** Through any run that never removes a file listing it a blob reads back unchanged, with its
      model state. */
  lemma {:induction false} BlobStays(s: Store, ops: seq<Op>, id: nat)
    requires DepsExact(s) && Legal(s, ops) && id in s.blobs && NeverDropped(s, ops, id)
    ensures Readable(s, id) && Readable(Run(s, ops), id) && Content(Run(s, ops), id) == Content(s, id)
    decreases |ops|
  {
    hide Apply, Enabled, Drops, DepsExact, Content;
    if ops == [] {
      ExactReadable(s, id);
    } else {
      ReadStep(s, ops[0], id);
      ApplyExact(s, ops[0]);
      BlobStep(s, ops[0], id);
      BlobStays(Apply(s, ops[0]), ops[1..], id);
    }
  }

  // ----- Arbitrary counters, as after a reload -----

  /** How many of the ids use a model state. */
  ghost function Uses(blobs: map<nat, BlobData>, ids: seq<nat>, m: nat): nat {
    if ids == [] then 0
    else Uses(blobs, ids[1..], m) + if ids[0] in blobs && blobs[ids[0]].mstateId == m then 1 else 0
  }

  lemma {:induction false} UsesSame(a: map<nat, BlobData>, b: map<nat, BlobData>, ids: seq<nat>, m: nat)
    requires forall i :: 0 <= i < |ids| ==> ids[i] in a && ids[i] in b && a[ids[i]] == b[ids[i]]
    ensures Uses(a, ids, m) == Uses(b, ids, m)
  {
    if ids == [] {
    } else {
      UsesSame(a, b, ids[1..], m);
    }
  }

  lemma DropKeeps(s: Store, ids: seq<nat>)
    requires ids != [] && Distinct(ids) && AllIn(ids, s.blobs)
    ensures var b := DropBlob(s, ids[0]).blobs;
            forall i :: 1 <= i < |ids| ==> ids[i] in b && b[ids[i]] == s.blobs[ids[i]]
  {
  }

  /** What dropping one blob does to a model state and its counter. */
  lemma DropOne(s: Store, id: nat, m: nat)
    requires id in s.blobs && m in s.mstates
    ensures var d := DropBlob(s, id);
            && d.named == s.named && (m in d.mstates ==> d.mstates[m] == s.mstates[m])
            && if s.blobs[id].mstateId == m then
                 && (m !in d.mstates <==> m !in s.named && m in s.deps && s.deps[m] <= 1)
                 && (m in d.deps <==> m in s.deps && s.deps[m] > 1)
                 && (m in d.deps ==> d.deps[m] == s.deps[m] - 1)
               else
                 && m in d.mstates && (m in d.deps <==> m in s.deps)
                 && (m in d.deps ==> d.deps[m] == s.deps[m])
  {
  }

  /** Dropping blobs frees a model state exactly when its counter is used up on the way. */
  lemma {:induction false} DropBlobsCounted(s: Store, ids: seq<nat>, m: nat)
    requires Distinct(ids) && AllIn(ids, s.blobs) && m in s.mstates
    ensures var r := DropBlobs(s, ids);
            var n := Uses(s.blobs, ids, m);
            && (m !in r.mstates <==> m !in s.named && m in s.deps && n >= 1 && n >= s.deps[m])
            && (m in r.mstates ==> r.mstates[m] == s.mstates[m])
    decreases |ids|
  {
    if ids == [] {
    } else {
      DropFirst(s, ids);
      DropOne(s, ids[0], m);
      var d := DropBlob(s, ids[0]);
      DropKeeps(s, ids);
      UsesSame(s.blobs, d.blobs, ids[1..], m);
      hide DropBlob, Distinct, AllIn;
      if m in d.mstates {
        DropBlobsCounted(d, ids[1..], m);
      } else {
        GoneStays(d, ids[1..], m);
      }
    }
  }

  /** The operations that take a model state away, whatever the counters say: removing it while it has
      no counter, or removing a file with as many of its dependents as its counter has left. */
  ghost predicate Strands(s: Store, op: Op, m: nat) {
    match op
    case RemoveFile(key) =>
      key in s.files && m !in s.named && m in s.deps
      && 1 <= Uses(s.blobs, s.files[key], m) && s.deps[m] <= Uses(s.blobs, s.files[key], m)
    case Uninstall(id) => id == m && m !in s.deps
    case UninstallNamed(key) => key in s.names && s.names[key] == m && m !in s.deps
    case _ => false
  }

  /** For arbitrary counters: a readable blob stays readable if and only if the operation neither drops
      it nor strands it; and what it reads as never changes. */
  lemma ReadableStep(s: Store, op: Op, id: nat)
    requires Enabled(s, op) && Readable(s, id)
    ensures Readable(Apply(s, op), id) <==> !Drops(s, op, id) && !Strands(s, op, s.blobs[id].mstateId)
    ensures Readable(Apply(s, op), id) ==> Content(Apply(s, op), id) == Content(s, id)
  {
    hide Known, DropBlobs;
    BlobStep(s, op, id);
    var m := s.blobs[id].mstateId;
    if op.RemoveFile? && op.key in s.files { DropBlobsCounted(s, s.files[op.key], m); }
  }

  /** After a reload every stored blob can be stranded, by removing its model state by id; before it
      the counter protected it. */
  lemma ReloadStrands(s: Store, id: nat)
    requires DepsExact(s) && id in s.blobs
    ensures var op := Uninstall(s.blobs[id].mstateId);
            var r := s.(deps := map[], named := {});
            Readable(Apply(s, op), id) && Readable(r, id) && !Readable(Apply(r, op), id)
  {
    hide DepsExact, Apply;
    ExactReadable(s, id);
    var op := Uninstall(s.blobs[id].mstateId);
    ReadableStep(s.(deps := map[], named := {}), op, id);
    ReadStep(s, op, id);
  }

  // ----- What each operation adds, and what reads back -----

  /** A new blob is there exactly after it is written on a stored model state, as it was written. */
  lemma NewBlob(s: Store, op: Op, id: nat)
    requires Enabled(s, op) && id !in s.blobs
    ensures var r := Apply(s, op);
            && (id in r.blobs <==> op.WriteBlob? && op.id == id && op.blob.mstateId in s.mstates)
            && (id in r.blobs ==> r.blobs[id] == op.blob)
  {
    hide Known;
  }

  /** A new model state is there exactly after it is installed, under a new name if under any. */
  lemma NewMstate(s: Store, op: Op, m: nat)
    requires Enabled(s, op) && m !in s.mstates
    ensures var r := Apply(s, op);
            && (m in r.mstates <==> (op.Install? && op.id == m)
                                    || (op.InstallNamed? && op.id == m && !Known(s.names, op.key)))
            && (m in r.mstates ==> r.mstates[m] == op.mstate)
  {
    hide Known;
    if op.RemoveFile? && op.key in s.files { GoneStays(s, s.files[op.key], m); }
  }

  /** A file is there until it is removed, and after it is entered under a path the trie does not know. */
  lemma FileStep(s: Store, op: Op, key: Key)
    requires Enabled(s, op)
    ensures var r := Apply(s, op);
            var entered := op.CreateEntry? && op.key == key && !Known(s.files, key);
            && (key in r.files <==> entered || (key in s.files && op != RemoveFile(key)))
            && (key in r.files ==> r.files[key] == if entered then op.blobIds else s.files[key])
  {
    if key in s.files { KnownStored(s.files, key); }
    hide Known;
  }

  /** A name is there until it is uninstalled, which a counter on its model state refuses, and after a
      model state is installed under a name the trie does not know. */
  lemma NameStep(s: Store, op: Op, key: Key)
    requires Enabled(s, op)
    ensures var r := Apply(s, op);
            var given := op.InstallNamed? && op.key == key && !Known(s.names, key);
            && (key in r.names <==> given || (key in s.names && !(op == UninstallNamed(key)
                                                                  && (s.names[key] in s.mstates ==>
                                                                      s.names[key] !in s.deps))))
            && (key in r.names ==> r.names[key] == if given then op.id else s.names[key])
  {
    if key in s.names { KnownStored(s.names, key); }
    hide Known;
  }

  lemma KnownStored<V>(entries: map<Key, V>, key: Key)
    requires key in entries
    ensures Known(entries, key)
  {
  }

  /** What is written reads back as it was written, through any run that never drops it. */
  lemma WrittenReads(s: Store, id: nat, b: BlobData, ops: seq<Op>)
    requires DepsExact(s) && id !in s.blobs && b.mstateId in s.mstates
    requires Legal(Apply(s, WriteBlob(id, b)), ops) && NeverDropped(Apply(s, WriteBlob(id, b)), ops, id)
    ensures var r := Run(Apply(s, WriteBlob(id, b)), ops);
            Readable(r, id) && Content(r, id) == (b, s.mstates[b.mstateId])
  {
    hide DepsExact, Run, Legal, NeverDropped;
    ApplyExact(s, WriteBlob(id, b));
    BlobStays(Apply(s, WriteBlob(id, b)), ops, id);
  }

  /** What is installed reads back as it was installed, through any run that never frees it. */
  lemma InstalledReads(s: Store, op: Op, ops: seq<Op>)
    requires DepsExact(s) && Enabled(s, op)
    requires op.Install? || (op.InstallNamed? && !Known(s.names, op.key))
    requires Legal(Apply(s, op), ops) && NeverFreed(Apply(s, op), ops, op.id)
    ensures op.id in Run(Apply(s, op), ops).mstates && Run(Apply(s, op), ops).mstates[op.id] == op.mstate
  {
    NewMstate(s, op, op.id);
    ApplyExact(s, op);
    hide DepsExact, Run, Legal, NeverFreed, Apply, Known;
    MstateStays(Apply(s, op), ops, op.id);
  }

  /** A file lists what it was entered with, through any run that never removes it. */
  lemma {:induction false} FileStays(s: Store, ops: seq<Op>, key: Key)
    requires Legal(s, ops) && key in s.files && RemoveFile(key) !in ops
    ensures key in Run(s, ops).files && Run(s, ops).files[key] == s.files[key]
    decreases |ops|
  {
    if ops == [] {
    } else {
      FileStep(s, ops[0], key);
      KnownStored(s.files, key);
      hide Apply, Enabled, Known;
      FileStays(Apply(s, ops[0]), ops[1..], key);
    }
  }

  // ----- Files own their blobs -----

  ghost predicate Owns(s: Store, k: Key)
    requires k in s.files
  {
    Distinct(s.files[k]) && AllIn(s.files[k], s.blobs)
  }

  ghost predicate Disjoint(s: Store, k: Key, l: Key)
    requires k in s.files && l in s.files
  {
    forall id :: id in s.files[k] ==> id !in s.files[l]
  }

  /** Every file lists distinct stored blobs that no other file lists. */
  ghost predicate Owned(s: Store) {
    && (forall k {:trigger Owns(s, k)} :: k in s.files ==> Owns(s, k))
    && (forall k, l {:trigger Disjoint(s, k, l)} :: k in s.files && l in s.files && k != l ==> Disjoint(s, k, l))
  }

  /** A new entry lists distinct stored blobs that no file lists yet. */
  ghost predicate Claims(s: Store, op: Op) {
    op.CreateEntry? ==>
      && Distinct(op.blobIds) && AllIn(op.blobIds, s.blobs)
      && forall k :: k in s.files ==> forall id :: id in op.blobIds ==> id !in s.files[k]
  }

  /** Then removing any file is always possible. */
  lemma OwnedStep(s: Store, op: Op)
    requires Owned(s) && Enabled(s, op) && Claims(s, op)
    ensures Owned(Apply(s, op))
    ensures forall key :: Enabled(Apply(s, op), RemoveFile(key))
  {
    hide Known;
    var s' := Apply(s, op);
    forall k | k in s'.files ensures Owns(s', k) {
      if k in s.files {
        assert Owns(s, k);
        if op.RemoveFile? && op.key in s.files { assert Disjoint(s, k, op.key); }
      }
    }
    forall k, l | k in s'.files && l in s'.files && k != l ensures Disjoint(s', k, l) {
      if k in s.files && l in s.files { assert Disjoint(s, k, l); }
    }
    forall key ensures Enabled(s', RemoveFile(key)) { if key in s'.files { assert Owns(s', key); } }
  }

  // ----- Short runs that go wrong -----

  /** One blob, closed and loaded: its counter is gone, and removing its model state by id now leaves
      the blob unreadable. */
  lemma OneBlobReloaded(m: MstateData, b: BlobData)
    requires b.mstateId == 7
    ensures var ops := [Install(7, m), WriteBlob(1, b)];
            && Legal(EMPTY_STORE, ops)
            && var r := Run(EMPTY_STORE, ops).(deps := map[], named := {});
               !DepsExact(r) && Readable(r, 1) && !Readable(Apply(r, Uninstall(7)), 1)
  {
    var s1 := Apply(EMPTY_STORE, Install(7, m));
    var s2 := Apply(s1, WriteBlob(1, b));
    RunTwo(EMPTY_STORE, Install(7, m), WriteBlob(1, b));
    assert 7 in s1.mstates && 1 in s2.blobs && s2.blobs[1] == b;
    FreshExact();
    ApplyExact(EMPTY_STORE, Install(7, m));
    ApplyExact(s1, WriteBlob(1, b));
    ReloadExactIff(s2);
    ReloadStrands(s2, 1);
    assert s2 == Run(EMPTY_STORE, [Install(7, m), WriteBlob(1, b)]);
  }

  /** A model state installed under a name and removed by its id: the name leads nowhere. */
  lemma NamedRemovedById(key: Key, m: MstateData)
    requires key != []
    ensures var ops := [InstallNamed(key, 7, m), Uninstall(7)];
            && Legal(EMPTY_STORE, ops)
            && var r := Run(EMPTY_STORE, ops);
               !NamesExact(r) && key in r.names && r.names[key] == 7 && 7 !in r.mstates
  {
    RunTwo(EMPTY_STORE, InstallNamed(key, 7, m), Uninstall(7));
    var s := Apply(EMPTY_STORE, InstallNamed(key, 7, m));
    assert !Known(EMPTY_STORE.names, key);
    assert s.names == map[key := 7] && 7 in s.mstates && s.deps == map[];
    var r := Run(EMPTY_STORE, [InstallNamed(key, 7, m), Uninstall(7)]);
    assert r == Apply(s, Uninstall(7)) == s.(mstates := s.mstates - {7});
    assert key in r.names;
  }

  lemma RunTwo(s: Store, a: Op, b: Op)
    requires Enabled(s, a) && Enabled(Apply(s, a), b)
    ensures Legal(s, [a, b]) && Run(s, [a, b]) == Apply(Apply(s, a), b)
  {
    hide Apply, Enabled;
    assert [a, b][1..] == [b] && [b][1..] == [];
    assert Legal(Apply(Apply(s, a), b), []);
    assert Legal(Apply(s, a), [b]) && Run(Apply(s, a), [b]) == Apply(Apply(s, a), b);
  }
}
