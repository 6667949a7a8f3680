/** The reference counts and the protecting marks of model states, over whole sessions. */
module ArchiveCounts {
  import opened Paths
  import opened Permutations
  import opened ArchiveStore

  // ----- Reference counts are exact -----

  ghost function Dependents(blobs: map<nat, BlobData>, m: nat): set<nat> {
    set id | id in blobs && blobs[id].mstateId == m
  }

  ghost predicate DepExact(s: Store, m: nat) {
    && (m in s.deps <==> Dependents(s.blobs, m) != {})
    && (m in s.deps ==> s.deps[m] == |Dependents(s.blobs, m)| && m in s.mstates)
  }

  /** Every counter is the number of stored blobs that use the model state, which is stored too. */
  ghost predicate DepsExact(s: Store) {
    forall m {:trigger DepExact(s, m)} :: DepExact(s, m)
  }

  lemma DependentsPut(blobs: map<nat, BlobData>, id: nat, b: BlobData, m: nat)
    requires id !in blobs
    ensures m == b.mstateId ==> |Dependents(blobs[id := b], m)| == |Dependents(blobs, m)| + 1
    ensures m != b.mstateId ==> Dependents(blobs[id := b], m) == Dependents(blobs, m)
  {
    if m == b.mstateId { assert Dependents(blobs[id := b], m) == Dependents(blobs, m) + {id}; }
  }

  lemma DependentsDrop(blobs: map<nat, BlobData>, id: nat, m: nat)
    requires id in blobs
    ensures m == blobs[id].mstateId ==> |Dependents(blobs, m)| == |Dependents(blobs - {id}, m)| + 1
    ensures m != blobs[id].mstateId ==> Dependents(blobs - {id}, m) == Dependents(blobs, m)
  {
    if m == blobs[id].mstateId { assert Dependents(blobs, m) == Dependents(blobs - {id}, m) + {id}; }
  }

  lemma EmptyIff(s: set<nat>)
    ensures s == {} <==> |s| == 0
  {
  }

  lemma PutBlobExact(s: Store, id: nat, b: BlobData)
    requires DepsExact(s) && id !in s.blobs && b.mstateId in s.mstates
    ensures DepsExact(PutBlob(s, id, b))
  {
    hide Dependents;
    var s' := PutBlob(s, id, b);
    forall m ensures DepExact(s', m) {
      assert DepExact(s, m);
      DependentsPut(s.blobs, id, b, m);
      EmptyIff(Dependents(s'.blobs, m));
      EmptyIff(Dependents(s.blobs, m));
    }
  }

  lemma DropBlobExact(s: Store, id: nat)
    requires DepsExact(s) && id in s.blobs
    ensures DepsExact(DropBlob(s, id))
  {
    hide Dependents;
    var s' := DropBlob(s, id);
    var m0 := s.blobs[id].mstateId;
    assert DepExact(s, m0);
    DependentsDrop(s.blobs, id, m0);
    EmptyIff(Dependents(s.blobs, m0));
    forall m ensures DepExact(s', m) {
      assert DepExact(s, m);
      DependentsDrop(s.blobs, id, m);
      EmptyIff(Dependents(s'.blobs, m));
    }
  }

  lemma {:induction false} DropBlobsExact(s: Store, ids: seq<nat>)
    requires DepsExact(s) && Distinct(ids) && AllIn(ids, s.blobs)
    ensures DepsExact(DropBlobs(s, ids))
    decreases |ids|
  {
    hide DepsExact, DropBlob;
    if ids == [] {
    } else {
      DropBlobExact(s, ids[0]);
      DropFirst(s, ids);
      DropBlobsExact(DropBlob(s, ids[0]), ids[1..]);
    }
  }

  /** Operations keep the counters exact. */
  lemma ApplyExact(s: Store, op: Op)
    requires DepsExact(s) && Enabled(s, op)
    ensures DepsExact(Apply(s, op))
  {
    match op
    case WriteBlob(id, b) => if b.mstateId in s.mstates { PutBlobExact(s, id, b); }
    case RemoveFile(key) => if key in s.files {
      var d := DropBlobs(s, s.files[key]);
      DropBlobsExact(s, s.files[key]);
      SameCounts(d, Apply(s, op));
    }
    case CreateEntry(_, _) => SameCounts(s, Apply(s, op));
    case _ => OtherExact(s, op);
  }

  lemma SameCounts(s: Store, s': Store)
    requires DepsExact(s) && s'.blobs == s.blobs && s'.deps == s.deps
    requires forall m :: m in s.mstates && m in s.deps ==> m in s'.mstates
    ensures DepsExact(s')
  {
    hide Dependents;
    forall m ensures DepExact(s', m) { assert DepExact(s, m); }
  }

  lemma OtherExact(s: Store, op: Op)
    requires DepsExact(s) && Enabled(s, op) && !op.WriteBlob? && !op.RemoveFile? && !op.CreateEntry?
    ensures DepsExact(Apply(s, op))
  {
    hide DepsExact, Known;
    SameCounts(s, Apply(s, op));
  }

  /** In every session that starts on a fresh archive the counters are exact. */
  lemma {:induction false} RunExact(s: Store, ops: seq<Op>)
    requires DepsExact(s) && Legal(s, ops)
    ensures DepsExact(Run(s, ops))
    decreases |ops|
  {
    hide DepsExact, Apply, Enabled;
    if ops == [] {
    } else {
      ApplyExact(s, ops[0]);
      RunExact(Apply(s, ops[0]), ops[1..]);
    }
  }

  lemma FreshExact()
    ensures DepsExact(EMPTY_STORE)
  {
    forall m ensures DepExact(EMPTY_STORE, m) { assert Dependents(EMPTY_STORE.blobs, m) == {}; }
  }

  /** While the counters are exact every stored blob finds its model state. */
  lemma ExactReadable(s: Store, id: nat)
    requires DepsExact(s) && id in s.blobs
    ensures s.blobs[id].mstateId in s.mstates
  {
    assert DepExact(s, s.blobs[id].mstateId);
    assert id in Dependents(s.blobs, s.blobs[id].mstateId);
  }

  /** Dropping a blob frees its model state exactly when nothing else uses it and it has no name. */
  lemma LastDependent(s: Store, id: nat)
    requires DepsExact(s) && id in s.blobs
    ensures var m := s.blobs[id].mstateId;
            DropBlob(s, id).mstates ==
              if Dependents(s.blobs, m) == {id} && m !in s.named then s.mstates - {m} else s.mstates
  {
    var m := s.blobs[id].mstateId;
    assert DepExact(s, m);
    assert id in Dependents(s.blobs, m);
    if s.deps[m] > 1 {
      assert |{id}| == 1;
    } else {
      assert Dependents(s.blobs, m) == {id} by {
        assert |Dependents(s.blobs, m) - {id}| == 0;
      }
    }
  }

  /** A reload forgets the counters: they are exact again only if no blob is stored. */
  lemma ReloadExactIff(s: Store)
    requires DepsExact(s)
    ensures DepsExact(s.(deps := map[], named := {})) <==> s.blobs == map[]
  {
    var r := s.(deps := map[], named := {});
    if s.blobs == map[] {
      forall m ensures DepExact(r, m) { assert Dependents(r.blobs, m) == {}; }
    } else {
      var id :| id in s.blobs;
      assert id in Dependents(r.blobs, s.blobs[id].mstateId);
      assert !DepExact(r, s.blobs[id].mstateId);
    }
  }

  // ----- Names -----

  ghost predicate HasName(s: Store, m: nat) {
    exists k :: k in s.names && s.names[k] == m
  }

  /** The marks that protect named model states are exact, and every name leads to a stored one. */
  ghost predicate NamesExact(s: Store) {
    && (forall k :: k in s.names ==> s.names[k] in s.named && s.names[k] in s.mstates)
    && (forall m {:trigger HasName(s, m)} :: m in s.named ==> HasName(s, m))
    && (forall k, l :: k in s.names && l in s.names && k != l ==> s.names[k] != s.names[l])
  }

  lemma {:induction false} NamedKept(s: Store, ids: seq<nat>, m: nat)
    requires Distinct(ids) && AllIn(ids, s.blobs) && m in s.named && m in s.mstates
    ensures m in DropBlobs(s, ids).mstates
    decreases |ids|
  {
    if ids == [] {
    } else {
      DropFirst(s, ids);
      NamedKept(DropBlob(s, ids[0]), ids[1..], m);
    }
  }

  /** Operations keep the names exact, except one: removing by its id a model state that has a name. */
  lemma NamesStep(s: Store, op: Op)
    requires NamesExact(s) && Enabled(s, op)
    ensures NamesExact(Apply(s, op)) <==> !(op.Uninstall? && op.id in s.named && op.id !in s.deps)
  {
    if op.RemoveFile? {
      if op.key in s.files { RemoveNames(s, op); }
    } else if op.InstallNamed? {
      NewName(s, op);
    } else if op.UninstallNamed? {
      OldName(s, op);
    } else {
      OtherNames(s, op);
    }
  }

  lemma RemoveNames(s: Store, op: Op)
    requires NamesExact(s) && Enabled(s, op) && op.RemoveFile? && op.key in s.files
    ensures NamesExact(Apply(s, op))
  {
    hide DropBlobs;
    var s' := Apply(s, op);
    forall k | k in s.names ensures s.names[k] in s'.mstates { NamedKept(s, s.files[op.key], s.names[k]); }
    forall m | m in s'.named ensures HasName(s', m) { assert HasName(s, m); }
  }

  lemma NewName(s: Store, op: Op)
    requires NamesExact(s) && Enabled(s, op) && op.InstallNamed?
    ensures NamesExact(Apply(s, op))
  {
    hide Known;
    if !Known(s.names, op.key) {
      UnknownAbsent(s.names, op.key);
      var s' := Apply(s, op);
      assert s'.names[op.key] == op.id;
      forall m | m in s'.named ensures HasName(s', m) { if m != op.id { KeptName(s, s', m); } }
    }
  }

  lemma OldName(s: Store, op: Op)
    requires NamesExact(s) && Enabled(s, op) && op.UninstallNamed?
    ensures NamesExact(Apply(s, op))
  {
    var s' := Apply(s, op);
    forall m | m in s'.named ensures HasName(s', m) { KeptName(s, s', m); }
  }

  lemma KeptName(s: Store, s': Store, m: nat)
    requires NamesExact(s) && m in s.named
    requires forall k :: k in s.names && s.names[k] == m ==> k in s'.names && s'.names[k] == m
    ensures HasName(s', m)
  {
    assert HasName(s, m);
  }

  lemma OtherNames(s: Store, op: Op)
    requires NamesExact(s) && Enabled(s, op) && !op.RemoveFile? && !op.InstallNamed? && !op.UninstallNamed?
    ensures NamesExact(Apply(s, op)) <==> !(op.Uninstall? && op.id in s.named && op.id !in s.deps)
  {
    hide Known;
    var s' := Apply(s, op);
    forall m | m in s'.named ensures HasName(s', m) { KeptName(s, s', m); }
  }
}
