/** What an archive stores, without its bits: files, named and unnamed model states, blobs, and the
    reference counts that decide when a model state may be freed. */
module ArchiveStore {
  import opened Paths
  import opened Permutations

  datatype BlobData = BlobData(header: seq<nat>, oSize: nat, mstateId: nat, data: seq<nat>)
  datatype MstateData = MstateData(alg: nat, state: seq<nat>)

  datatype Store = Store(
    files: map<Key, seq<nat>>,
    names: map<Key, nat>,
    named: set<nat>,
    blobs: map<nat, BlobData>,
    mstates: map<nat, MstateData>,
    deps: map<nat, nat>)

  datatype Error = ValidationFailed | InvalidOperation | FileNotFound | BlobNotFound | MstateNotFound

  datatype Result<+T> = Ok(value: T) | Err(error: Error)

  const EMPTY_STORE: Store := Store(map[], map[], {}, map[], map[], map[])

  /** Reading a blob needs its model state: a stored blob whose model state is stored too. */
  ghost predicate Readable(s: Store, id: nat) {
    id in s.blobs && s.blobs[id].mstateId in s.mstates
  }

  /** What reading a blob returns. */
  ghost function Content(s: Store, id: nat): (BlobData, MstateData)
    requires Readable(s, id)
  {
    (s.blobs[id], s.mstates[s.blobs[id].mstateId])
  }

  // ----- Dependency counters -----

  function Incremented(deps: map<nat, nat>, m: nat): map<nat, nat> {
    deps[m := if m in deps then deps[m] + 1 else 1]
  }

  /** Frees a model state that no counter protects; an absent one is ignored. */
  function FreeMstate(s: Store, m: nat): Store {
    if m in s.mstates && m !in s.deps then s.(mstates := s.mstates - {m}) else s
  }

  /** Gives up one dependency; the last one takes an unnamed model state with it. */
  function Release(s: Store, m: nat): (r: Store)
    ensures r.files == s.files && r.names == s.names && r.named == s.named && r.blobs == s.blobs
  {
    if m !in s.deps then s
    else if s.deps[m] > 1 then s.(deps := s.deps[m := s.deps[m] - 1])
    else
      var s' := s.(deps := s.deps - {m});
      if m in s.named then s' else FreeMstate(s', m)
  }

  function PutBlob(s: Store, id: nat, b: BlobData): Store {
    s.(blobs := s.blobs[id := b], deps := Incremented(s.deps, b.mstateId))
  }

  function DropBlob(s: Store, id: nat): Store
    requires id in s.blobs
  {
    Release(s, s.blobs[id].mstateId).(blobs := s.blobs - {id})
  }

  /** Giving up a dependency looks at neither blobs nor files. */
  lemma ReleaseElsewhere(s: Store, m: nat, files: map<Key, seq<nat>>, blobs: map<nat, BlobData>)
    ensures Release(s.(files := files, blobs := blobs), m) == Release(s, m).(files := files, blobs := blobs)
  {
  }

  predicate AllIn(ids: seq<nat>, blobs: map<nat, BlobData>) {
    forall i :: 0 <= i < |ids| ==> ids[i] in blobs
  }

  /** Drops the blobs in order. */
  function DropBlobs(s: Store, ids: seq<nat>): (r: Store)
    requires Distinct(ids) && AllIn(ids, s.blobs)
    ensures r.blobs == s.blobs - (set id | id in ids)
    ensures r.files == s.files && r.names == s.names && r.named == s.named
    decreases |ids|
  {
    if ids == [] then s else DropBlobs(DropBlob(s, ids[0]), ids[1..])
  }

  lemma DropFirst(s: Store, ids: seq<nat>)
    requires ids != [] && Distinct(ids) && AllIn(ids, s.blobs)
    ensures Distinct(ids[1..]) && AllIn(ids[1..], DropBlob(s, ids[0]).blobs)
  {
  }

  lemma {:induction false} DropBlobsSnoc(s: Store, ids: seq<nat>, id: nat)
    requires Distinct(ids + [id]) && AllIn(ids + [id], s.blobs)
    ensures Distinct(ids) && AllIn(ids, s.blobs) && id in DropBlobs(s, ids).blobs
    ensures DropBlobs(s, ids + [id]) == DropBlob(DropBlobs(s, ids), id)
    decreases |ids|
  {
    assert forall i :: 0 <= i < |ids| ==> (ids + [id])[i] == ids[i];
    assert (ids + [id])[|ids|] == id;
    if ids == [] {
      assert [] + [id] == [id] && [id][1..] == [];
    } else {
      assert (ids + [id])[1..] == ids[1..] + [id];
      DropFirst(s, ids + [id]);
      hide DropBlob, Distinct, AllIn;
      DropBlobsSnoc(DropBlob(s, ids[0]), ids[1..], id);
    }
  }

  // ----- Operations -----

  datatype Op =
    | WriteBlob(id: nat, blob: BlobData)
    | CreateEntry(key: Key, blobIds: seq<nat>)
    | RemoveFile(key: Key)
    | Install(id: nat, mstate: MstateData)
    | InstallNamed(key: Key, id: nat, mstate: MstateData)
    | Uninstall(id: nat)
    | UninstallNamed(key: Key)

  /** Random ids are drawn until they are new, and an operation that removes a file finds the file's
      blobs present. */
  ghost predicate Enabled(s: Store, op: Op) {
    match op
    case WriteBlob(id, _) => id !in s.blobs
    case CreateEntry(_, _) => true
    case RemoveFile(key) => key in s.files ==> Distinct(s.files[key]) && AllIn(s.files[key], s.blobs)
    case Install(id, _) => id !in s.mstates
    case InstallNamed(_, id, _) => id !in s.mstates
    case Uninstall(_) => true
    case UninstallNamed(_) => true
  }

  /** One operation; a refused one changes nothing. */
  ghost function Apply(s: Store, op: Op): Store
    requires Enabled(s, op)
  {
    match op
    case WriteBlob(id, b) => if b.mstateId in s.mstates then PutBlob(s, id, b) else s
    case CreateEntry(key, ids) => if Known(s.files, key) then s else s.(files := s.files[key := ids])
    case RemoveFile(key) =>
      if key in s.files then DropBlobs(s, s.files[key]).(files := s.files - {key}) else s
    case Install(id, m) => s.(mstates := s.mstates[id := m])
    case InstallNamed(key, id, m) =>
      if Known(s.names, key) then s
      else s.(mstates := s.mstates[id := m], names := s.names[key := id], named := s.named + {id})
    case Uninstall(id) => FreeMstate(s, id)
    case UninstallNamed(key) =>
      if key !in s.names || (s.names[key] in s.mstates && s.names[key] in s.deps) then s
      else
        var s' := FreeMstate(s, s.names[key]);
        s'.(names := s.names - {key}, named := s.named - {s.names[key]})
  }

  ghost predicate Legal(s: Store, ops: seq<Op>)
    decreases |ops|
  {
    ops == [] || (Enabled(s, ops[0]) && Legal(Apply(s, ops[0]), ops[1..]))
  }

  ghost function Run(s: Store, ops: seq<Op>): Store
    requires Legal(s, ops)
    decreases |ops|
  {
    if ops == [] then s else Run(Apply(s, ops[0]), ops[1..])
  }

  lemma {:induction false} RunSnoc(s: Store, ops: seq<Op>, op: Op)
    requires Legal(s, ops) && Enabled(Run(s, ops), op)
    ensures Legal(s, ops + [op]) && Run(s, ops + [op]) == Apply(Run(s, ops), op)
    decreases |ops|
  {
    hide Apply, Enabled;
    if ops == [] {
      assert [] + [op] == [op];
    } else {
      RunSnoc(Apply(s, ops[0]), ops[1..], op);
      assert (ops + [op])[1..] == ops[1..] + [op];
    }
  }

  /** Writing blobs one after another under the given ids. */
  ghost function WriteOps(ids: seq<nat>, blobs: seq<BlobData>): (ops: seq<Op>)
    requires |ids| == |blobs|
    ensures |ops| == |ids|
  {
    seq(|ids|, i requires 0 <= i < |ids| => WriteBlob(ids[i], blobs[i]))
  }

  lemma WriteOpsSnoc(ids: seq<nat>, blobs: seq<BlobData>, i: nat)
    requires |ids| == |blobs| && i < |ids|
    ensures WriteOps(ids[..i + 1], blobs[..i + 1]) == WriteOps(ids[..i], blobs[..i]) + [WriteBlob(ids[i], blobs[i])]
  {
  }

  lemma RunNone(s: Store)
    ensures WriteOps([], []) == [] && Legal(s, []) && Run(s, []) == s
  {
  }
}
