/** Whole runs of an archive: any sequence of requests, served one after another. */
module ArchiveRuns {
  import opened Archive
  import opened ArchiveCounts
  import opened ArchiveIndex
  import opened ArchiveScan
  import opened ArchiveSpace
  import opened ArchiveState
  import opened ArchiveStore
  import opened Paths
  import L = ArchiveLayout

  datatype Request =
    | StoreBlob(blob: BlobData, id: nat)
    | AddEntry(path: Path, ids: seq<nat>)
    | DropFile(path: Path)
    | StoreMstate(m: MstateData, id: nat)
    | NameMstate(path: Path, m: MstateData, id: nat)
    | DropMstate(id: nat)
    | UnnameMstate(path: Path)

  ghost function OpOf(r: Request): Op {
    match r
    case StoreBlob(blob, id) => Op.WriteBlob(id, blob)
    case AddEntry(path, ids) => Op.CreateEntry(Tokens(path), ids)
    case DropFile(path) => Op.RemoveFile(Tokens(path))
    case StoreMstate(m, id) => Op.Install(id, m)
    case NameMstate(path, m, id) => Op.InstallNamed(Tokens(path), id, m)
    case DropMstate(id) => Op.Uninstall(id)
    case UnnameMstate(path) => Op.UninstallNamed(Tokens(path))
  }

  /** The requests that validate their path first. */
  predicate Refused(r: Request) {
    (r.DropFile? || r.NameMstate? || r.UnnameMstate?) && !ValidPath(r.path)
  }

  /** New identifiers are new, what is written fits its fields, and paths name entries. */
  ghost predicate Acceptable(s: Store, r: Request) {
    && Enabled(s, OpOf(r))
    && match r
       case StoreBlob(b, id) => L.Storable(L.Blob(id, b.header, b.oSize, b.mstateId, b.data))
       case AddEntry(path, ids) => Unobstructed(s.files, Tokens(path)) && L.Storable(L.FileInfo(path, ids))
       case DropFile(path) => NoDirectory(s.files, Tokens(path))
       case StoreMstate(m, id) => L.Storable(L.Mstate(id, m.alg, m.state))
       case NameMstate(path, m, id) =>
         Unobstructed(s.names, Tokens(path)) &&
         L.Storable(L.Mstate(id, m.alg, m.state)) && L.Storable(L.MstateAux(path, id))
       case DropMstate(_) => true
       case UnnameMstate(path) => NoDirectory(s.names, Tokens(path))
  }

  ghost function Effect(s: Store, r: Request): Store
    requires Acceptable(s, r)
  {
    if Refused(r) then s else Apply(s, OpOf(r))
  }

  ghost predicate AllAcceptable(s: Store, rs: seq<Request>)
    decreases |rs|
  {
    rs == [] || (Acceptable(s, rs[0]) && AllAcceptable(Effect(s, rs[0]), rs[1..]))
  }

  /** The operations that take place. */
  ghost function OpsOf(rs: seq<Request>): seq<Op>
    decreases |rs|
  {
    if rs == [] then [] else (if Refused(rs[0]) then [] else [OpOf(rs[0])]) + OpsOf(rs[1..])
  }

  /** Acceptable requests are a legal run of operations. */
  lemma {:induction false} RequestsRun(s: Store, rs: seq<Request>)
    requires AllAcceptable(s, rs)
    ensures Legal(s, OpsOf(rs))
    decreases |rs|
  {
    hide Apply, Enabled, OpOf;
    if rs == [] {
    } else {
      RequestsRun(Effect(s, rs[0]), rs[1..]);
      var rest := OpsOf(rs[1..]);
      if Refused(rs[0]) {
        assert OpsOf(rs) == rest;
      } else {
        assert OpsOf(rs)[0] == OpOf(rs[0]) && OpsOf(rs)[1..] == rest;
      }
    }
  }

  lemma KnownSame<V, W>(a: map<Key, V>, b: map<Key, W>, key: Key)
    requires a.Keys == b.Keys && NoDirectory(a, key)
    ensures NoDirectory(b, key)
  {
    KnownKeys(a, b, key);
    assert key in a.Keys <==> key in b.Keys;
  }

  /** One request. */
  method Serve(a: HzArchive, r: Request)
    requires a.Valid() && Acceptable(a.View(), r)
    modifies a, a.stream
    ensures a.Valid() && a.View() == Effect(old(a.View()), r)
  {
    hide Sound, MapsAgree, PrefixFree, Live, ViewOf, Apply, L.Storable, Unobstructed, Known, NoDirectory, Tokens,
         ValidPath;
    a.Keys();
    match r
    case StoreBlob(blob, id) => var _ := a.WriteBlob(blob, id);
    case AddEntry(path, ids) => var _ := a.CreateFileEntry(path, ids);
    case DropFile(path) =>
      KnownSame(a.View().files, a.metadata.fileMap, Tokens(path));
      var _ := a.RemoveFile(path);
    case StoreMstate(m, id) => a.WriteMstate(m, id);
    case NameMstate(path, m, id) => var _ := a.InstallMstate(path, m, id);
    case DropMstate(id) => var _ := a.UninstallMstate(id);
    case UnnameMstate(path) =>
      KnownSame(a.View().names, a.metadata.auxMap, Tokens(path));
      var _ := a.UninstallNamed(path);
  }

  /** A whole run. */
  method ServeAll(a: HzArchive, rs: seq<Request>)
    requires a.Valid() && AllAcceptable(a.View(), rs)
    modifies a, a.stream
    ensures a.Valid() && Legal(old(a.View()), OpsOf(rs)) && a.View() == Run(old(a.View()), OpsOf(rs))
  {
    hide HzArchive.Valid, HzArchive.View, Acceptable, Effect, Apply, Run, Legal;
    ghost var s := a.View();
    RequestsRun(s, rs);
    StartRun(s, rs);
    for i := 0 to |rs|
      invariant a.Valid() && AllAcceptable(a.View(), rs[i..]) && Legal(a.View(), OpsOf(rs[i..]))
      invariant Run(a.View(), OpsOf(rs[i..])) == Run(s, OpsOf(rs))
    {
      NextRequest(a.View(), rs, i);
      Serve(a, rs[i]);
    }
    NoRequests(a.View(), rs);
  }

  lemma StartRun(s: Store, rs: seq<Request>)
    ensures rs[0..] == rs
  {
  }

  lemma NoRequests(s: Store, rs: seq<Request>)
    ensures rs[|rs|..] == [] && Legal(s, OpsOf(rs[|rs|..])) && Run(s, OpsOf(rs[|rs|..])) == s
  {
  }

  lemma NextRequest(s: Store, rs: seq<Request>, i: nat)
    requires i < |rs| && AllAcceptable(s, rs[i..]) && Legal(s, OpsOf(rs[i..]))
    ensures Acceptable(s, rs[i]) && AllAcceptable(Effect(s, rs[i]), rs[i + 1..])
    ensures Legal(Effect(s, rs[i]), OpsOf(rs[i + 1..])) &&
            Run(Effect(s, rs[i]), OpsOf(rs[i + 1..])) == Run(s, OpsOf(rs[i..]))
  {
    hide Apply, Enabled, OpOf;
    var all, rest := OpsOf(rs[i..]), OpsOf(rs[i + 1..]);
    assert rs[i..][0] == rs[i] && rs[i..][1..] == rs[i + 1..];
    if Refused(rs[i]) {
      assert all == rest;
    } else {
      assert all[0] == OpOf(rs[i]) && all[1..] == rest;
    }
  }

  /** Every session on a fresh archive: the archive stores what the run says, every counter is exact,
      every stored blob finds its model state; and after closing and loading, the same files, names,
      blobs and model states are stored. */
  method Session(rs: seq<Request>) returns (a: HzArchive, b: HzArchive)
    requires AllAcceptable(EMPTY_STORE, rs)
    ensures a.Valid() && b.Valid()
    ensures Legal(EMPTY_STORE, OpsOf(rs)) && a.View() == Run(EMPTY_STORE, OpsOf(rs))
    ensures DepsExact(a.View()) && forall id :: id in a.View().blobs ==> Readable(a.View(), id)
    ensures b.View() == a.View().(deps := map[], named := {})
  {
    hide HzArchive.Valid, HzArchive.View, AllAcceptable, OpsOf, Run, Legal, DepsExact;
    a := HzArchive.Create();
    ServeAll(a, rs);
    FreshExact();
    RunExact(EMPTY_STORE, OpsOf(rs));
    forall id | id in a.View().blobs ensures Readable(a.View(), id) { ExactReadable(a.View(), id); }
    b := HzArchive.Reopen(a);
  }

  /** One fragment of exactly this length: the block takes it, and the file does not grow. */
  lemma OnlyFragment(f: Fragment, eof: nat, after: seq<Fragment>, eof': nat, sof: nat)
    requires Placed([f], eof, after, eof', sof, f.length)
    ensures sof == f.sof && eof' == eof && after == []
  {
    assert Admissible([f][0], f.length);
    assert AnyFits([f], f.length);
  }

  /** A run that frees space and uses it again: the second model state stands where the first one did. */
  method StoreRemoveStore(m: MstateData, n: MstateData) returns (a: HzArchive)
    requires L.Storable(L.Mstate(7, m.alg, m.state)) && L.Storable(L.Mstate(8, n.alg, n.state))
    requires |m.state| == |n.state|
    ensures a.Valid() && a.View() == EMPTY_STORE.(mstates := map[8 := n])
    ensures 8 in a.metadata.mstateMap && a.metadata.mstateMap[8] == 0x68
    ensures a.metadata.eof == 0x170 + 8 * |m.state| && a.metadata.fragments == []
  {
    hide HzArchive.Valid, L.Storable, ViewOf, Live, AnyFits, Taken;
    a := HzArchive.Create();
    a.Keys();
    NothingFits(0xC0 + 8 * |m.state|);
    a.WriteMstate(m, 7);
    assert a.View().mstates == map[7 := m];
    var _ := a.UninstallMstate(7);
    assert a.View().mstates == map[];
    ghost var f := Fragment(0x68, 0xC0 + 8 * |m.state|);
    assert a.metadata.fragments == [f];
    a.WriteMstate(n, 8);
    OnlyFragment(f, 0x170 + 8 * |m.state|, a.metadata.fragments, a.metadata.eof, a.metadata.mstateMap[8]);
  }

  lemma NothingFits(length: nat)
    ensures !AnyFits([], length)
  {
  }
}
