/** The archive's path trie: linked nodes with parent pointers, against a finite map from keys. */
module ArchiveTrie {
  import opened Paths
  import Permutations

  class Node<T(0)> {
    var isLeaf: bool
    var parent: Node?<T>
    var children: map<Path, Node<T>>
    var value: T
    var key: Path

    constructor (parent: Node?<T>, key: Path)
      ensures !isLeaf && this.parent == parent && children == map[] && this.key == key
    {
      isLeaf, this.parent, children, this.key := false, parent, map[], key;
    }
  }

  datatype Lookup<+T> = Found(value: T) | TargetNotFound | IsDirectory

  // ----- The shape of a trie, on values -----

  /** What a node's fields hold. */
  datatype Fields<T(0)> = Fields(isLeaf: bool, parent: Node?<T>, children: map<Path, Node<T>>, value: T, key: Path)

  type Nodes<T(0)> = map<Key, Node<T>>
  type Heap<T(0)> = map<Key, Fields<T>>

  function Front(p: Key): (r: Key)
    requires p != []
    ensures |r| == |p| - 1
  {
    p[..|p| - 1]
  }

  function Last(p: Key): Path
    requires p != []
  {
    p[|p| - 1]
  }

  /** A node hangs off the node of its key's front, under its key's last part. */
  ghost predicate Up<T(0)>(nodes: Nodes<T>, heap: Heap<T>, p: Key)
    requires heap.Keys == nodes.Keys && p in nodes
  {
    if p == [] then heap[p].parent == null
    else
      && Front(p) in nodes
      && heap[p].parent == nodes[Front(p)] && heap[p].key == Last(p)
      && Last(p) in heap[Front(p)].children && heap[Front(p)].children[Last(p)] == nodes[p]
  }

  /** A node's children are the nodes one part further; a value node has none. */
  ghost predicate Down<T(0)>(nodes: Nodes<T>, heap: Heap<T>, p: Key)
    requires heap.Keys == nodes.Keys && p in nodes
  {
    && (forall t :: t in heap[p].children ==> p + [t] in nodes && nodes[p + [t]] == heap[p].children[t])
    && (heap[p].isLeaf ==> heap[p].children == map[])
  }

  ghost predicate Linked<T(0)>(root: Node<T>, nodes: Nodes<T>, heap: Heap<T>) {
    && heap.Keys == nodes.Keys && [] in nodes && nodes[[]] == root
    && (forall p {:trigger Up(nodes, heap, p)} :: p in nodes ==> Up(nodes, heap, p))
    && (forall p {:trigger Down(nodes, heap, p)} :: p in nodes ==> Down(nodes, heap, p))
    && (forall p, q :: p in nodes && q in nodes && p != q ==> nodes[p] != nodes[q])
  }

  /** The map a trie stands for. */
  ghost function ContentsOf<T(0)>(heap: Heap<T>): map<Key, T> {
    map p | p in heap && heap[p].isLeaf :: heap[p].value
  }

  /** No directory, except perhaps the root, is empty. */
  ghost predicate NoDangling<T(0)>(heap: Heap<T>) {
    forall p :: p in heap && p != [] && heap[p].children == map[] ==> heap[p].isLeaf
  }

  /** Nodes are closed under prefixes, and a step down is a child. */
  lemma {:induction false} PrefixClosed<T(0)>(root: Node<T>, nodes: Nodes<T>, heap: Heap<T>, p: Key, i: nat)
    requires Linked(root, nodes, heap) && p in nodes && i <= |p|
    ensures p[..i] in nodes
    ensures i < |p| ==>
              && p[..i + 1] in nodes && p[i] in heap[p[..i]].children
              && heap[p[..i]].children[p[i]] == nodes[p[..i + 1]]
    decreases |p|
  {
    assert Up(nodes, heap, p);
    if i == |p| {
      assert p[..i] == p;
    } else if i == |p| - 1 {
      assert p[..i] == Front(p) && p[..i + 1] == p;
    } else {
      PrefixClosed(root, nodes, heap, Front(p), i);
      assert Front(p)[..i] == p[..i] && Front(p)[..i + 1] == p[..i + 1];
    }
  }

  /** Keys at or below p. */
  ghost function Subtree<T>(entries: map<Key, T>, p: Key): (r: set<Key>)
    ensures forall k :: k in r <==> k in entries && p <= k
  {
    set k | k in entries && p <= k
  }

  /** Without empty directories every node but the root leads to a stored key. */
  lemma {:induction false} LeadsToKey<T(0)>(root: Node<T>, nodes: Nodes<T>, heap: Heap<T>, p: Key)
    requires Linked(root, nodes, heap) && NoDangling(heap) && p in nodes && p != []
    ensures exists k :: k in ContentsOf(heap) && p <= k
    decreases Subtree(nodes, p)
  {
    if heap[p].isLeaf {
      assert p in ContentsOf(heap) && p <= p;
    } else {
      assert Down(nodes, heap, p);
      var t :| t in heap[p].children;
      var q := p + [t];
      assert p in Subtree(nodes, p) && p !in Subtree(nodes, q) && Subtree(nodes, q) <= Subtree(nodes, p);
      LeadsToKey(root, nodes, heap, q);
      var k :| k in ContentsOf(heap) && q <= k;
      assert p <= k;
    }
  }

  /** Then a node stands exactly at the root and at the prefixes of the stored keys. */
  lemma NodesAreKnown<T(0)>(root: Node<T>, nodes: Nodes<T>, heap: Heap<T>, p: Key)
    requires Linked(root, nodes, heap) && NoDangling(heap)
    ensures p in nodes <==> Known(ContentsOf(heap), p)
  {
    if p in nodes && p != [] { LeadsToKey(root, nodes, heap, p); }
    if Known(ContentsOf(heap), p) && p != [] {
      var k :| k in ContentsOf(heap) && p <= k;
      PrefixClosed(root, nodes, heap, k, |p|);
      assert k[..|p|] == p;
    }
  }

  /** A value node has nothing below it: stored keys are prefix-free. */
  lemma LeavesApart<T(0)>(root: Node<T>, nodes: Nodes<T>, heap: Heap<T>, k: Key, q: Key)
    requires Linked(root, nodes, heap) && k in ContentsOf(heap) && q in nodes && k <= q
    ensures k == q
  {
    assert Down(nodes, heap, k);
    PrefixClosed(root, nodes, heap, q, |k|);
    assert q[..|k|] == k;
  }

  lemma StepDown<T(0)>(root: Node<T>, nodes: Nodes<T>, heap: Heap<T>, p: Key, t: Path)
    requires Linked(root, nodes, heap) && p in nodes
    ensures t in heap[p].children <==> p + [t] in nodes
    ensures t in heap[p].children ==> heap[p].children[t] == nodes[p + [t]]
  {
    assert Down(nodes, heap, p);
    if p + [t] in nodes { assert Up(nodes, heap, p + [t]) && Front(p + [t]) == p; }
  }

  lemma RootIs<T(0)>(root: Node<T>, nodes: Nodes<T>, heap: Heap<T>)
    requires Linked(root, nodes, heap)
    ensures [] in nodes && nodes[[]] == root
  {
  }

  lemma NodesDiffer<T(0)>(root: Node<T>, nodes: Nodes<T>, heap: Heap<T>)
    requires Linked(root, nodes, heap)
    ensures forall p, q :: p in nodes && q in nodes && p != q ==> nodes[p] != nodes[q]
  {
  }

  // ----- Growing -----

  lemma AddLinked<T(0)>(root: Node<T>, nodes: Nodes<T>, heap: Heap<T>, p: Key, t: Path, n: Node<T>, f: Fields<T>)
    requires Linked(root, nodes, heap) && p in nodes && !heap[p].isLeaf && t !in heap[p].children
    requires n !in nodes.Values && f == Fields(false, nodes[p], map[], f.value, t)
    ensures p + [t] !in nodes
    ensures Linked(root, nodes[p + [t] := n], heap[p := heap[p].(children := heap[p].children[t := n])][p + [t] := f])
  {
    var q := p + [t];
    assert Front(q) == p && Last(q) == t;
    StepDown(root, nodes, heap, p, t);
    var nodes', heap' := nodes[q := n], heap[p := heap[p].(children := heap[p].children[t := n])][q := f];
    forall k | k in nodes' ensures Up(nodes', heap', k) { if k != q { assert Up(nodes, heap, k); } }
    forall k | k in nodes' ensures Down(nodes', heap', k) { if k != q { assert Down(nodes, heap, k); } }
    forall a, b | a in nodes' && b in nodes' && a != b ensures nodes'[a] != nodes'[b] {
      if a == q { assert nodes[b] in nodes.Values; } else if b == q { assert nodes[a] in nodes.Values; }
    }
  }

  /** Between heap0 and heap, directories for the prefixes of p have been added, and nothing else. */
  ghost predicate Grown<T(0)>(heap0: Heap<T>, heap: Heap<T>, p: Key) {
    && (forall q :: q in heap <==> q in heap0 || q <= p)
    && (forall q :: q in heap0 ==> heap[q].isLeaf == heap0[q].isLeaf && heap[q].value == heap0[q].value)
    && (forall q :: q in heap0 ==> heap0[q].children.Keys <= heap[q].children.Keys)
    && (forall q :: q in heap && q !in heap0 ==> !heap[q].isLeaf)
  }

  lemma GrownContents<T(0)>(heap0: Heap<T>, heap: Heap<T>, p: Key)
    requires Grown(heap0, heap, p)
    ensures ContentsOf(heap) == ContentsOf(heap0)
  {
  }

  lemma GrowStep<T(0)>(heap0: Heap<T>, heap: Heap<T>, p: Key, t: Path, n: Node<T>, f: Fields<T>)
    requires Grown(heap0, heap, p) && p in heap && !f.isLeaf && p + [t] !in heap
    ensures Grown(heap0, heap[p := heap[p].(children := heap[p].children[t := n])][p + [t] := f], p + [t])
  {
    var heap' := heap[p := heap[p].(children := heap[p].children[t := n])][p + [t] := f];
    forall q ensures q in heap' <==> q in heap0 || q <= p + [t] { PrefixSnoc(q, p, t); }
  }

  lemma PrefixSnoc(q: Key, p: Key, t: Path)
    ensures q <= p + [t] <==> q <= p || q == p + [t]
  {
    if q <= p + [t] && |q| <= |p| { assert q == (p + [t])[..|q|] == p[..|q|]; }
    if q <= p { assert q == p[..|q|] == (p + [t])[..|q|]; }
  }

  lemma GrowNot<T(0)>(heap0: Heap<T>, heap: Heap<T>, p: Key, t: Path)
    requires Grown(heap0, heap, p) && p + [t] in heap
    ensures Grown(heap0, heap, p + [t])
  {
    forall q ensures q in heap <==> q in heap0 || q <= p + [t] { PrefixSnoc(q, p, t); }
  }

  /** The value stored at the end of the walk. */
  ghost function Stored<T(0)>(heap: Heap<T>, p: Key, v: T): Heap<T>
    requires p in heap
  {
    heap[p := heap[p].(isLeaf := true, value := v)]
  }

  lemma StoredLinked<T(0)>(root: Node<T>, nodes: Nodes<T>, heap: Heap<T>, p: Key, v: T)
    requires Linked(root, nodes, heap) && p in nodes && heap[p].children == map[]
    ensures Linked(root, nodes, Stored(heap, p, v))
  {
    var heap' := Stored(heap, p, v);
    forall k | k in nodes ensures Up(nodes, heap', k) { assert Up(nodes, heap, k); }
    forall k | k in nodes ensures Down(nodes, heap', k) { assert Down(nodes, heap, k); }
  }

  lemma StoredContents<T(0)>(heap: Heap<T>, p: Key, v: T)
    requires p in heap
    ensures ContentsOf(Stored(heap, p, v)) == ContentsOf(heap)[p := v]
  {
  }

  lemma StoredNoDangling<T(0)>(root: Node<T>, nodes: Nodes<T>, heap0: Heap<T>, heap: Heap<T>, p: Key, v: T)
    requires Linked(root, nodes, heap) && Grown(heap0, heap, p) && p in nodes && NoDangling(heap0)
    ensures NoDangling(Stored(heap, p, v))
  {
    hide Linked;
    var heap' := Stored(heap, p, v);
    forall q | q in heap' && q != [] && heap'[q].children == map[] ensures heap'[q].isLeaf {
      if q != p && q !in heap0 {
        assert p[..|q|] == q;
        PrefixClosed(root, nodes, heap, p, |q|);
      }
    }
  }

  /** No value node lies properly above the key. */
  ghost predicate NoLeafAbove<T(0)>(heap: Heap<T>, key: Key) {
    forall k :: k in heap && heap[k].isLeaf && k <= key ==> k == key
  }

  /** What bars a key from being set: a value node above it, or anything below it. */
  ghost predicate Barred<T(0)>(heap: Heap<T>, key: Key) {
    !NoLeafAbove(heap, key) || (key in heap && heap[key].children != map[])
  }

  /** A directory with entries, all of them empty directories. */
  ghost predicate OnlyEmpty<T(0)>(heap: Heap<T>, key: Key) {
    key in heap && heap[key].children != map[] && forall k :: k in ContentsOf(heap) ==> !(key <= k)
  }

  /** In terms of the map: a key is barred exactly when another stored key is a prefix of it or extends
      it, or when nothing but empty directories lies below it. */
  lemma BarredIff<T(0)>(root: Node<T>, nodes: Nodes<T>, heap: Heap<T>, key: Key)
    requires Linked(root, nodes, heap) && key != []
    ensures !Barred(heap, key) <==> Settable(ContentsOf(heap), key) && !OnlyEmpty(heap, key)
    ensures NoDangling(heap) ==> !OnlyEmpty(heap, key)
  {
    var m := ContentsOf(heap);
    if key in nodes && heap[key].children != map[] {
      assert Down(nodes, heap, key);
      if NoDangling(heap) { EntryBelow(root, nodes, heap, key); }
    }
    if !NoLeafAbove(heap, key) {
      var k :| k in heap && heap[k].isLeaf && k <= key && k != key;
      assert k in m;
    }
    forall k | k in m && key <= k && k != key ensures key in nodes && heap[key].children != map[] {
      assert |k| == |key| ==> k == key;
      PrefixClosed(root, nodes, heap, k, |key|);
      assert k[..|key|] == key;
    }
  }

  lemma EntryBelow<T(0)>(root: Node<T>, nodes: Nodes<T>, heap: Heap<T>, key: Key)
    requires Linked(root, nodes, heap) && NoDangling(heap) && key in nodes && heap[key].children != map[]
    ensures exists k :: k in ContentsOf(heap) && key <= k
  {
    var t :| t in heap[key].children;
    StepDown(root, nodes, heap, key, t);
    LeadsToKey(root, nodes, heap, key + [t]);
    var k :| k in ContentsOf(heap) && key + [t] <= k;
    assert key <= k;
  }

  /** Erasing a stored key erases that key alone, and leaves no empty directory. */
  lemma EraseStored<T(0)>(root: Node<T>, nodes: Nodes<T>, heap: Heap<T>, key: Key)
    requires Linked(root, nodes, heap) && key in ContentsOf(heap) && key != []
    ensures Subtree(ContentsOf(heap), key) == {key} && !Strands(heap, key)
  {
    assert Down(nodes, heap, key);
    forall k | k in ContentsOf(heap) && key <= k ensures k == key { LeavesApart(root, nodes, heap, key, k); }
  }

  lemma GrownNone<T(0)>(heap: Heap<T>)
    requires [] in heap
    ensures Grown(heap, heap, []) && NoLeafAbove(heap, [])
  {
  }

  lemma GrownNew<T(0)>(heap0: Heap<T>, heap: Heap<T>, p: Key)
    requires Grown(heap0, heap, p)
    ensures p in heap && (p !in heap0 ==> !heap[p].isLeaf) && heap0.Keys <= heap.Keys
  {
  }

  lemma LeafAbove<T(0)>(heap: Heap<T>, p: Key, key: Key)
    requires p in heap && heap[p].isLeaf && p <= key && p != key
    ensures !NoLeafAbove(heap, key)
  {
  }

  lemma AboveNext<T(0)>(heap: Heap<T>, p: Key, t: Path)
    requires NoLeafAbove(heap, p) && (p in heap ==> !heap[p].isLeaf)
    ensures NoLeafAbove(heap, p + [t])
  {
    forall k | k in heap && heap[k].isLeaf && k <= p + [t] ensures k == p + [t] { PrefixSnoc(k, p, t); }
  }

  lemma LeafHasNone<T(0)>(root: Node<T>, nodes: Nodes<T>, heap: Heap<T>, p: Key)
    requires Linked(root, nodes, heap) && p in nodes
    ensures heap[p].isLeaf ==> heap[p].children == map[]
  {
    assert Down(nodes, heap, p);
  }

  // ----- Pruning -----

  /** The nodes and fields without what lies at or below d. */
  ghost function CutNodes<T(0)>(nodes: Nodes<T>, d: Key): Nodes<T> {
    nodes - Subtree(nodes, d)
  }

  ghost function CutHeap<T(0)>(heap: Heap<T>, d: Key): Heap<T>
    requires d != [] && Front(d) in heap
  {
    var c := Front(d);
    (heap - Subtree(heap, d))[c := heap[c].(children := heap[c].children - {Last(d)})]
  }

  lemma FrontLast(k: Key, d: Key)
    requires k != [] && d != []
    ensures Front(k) + [Last(k)] == k
    ensures Front(k) == Front(d) && Last(k) == Last(d) ==> k == d
    ensures d <= Front(k) ==> d <= k
    ensures !(d <= Front(d))
  {
    assert Front(k) + [Last(k)] == k && Front(d) + [Last(d)] == d;
    if d <= Front(k) { assert d == Front(k)[..|d|] == k[..|d|]; }
  }

  lemma CutLinked<T(0)>(root: Node<T>, nodes: Nodes<T>, heap: Heap<T>, d: Key)
    requires Linked(root, nodes, heap) && d in nodes && d != []
    ensures Front(d) in nodes && Last(d) in heap[Front(d)].children
    ensures Linked(root, CutNodes(nodes, d), CutHeap(heap, d))
  {
    hide Front, Last, Subtree;
    assert Up(nodes, heap, d);
    FrontLast(d, d);
    var nodes', heap' := CutNodes(nodes, d), CutHeap(heap, d);
    forall k | k in nodes' ensures Up(nodes', heap', k) {
      assert Up(nodes, heap, k);
      if k != [] { FrontLast(k, d); }
    }
    forall k | k in nodes' ensures Down(nodes', heap', k) { CutDown(root, nodes, heap, d, k); }
  }

  lemma CutDown<T(0)>(root: Node<T>, nodes: Nodes<T>, heap: Heap<T>, d: Key, k: Key)
    requires Linked(root, nodes, heap) && d in nodes && d != [] && Front(d) in nodes && k in nodes && !(d <= k)
    requires CutHeap(heap, d).Keys == CutNodes(nodes, d).Keys && k in CutNodes(nodes, d)
    ensures Down(CutNodes(nodes, d), CutHeap(heap, d), k)
  {
    assert Down(nodes, heap, k);
    var nodes', heap' := CutNodes(nodes, d), CutHeap(heap, d);
    forall t | t in heap'[k].children ensures k + [t] in nodes' && nodes'[k + [t]] == heap'[k].children[t] {
      PrefixSnoc(d, k, t);
      assert Front(k + [t]) == k;
    }
  }

  lemma CutContents<T(0)>(heap: Heap<T>, d: Key)
    requires d != [] && Front(d) in heap
    ensures ContentsOf(CutHeap(heap, d)) == ContentsOf(heap) - Subtree(ContentsOf(heap), d)
  {
    FrontLast(d, d);
  }

  /** All nodes at or below d lie on the way to p or below it. */
  ghost predicate Chain<T(0)>(nodes: Nodes<T>, d: Key, p: Key) {
    d in nodes && p in nodes && d <= p && forall q :: q in nodes && d <= q ==> q <= p || p <= q
  }

  /** Climbing past a node with a single child. */
  lemma ClimbStep<T(0)>(root: Node<T>, nodes: Nodes<T>, heap: Heap<T>, d: Key, p: Key)
    requires Linked(root, nodes, heap) && Chain(nodes, d, p) && d != []
    requires Front(d) in nodes && |heap[Front(d)].children| < 2
    ensures Chain(nodes, Front(d), p)
  {
    var c := Front(d);
    assert Up(nodes, heap, d);
    forall q | q in nodes && c <= q ensures q <= p || p <= q {
      if q == c {
        assert c == d[..|c|] == p[..|c|];
      } else {
        PrefixClosed(root, nodes, heap, q, |c|);
        assert q[..|c|] == c;
        OneKey(heap[c].children, q[|c|], Last(d));
        assert q[..|d|] == c + [Last(d)] == d;
      }
    }
  }

  lemma OneKey<V>(m: map<Path, V>, a: Path, b: Path)
    requires |m| < 2 && a in m && b in m
    ensures a == b
  {
    if a != b {
      assert {a, b} <= m.Keys;
      Permutations.SubsetSize({a, b}, m.Keys);
    }
  }

  /** Cutting anywhere on the chain removes exactly the stored keys at or below p. */
  lemma ChainKeys<T(0)>(root: Node<T>, nodes: Nodes<T>, heap: Heap<T>, d: Key, p: Key)
    requires Linked(root, nodes, heap) && Chain(nodes, d, p)
    ensures Subtree(ContentsOf(heap), d) == Subtree(ContentsOf(heap), p)
  {
    forall k | k in ContentsOf(heap) ensures d <= k <==> p <= k {
      if d <= k && k <= p { LeavesApart(root, nodes, heap, k, p); }
      if p <= k { assert d == p[..|d|] == k[..|d|]; }
    }
  }

  /** Erasing p leaves an empty directory exactly here: p is a directory of several entries, and the
      only entry of a directory other than the root. */
  ghost predicate Strands<T(0)>(heap: Heap<T>, p: Key)
    requires p != []
  {
    && p in heap && |heap[p].children| >= 2
    && Front(p) != [] && Front(p) in heap && heap[Front(p)].children.Keys == {Last(p)}
  }

  /** Where the climb from p ends: below the root, below a directory of several entries, or at once. */
  ghost predicate Endpoint<T(0)>(heap: Heap<T>, d: Key, p: Key)
    requires d != [] && Front(d) in heap && p in heap
  {
    if |heap[p].children| >= 2 then d == p else Front(d) == [] || |heap[Front(d)].children| >= 2
  }

  lemma EndDangling<T(0)>(root: Node<T>, nodes: Nodes<T>, heap: Heap<T>, d: Key, p: Key)
    requires Linked(root, nodes, heap) && NoDangling(heap) && d in nodes && d != [] && Front(d) in nodes &&
             p in nodes && p != []
    requires Endpoint(heap, d, p)
    ensures NoDangling(CutHeap(heap, d)) <==> !Strands(heap, p)
  {
    hide Up, Down, NoDangling, CutHeap, Front, Last;
    CutDangling(root, nodes, heap, d);
    ParentOf(root, nodes, heap, p);
    KeysSize(heap[Front(d)].children, Last(d));
  }

  lemma KeysSize<V>(m: map<Path, V>, x: Path)
    ensures m.Keys == {x} ==> |m| == 1
  {
    assert |m| == |m.Keys|;
  }

  lemma ParentOf<T(0)>(root: Node<T>, nodes: Nodes<T>, heap: Heap<T>, p: Key)
    requires Linked(root, nodes, heap) && p in nodes
    ensures heap[p].parent == null <==> p == []
    ensures p != [] ==> Front(p) in nodes && heap[p].parent == nodes[Front(p)] && heap[p].key == Last(p)
  {
    assert Up(nodes, heap, p);
  }

  lemma ChainStart<T(0)>(nodes: Nodes<T>, p: Key)
    requires p in nodes
    ensures Chain(nodes, p, p)
  {
  }

  lemma NoneLeft<V>(m: map<Path, V>, x: Path)
    requires x in m
    ensures m - {x} == map[] <==> m.Keys == {x}
  {
    assert (m - {x}).Keys == m.Keys - {x};
    assert m - {x} == map[] <==> (m - {x}).Keys == {};
  }

  lemma CutDangling<T(0)>(root: Node<T>, nodes: Nodes<T>, heap: Heap<T>, d: Key)
    requires Linked(root, nodes, heap) && NoDangling(heap) && d in nodes && d != [] && Front(d) in nodes
    ensures NoDangling(CutHeap(heap, d)) <==> Front(d) == [] || heap[Front(d)].children.Keys != {Last(d)}
  {
    FrontLast(d, d);
    var c, heap' := Front(d), CutHeap(heap, d);
    assert Up(nodes, heap, d) && Down(nodes, heap, c);
    assert c in heap' && !heap'[c].isLeaf;
    NoneLeft(heap[c].children, Last(d));
  }

  // ----- The trie -----

  lemma SameMap<T(0)>(after: Heap<T>, before: Heap<T>, p: Key, f: Fields<T>, q: Key, g: Fields<T>)
    requires after.Keys == before.Keys + {p, q} && after[q] == g && (p != q ==> after[p] == f)
    requires forall k :: k in before && k != p && k != q ==> after[k] == before[k]
    ensures after == before[p := f][q := g]
  {
  }

  lemma SameOne<T(0)>(after: Heap<T>, before: Heap<T>, p: Key, f: Fields<T>)
    requires after.Keys == before.Keys && p in before && after[p] == f
    requires forall k :: k in before && k != p ==> after[k] == before[k]
    ensures after == before[p := f]
  {
  }

  ghost function FieldsOf<T(0)>(n: Node<T>): Fields<T>
    reads n
  {
    Fields(n.isLeaf, n.parent, n.children, n.value, n.key)
  }

  class Trie<T(0)> {
    const root: Node<T>
    ghost var nodes: Nodes<T>

    ghost function Snapshot(): (h: Heap<T>)
      reads this, nodes.Values
      ensures h.Keys == nodes.Keys
    {
      map p | p in nodes :: FieldsOf(nodes[p])
    }

    ghost predicate Valid()
      reads this, nodes.Values
    {
      Linked(root, nodes, Snapshot())
    }

    /** The map the trie stands for. */
    ghost function Contents(): map<Key, T>
      reads this, nodes.Values
    {
      ContentsOf(Snapshot())
    }

    ghost predicate Tidy()
      reads this, nodes.Values
    {
      NoDangling(Snapshot())
    }

    constructor ()
      ensures Valid() && Contents() == map[] && Tidy() && fresh(nodes.Values)
    {
      root := new Node(null, []);
      new;
      nodes := map[[] := root];
    }

    /** The walk shared by every operation: the node of a key, if there is one. */
    method Walk(key: Key) returns (node: Node?<T>)
      requires Valid()
      ensures if key in nodes then node == nodes[key] else node == null
    {
      hide Linked;
      var curr := root;
      RootIs(root, nodes, Snapshot());
      for i := 0 to |key|
        invariant key[..i] in nodes && curr == nodes[key[..i]]
      {
        StepDown(root, nodes, Snapshot(), key[..i], key[i]);
        assert key[..i] + [key[i]] == key[..i + 1];
        if key[i] !in curr.children {
          if key in nodes { PrefixClosed(root, nodes, Snapshot(), key, i); }
          return null;
        }
        curr := curr.children[key[i]];
      }
      assert key[..|key|] == key;
      return curr;
    }

    method Get(path: Path) returns (r: Lookup<T>)
      requires Valid()
      ensures Tokens(path) in Contents() ==> r == Found(Contents()[Tokens(path)])
      ensures r == TargetNotFound <==> Tokens(path) !in nodes
      ensures r == IsDirectory <==> Tokens(path) in nodes && nodes[Tokens(path)].children != map[]
    {
      hide Tokens;
      var key := Tokens(path);
      var node := Walk(key);
      if node == null {
        return TargetNotFound;
      }
      assert Down(nodes, Snapshot(), key);
      if |node.children| > 0 {
        return IsDirectory;
      }
      return Found(node.value);
    }

    /** While no directory is empty, `contains` asks for the root or a prefix of a stored key. */
    method Contains(path: Path) returns (r: bool)
      requires Valid()
      ensures r <==> Tokens(path) in nodes
      ensures Tidy() ==> (r <==> Known(Contents(), Tokens(path)))
    {
      hide Tokens, Known, Linked, NoDangling;
      var node := Walk(Tokens(path));
      r := node != null;
      if Tidy() { NodesAreKnown(root, nodes, Snapshot(), Tokens(path)); }
    }

    /** The parts that continue a prefix, and which of them complete a key. */
    method Children(path: Path) returns (r: Lookup<map<Path, bool>>)
      requires Valid()
      ensures r.Found? <==> Tokens(path) in nodes
      ensures r.Found? ==> forall t :: t in r.value <==> Tokens(path) + [t] in nodes
      ensures r.Found? ==> forall t :: t in r.value ==> (r.value[t] <==> Tokens(path) + [t] in Contents())
      ensures r.Found? && Tidy() ==> forall t :: t in r.value <==> Known(Contents(), Tokens(path) + [t])
    {
      hide Tokens, Known, Linked, NoDangling;
      var key := Tokens(path);
      var node := Walk(key);
      if node == null {
        return TargetNotFound;
      }
      forall t ensures t in node.children <==> key + [t] in nodes
        ensures t in node.children ==> node.children[t] == nodes[key + [t]]
      {
        StepDown(root, nodes, Snapshot(), key, t);
      }
      if Tidy() {
        forall t ensures key + [t] in nodes <==> Known(Contents(), key + [t]) {
          NodesAreKnown(root, nodes, Snapshot(), key + [t]);
        }
      }
      r := Found(map t | t in node.children :: node.children[t].isLeaf);
    }

    // ----- Setting -----

    /** Hangs a new directory node below p. */
    method AddChild(ghost p: Key, curr: Node<T>, t: Path) returns (n: Node<T>)
      requires Valid() && p in nodes && curr == nodes[p] && !curr.isLeaf && t !in curr.children
      modifies this, curr`children
      ensures Valid() && fresh(n) && p + [t] !in old(nodes) && nodes == old(nodes)[p + [t] := n]
      ensures curr.children == old(curr.children)[t := n] && !n.isLeaf && n.children == map[]
      ensures Snapshot() == old(Snapshot())[p := old(FieldsOf(curr)).(children := curr.children)][
              p + [t] := FieldsOf(n)]
    {
      hide Linked;
      ghost var h0, n0 := Snapshot(), nodes;
      NodesDiffer(root, n0, h0);
      n := new Node(curr, t);
      AddLinked(root, n0, h0, p, t, n, FieldsOf(n));
      curr.children := curr.children[t := n];
      nodes := nodes[p + [t] := n];
      SameMap(Snapshot(), h0, p, h0[p].(children := curr.children), p + [t], FieldsOf(n));
    }

    /** One step of `set`: to the child, which is made if it is missing; null at a value node. */
    method Descend(ghost p: Key, curr: Node<T>, t: Path, ghost h0: Heap<T>) returns (next: Node?<T>)
      requires Valid() && p in nodes && curr == nodes[p] && Grown(h0, Snapshot(), p) && NoLeafAbove(h0, p)
      requires Snapshot() == h0 || (p !in h0 && curr.children == map[])
      modifies this, curr`children
      ensures Valid() && fresh(nodes.Values - old(nodes.Values))
      ensures next == null ==> p in h0 && h0[p].isLeaf && Snapshot() == old(Snapshot()) && nodes == old(nodes)
      ensures next != null ==>
        && p + [t] in nodes && next == nodes[p + [t]] && Grown(h0, Snapshot(), p + [t]) && NoLeafAbove(h0, p + [t])
        && ((Snapshot() == h0 && nodes == old(nodes)) || (p + [t] !in h0 && next.children == map[]))
    {
      hide Linked, Grown, NoLeafAbove;
      ghost var h := Snapshot();
      StepDown(root, nodes, h, p, t);
      GrownNew(h0, h, p);
      if t !in curr.children {
        if curr.isLeaf {
          return null;
        }
        var n := AddChild(p, curr, t);
        GrowStep(h0, h, p, t, n, Snapshot()[p + [t]]);
      } else {
        LeafHasNone(root, nodes, h, p);
        GrowNot(h0, h, p, t);
      }
      AboveNext(h0, p, t);
      next := curr.children[t];
    }

    /** The end of `set`: the node becomes a value node. */
    method Store(curr: Node<T>, ghost key: Key, v: T, ghost h0: Heap<T>)
      requires Valid() && key in nodes && curr == nodes[key] && curr.children == map[] && Grown(h0, Snapshot(), key)
      modifies curr
      ensures Valid() && nodes == old(nodes)
      ensures Contents() == ContentsOf(h0)[key := v]
      ensures NoDangling(h0) ==> Tidy()
    {
      hide Linked, Grown, NoDangling, ContentsOf;
      ghost var h := Snapshot();
      NodesDiffer(root, nodes, h);
      StoredLinked(root, nodes, h, key, v);
      StoredContents(h, key, v);
      GrownContents(h0, h, key);
      if NoDangling(h0) { StoredNoDangling(root, nodes, h0, h, key, v); }
      curr.value := v;
      curr.isLeaf := true;
      SameOne(Snapshot(), h, key, h[key].(isLeaf := true, value := v));
    }

    /** The walk of `set` down to the node of a key, which makes the nodes it misses; null where a value
        node bars the way. */
    method Extend(key: Key, ghost h0: Heap<T>) returns (curr: Node?<T>)
      requires Valid() && Snapshot() == h0
      modifies this, nodes.Values
      ensures Valid() && fresh(nodes.Values - old(nodes.Values))
      ensures curr == null ==> nodes == old(nodes) && Snapshot() == h0 && !NoLeafAbove(h0, key)
      ensures curr != null ==>
        && key in nodes && curr == nodes[key] && Grown(h0, Snapshot(), key) && NoLeafAbove(h0, key)
        && ((nodes == old(nodes) && Snapshot() == h0) || (key !in h0 && curr.children == map[]))
    {
      hide Linked, Grown, NoLeafAbove;
      curr := root;
      ghost var n0 := nodes;
      RootIs(root, nodes, h0);
      GrownNone(h0);
      for i := 0 to |key|
        invariant Valid() && fresh(nodes.Values - old(nodes.Values))
        invariant key[..i] in nodes && curr == nodes[key[..i]]
        invariant Grown(h0, Snapshot(), key[..i]) && NoLeafAbove(h0, key[..i])
        invariant (nodes == n0 && Snapshot() == h0) || (key[..i] !in h0 && curr.children == map[])
      {
        assert key[..i + 1] == key[..i] + [key[i]];
        var next := Descend(key[..i], curr, key[i], h0);
        if next == null {
          LeafAbove(h0, key[..i], key);
          return null;
        }
        curr := next;
      }
      assert key[..|key|] == key;
    }

    /** Stores a value under a path. A refused path leaves every node as it was. */
    method Set(path: Path, v: T) returns (ok: bool)
      requires Valid()
      modifies this, nodes.Values
      ensures Valid() && fresh(nodes.Values - old(nodes.Values))
      ensures ok <==> !Barred(old(Snapshot()), Tokens(path))
      ensures ok ==> Contents() == old(Contents())[Tokens(path) := v]
      ensures !ok ==> nodes == old(nodes) && Snapshot() == old(Snapshot())
      ensures old(Tidy()) ==> Tidy()
    {
      hide Tokens, Linked, Grown, NoDangling, NoLeafAbove, ContentsOf;
      var key := Tokens(path);
      ghost var h0 := Snapshot();
      var curr := Extend(key, h0);
      if curr == null {
        return false;
      }
      if |curr.children| > 0 {
        return false;
      }
      Store(curr, key, v, h0);
      ok := true;
    }

    // ----- Erasing -----

    /** The climb of `erase`: from a node to the last one on the way up that has no other entry beside
        it, and its parent. */
    method Climb(node: Node<T>, ghost key: Key) returns (curr: Node<T>, descendant: Node<T>, ghost d: Key)
      requires Valid() && key in nodes && node == nodes[key] && key != []
      ensures d in nodes && d != [] && Front(d) in nodes && descendant == nodes[d] && curr == nodes[Front(d)]
      ensures Chain(nodes, d, key) && Endpoint(Snapshot(), d, key)
    {
      hide Linked, Chain, Front, Last;
      ghost var h, p := Snapshot(), key;
      curr, descendant, d := node, node, key;
      ChainStart(nodes, key);
      while |curr.children| < 2 && curr.parent != null
        invariant p in nodes && curr == nodes[p] && d in nodes && descendant == nodes[d] && d != []
        invariant Chain(nodes, d, key)
        invariant if p == d then d == key else p == Front(d) && |h[key].children| < 2
        decreases |p|
      {
        ParentOf(root, nodes, h, p);
        if p != d { ClimbStep(root, nodes, h, d, key); }
        descendant, d := curr, p;
        curr, p := curr.parent, Front(p);
      }
      ParentOf(root, nodes, h, p);
      NodesDiffer(root, nodes, h);
      if curr == descendant {
        curr, p := curr.parent, Front(p);
      }
    }

    /** Takes a node and all below it from its parent. */
    method Cut(curr: Node<T>, descendant: Node<T>, ghost d: Key)
      requires Valid() && d in nodes && d != [] && Front(d) in nodes && descendant == nodes[d] &&
               curr == nodes[Front(d)]
      modifies this, curr`children
      ensures Valid() && nodes == CutNodes(old(nodes), d) && Snapshot() == CutHeap(old(Snapshot()), d)
    {
      hide Linked, Front, Last;
      ghost var h, n0 := Snapshot(), nodes;
      ParentOf(root, nodes, h, d);
      CutLinked(root, nodes, h, d);
      NodesDiffer(root, nodes, h);
      FrontLast(d, d);
      curr.children := curr.children - {descendant.key};
      nodes := CutNodes(nodes, d);
      SameOne(Snapshot(), h - Subtree(h, d), Front(d), h[Front(d)].(children := h[Front(d)].children - {Last(d)}));
    }

    /** Erases a path and everything below it, together with the directories that had no other entry.
        The root itself is not erased: it has no parent to be taken from. */
    method Erase(path: Path) returns (ok: bool)
      requires Valid() && Tokens(path) != []
      modifies this, nodes.Values
      ensures Valid()
      ensures ok <==> Tokens(path) in old(nodes)
      ensures ok ==> Contents() == old(Contents()) - Subtree(old(Contents()), Tokens(path))
      ensures !ok ==> nodes == old(nodes) && Snapshot() == old(Snapshot())
      ensures ok && old(Tidy()) ==> (Tidy() <==> !Strands(old(Snapshot()), Tokens(path)))
    {
      hide Tokens, Linked, Chain, NoDangling, ContentsOf, Subtree, Strands, Front, Last, CutHeap, CutNodes, Endpoint;
      var key := Tokens(path);
      var node := Walk(key);
      if node == null {
        return false;
      }
      ghost var h := Snapshot();
      var curr, descendant;
      ghost var d;
      curr, descendant, d := Climb(node, key);
      ChainKeys(root, nodes, h, d, key);
      CutContents(h, d);
      if NoDangling(h) { EndDangling(root, nodes, h, d, key); }
      Cut(curr, descendant, d);
      ok := true;
    }
  }

  // ----- A directory left empty -----

  lemma OnlyChild<T(0)>(root: Node<T>, nodes: Nodes<T>, heap: Heap<T>, d: Path, e: Path)
    requires Linked(root, nodes, heap) && NoDangling(heap) && [d] in nodes && [d, e] in nodes
    requires forall k :: k in ContentsOf(heap) ==> [d, e] <= k
    ensures heap[[d]].children.Keys == {e}
  {
    assert heap.Keys == nodes.Keys;
    hide Linked, NoDangling, ContentsOf;
    assert [d] + [e] == [d, e];
    forall t ensures t in heap[[d]].children <==> t == e {
      StepDown(root, nodes, heap, [d], t);
      NodesAreKnown(root, nodes, heap, [d] + [t]);
      if t in heap[[d]].children { var k :| k in ContentsOf(heap) && [d] + [t] <= k; assert k[1] == t; }
    }
  }

  /** Two entries x and y of a directory e, itself the only entry of d. */
  lemma TwoUnderOne<T(0)>(root: Node<T>, nodes: Nodes<T>, heap: Heap<T>, d: Path, e: Path, x: Path, y: Path)
    requires Linked(root, nodes, heap) && NoDangling(heap) && x != y
    requires ContentsOf(heap).Keys == {[d, e, x], [d, e, y]}
    ensures [d, e] in nodes && Strands(heap, [d, e])
  {
    assert heap.Keys == nodes.Keys;
    hide Linked, NoDangling, ContentsOf;
    var m := ContentsOf(heap);
    assert [d, e, x] in m && [d] <= [d, e, x] && [d, e] <= [d, e, x] && [d, e, y] in m;
    forall k | k in [[d], [d, e], [d, e, x], [d, e, y]] ensures k in nodes { NodesAreKnown(root, nodes, heap, k); }
    assert [d, e] + [x] == [d, e, x] && [d, e] + [y] == [d, e, y] && Front([d, e]) == [d];
    StepDown(root, nodes, heap, [d, e], x);
    StepDown(root, nodes, heap, [d, e], y);
    TwoKeys(heap[[d, e]].children, x, y);
    OnlyChild(root, nodes, heap, d, e);
  }

  lemma TwoKeys<V>(m: map<Path, V>, x: Path, y: Path)
    requires x in m && y in m && x != y
    ensures |m| >= 2
  {
    assert {x, y} <= m.Keys;
    Permutations.SubsetSize({x, y}, m.Keys);
  }

  method StoreTwo<T(0)>(v: T, a: Path, b: Path) returns (t: Trie<T>)
    requires Tokens(a) != [] && Tokens(b) != []
    requires !(Tokens(a) <= Tokens(b)) && !(Tokens(b) <= Tokens(a))
    ensures fresh(t) && fresh(t.nodes.Values) && t.Valid() && t.Tidy()
    ensures t.Contents() == map[Tokens(a) := v, Tokens(b) := v]
  {
    hide Linked, NoDangling, ContentsOf, Barred, Tokens;
    t := new Trie<T>();
    BarredIff(t.root, t.nodes, t.Snapshot(), Tokens(a));
    var stored := t.Set(a, v);
    BarredIff(t.root, t.nodes, t.Snapshot(), Tokens(b));
    stored := t.Set(b, v);
  }

  /** A run that ends with an empty directory: two files under d/e, then d/e is erased. */
  method LeaveEmptyDirectory<T(0)>(v: T, d: Path, e: Path, x: Path, y: Path) returns (t: Trie<T>)
    requires IsKey([d, e, x]) && IsKey([d, e, y]) && IsKey([d, e]) && x != y
    ensures t.Valid() && t.Contents() == map[] && !t.Tidy()
  {
    hide Linked, NoDangling, ContentsOf, Strands, Join, Tokens;
    TokensOfJoin([d, e, x]);
    TokensOfJoin([d, e, y]);
    TokensOfJoin([d, e]);
    assert [d, e, x][2] == x && [d, e, y][2] == y;
    t := StoreTwo(v, Join([d, e, x]), Join([d, e, y]));
    TwoUnderOne(t.root, t.nodes, t.Snapshot(), d, e, x, y);
    var erased := t.Erase(Join([d, e]));
  }
}
