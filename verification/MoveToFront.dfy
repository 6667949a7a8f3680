/** The move-to-front transformer: recency ranks in place of symbols, and back. */
module MoveToFront {
  import opened Permutations

  /** The recency list holds every symbol of the alphabet once. */
  ghost predicate IsRecencyList(lru: seq<int>) {
    IsPermutation(lru)
  }

  /** Index j of the list moved to its front. */
  function Touch(lru: seq<int>, j: nat): (r: seq<int>)
    requires j < |lru|
    ensures |r| == |lru|
  {
    [lru[j]] + lru[..j] + lru[j + 1..]
  }

  lemma TouchKeepsList(lru: seq<int>, j: nat)
    requires IsRecencyList(lru) && j < |lru|
    ensures IsRecencyList(Touch(lru, j))
  {
  }

  ghost function IndexOf(lru: seq<int>, symbol: int): (j: nat)
    requires IsRecencyList(lru) && 0 <= symbol < |lru|
    ensures j < |lru| && lru[j] == symbol
  {
    Surjective(lru, symbol);
    var j :| 0 <= j < |lru| && lru[j] == symbol;
    j
  }

  ghost predicate InAlphabet(data: seq<int>, n: nat) {
    forall i :: 0 <= i < |data| ==> 0 <= data[i] < n
  }

  /** Recency ranks of the symbols, from a given list on. */
  ghost function Ranks(lru: seq<int>, data: seq<int>): (r: seq<int>)
    requires IsRecencyList(lru) && InAlphabet(data, |lru|)
    ensures |r| == |data| && InAlphabet(r, |lru|)
    decreases |data|
  {
    if data == [] then []
    else
      var j := IndexOf(lru, data[0]);
      TouchKeepsList(lru, j);
      [j] + Ranks(Touch(lru, j), data[1..])
  }

  /** The symbols at the given recency ranks. */
  ghost function Symbols(lru: seq<int>, ranks: seq<int>): (d: seq<int>)
    requires IsRecencyList(lru) && InAlphabet(ranks, |lru|)
    ensures |d| == |ranks| && InAlphabet(d, |lru|)
    decreases |ranks|
  {
    if ranks == [] then []
    else
      TouchKeepsList(lru, ranks[0]);
      [lru[ranks[0]]] + Symbols(Touch(lru, ranks[0]), ranks[1..])
  }

  /** Both directions walk through the same lists, so each undoes the other. */
  lemma {:induction false} SymbolsOfRanks(lru: seq<int>, data: seq<int>)
    requires IsRecencyList(lru) && InAlphabet(data, |lru|)
    ensures Symbols(lru, Ranks(lru, data)) == data
    decreases |data|
  {
    if data == [] {
    } else {
      var j := IndexOf(lru, data[0]);
      TouchKeepsList(lru, j);
      hide Touch, IsRecencyList;
      SymbolsOfRanks(Touch(lru, j), data[1..]);
      assert Ranks(lru, data)[1..] == Ranks(Touch(lru, j), data[1..]);
    }
  }

  lemma {:induction false} RanksOfSymbols(lru: seq<int>, ranks: seq<int>)
    requires IsRecencyList(lru) && InAlphabet(ranks, |lru|)
    ensures Ranks(lru, Symbols(lru, ranks)) == ranks
    decreases |ranks|
  {
    if ranks == [] {
    } else {
      var d := Symbols(lru, ranks);
      TouchKeepsList(lru, ranks[0]);
      assert IndexOf(lru, d[0]) == ranks[0];
      hide Touch, IsRecencyList;
      RanksOfSymbols(Touch(lru, ranks[0]), ranks[1..]);
      assert d[1..] == Symbols(Touch(lru, ranks[0]), ranks[1..]);
    }
  }

  ghost function Alphabet(n: nat): (lru: seq<int>)
    ensures |lru| == n && IsRecencyList(lru) && forall i :: 0 <= i < n ==> lru[i] == i
  {
    seq(n, i => i)
  }

  // ----- What a rank counts -----

  /** When a symbol was last seen: 0 for never. */
  ghost function LastSeen(h: seq<int>, s: int): (k: nat)
    ensures k <= |h| && (k == 0 <==> s !in h) && (k > 0 ==> h[k - 1] == s)
  {
    if h == [] then 0
    else if h[|h| - 1] == s then |h|
    else LastSeen(h[..|h| - 1], s)
  }

  /** s is more recent than t; symbols never seen come last, in the order of the alphabet. */
  ghost predicate MoreRecent(h: seq<int>, s: int, t: int) {
    LastSeen(h, s) > LastSeen(h, t) || (LastSeen(h, s) == LastSeen(h, t) == 0 && s < t)
  }

  ghost predicate ByRecency(lru: seq<int>, h: seq<int>) {
    forall x, y :: 0 <= x < y < |lru| ==> MoreRecent(h, lru[x], lru[y])
  }

  lemma AlphabetByRecency(n: nat)
    ensures ByRecency(Alphabet(n), [])
  {
  }

  lemma SeenNext(h: seq<int>, s: int, t: int)
    ensures LastSeen(h + [s], t) == if s == t then |h| + 1 else LastSeen(h, t)
  {
    assert (h + [s])[..|h|] == h;
  }

  /** Moving the symbol just seen to the front keeps the list ordered by recency. */
  lemma TouchByRecency(lru: seq<int>, h: seq<int>, j: nat)
    requires IsRecencyList(lru) && ByRecency(lru, h) && j < |lru|
    ensures ByRecency(Touch(lru, j), h + [lru[j]])
  {
    hide LastSeen;
    var r := Touch(lru, j);
    forall x, y | 0 <= x < y < |r| ensures MoreRecent(h + [lru[j]], r[x], r[y]) {
      var y' := if y <= j then y - 1 else y;
      assert r[y] == lru[y'] && y' != j;
      SeenNext(h, lru[j], r[y]);
      SeenNext(h, lru[j], r[x]);
      if x > 0 { assert r[x] == lru[if x <= j then x - 1 else x]; }
    }
  }

  /** The symbols of the alphabet more recent than s. */
  ghost function Ahead(n: nat, h: seq<int>, s: int): (q: set<int>)
    ensures forall t :: t in q <==> 0 <= t < n && MoreRecent(h, t, s)
  {
    set t | 0 <= t < n && MoreRecent(h, t, s)
  }

  lemma ListHolds(lru: seq<int>, t: int)
    requires IsRecencyList(lru)
    ensures t in lru <==> 0 <= t < |lru|
  {
    if 0 <= t < |lru| { Surjective(lru, t); }
  }

  /** The index of a symbol is the number of symbols more recent than it. */
  lemma IndexCounts(lru: seq<int>, h: seq<int>, s: int)
    requires IsRecencyList(lru) && ByRecency(lru, h) && 0 <= s < |lru|
    ensures IndexOf(lru, s) == |Ahead(|lru|, h, s)|
  {
    hide LastSeen;
    var j := IndexOf(lru, s);
    var q := lru[..j];
    ElementsSize(q);
    forall t ensures t in Elements(q) <==> t in Ahead(|lru|, h, s) {
      ListHolds(lru, t);
      if t in lru {
        var x :| 0 <= x < |lru| && lru[x] == t;
        if x < j { assert q[x] == t; } else if x > j { assert MoreRecent(h, s, t); }
      }
    }
    assert Elements(q) == Ahead(|lru|, h, s);
  }

  lemma {:induction false} RankAt(lru: seq<int>, h: seq<int>, d: seq<int>, i: nat)
    requires IsRecencyList(lru) && ByRecency(lru, h) && InAlphabet(d, |lru|) && i < |d|
    ensures Ranks(lru, d)[i] == |Ahead(|lru|, h + d[..i], d[i])|
    decreases i
  {
    hide IsRecencyList, ByRecency, Touch, Ahead;
    var j := IndexOf(lru, d[0]);
    TouchKeepsList(lru, j);
    if i == 0 {
      IndexCounts(lru, h, d[0]);
      assert h + d[..0] == h;
    } else {
      TouchByRecency(lru, h, j);
      RankAt(Touch(lru, j), h + [d[0]], d[1..], i - 1);
      assert h + [d[0]] + d[1..][..i - 1] == h + d[..i];
    }
  }

  lemma {:induction false} SeenAfter(h: seq<int>, k: nat, t: int)
    requires k <= |h|
    ensures LastSeen(h, t) > k <==> t in h[k..]
    decreases |h|
  {
    if k == |h| {
      assert h[k..] == [];
    } else {
      var n := |h| - 1;
      assert h[k..] == h[..n][k..] + [h[n]];
      if h[n] != t { SeenAfter(h[..n], k, t); }
    }
  }

  /** A symbol that occurred before, last at k, gets the number of distinct symbols since. */
  lemma RankOfSeen(d: seq<int>, n: nat, k: nat, i: nat)
    requires InAlphabet(d, n) && k < i < |d| && d[k] == d[i] && d[i] !in d[k + 1..i]
    ensures Ranks(Alphabet(n), d)[i] == |Elements(d[k + 1..i])|
  {
    hide IsRecencyList, ByRecency, Ranks, LastSeen;
    AlphabetByRecency(n);
    RankAt(Alphabet(n), [], d, i);
    var h := d[..i];
    assert [] + h == h && h[k + 1..] == d[k + 1..i];
    AheadOfSeen(n, h, k, d[i]);
  }

  lemma AheadOfSeen(n: nat, h: seq<int>, k: nat, s: int)
    requires InAlphabet(h, n) && k < |h| && h[k] == s && s !in h[k + 1..]
    ensures Ahead(n, h, s) == Elements(h[k + 1..])
  {
    hide LastSeen;
    var since := h[k + 1..];
    assert h[k..][0] == s;
    SeenAfter(h, k, s);
    SeenAfter(h, k + 1, s);
    forall t ensures t in Ahead(n, h, s) <==> t in Elements(since) {
      SeenAfter(h, k + 1, t);
      assert t in Elements(since) <==> t in since;
      assert t in since ==> t in h;
    }
  }

  /** A symbol that is new gets its own value plus the number of distinct larger symbols before it. */
  lemma RankOfNew(d: seq<int>, n: nat, i: nat)
    requires InAlphabet(d, n) && i < |d| && d[i] !in d[..i]
    ensures Ranks(Alphabet(n), d)[i] == d[i] + |set t | t in d[..i] && t > d[i]|
  {
    hide IsRecencyList, ByRecency, Ranks, LastSeen;
    AlphabetByRecency(n);
    RankAt(Alphabet(n), [], d, i);
    var h, s := d[..i], d[i];
    assert [] + h == h;
    AheadOfNew(n, h, s);
  }

  lemma AheadOfNew(n: nat, h: seq<int>, s: nat)
    requires InAlphabet(h, n) && s < n && s !in h
    ensures |Ahead(n, h, s)| == s + |set t | t in h && t > s|
  {
    hide LastSeen;
    var larger := set t | t in h && t > s;
    RangeSize(s);
    hide Range, Ahead;
    forall t ensures t in Ahead(n, h, s) <==> t in Range(s) + larger {
    }
    assert Ahead(n, h, s) == Range(s) + larger && Range(s) !! larger;
  }

  class MoveToFrontTransformer {
    var lruCache: seq<int>
    const data: array<int>
    const alphabetSize: nat

    constructor (data: array<int>, alphabetSize: nat)
      ensures this.data == data && this.alphabetSize == alphabetSize
    {
      this.data := data;
      this.alphabetSize := alphabetSize;
      lruCache := [];
    }

    method ResetCache()
      modifies this
      ensures lruCache == Alphabet(alphabetSize)
    {
      lruCache := [];
      for i := 0 to alphabetSize
        invariant |lruCache| == i && forall k :: 0 <= k < i ==> lruCache[k] == k
      {
        lruCache := lruCache + [i];
      }
    }

    method Transform()
      requires InAlphabet(data[..], alphabetSize)
      modifies this, data
      ensures data[..] == Ranks(Alphabet(alphabetSize), old(data[..]))
    {
      hide IsRecencyList, Touch;
      ghost var d := data[..];
      ResetCache();
      ghost var out := Ranks(lruCache, d);
      for i := 0 to data.Length
        invariant IsRecencyList(lruCache) && |lruCache| == alphabetSize
        invariant data[..][i..] == d[i..] && out == data[..][..i] + Ranks(lruCache, d[i..])
      {
        var symbol := data[i];
        ghost var j0 := IndexOf(lruCache, symbol);
        assert symbol == d[i..][0] && d[i..][1..] == d[i + 1..];
        TouchKeepsList(lruCache, j0);
        var j := Find(lruCache, symbol);
        WriteAt(data[..], i, j, Ranks(Touch(lruCache, j), d[i + 1..]));
        data[i] := j;
        lruCache := MoveUp(lruCache, j);
      }
      assert data[..] == data[..][..data.Length];
    }

    method Invert()
      requires InAlphabet(data[..], alphabetSize)
      modifies this, data
      ensures data[..] == Symbols(Alphabet(alphabetSize), old(data[..]))
    {
      hide IsRecencyList, Touch;
      ghost var d := data[..];
      ResetCache();
      ghost var out := Symbols(lruCache, d);
      for i := 0 to data.Length
        invariant IsRecencyList(lruCache) && |lruCache| == alphabetSize
        invariant data[..][i..] == d[i..] && out == data[..][..i] + Symbols(lruCache, d[i..])
      {
        var chri := data[i];
        assert chri == d[i..][0] && d[i..][1..] == d[i + 1..];
        TouchKeepsList(lruCache, chri);
        WriteAt(data[..], i, lruCache[chri], Symbols(Touch(lruCache, chri), d[i + 1..]));
        data[i] := lruCache[chri];
        lruCache := MoveUp(lruCache, chri);
      }
      assert data[..] == data[..][..data.Length];
    }
  }

  /** erase(begin + j), then insert the erased symbol at the front. */
  method MoveUp(lru: seq<int>, j: nat) returns (r: seq<int>)
    requires j < |lru|
    ensures r == Touch(lru, j)
  {
    var symbol := lru[j];
    r := lru[..j] + lru[j + 1..];
    r := [symbol] + r;
  }

  method Find(lru: seq<int>, symbol: int) returns (j: nat)
    requires IsRecencyList(lru) && 0 <= symbol < |lru|
    ensures j == IndexOf(lru, symbol)
  {
    j := 0;
    while symbol != lru[j]
      invariant j <= IndexOf(lru, symbol)
      invariant forall k :: 0 <= k < j ==> lru[k] != symbol
      decreases IndexOf(lru, symbol) - j
    {
      j := j + 1;
    }
  }

  /** invert restores what transform replaced, in place, and the ranks stay in the alphabet. */
  method RoundTrip(data: array<int>, n: nat)
    requires InAlphabet(data[..], n)
    modifies data
    ensures data[..] == old(data[..])
  {
    var forward := new MoveToFrontTransformer(data, n);
    forward.Transform();
    var backward := new MoveToFrontTransformer(data, n);
    SymbolsOfRanks(Alphabet(n), old(data[..]));
    backward.Invert();
  }
}
