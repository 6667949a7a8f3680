/** Archive paths as the trie sees them: the non-empty parts between slashes. */
module Paths {
  type Path = seq<nat>
  type Key = seq<Path>

  const SLASH: nat := 47

  /** Splits a path at '/', dropping empty parts; `part` is what has been read of the current one. */
  function Split(path: Path, part: Path): Key
    decreases |path|
  {
    if path == [] then (if part == [] then [] else [part])
    else if path[0] == SLASH then (if part == [] then [] else [part]) + Split(path[1..], [])
    else Split(path[1..], part + [path[0]])
  }

  function Tokens(path: Path): Key {
    Split(path, [])
  }

  /** No part is empty, so keys are proper trie paths. */
  lemma {:induction false} SplitParts(path: Path, part: Path)
    ensures forall i :: 0 <= i < |Split(path, part)| ==> Split(path, part)[i] != []
    decreases |path|
  {
    if path == [] {
    } else {
      if path[0] == SLASH { SplitParts(path[1..], []); } else { SplitParts(path[1..], part + [path[0]]); }
    }
  }

  /** The path with a leading slash before each part. */
  function Join(key: Key): Path {
    if key == [] then [] else [SLASH] + key[0] + Join(key[1..])
  }

  ghost predicate IsKey(key: Key) {
    forall i :: 0 <= i < |key| ==> key[i] != [] && SLASH !in key[i]
  }

  lemma {:induction false} SplitPart(p: Path, rest: Path, part: Path)
    requires SLASH !in p
    ensures Split(p + rest, part) == Split(rest, part + p)
    decreases |p|
  {
    if p == [] {
      assert p + rest == rest && part + p == part;
    } else {
      assert (p + rest)[1..] == p[1..] + rest;
      SplitPart(p[1..], rest, part + [p[0]]);
      assert part + [p[0]] + p[1..] == part + p;
    }
  }

  /** Splitting a joined key gives the key back. */
  lemma {:induction false} TokensOfJoin(key: Key)
    requires IsKey(key)
    ensures Tokens(Join(key)) == key
    decreases |key|
  {
    if key == [] {
    } else {
      var tail := Join(key[1..]);
      var p := Join(key);
      assert p[1..] == key[0] + tail;
      SplitPart(key[0], tail, []);
      assert [] + key[0] == key[0];
      TokensOfJoin(key[1..]);
      SplitFull(tail, key[0]);
      assert [key[0]] + key[1..] == key;
    }
  }

  lemma SplitFull(rest: Path, part: Path)
    requires part != [] && (rest == [] || rest[0] == SLASH)
    ensures Split(rest, part) == [part] + Split(rest, [])
  {
  }

  // ----- Keys of a trie -----

  /** What the trie's `contains` answers while only stored keys are erased: the key is the root or a
      prefix of a stored key. */
  predicate Known<V>(entries: map<Key, V>, key: Key) {
    key == [] || exists k :: k in entries && key <= k
  }

  /** The trie accepts the key: no other stored key is a prefix of it or extends it. */
  ghost predicate Settable<V>(entries: map<Key, V>, key: Key) {
    key != [] && forall k :: k in entries ==> k == key || !(k <= key || key <= k)
  }

  /** No stored key is the root or a proper prefix of another. */
  ghost predicate PrefixFree<V>(entries: map<Key, V>) {
    && [] !in entries
    && forall k, l :: k in entries && l in entries && k <= l ==> k == l
  }

  lemma KnownKeys<V, W>(a: map<Key, V>, b: map<Key, W>, key: Key)
    requires a.Keys == b.Keys
    ensures Known(a, key) <==> Known(b, key)
  {
    if Known(a, key) && key != [] { var k :| k in a && key <= k; assert k in b; }
    if Known(b, key) && key != [] { var k :| k in b && key <= k; assert k in a; }
  }

  /** No stored key is a proper prefix of this one: no file stands where the path needs a directory. */
  ghost predicate Unobstructed<V>(entries: map<Key, V>, key: Key) {
    forall k :: k in entries && k <= key ==> k == key
  }

  lemma UnknownSettable<V>(entries: map<Key, V>, key: Key)
    requires Unobstructed(entries, key) && !Known(entries, key)
    ensures Settable(entries, key)
  {
  }

  lemma SettableSame<V, W>(a: map<Key, V>, b: map<Key, W>, key: Key)
    requires a.Keys == b.Keys && Settable(a, key)
    ensures Settable(b, key)
  {
    assert forall k :: k in b ==> k in a.Keys;
  }

  /** Where `contains` says no and nothing obstructs, the trie accepts the key. */
  lemma SettableKeys<V, W>(a: map<Key, V>, b: map<Key, W>, key: Key)
    requires a.Keys == b.Keys && Unobstructed(a, key) && !Known(a, key)
    ensures Settable(b, key) && Settable(a, key)
  {
    UnknownSettable(a, key);
    SettableSame(a, b, key);
  }

  lemma UnknownAbsent<V>(entries: map<Key, V>, key: Key)
    requires !Known(entries, key)
    ensures key !in entries
  {
  }

  lemma SetPrefixFree<V>(entries: map<Key, V>, key: Key, v: V)
    requires PrefixFree(entries) && Settable(entries, key)
    ensures PrefixFree(entries[key := v])
  {
  }

  /** Erasing a stored key from a trie erases nothing else. */
  lemma ErasePrefixFree<V>(entries: map<Key, V>, key: Key)
    requires PrefixFree(entries)
    ensures PrefixFree(entries - {key})
  {
  }

  // ----- Accepted paths -----

  /** `hz_validate_path`. */
  predicate ValidPath(path: Path) {
    && path != [] && path[0] == SLASH
    && (forall i :: 0 <= i < |path| ==> path[i] != 0 && path[i] != 92 && path[i] != 32)
    && (forall i :: 0 <= i < |path| - 1 ==> !(path[i] == SLASH && path[i + 1] == SLASH))
  }

  /** A slash separates: what is before it and what is behind it are split on their own. */
  lemma {:induction false} SplitAtSlash(p: Path, q: Path, part: Path)
    ensures Split(p + [SLASH] + q, part) == Split(p, part) + Split(q, [])
    decreases |p|
  {
    var path := p + [SLASH] + q;
    if p == [] {
      assert path == [SLASH] + q && path[1..] == q;
    } else {
      assert path[0] == p[0] && path[1..] == p[1..] + [SLASH] + q;
      SplitAtSlash(p[1..], q, if p[0] == SLASH then [] else part + [p[0]]);
    }
  }

  lemma TokensOfPart(p: Path)
    requires SLASH !in p
    ensures Tokens(p) == if p == [] then [] else [p]
  {
    SplitPart(p, [], []);
    assert p + [] == p && [] + p == p;
  }

  lemma TokensAtSlash(p: Path, q: Path)
    ensures Tokens(p + [SLASH] + q) == Tokens(p) + Tokens(q)
  {
    SplitAtSlash(p, q, []);
  }

  lemma {:induction false} SplitNoSlash(path: Path, part: Path)
    requires SLASH !in part
    ensures IsKey(Split(path, part))
    decreases |path|
  {
    if path == [] {
    } else if path[0] == SLASH {
      SplitNoSlash(path[1..], []);
    } else {
      SplitNoSlash(path[1..], part + [path[0]]);
    }
  }

  // ----- Which paths are accepted -----

  ghost predicate NoRepeatedSlash(path: Path) {
    forall i :: 0 <= i < |path| - 1 ==> !(path[i] == SLASH && path[i + 1] == SLASH)
  }

  /** A joined key begins with a slash, ends with none, and never repeats one. */
  lemma {:induction false} JoinShape(key: Key)
    requires IsKey(key)
    ensures NoRepeatedSlash(Join(key))
    ensures key != [] ==> Join(key)[0] == SLASH && Join(key)[|Join(key)| - 1] != SLASH
  {
    if key == [] {
    } else {
      var tail := Join(key[1..]);
      JoinShape(key[1..]);
      var p := Join(key);
      assert p == [SLASH] + key[0] + tail;
      forall i | 0 <= i < |p| - 1 ensures !(p[i] == SLASH && p[i + 1] == SLASH) {
        if i == 0 {
          assert p[1] == key[0][0];
        } else if i <= |key[0]| {
          assert p[i] == key[0][i - 1];
        } else {
          assert p[i] == tail[i - 1 - |key[0]|] && p[i + 1] == tail[i - |key[0]|];
        }
      }
      if tail == [] {
        assert p[|p| - 1] == key[0][|key[0]| - 1];
      } else {
        assert key[1..] != [] && p[|p| - 1] == tail[|tail| - 1];
      }
    }
  }

  lemma JoinMore(part: Path, key: Key, rest: Path)
    requires [SLASH] + [] + rest == Join(key) || [SLASH] + [] + rest == Join(key) + [SLASH]
    ensures var whole := [SLASH] + part + ([SLASH] + rest);
            whole == Join([part] + key) || whole == Join([part] + key) + [SLASH]
  {
    assert ([part] + key)[1..] == key;
    assert [SLASH] + [] + rest == [SLASH] + rest;
  }

  /** Without repeated slashes, what is split can be joined again, up to a slash at the end. */
  lemma {:induction false} JoinOfSplit(path: Path, part: Path)
    requires SLASH !in part && NoRepeatedSlash(path)
    requires part == [] ==> path == [] || path[0] != SLASH
    ensures var j := Join(Split(path, part));
            var whole := [SLASH] + part + path;
            whole == j || whole == j + [SLASH]
    decreases |path|
  {
    if path == [] {
      assert [SLASH] + part + path == [SLASH] + part;
      if part != [] { assert Join([part]) == [SLASH] + part + Join([]); }
    } else if path[0] == SLASH {
      var rest := path[1..];
      assert path == [SLASH] + rest;
      JoinOfSplit(rest, []);
      JoinMore(part, Split(rest, []), rest);
    } else {
      var rest := path[1..];
      assert path == [path[0]] + rest;
      JoinOfSplit(rest, part + [path[0]]);
      assert [SLASH] + (part + [path[0]]) + rest == [SLASH] + part + path;
    }
  }

  /** The accepted paths are exactly the joined keys, with or without a slash at the end, that hold
      none of the three characters that are refused. */
  lemma ValidPathIff(path: Path)
    ensures ValidPath(path) <==>
              && path != [] && 0 !in path && 92 !in path && 32 !in path
              && (path == Join(Tokens(path)) || path == Join(Tokens(path)) + [SLASH])
  {
    SplitNoSlash(path, []);
    if ValidPath(path) { ValidJoins(path); }
    if path == Join(Tokens(path)) || path == Join(Tokens(path)) + [SLASH] { JoinedShape(path, Tokens(path)); }
  }

  lemma ValidJoins(path: Path)
    requires ValidPath(path)
    ensures path == Join(Tokens(path)) || path == Join(Tokens(path)) + [SLASH]
  {
    var rest := path[1..];
    assert path == [SLASH] + rest == [SLASH] + [] + rest;
    assert Tokens(path) == Split(rest, []);
    JoinOfSplit(rest, []);
  }

  lemma JoinedShape(path: Path, key: Key)
    requires IsKey(key) && (path == Join(key) || path == Join(key) + [SLASH])
    ensures NoRepeatedSlash(path) && (path != [] ==> path[0] == SLASH)
  {
    hide Join;
    JoinNone();
    JoinShape(key);
  }

  lemma JoinNone()
    ensures Join([]) == []
  {
  }
}
