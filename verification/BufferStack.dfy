/** `HZ_Stack`: a stack kept in a chain of fixed-size buffers. */
module BufferStack {
  const BUFSIZE: nat := 0x10000

  class Buffer<T(0)> {
    const data: array<T>
    var next: Buffer?<T>
    var prev: Buffer?<T>

    constructor ()
      ensures fresh(data) && data.Length == BUFSIZE && prev == null
    {
      data := new T[BUFSIZE];
      next, prev := null, null;
    }
  }

  ghost function Flatten<T>(chunks: seq<seq<T>>): seq<T> {
    if chunks == [] then [] else Flatten(chunks[..|chunks| - 1]) + chunks[|chunks| - 1]
  }

  lemma FlattenSnoc<T>(chunks: seq<seq<T>>, c: seq<T>)
    ensures Flatten(chunks + [c]) == Flatten(chunks) + c
  {
    assert (chunks + [c])[..|chunks|] == chunks;
  }

  lemma FlattenNone<T>()
    ensures Flatten<T>([]) == []
  {
  }

  lemma {:induction false} FlattenSize<T>(chunks: seq<seq<T>>)
    requires forall i :: 0 <= i < |chunks| ==> |chunks[i]| == BUFSIZE
    ensures |Flatten(chunks)| == |chunks| * BUFSIZE
  {
    if chunks == [] {
    } else {
      FlattenSize(chunks[..|chunks| - 1]);
    }
  }

  class Stack<T(0)> {
    var buffer: Buffer?<T>
    var index: nat

    ghost var bufs: seq<Buffer<T>>     // the chain, bottom first
    ghost var below: seq<seq<T>>       // the contents of the full buffers below the top one
    ghost var Repr: set<object>

    /** The buffers form a chain through prev. */
    ghost predicate Chained()
      reads this, Repr
    {
      && this in Repr
      && (forall i :: 0 <= i < |bufs| ==> bufs[i] in Repr && bufs[i].data in Repr && bufs[i].data.Length == BUFSIZE)
      && (forall i, j :: 0 <= i < j < |bufs| ==> bufs[i] != bufs[j] && bufs[i].data != bufs[j].data)
      && (bufs != [] ==> bufs[0].prev == null)
      && (forall i :: 1 <= i < |bufs| ==> bufs[i].prev == bufs[i - 1])
    }

    /** The buffer is the last of the chain, and all below it are full. */
    ghost predicate Linked()
      reads this, Repr
      ensures Linked() ==> Chained() && (buffer != null ==> buffer in Repr && buffer.data in Repr)
    {
      && Chained()
      && |bufs| == (if buffer == null then 0 else |below| + 1) && (buffer == null ==> below == [])
      && (forall i :: 0 <= i < |below| ==> bufs[i].data[..] == below[i])
      && (buffer != null ==> buffer == bufs[|below|])
      && index <= BUFSIZE
    }

    /** Between calls the top buffer is never empty. */
    ghost predicate Valid()
      reads this, Repr
      ensures Valid() ==> this in Repr && Linked()
    {
      Linked() && if buffer == null then index == 0 || index == BUFSIZE else 1 <= index
    }

    /** The stack, bottom first. */
    ghost function Contents(): seq<T>
      requires Linked()
      reads this, Repr
    {
      if buffer == null then [] else Flatten(below) + buffer.data[..index]
    }

    /** Popping the last element leaves the index at the end of a buffer that is gone. */
    ghost predicate Emptied()
      reads this
    {
      buffer == null && index == BUFSIZE
    }

    constructor ()
      ensures Valid() && fresh(Repr) && Contents() == [] && !Emptied()
    {
      buffer, index := null, 0;
      bufs, below := [], [];
      Repr := {this};
    }

    /** Pushes x, unless everything was popped before: then a whole buffer of unspecified elements
        comes to lie below x. */
    method Push(x: T)
      requires Valid()
      modifies Repr
      ensures Valid() && fresh(Repr - old(Repr)) && !Emptied()
      ensures !old(Emptied()) ==> Contents() == old(Contents()) + [x]
      ensures old(Emptied()) ==> |Contents()| == BUFSIZE + 1 && Contents()[BUFSIZE] == x
    {
      hide Flatten;
      if buffer == null {
        AddFirst();
      }
      if index < BUFSIZE {
        WriteTop(x);
      } else {
        AddNext();
        WriteTop(x);
      }
    }

    /** buffer->data[index++] = x */
    method WriteTop(x: T)
      requires Linked() && buffer != null && index < BUFSIZE
      modifies this`index, buffer.data
      ensures Valid() && Contents() == old(Contents()) + [x] && index == old(index) + 1
    {
      hide Flatten;
      ghost var top := buffer.data[..index];
      assert forall i :: 0 <= i < |below| ==> bufs[i].data != bufs[|below|].data;
      buffer.data[index] := x;
      index := index + 1;
      assert buffer.data[..index] == top + [x];
      assert Flatten(below) + (top + [x]) == (Flatten(below) + top) + [x];
    }

    method AddFirst()
      requires Valid() && buffer == null
      modifies this
      ensures Linked() && fresh(Repr - old(Repr)) && buffer != null && index == old(index)
      ensures |Contents()| == index
    {
      buffer := new Buffer<T>();
      bufs := [buffer];
      Repr := Repr + {buffer, buffer.data};
      assert Flatten(below) == [];
    }

    /** A new buffer behind a full one. */
    static method LinkNew(prev: Buffer<T>) returns (b: Buffer<T>)
      modifies prev`next
      ensures fresh(b) && fresh(b.data) && b.data.Length == BUFSIZE && b.prev == prev && prev.next == b
    {
      b := new Buffer<T>();
      prev.next := b;
      b.prev := prev;
    }

    method AddNext()
      requires Linked() && buffer != null && index == BUFSIZE
      modifies this, buffer
      ensures Linked() && fresh(Repr - old(Repr)) && buffer != null && index == 0
      ensures Contents() == old(Contents())
    {
      hide Flatten;
      ghost var chunk := buffer.data[..];
      FlattenSnoc(below, chunk);
      assert chunk == chunk[..BUFSIZE];
      buffer := LinkNew(buffer);
      index := 0;
      below := below + [chunk];
      bufs := bufs + [buffer];
      Repr := Repr + {buffer, buffer.data};
      assert Chained();
    }

    /** Removes the top element, if there is one. */
    method Pop()
      requires Valid()
      modifies this
      ensures Valid() && Repr == old(Repr)
      ensures old(Contents()) == [] ==> Contents() == [] && index == old(index)
      ensures old(Contents()) != [] ==> old(Contents()) == Contents() + [old(Contents())[|old(Contents())| - 1]]
      ensures old(Contents()) != [] && Contents() == [] ==> Emptied()
    {
      hide Flatten;
      if buffer == null {
        return;
      }
      if index > 1 {
        ghost var f, top, x := Flatten(below), buffer.data[..index - 1], buffer.data[index - 1];
        assert buffer.data[..index] == top + [x] && f + (top + [x]) == (f + top) + [x];
        index := index - 1;
      } else {
        DropTop();
      }
    }

    method DropTop()
      requires Valid() && buffer != null && index == 1
      modifies this
      ensures Valid() && Repr == old(Repr)
      ensures old(Contents()) == Contents() + [old(buffer.data[0])]
      ensures Contents() == [] ==> Emptied()
    {
      hide Flatten;
      FlattenNone<T>();
      ghost var n := |below|;
      assert buffer.data[..1] == [buffer.data[0]];
      index := BUFSIZE;
      assert bufs[n].prev == buffer.prev;
      buffer := buffer.prev;
      bufs := bufs[..n];
      assert Chained();
      if n > 0 {
        assert buffer == bufs[n - 1] && bufs[n - 1].data[..BUFSIZE] == bufs[n - 1].data[..] == below[n - 1];
        FlattenSnoc(below[..n - 1], below[n - 1]);
        assert below[..n - 1] + [below[n - 1]] == below;
        below := below[..n - 1];
      }
    }

    method Top() returns (x: T)
      requires Valid() && Contents() != []
      ensures x == Contents()[|Contents()| - 1]
    {
      x := buffer.data[index - 1];
    }

    method Empty() returns (e: bool)
      requires Valid()
      ensures e <==> Contents() == []
    {
      e := buffer == null;
    }

    /** Right while the stack is fresh or not empty; a whole buffer too many once it was emptied. */
    method Size() returns (count: nat)
      requires Valid()
      ensures count == |Contents()| + if Emptied() then BUFSIZE else 0
    {
      count := index;
      if buffer != null {
        ghost var k := |below|;
        FlattenSize(below);
        var tmp := buffer.prev;
        while tmp != null
          invariant 0 <= k <= |below| && bufs[k].prev == tmp
          invariant tmp == (if k == 0 then null else bufs[k - 1])
          invariant count == index + (|below| - k) * BUFSIZE
          decreases k
        {
          tmp := tmp.prev;
          count := count + BUFSIZE;
          k := k - 1;
        }
      }
    }
  }

  /** The LIFO contract fails exactly after popping to empty: one push and one pop then leave
      the stack non-empty. */
  method PushAfterEmptying<T(0)>(s: Stack<T>, x: T) returns (empty: bool)
    requires s.Valid() && s.Contents() == []
    modifies s.Repr
    ensures empty <==> !old(s.Emptied())
  {
    s.Push(x);
    s.Pop();
    empty := s.Empty();
  }

  /** The shortest such run: push, pop, push, pop. */
  method PushPopTwice<T(0)>(x: T, y: T) returns (empty: bool)
    ensures !empty
  {
    var s := new Stack<T>();
    s.Push(x);
    s.Pop();
    empty := PushAfterEmptying(s, y);
  }
}
