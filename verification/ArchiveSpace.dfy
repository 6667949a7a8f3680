/** The free-fragment list against the empty blocks of the tiling. */
module ArchiveSpace {
  import opened Words
  import L = ArchiveLayout
  import opened ArchiveImage
  import opened ArchiveIndex

  ghost predicate FragmentAt(frags: seq<Fragment>, blocks: Blocks, i: nat)
    requires i < |frags|
  {
    var o := frags[i].sof;
    o in blocks && blocks[o].Empty? && |blocks[o].body| == frags[i].length
  }

  ghost predicate InList(frags: seq<Fragment>, o: int) {
    exists i :: 0 <= i < |frags| && frags[i].sof == o
  }

  /** The list names every empty block once, except the slot at `hole`. */
  ghost predicate FragmentsAgree(frags: seq<Fragment>, blocks: Blocks, hole: int) {
    && (forall i {:trigger FragmentAt(frags, blocks, i)} :: 0 <= i < |frags| ==> FragmentAt(frags, blocks, i))
    && (forall i, j :: 0 <= i < j < |frags| ==> frags[i].sof != frags[j].sof)
    && (forall o {:trigger InList(frags, o)} :: o in blocks && blocks[o].Empty? ==> (InList(frags, o) <==> o != hole))
  }

  /** Lengths and fields fit what stores them. */
  ghost predicate AllStorable(blocks: Blocks) {
    forall o {:trigger L.Storable(blocks[o])} :: o in blocks ==> L.Storable(blocks[o])
  }

  lemma FragmentNotHole(frags: seq<Fragment>, blocks: Blocks, hole: int, i: nat)
    requires FragmentsAgree(frags, blocks, hole) && i < |frags|
    ensures frags[i].sof != hole && FragmentAt(frags, blocks, i)
  {
    assert FragmentAt(frags, blocks, i);
    assert InList(frags, frags[i].sof);
  }

  /** The fragment at `index` taken whole. */
  lemma TakeWhole(frags: seq<Fragment>, blocks: Blocks, index: nat)
    requires FragmentsAgree(frags, blocks, -1) && index < |frags|
    ensures FragmentsAgree(frags[..index] + frags[index + 1..], blocks, frags[index].sof)
  {
    var rest, o := frags[..index] + frags[index + 1..], frags[index].sof;
    forall i | 0 <= i < |rest| ensures FragmentAt(rest, blocks, i) && rest[i].sof != o {
      var k := if i < index then i else i + 1;
      assert rest[i] == frags[k] && FragmentAt(frags, blocks, k);
    }
    forall q | q in blocks && blocks[q].Empty? ensures InList(rest, q) <==> q != o {
      assert InList(frags, q);
      var k :| 0 <= k < |frags| && frags[k].sof == q;
      if k != index { assert rest[if k < index then k else k - 1] == frags[k]; }
    }
  }

  /** The fragment at `index` split: the slot in front, the remainder listed in its place. */
  lemma TakeFront(frags: seq<Fragment>, blocks: Blocks, index: nat, slot: Block, m: nat, rest: Block)
    requires FragmentsAgree(frags, blocks, -1) && index < |frags|
    requires m !in blocks && rest.Empty? && slot.Empty? && m != frags[index].sof
    ensures FragmentsAgree(frags[index := Fragment(m, |rest.body|)], blocks[frags[index].sof := slot][m := rest],
            frags[index].sof)
  {
    var o := frags[index].sof;
    var frags', blocks' := frags[index := Fragment(m, |rest.body|)], blocks[o := slot][m := rest];
    forall i | 0 <= i < |frags'| ensures FragmentAt(frags', blocks', i) && frags'[i].sof != o {
      assert FragmentAt(frags, blocks, i);
    }
    forall i, j | 0 <= i < j < |frags'| ensures frags'[i].sof != frags'[j].sof {
      assert FragmentAt(frags, blocks, i) && FragmentAt(frags, blocks, j);
    }
    forall q | q in blocks' && blocks'[q].Empty? ensures InList(frags', q) <==> q != o {
      if q == m {
        assert frags'[index].sof == q;
      } else if q != o {
        assert InList(frags, q);
        var k :| 0 <= k < |frags| && frags[k].sof == q;
        assert frags'[k].sof == q;
      }
    }
  }

  /** A slot behind everything: the list does not change. */
  lemma TakeEnd(frags: seq<Fragment>, blocks: Blocks, o: nat, slot: Block)
    requires FragmentsAgree(frags, blocks, -1) && o !in blocks && slot.Empty?
    ensures FragmentsAgree(frags, blocks[o := slot], o)
  {
    var blocks' := blocks[o := slot];
    forall i | 0 <= i < |frags| ensures FragmentAt(frags, blocks', i) && frags[i].sof != o {
      assert FragmentAt(frags, blocks, i);
    }
    forall q | q in blocks' && blocks'[q].Empty? ensures InList(frags, q) <==> q != o {
      if q != o { assert InList(frags, q); }
    }
  }

  /** Filling the slot leaves no exception. */
  lemma FillHole(frags: seq<Fragment>, blocks: Blocks, hole: nat, b: Block)
    requires FragmentsAgree(frags, blocks, hole) && hole in blocks && !b.Empty?
    ensures FragmentsAgree(frags, blocks[hole := b], -1)
  {
    var blocks' := blocks[hole := b];
    forall i | 0 <= i < |frags| ensures FragmentAt(frags, blocks', i) { FragmentNotHole(frags, blocks, hole, i); }
    forall q | q in blocks' && blocks'[q].Empty? ensures InList(frags, q) <==> q != -1 { assert InList(frags, q); }
  }

  /** A freed block joins the list. */
  lemma GiveBack(frags: seq<Fragment>, blocks: Blocks, o: nat)
    requires FragmentsAgree(frags, blocks, -1) && o in blocks && !blocks[o].Empty?
    ensures FragmentsAgree(frags + [Fragment(o, |L.Body(blocks[o])|)], blocks[o := Freed(blocks[o])], -1)
  {
    hide L.Body;
    var b := blocks[o];
    var frags', blocks' := frags + [Fragment(o, |L.Body(b)|)], blocks[o := Freed(b)];
    forall i | 0 <= i < |frags'| ensures FragmentAt(frags', blocks', i) && (i < |frags| ==> frags'[i].sof != o) {
      if i < |frags| { assert FragmentAt(frags, blocks, i); }
    }
    forall q | q in blocks' && blocks'[q].Empty? ensures InList(frags', q) <==> q != -1 {
      if q == o {
        assert frags'[|frags|].sof == q;
      } else {
        assert InList(frags, q);
        var k :| 0 <= k < |frags| && frags[k].sof == q;
        assert frags'[k].sof == q;
      }
    }
  }

  /** As sets, two lists that agree with the same blocks are the same fragments. */
  lemma FragmentsUnique(f1: seq<Fragment>, f2: seq<Fragment>, blocks: Blocks)
    requires FragmentsAgree(f1, blocks, -1) && FragmentsAgree(f2, blocks, -1)
    ensures forall f :: f in f1 <==> f in f2
  {
    forall f ensures f in f1 <==> f in f2 {
      if f in f1 { SameFragment(f1, f2, blocks, f); }
      if f in f2 { SameFragment(f2, f1, blocks, f); }
    }
  }

  lemma SameFragment(f1: seq<Fragment>, f2: seq<Fragment>, blocks: Blocks, f: Fragment)
    requires FragmentsAgree(f1, blocks, -1) && FragmentsAgree(f2, blocks, -1) && f in f1
    ensures f in f2
  {
    var i :| 0 <= i < |f1| && f1[i] == f;
    assert FragmentAt(f1, blocks, i);
    assert InList(f2, f.sof);
    var k :| 0 <= k < |f2| && f2[k].sof == f.sof;
    assert FragmentAt(f2, blocks, k);
    assert f2[k] == f;
  }

  // ----- Best fit -----

  /** A fragment a block of this length may take: exactly, or leaving room for an empty block. */
  predicate Admissible(f: Fragment, length: nat) {
    f.length == length || f.length >= length + 0x48
  }

  /** The fragment the best fit takes: admissible, of least length, and the first such in the list. */
  ghost predicate BestAt(frags: seq<Fragment>, i: nat, length: nat) {
    && i < |frags| && Admissible(frags[i], length)
    && forall j :: 0 <= j < |frags| && Admissible(frags[j], length) ==>
         frags[i].length <= frags[j].length && (j < i ==> frags[i].length < frags[j].length)
  }

  ghost predicate AnyFits(frags: seq<Fragment>, length: nat) {
    exists i :: 0 <= i < |frags| && Admissible(frags[i], length)
  }

  /** A block of this length took the best fragment: whole, or its front, leaving a smaller fragment
      behind a header of 0x48 bits in the same place of the list. */
  ghost predicate Taken(before: seq<Fragment>, after: seq<Fragment>, sof: nat, length: nat) {
    exists i: nat :: BestAt(before, i, length) && before[i].sof == sof
      && after == if before[i].length == length then before[..i] + before[i + 1..]
                  else before[i := Fragment(sof + 0x48 + length, before[i].length - length - 0x48)]
  }

  /** Where a block of this length went: into the best fragment if one fits, with the end of the file
      where it was; otherwise to the end of the file, which moves just behind it. */
  ghost predicate Placed(before: seq<Fragment>, eof: nat, after: seq<Fragment>, eof': nat, sof: nat, length: nat) {
    if AnyFits(before, length) then Taken(before, after, sof, length) && eof' == eof
    else sof == eof && eof' == eof + 0x48 + length && after == before
  }

  /** The scan of `hza_alloc_fragment`: an admissible fragment with the least slack, if there is one. */
  method BestFit(frags: seq<Fragment>, length: nat) returns (found: bool, index: nat, fitDiff: nat)
    requires length > 0 && forall i :: 0 <= i < |frags| ==> frags[i].length < TWO_64
    ensures found ==> index < |frags| && Admissible(frags[index], length) && fitDiff == frags[index].length - length
    ensures found ==> BestAt(frags, index, length) && AnyFits(frags, length)
    ensures !found ==> !AnyFits(frags, length)
  {
    index, fitDiff, found := 0, 0xffff_ffff_ffff_ffff, false;
    for i := 0 to |frags|
      invariant found ==> index < i && Admissible(frags[index], length) && fitDiff == frags[index].length - length
      invariant !found ==> fitDiff == 0xffff_ffff_ffff_ffff
      invariant forall k :: 0 <= k < i && Admissible(frags[k], length) ==>
                  found && fitDiff <= frags[k].length - length && (k < index ==> fitDiff < frags[k].length - length)
    {
      var fragment := frags[i];
      if fragment.length >= length {
        var diff := fragment.length - length;
        if diff < 0x48 && diff > 0 {
          continue;
        }
        if diff < fitDiff {
          fitDiff := diff;
          found := true;
          index := i;
        }
      }
    }
  }

  // ----- Live blocks under the moves above -----

  lemma LiveFill(blocks: Blocks, hole: nat, b: Block)
    requires hole in blocks && blocks[hole].Empty? && !b.Empty?
    ensures Live(blocks[hole := b]) == Live(blocks)[hole := b] && hole !in Live(blocks)
  {
  }

  lemma LiveFree(blocks: Blocks, o: nat)
    requires o in blocks
    ensures Live(blocks[o := Freed(blocks[o])]) == Live(blocks) - {o}
  {
    hide L.Body;
  }

  lemma LiveSlot(blocks: Blocks, o: nat, slot: Block)
    requires slot.Empty? && (o in blocks ==> blocks[o].Empty?)
    ensures Live(blocks[o := slot]) == Live(blocks)
  {
  }
}
