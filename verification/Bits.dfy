/** Bit strings and the `bitio` stream: write(v, n) stores the low n bits of v, most significant
    first, and read(n) returns the next n bits as a number. */
module Bits {
  import opened Words

  /** The low n bits of v. */
  function BitsOf(v: nat, n: nat): (b: seq<bool>)
    ensures |b| == n
  {
    if n == 0 then [] else BitsOf(v / 2, n - 1) + [v % 2 == 1]
  }

  function ValueOf(b: seq<bool>): nat {
    if b == [] then 0 else 2 * ValueOf(b[..|b| - 1]) + if b[|b| - 1] then 1 else 0
  }

  /** Reading back what was written gives the value, when it fits. */
  lemma {:induction false} ValueOfBits(v: nat, n: nat)
    requires v < Pow2(n)
    ensures ValueOf(BitsOf(v, n)) == v
  {
    if n == 0 {
    } else {
      ValueOfBits(v / 2, n - 1);
      assert BitsOf(v, n)[..n - 1] == BitsOf(v / 2, n - 1);
    }
  }

  lemma {:induction false} BitsOfValue(b: seq<bool>)
    ensures ValueOf(b) < Pow2(|b|) && BitsOf(ValueOf(b), |b|) == b
  {
    if b == [] {
    } else {
      BitsOfValue(b[..|b| - 1]);
      assert ValueOf(b) / 2 == ValueOf(b[..|b| - 1]);
    }
  }

  /** The bits of a number, one by one: the most significant one comes first. */
  lemma {:induction false} BitAt(v: nat, n: nat, i: nat)
    requires i < n
    ensures BitsOf(v, n)[i] == (v / Pow2(n - 1 - i) % 2 == 1)
    decreases n
  {
    if i == n - 1 {
      assert Pow2(0) == 1;
    } else {
      BitAt(v / 2, n - 1, i);
      DivDiv(v, 2, Pow2(n - 2 - i), Pow2(n - 1 - i));
    }
  }

  /** b with c written over it at position p, growing if c reaches past the end. */
  function Overwrite(b: seq<bool>, p: nat, c: seq<bool>): (r: seq<bool>)
    requires p <= |b|
    ensures |r| == if p + |c| <= |b| then |b| else p + |c|
    ensures r[..p] == b[..p] && r[p..p + |c|] == c
    ensures forall i :: 0 <= i < |b| && !(p <= i < p + |c|) ==> r[i] == b[i]
  {
    b[..p] + c + if p + |c| <= |b| then b[p + |c|..] else []
  }

  class BitStream {
    var bits: seq<bool>
    var pos: nat

    constructor (bits: seq<bool>)
      ensures this.bits == bits && pos == 0
    {
      this.bits := bits;
      pos := 0;
    }

    method Write(v: nat, n: nat)
      requires pos <= |bits|
      modifies this
      ensures bits == Overwrite(old(bits), old(pos), BitsOf(v, n)) && pos == old(pos) + n
    {
      bits := Overwrite(bits, pos, BitsOf(v, n));
      pos := pos + n;
    }

    method Read(n: nat) returns (v: nat)
      requires pos + n <= |bits|
      modifies this`pos
      ensures v == ValueOf(old(bits[pos..pos + n])) && pos == old(pos) + n
    {
      v := ValueOf(bits[pos..pos + n]);
      pos := pos + n;
    }

    method SeekTo(p: nat)
      modifies this`pos
      ensures pos == p
    {
      pos := p;
    }

    method Seek(n: nat)
      modifies this`pos
      ensures pos == old(pos) + n
    {
      pos := pos + n;
    }
  }
}
