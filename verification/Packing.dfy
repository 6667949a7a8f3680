/** The byte packings of Victini's container. */
module Packing {
  import opened Words

  ghost predicate AreBytes(b: seq<nat>) {
    forall i :: 0 <= i < |b| ==> b[i] < 256
  }

  ghost predicate AreWords(w: seq<nat>) {
    forall i :: 0 <= i < |w| ==> w[i] < TWO_32
  }

  /** Little-endian bytes of x. */
  ghost function LittleEndian(x: nat, n: nat): (b: seq<nat>)
    ensures |b| == n && AreBytes(b)
  {
    if n == 0 then [] else [x % 256] + LittleEndian(x / 256, n - 1)
  }

  ghost function FromLittleEndian(b: seq<nat>): nat {
    if b == [] then 0 else b[0] + 256 * FromLittleEndian(b[1..])
  }

  lemma {:induction false} LittleEndianInverse(x: nat, n: nat)
    requires x < Pow2(8 * n)
    ensures FromLittleEndian(LittleEndian(x, n)) == x
  {
    if n == 0 {
    } else {
      Pow2Values();
      Pow2Add(8, 8 * (n - 1));
      LittleEndianInverse(x / 256, n - 1);
      assert LittleEndian(x, n)[1..] == LittleEndian(x / 256, n - 1);
    }
  }

  lemma LittleEndianStep(x: nat, n: nat, done: seq<nat>)
    requires n > 0
    ensures done + LittleEndian(x, n) == (done + [x % 256]) + LittleEndian(x / 256, n - 1)
  {
  }

  /** Byte i counts multiples of 2^(8 i). */
  lemma {:induction false} LittleEndianAt(x: nat, n: nat, i: nat)
    requires i < n
    ensures LittleEndian(x, n)[i] == x / Pow2(8 * i) % 256
    decreases i
  {
    if i == 0 {
      assert Pow2(0) == 1;
    } else {
      LittleEndianAt(x / 256, n - 1, i - 1);
      Pow2Values();
      Pow2Add(8, 8 * (i - 1));
      DivDiv(x, 256, Pow2(8 * (i - 1)), Pow2(8 * i));
    }
  }

  /** `hz_u64_to_u8buf` */
  method U64ToBytes(x: nat) returns (buf: array<nat>)
    ensures fresh(buf) && buf.Length == 8 && buf[..] == LittleEndian(x, 8)
  {
    hide LittleEndian;
    buf := new nat[8];
    var y := x;
    ghost var done: seq<nat> := [];
    for i := 0 to 8
      invariant |done| == i && LittleEndian(x, 8) == done + LittleEndian(y, 8 - i)
      invariant forall k :: 0 <= k < i ==> buf[k] == done[k]
    {
      LittleEndianStep(y, 8 - i, done);
      buf[i] := y % 256;
      done := done + [y % 256];
      y := y / 256;
    }
    assert buf[..] == done;
  }

  lemma NoBytes()
    ensures FromLittleEndian([]) == 0
  {
  }

  lemma MoreBytes(b: seq<nat>, i: nat)
    requires i < |b|
    ensures FromLittleEndian(b[i..]) == FromLittleEndian(b[i + 1..]) * 256 + b[i]
  {
    assert b[i..][1..] == b[i + 1..];
  }

  /** `hz_u8buf_to_u64` */
  method BytesToU64(buf: seq<nat>) returns (x: nat)
    requires |buf| == 8 && AreBytes(buf)
    ensures x == FromLittleEndian(buf)
  {
    hide FromLittleEndian;
    x := 0;
    NoBytes();
    assert buf[|buf|..] == [] && buf[0..] == buf;
    for i := |buf| downto 0
      invariant x == FromLittleEndian(buf[i..])
    {
      MoreBytes(buf, i);
      x := x * 256;
      x := x + buf[i];
    }
  }

  /** Four bytes of a word, most significant first. */
  ghost function WordBytes(w: nat): (b: seq<nat>)
    ensures |b| == 4 && AreBytes(b)
  {
    [w / 256 / 256 / 256 % 256, w / 256 / 256 % 256, w / 256 % 256, w % 256]
  }

  ghost function BytesOf(words: seq<nat>): (b: seq<nat>)
    ensures |b| == 4 * |words| && AreBytes(b)
  {
    if words == [] then [] else BytesOf(words[..|words| - 1]) + WordBytes(words[|words| - 1])
  }

  lemma {:induction false} BytesAt(words: seq<nat>, i: nat)
    requires i < |words|
    ensures BytesOf(words)[4 * i..4 * i + 4] == WordBytes(words[i])
  {
    var n := |words| - 1;
    if i < n {
      BytesAt(words[..n], i);
      assert BytesOf(words)[4 * i..4 * i + 4] == BytesOf(words[..n])[4 * i..4 * i + 4];
    }
  }

  /** `hz_u32_to_u8ptr` */
  method WordsToBytes(arr: array<nat>) returns (arr8: array<nat>)
    requires AreWords(arr[..])
    ensures fresh(arr8) && arr8[..] == BytesOf(arr[..])
  {
    var n := arr.Length;
    arr8 := new nat[4 * n];
    ghost var w := arr[..];
    for i := 0 to n
      invariant arr8[..4 * i] == BytesOf(w[..i])
    {
      var j := 4 * i;
      ghost var before := arr8[..j];
      var x := arr[i];
      arr8[j + 3] := x % 256;
      x := x / 256;
      arr8[j + 2] := x % 256;
      x := x / 256;
      arr8[j + 1] := x % 256;
      x := x / 256;
      arr8[j] := x % 256;
      assert x == w[i] / 256 / 256 / 256;
      assert arr8[..j + 4] == before + WordBytes(w[i]);
      assert w[..i + 1][..i] == w[..i];
    }
    assert w[..n] == w && arr8[..] == arr8[..4 * n];
  }

  /** The number some bytes stand for, most significant first. */
  ghost function BigEndian(b: seq<nat>): nat {
    if b == [] then 0 else BigEndian(b[..|b| - 1]) * 256 + b[|b| - 1]
  }

  lemma BigEndianStep(b: seq<nat>, i: nat, j: nat)
    requires i <= j < |b|
    ensures BigEndian(b[i..j + 1]) == BigEndian(b[i..j]) * 256 + b[j]
  {
    assert b[i..j + 1][..j - i] == b[i..j];
  }

  lemma {:induction false} BigEndianBound(b: seq<nat>)
    requires AreBytes(b)
    ensures BigEndian(b) < Pow2(8 * |b|)
  {
    if b == [] {
    } else {
      BigEndianBound(b[..|b| - 1]);
      Pow2Values();
      Pow2Add(8, 8 * (|b| - 1));
    }
  }

  lemma BigEndianNone(b: seq<nat>, i: nat)
    requires i <= |b|
    ensures BigEndian(b[i..i]) == 0
  {
  }

  lemma WordBound(b: seq<nat>, j: nat)
    requires AreBytes(b) && 4 * j + 4 <= |b|
    ensures BigEndian(b[4 * j..4 * j + 4]) < TWO_32
  {
    BigEndianBound(b[4 * j..4 * j + 4]);
    Pow2Values();
  }

  /** `hz_u8_to_u32ptr`: every four bytes become a word; one more cell is left for the bytes of an
      incomplete word, which are dropped. */
  method BytesToWords(arr: seq<nat>) returns (arr32: array<nat>)
    requires AreBytes(arr)
    ensures fresh(arr32) && arr32.Length == |arr| / 4 + if |arr| % 4 != 0 then 1 else 0
    ensures forall j :: 0 <= j < |arr| / 4 ==> arr32[j] == BigEndian(arr[4 * j..4 * j + 4]) < TWO_32
  {
    hide BigEndian, AreBytes;
    var n := |arr|;
    var n32 := n / 4 + if n % 4 != 0 then 1 else 0;
    arr32 := new nat[n32];
    var tmp: nat, j: nat := 0, 0;
    BigEndianNone(arr, 0);
    for i := 0 to n
      invariant 4 * j <= i < 4 * j + 4 && tmp == BigEndian(arr[4 * j..i])
      invariant forall k :: 0 <= k < j ==> arr32[k] == BigEndian(arr[4 * k..4 * k + 4]) < TWO_32
    {
      BigEndianStep(arr, 4 * j, i);
      WordEnds(i, j, n);
      tmp := tmp * 256;
      tmp := tmp + arr[i];
      if (i + 1) % 4 == 0 {
        WordBound(arr, j);
        arr32[j] := tmp;
        j, tmp := j + 1, 0;
        BigEndianNone(arr, 4 * j);
      }
    }
  }

  lemma WordEnds(i: nat, j: nat, n: nat)
    requires 4 * j <= i < 4 * j + 4 && i < n
    ensures (i + 1) % 4 == 0 <==> i == 4 * j + 3
    ensures i == 4 * j + 3 ==> j < n / 4
  {
  }

  /** The bytes of a word stand for it. */
  lemma BigEndianWord(w: nat)
    requires w < TWO_32
    ensures BigEndian(WordBytes(w)) == w
  {
    var b := WordBytes(w);
    var x, y := w / 256, w / 256 / 256;
    var z := y / 256;
    assert b[3] == w % 256 && b[2] == x % 256 && b[1] == y % 256 && b[0] == z % 256 == z;
    assert b[..0] == [] && b[..1][..0] == [] && b[..2][..1] == b[..1] && b[..3][..2] == b[..2];
    assert BigEndian(b[..1]) == z;
    assert BigEndian(b[..2]) == z * 256 + y % 256 == y;
    assert BigEndian(b[..3]) == y * 256 + x % 256 == x;
  }

  /** Reading the packing of any words gives the words. */
  lemma WordsBack(words: seq<nat>, a: seq<nat>)
    requires AreWords(words) && |a| == |words|
    requires forall j :: 0 <= j < |a| ==> a[j] == BigEndian(BytesOf(words)[4 * j..4 * j + 4])
    ensures a == words
  {
    hide BytesOf, WordBytes, BigEndian;
    forall j | 0 <= j < |words| ensures a[j] == words[j] {
      BytesAt(words, j);
      BigEndianWord(words[j]);
    }
  }
}
