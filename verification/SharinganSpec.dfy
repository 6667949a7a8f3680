/** Sharingan's adaptive model of a chunk, and how chunks partition a plane. */
module SharinganSpec {
  import opened Words
  import opened RansSpec
  import opened FrequencyTable
  import opened FirstOrderContext
  import opened VictiniSpec
  import opened Rans

  /** The width of the chunk's rows, how many neighbours teach, and how much. */
  datatype Params = Params(width: nat, order: nat, rate: nat)

  // ----- The model after some pixels of a chunk, in raster order -----

  ghost function Zeros(): (rows: seq<seq<nat>>)
    ensures IsSquare(rows, 256) && forall i, j :: 0 <= i < 256 && 0 <= j < 256 ==> rows[i][j] == 0
  {
    var row := seq(256, j => 0 as nat);
    seq(256, i => row)
  }

  /** Counts symbol b after context a; both are bytes. */
  ghost function Teach(rows: seq<seq<nat>>, a: nat, b: nat, delta: nat): (r: seq<seq<nat>>)
    requires IsSquare(rows, 256)
    ensures IsSquare(r, 256)
  {
    if a < 256 && b < 256 then Learn(rows, a, b, delta) else rows
  }

  /** What pixel i teaches: its left neighbour first, then the one above and the one on the diagonal;
      in the first column only the one above. */
  ghost function Taught(rows: seq<seq<nat>>, h: seq<nat>, i: nat, p: Params): (r: seq<seq<nat>>)
    requires IsSquare(rows, 256) && i < |h| && p.width > 0
    ensures IsSquare(r, 256)
  {
    var x, y := i % p.width, i / p.width;
    Coordinates(p.width, i);
    if x > 0 then
      var left := Teach(rows, h[i - 1], h[i], p.rate);
      var up := if y > 0 && p.order > 1 then Teach(left, h[i - p.width], h[i], p.rate) else left;
      if y > 0 && p.order > 2 then Teach(up, h[i - p.width - 1], h[i], p.rate / 2) else up
    else if y > 0 && p.order > 1 then Teach(rows, h[i - p.width], h[i], p.rate)
    else rows
  }

  /** The counts after the pixels of h. */
  ghost function MapsOf(h: seq<nat>, p: Params): (rows: seq<seq<nat>>)
    requires p.width > 0
    ensures IsSquare(rows, 256)
  {
    if h == [] then Zeros() else Taught(MapsOf(h[..|h| - 1], p), h, |h| - 1, p)
  }

  // ----- The counts, pair by pair -----

  datatype Side = Left | Up | Diagonal

  /** Pixel i shows b, and its neighbour in the chunk on that side shows a. */
  ghost predicate Shows(h: seq<nat>, width: nat, side: Side, a: nat, b: nat, i: nat)
    requires width > 0 && i < |h|
  {
    && h[i] == b
    && match side
       case Left => i % width > 0 && i >= 1 && h[i - 1] == a
       case Up => i >= width && h[i - width] == a
       case Diagonal => i % width > 0 && i >= width + 1 && h[i - width - 1] == a
  }

  /** How many pixels show the pair. */
  ghost function Pairs(h: seq<nat>, width: nat, side: Side, a: nat, b: nat): nat
    requires width > 0
  {
    if h == [] then 0
    else Pairs(h[..|h| - 1], width, side, a, b) + if Shows(h, width, side, a, b, |h| - 1) then 1 else 0
  }

  lemma TeachAt(rows: seq<seq<nat>>, a: nat, b: nat, delta: nat, r: nat, s: nat)
    requires IsSquare(rows, 256) && r < 256 && s < 256
    ensures Teach(rows, a, b, delta)[r][s] == rows[r][s] + if a == r && b == s then delta else 0
  {
  }

  /** What pixel i adds to the count of a pair. */
  lemma TaughtAt(rows: seq<seq<nat>>, h: seq<nat>, i: nat, p: Params, a: nat, b: nat)
    requires IsSquare(rows, 256) && i < |h| && p.width > 0 && a < 256 && b < 256
    ensures Taught(rows, h, i, p)[a][b] == rows[a][b]
            + (if Shows(h, p.width, Left, a, b, i) then p.rate else 0)
            + (if p.order > 1 && Shows(h, p.width, Up, a, b, i) then p.rate else 0)
            + (if p.order > 2 && Shows(h, p.width, Diagonal, a, b, i) then p.rate / 2 else 0)
  {
    hide Teach;
    Coordinates(p.width, i);
    var y := i / p.width;
    DivLower(1, i, p.width);
    if i % p.width > 0 {
      var left := Teach(rows, h[i - 1], h[i], p.rate);
      TeachAt(rows, h[i - 1], h[i], p.rate, a, b);
      var up := if y > 0 && p.order > 1 then Teach(left, h[i - p.width], h[i], p.rate) else left;
      if y > 0 && p.order > 1 { TeachAt(left, h[i - p.width], h[i], p.rate, a, b); }
      if y > 0 && p.order > 2 { TeachAt(up, h[i - p.width - 1], h[i], p.rate / 2, a, b); }
    } else if y > 0 && p.order > 1 {
      TeachAt(rows, h[i - p.width], h[i], p.rate, a, b);
    }
  }

  /** A count is the learning rate for each left neighbour and, from the second context order on, each
      upper neighbour that shows the pair, and half of it, from the third on, for each diagonal one. */
  lemma {:induction false} MapsCount(h: seq<nat>, p: Params, a: nat, b: nat)
    requires p.width > 0 && a < 256 && b < 256
    ensures MapsOf(h, p)[a][b] ==
              p.rate * Pairs(h, p.width, Left, a, b)
              + (if p.order > 1 then p.rate * Pairs(h, p.width, Up, a, b) else 0)
              + (if p.order > 2 then p.rate / 2 * Pairs(h, p.width, Diagonal, a, b) else 0)
  {
    hide Shows, Taught;
    if h == [] {
    } else {
      var n := |h| - 1;
      MapsCount(h[..n], p, a, b);
      TaughtAt(MapsOf(h[..n], p), h, n, p, a, b);
      TimesStep(p.rate, Pairs(h[..n], p.width, Left, a, b));
      TimesStep(p.rate, Pairs(h[..n], p.width, Up, a, b));
      TimesStep(p.rate / 2, Pairs(h[..n], p.width, Diagonal, a, b));
    }
  }

  lemma TimesStep(r: nat, c: nat)
    ensures r * (c + 1) == r * c + r
  {
  }

  /** The context of the pixel after h: its left neighbour, or in the first column the one above. */
  datatype Context = Context(symbol: nat) | NoContext

  ghost function ContextAfter(h: seq<nat>, p: Params): Context
    requires p.width > 0
  {
    var x, y := |h| % p.width, |h| / p.width;
    Coordinates(p.width, |h|);
    if x > 0 then Context(h[|h| - 1])
    else if y > 0 && p.order > 1 then Context(h[|h| - p.width])
    else NoContext
  }

  /** The frequencies of the 256 candidates for the pixel after h. They depend on h alone. */
  ghost function TableFor(h: seq<nat>, p: Params): (t: seq<nat>)
    requires p.width > 0
    ensures |t| == 256
  {
    var c := ContextAfter(h, p);
    Pow2Values();
    if c.NoContext? || c.symbol >= 256 then Uniform() else Normalized(Plus1(MapsOf(h, p)[c.symbol]), 24)
  }

  lemma TableForIsTable(h: seq<nat>, p: Params)
    requires p.width > 0
    ensures IsTable(TableFor(h, p), 24)
  {
    hide Pow2, IsTable, Normalized, Taught;
    var c := ContextAfter(h, p);
    UniformIsTable();
    Pow2Values();
    if c.Context? && c.symbol < 256 { NormalizedIsTable(Plus1(MapsOf(h, p)[c.symbol]), 24); }
  }

  ghost predicate Candidate(h: seq<nat>, p: Params, s: nat, slot: nat)
    requires p.width > 0
  {
    Holds(Slots(TableFor(h, p), s), slot)
  }

  /** The pairs of the 256 candidates tile [0, 2^24): each slot belongs to exactly one. */
  lemma CandidatesTile(h: seq<nat>, p: Params, slot: nat)
    requires p.width > 0 && slot < Pow2(24)
    ensures exists s: nat :: s < 256 && Candidate(h, p, s, slot)
    ensures forall s: nat, s': nat :: s < 256 && s' < 256 && Candidate(h, p, s, slot) && Candidate(h, p, s', slot) ==>
            s == s'
  {
    hide Pow2, IsTable, TableFor, Slots;
    TableForIsTable(h, p);
    SlotsTile(TableFor(h, p), 24, slot);
    var s: nat :| s < 256 && Holds(Slots(TableFor(h, p), s), slot);
    assert Candidate(h, p, s, slot);
  }

  // ----- The chunk as a coded sequence -----

  ghost function ChunkModel(p: Params): Model
    requires p.width > 0
  {
    (h: seq<nat>, s: nat) => Slots(TableFor(h, p), s)
  }

  lemma ChunkModelDecodable(p: Params)
    requires p.width > 0
    ensures Decodable(ChunkModel(p), 256, 24)
  {
    hide Pow2, IsTable, TableFor, Slots, Fits;
    var m := ChunkModel(p);
    forall h: seq<nat>, s: nat | s < 256 ensures Fits(m(h, s), 24) {
      TableForIsTable(h, p);
      SlotsFit(TableFor(h, p), 24, s);
    }
    forall h: seq<nat>, s: nat, s': nat | s < 256 && s' < 256 && s != s'
      ensures m(h, s).bs + m(h, s).ls <= m(h, s').bs || m(h, s').bs + m(h, s').ls <= m(h, s).bs
    {
      if s < s' { SlotsDisjoint(TableFor(h, p), s, s'); } else { SlotsDisjoint(TableFor(h, p), s', s); }
    }
  }

  /** The pair of pixel k: the interval of its symbol after the pixels before it. */
  ghost function PairAt(syms: seq<nat>, p: Params, k: nat): Interval
    requires p.width > 0 && k < |syms|
  {
    Slots(TableFor(syms[..k], p), syms[k])
  }

  ghost function PairsOf(syms: seq<nat>, p: Params): (ivs: seq<Interval>)
    requires p.width > 0
    ensures |ivs| == |syms|
  {
    seq(|syms|, k requires 0 <= k < |syms| => PairAt(syms, p, k))
  }

  lemma PairsAreIntervals(syms: seq<nat>, p: Params)
    requires p.width > 0
    ensures PairsOf(syms, p) == IntervalsOf(ChunkModel(p), [], syms)
  {
    hide TableFor, Slots, Pow2;
    var m := ChunkModel(p);
    forall k | 0 <= k < |syms| ensures PairsOf(syms, p)[k] == IntervalsOf(m, [], syms)[k] {
      IntervalAt(m, [], syms, k);
      assert [] + syms[..k] == syms[..k];
    }
  }

  /** The rANS code of a chunk's pairs decodes to its symbols, with nothing but the parameters known. */
  lemma ChunkDecodes(syms: seq<nat>, p: Params)
    requires p.width > 0 && forall k :: 0 <= k < |syms| ==> syms[k] < 256
    ensures AllFit(PairsOf(syms, p), 24)
    ensures var ivs := PairsOf(syms, p);
            Decode(ChunkModel(p), 256, 24, [], StateOf(ivs, 24), WordsOf(ivs, 24), |syms|) == Decoded(syms, TWO_31, [])
  {
    hide Pow2, PairsOf, Decodable, Decode, StateOf, WordsOf, IntervalsOf;
    ChunkModelDecodable(p);
    PairsAreIntervals(syms, p);
    IntervalsFit(ChunkModel(p), 256, 24, [], syms);
    DecodeInverts(ChunkModel(p), 256, 24, [], syms, []);
    assert WordsOf(PairsOf(syms, p), 24) + [] == WordsOf(PairsOf(syms, p), 24);
  }

  // ----- Totals -----

  lemma TeachSum(rows: seq<seq<nat>>, a: nat, b: nat, delta: nat, r: nat, bound: nat)
    requires IsSquare(rows, 256) && r < 256 && Sum(rows[r]) <= bound
    ensures Sum(Teach(rows, a, b, delta)[r]) <= bound + delta
  {
    hide Sum;
    if a < 256 && b < 256 && r == a {
      SumBump(rows[a], b, delta, 256);
      var s := Bump(rows[a], b, delta);
      assert rows[a][..256] == rows[a] && s[..256] == s;
    }
  }

  lemma TaughtSum(rows: seq<seq<nat>>, h: seq<nat>, i: nat, p: Params, r: nat, bound: nat)
    requires IsSquare(rows, 256) && i < |h| && p.width > 0 && r < 256 && Sum(rows[r]) <= bound
    ensures Sum(Taught(rows, h, i, p)[r]) <= bound + 3 * p.rate
  {
    hide Sum, Teach;
    Coordinates(p.width, i);
    var x, y := i % p.width, i / p.width;
    if x > 0 {
      var left := Teach(rows, h[i - 1], h[i], p.rate);
      TeachSum(rows, h[i - 1], h[i], p.rate, r, bound);
      var up := if y > 0 && p.order > 1 then Teach(left, h[i - p.width], h[i], p.rate) else left;
      if y > 0 && p.order > 1 { TeachSum(left, h[i - p.width], h[i], p.rate, r, bound + p.rate); }
      if y > 0 && p.order > 2 { TeachSum(up, h[i - p.width - 1], h[i], p.rate / 2, r, bound + 2 * p.rate); }
    } else if y > 0 && p.order > 1 {
      TeachSum(rows, h[i - p.width], h[i], p.rate, r, bound);
    }
  }

  lemma {:induction false} MapsBound(h: seq<nat>, p: Params, r: nat)
    requires p.width > 0 && r < 256
    ensures Sum(MapsOf(h, p)[r]) <= 3 * p.rate * |h|
  {
    if h == [] {
      ZerosSum(256, r);
      assert Zeros()[r][..256] == Zeros()[r];
    } else {
      hide Sum, Taught;
      MapsBound(h[..|h| - 1], p, r);
      TaughtSum(MapsOf(h[..|h| - 1], p), h, |h| - 1, p, r, 3 * p.rate * (|h| - 1));
      assert 3 * p.rate * |h| == 3 * p.rate * (|h| - 1) + 3 * p.rate;
    }
  }

  lemma {:induction false} ZerosSum(i: nat, r: nat)
    requires i <= 256 && r < 256
    ensures Sum(Zeros()[r][..i]) == 0
  {
    if i == 0 {
    } else {
      ZerosSum(i - 1, r);
      SumStep(Zeros()[r], i - 1);
    }
  }
}
