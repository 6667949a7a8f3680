/** The first-order context model: how often each symbol followed each other one. */
module FirstOrderContext {
  import opened Words
  import opened FrequencyTable

  /** A square table kept as separately allocated rows. */
  ghost predicate IsGrid(g: seq<array<nat>>, n: nat) {
    && |g| == n
    && (forall i :: 0 <= i < n ==> g[i].Length == n)
    && (forall i, j :: 0 <= i < j < n ==> g[i] != g[j])
  }

  ghost function Rows(g: seq<array<nat>>): (rows: seq<seq<nat>>)
    reads g
    ensures |rows| == |g| && forall i :: 0 <= i < |g| ==> rows[i] == g[i][..]
  {
    seq(|g|, i requires 0 <= i < |g| reads g => g[i][..])
  }

  ghost predicate IsSquare(rows: seq<seq<nat>>, n: nat) {
    |rows| == n && forall i :: 0 <= i < n ==> |rows[i]| == n
  }

  ghost function Ones(n: nat): (rows: seq<seq<nat>>)
    ensures IsSquare(rows, n) && forall i, j :: 0 <= i < n && 0 <= j < n ==> rows[i][j] == 1
  {
    var row := seq(n, j => 1 as nat);
    seq(n, i => row)
  }

  ghost function Bump(row: seq<nat>, b: nat, delta: nat): (r: seq<nat>)
    requires b < |row|
    ensures |r| == |row| && r[b] == row[b] + delta && forall j :: 0 <= j < |row| && j != b ==> r[j] == row[j]
  {
    var v: nat := row[b] + delta;
    row[b := v]
  }

  ghost function Learn(rows: seq<seq<nat>>, a: nat, b: nat, delta: nat): (r: seq<seq<nat>>)
    requires a < |rows| && b < |rows[a]|
    ensures |r| == |rows| && r[a] == Bump(rows[a], b, delta)
    ensures forall i :: 0 <= i < |rows| && i != a ==> r[i] == rows[i]
  {
    rows[a := Bump(rows[a], b, delta)]
  }

  ghost predicate AreSymbols(syms: seq<int>, n: nat) {
    forall i :: 0 <= i < |syms| ==> 0 <= syms[i] < n
  }

  /** The counts after the first k symbols. */
  ghost function Counts(syms: seq<int>, n: nat, delta: nat, k: nat): (rows: seq<seq<nat>>)
    requires AreSymbols(syms, n) && k <= |syms|
    ensures IsSquare(rows, n)
  {
    if k <= 1 then Ones(n) else Learn(Counts(syms, n, delta, k - 1), syms[k - 2], syms[k - 1], delta)
  }

  /** How often b directly follows a among the first k symbols. */
  ghost function Followers(syms: seq<int>, a: nat, b: nat, k: nat): nat
    requires k <= |syms|
  {
    if k <= 1 then 0
    else Followers(syms, a, b, k - 1) + if syms[k - 2] == a && syms[k - 1] == b then 1 else 0
  }

  /** A count is one plus delta for every occurrence of its pair. */
  lemma {:induction false} CountsPairs(syms: seq<int>, n: nat, delta: nat, k: nat, a: nat, b: nat)
    requires AreSymbols(syms, n) && k <= |syms| && a < n && b < n
    ensures Counts(syms, n, delta, k)[a][b] == 1 + delta * Followers(syms, a, b, k)
  {
    if k > 1 {
      CountsPairs(syms, n, delta, k - 1, a, b);
      var f := Followers(syms, a, b, k - 1);
      assert delta * (f + 1) == delta * f + delta;
    }
  }

  lemma {:induction false} SumBump(s: seq<nat>, j: nat, delta: nat, i: nat)
    requires j < |s| && i <= |s|
    ensures Sum(Bump(s, j, delta)[..i]) == Sum(s[..i]) + if j < i then delta else 0
  {
    if i == 0 {
    } else {
      SumBump(s, j, delta, i - 1);
      SumStep(s, i - 1);
      SumStep(Bump(s, j, delta), i - 1);
    }
  }

  lemma {:induction false} SumOfOnes(s: seq<nat>, i: nat)
    requires i <= |s| && forall k :: 0 <= k < |s| ==> s[k] == 1
    ensures Sum(s[..i]) == i
  {
    if i == 0 {
    } else {
      SumOfOnes(s, i - 1);
      SumStep(s, i - 1);
    }
  }

  /** No row total exceeds the alphabet plus delta per symbol seen. */
  lemma {:induction false} CountsBound(syms: seq<int>, n: nat, delta: nat, k: nat, a: nat)
    requires AreSymbols(syms, n) && k <= |syms| && a < n
    ensures Sum(Counts(syms, n, delta, k)[a]) <= n + delta * k
  {
    hide Sum;
    if k <= 1 {
      var row := Ones(n)[a];
      SumOfOnes(row, n);
      assert row[..n] == row;
    } else {
      CountsBound(syms, n, delta, k - 1, a);
      assert delta * k == delta * (k - 1) + delta;
      var rows := Counts(syms, n, delta, k - 1);
      var b := syms[k - 1];
      if syms[k - 2] == a {
        SumBump(rows[a], b, delta, n);
        var r := Bump(rows[a], b, delta);
        assert rows[a][..n] == rows[a] && r[..n] == r;
      }
    }
  }

  class FirstOrderContextModel {
    var contextMap: seq<array<nat>>
    var prevSymbol: nat
    var hasStarted: bool

    constructor ()
      ensures contextMap == [] && !hasStarted
    {
      contextMap, prevSymbol, hasStarted := [], 0, false;
    }

    method SetAlphabetSize(n: nat)
      modifies this`contextMap, this`prevSymbol
      ensures IsGrid(contextMap, n) && fresh(contextMap) && Rows(contextMap) == Ones(n)
      ensures prevSymbol == 0
    {
      contextMap := [];
      for i := 0 to n
        invariant |contextMap| == i && fresh(contextMap)
        invariant forall k :: 0 <= k < i ==> contextMap[k].Length == n && contextMap[k][..] == Ones(n)[k]
        invariant forall k, l :: 0 <= k < l < i ==> contextMap[k] != contextMap[l]
      {
        var row := RowOfOnes(n);
        assert row[..] == Ones(n)[i];
        contextMap := contextMap + [row];
      }
      prevSymbol := 0;
    }

    method RowOfOnes(n: nat) returns (row: array<nat>)
      ensures fresh(row) && row.Length == n && forall j :: 0 <= j < n ==> row[j] == 1
    {
      row := new nat[n];
      for j := 0 to n
        invariant forall k :: 0 <= k < j ==> row[k] == 1
      {
        row[j] := 1;
      }
    }

    /** Counts the pair of the previous symbol and this one, except at the start. */
    method Update(symbol: nat, delta: nat)
      requires IsGrid(contextMap, |contextMap|) && symbol < |contextMap| && prevSymbol < |contextMap|
      modifies this`prevSymbol, this`hasStarted, contextMap
      ensures prevSymbol == symbol && hasStarted
      ensures Rows(contextMap) == if old(hasStarted) then Learn(old(Rows(contextMap)), old(prevSymbol), symbol, delta)
                                  else old(Rows(contextMap))
    {
      ghost var rows := Rows(contextMap);
      if hasStarted {
        var row := contextMap[prevSymbol];
        row[symbol] := row[symbol] + delta;
        assert row[..] == Bump(rows[prevSymbol], symbol, delta);
      }
      assert Rows(contextMap) == if hasStarted then Learn(rows, prevSymbol, symbol, delta) else rows;
      prevSymbol := symbol;
      hasStarted := true;
    }

    method GetDist(symbol: nat) returns (row: array<nat>)
      requires symbol < |contextMap|
      ensures row == contextMap[symbol]
    {
      row := contextMap[symbol];
    }
  }

  lemma CountsStep(syms: seq<int>, n: nat, delta: nat)
    requires AreSymbols(syms, n)
    ensures Counts(syms, n, delta, 0) == Ones(n)
    ensures forall k :: 0 <= k < |syms| ==>
              Counts(syms, n, delta, k + 1) ==
              if k == 0 then Counts(syms, n, delta, k)
              else Learn(Counts(syms, n, delta, k), syms[k - 1], syms[k], delta)
  {
  }

  lemma GridSize(g: seq<array<nat>>, n: nat)
    requires IsGrid(g, n)
    ensures |g| == n
  {
  }

  /** Trains a fresh model on a whole sequence. */
  method Train(data: array<int>, n: nat, delta: nat) returns (focm: FirstOrderContextModel)
    requires AreSymbols(data[..], n)
    ensures fresh(focm) && fresh(focm.contextMap) && IsGrid(focm.contextMap, n)
    ensures Rows(focm.contextMap) == Counts(data[..], n, delta, data.Length)
  {
    hide Rows, Counts, Learn, IsGrid;
    focm := new FirstOrderContextModel();
    focm.SetAlphabetSize(n);
    ghost var d := data[..];
    CountsStep(d, n, delta);
    GridSize(focm.contextMap, n);
    for i := 0 to data.Length
      invariant fresh(focm) && fresh(focm.contextMap) && IsGrid(focm.contextMap, n)
      invariant data[..] == d && Rows(focm.contextMap) == Counts(d, n, delta, i)
      invariant i > 0 ==> focm.hasStarted && focm.prevSymbol == d[i - 1]
      invariant i == 0 ==> !focm.hasStarted && focm.prevSymbol == 0
    {
      assert data[i] == d[i];
      focm.Update(data[i], delta);
    }
  }
}
