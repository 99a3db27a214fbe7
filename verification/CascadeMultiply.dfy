/** AbstractGroup::CascadeScalarMultiply of algebra.cpp: e1*x + e2*y by joint windows over both
    exponents, read from a table of small combinations. */
module CascadeMultiplication {
  import opened Arithmetic
  import opened Bits
  import opened AbelianGroup

  // p*x + q*y
  ghost function Combination<T>(G: Group<T>, x: T, y: T, p: nat, q: nat): T {
    G.add(Mul(G, p, x), Mul(G, q, y))
  }

  lemma CombinationSum<T(!new)>(G: Group<T>, x: T, y: T, p: nat, q: nat, p': nat, q': nat)
    requires IsAbelianGroup(G) && G.contains(x) && G.contains(y)
    ensures G.add(Combination(G, x, y, p, q), Combination(G, x, y, p', q')) == Combination(G, x, y, p + p', q + q')
  {
    MulContained(G, p, x);
    MulContained(G, p', x);
    MulContained(G, q, y);
    MulContained(G, q', y);
    RearrangeFour(G, Mul(G, p, x), Mul(G, q, y), Mul(G, p', x), Mul(G, q', y));
    MulSum(G, p, p', x);
    MulSum(G, q, q', y);
  }

  lemma CombinationContained<T(!new)>(G: Group<T>, x: T, y: T, p: nat, q: nat)
    requires IsAbelianGroup(G) && G.contains(x) && G.contains(y)
    ensures G.contains(Combination(G, x, y, p, q))
  {
    MulContained(G, p, x);
    MulContained(G, q, y);
    assert Laws(G, Mul(G, p, x), Mul(G, q, y), x);
  }

  lemma CombinationDouble<T(!new)>(G: Group<T>, x: T, y: T, p: nat, q: nat)
    requires IsAbelianGroup(G) && G.contains(x) && G.contains(y)
    ensures G.double(Combination(G, x, y, p, q)) == Combination(G, x, y, 2 * p, 2 * q)
  {
    CombinationContained(G, x, y, p, q);
    assert Laws(G, Combination(G, x, y, p, q), x, x);
    CombinationSum(G, x, y, p, q, p, q);
  }

  lemma CombinationUnits<T(!new)>(G: Group<T>, x: T, y: T)
    requires IsAbelianGroup(G) && G.contains(x) && G.contains(y)
    ensures Combination(G, x, y, 0, 0) == G.identity
    ensures Combination(G, x, y, 1, 0) == x
    ensures Combination(G, x, y, 0, 1) == y
  {
    MulOne(G, x);
    MulOne(G, y);
    assert Laws(G, x, G.identity, x) && Laws(G, y, G.identity, y) && Laws(G, G.identity, x, y);
  }

  // ----- The table: cell (p, q) holds p*x + q*y -----

  // Where the table keeps cell (p, q): p places into the q-th row.
  ghost function Cell(p: nat, q: nat, size: nat): nat {
    if q == 0 then p else size + Cell(p, q - 1, size)
  }

  lemma {:induction false} CellIndex(p: nat, q: nat, size: nat)
    ensures Cell(p, q, size) == q * size + p
  {
    if q > 0 {
      CellIndex(p, q - 1, size);
      MulDistributes(size, q - 1, 1);
    }
  }

  lemma {:induction false} CellAcross(p: nat, q: nat, size: nat)
    ensures Cell(p, q, size) == Cell(0, q, size) + p
  {
    if q > 0 { CellAcross(p, q - 1, size); }
  }

  lemma CellFirstRow(p: nat, size: nat)
    ensures Cell(p, 0, size) == p
  {
  }

  lemma CellUp(p: nat, q: nat, size: nat)
    ensures Cell(p, q + 1, size) == Cell(p, q, size) + size
    ensures Cell(p, q + 2, size) == Cell(p, q, size) + 2 * size
  {
    assert Cell(p, q + 2, size) == size + Cell(p, q + 1, size);
  }

  lemma {:induction false} CellInRange(p: nat, q: nat, k: nat, size: nat)
    requires p < size
    ensures Cell(p, q, size) < Cell(0, k, size) <==> q < k
  {
    if q > 0 && k > 0 {
      CellInRange(p, q - 1, k - 1, size);
    }
  }

  lemma {:induction false} CellsDistinct(p: nat, q: nat, p': nat, q': nat, size: nat)
    requires p < size && p' < size && Cell(p, q, size) == Cell(p', q', size)
    ensures p == p' && q == q'
  {
    if q > 0 && q' > 0 {
      CellsDistinct(p, q - 1, p', q' - 1, size);
    }
  }

  // The table is about any map of pairs that turns sums into sums; p*x + q*y is one.
  ghost predicate AdditiveAt<T>(G: Group<T>, f: (nat, nat) -> T, p: nat, q: nat, p': nat, q': nat) {
    && G.add(f(p, q), f(p', q')) == f(p + p', q + q')
    && G.double(f(p, q)) == f(p + p, q + q)
  }

  ghost predicate Additive<T>(G: Group<T>, f: (nat, nat) -> T) {
    forall p: nat, q: nat, p': nat, q': nat :: AdditiveAt(G, f, p, q, p', q')
  }

  lemma CombinationAdditive<T(!new)>(G: Group<T>, x: T, y: T)
    requires IsAbelianGroup(G) && G.contains(x) && G.contains(y)
    ensures var f := (p: nat, q: nat) => Combination(G, x, y, p, q);
            Additive(G, f) && f(1, 0) == x && f(0, 1) == y
  {
    hide Combination, IsAbelianGroup;
    var f := (p: nat, q: nat) => Combination(G, x, y, p, q);
    CombinationUnits(G, x, y);
    forall p: nat, q: nat, p': nat, q': nat
      ensures AdditiveAt(G, f, p, q, p', q')
    {
      CombinationSum(G, x, y, p, q, p', q');
      CombinationDouble(G, x, y, p, q);
    }
  }

  ghost predicate Good<T>(f: (nat, nat) -> T, size: nat, table: seq<T>, p: nat, q: nat) {
    Cell(p, q, size) < |table| && table[Cell(p, q, size)] == f(p, q)
  }

  lemma ReadGood<T>(f: (nat, nat) -> T, size: nat, table: seq<T>, p: nat, q: nat)
    requires Good(f, size, table, p, q)
    ensures Cell(p, q, size) < |table| && table[Cell(p, q, size)] == f(p, q)
  {
  }

  // Whatever was right in `table` is right in `table'`.
  ghost predicate Keeps<T(!new)>(f: (nat, nat) -> T, size: nat, table: seq<T>, table': seq<T>) {
    && |table'| == |table|
    && forall p: nat, q: nat :: p < size && Good(f, size, table, p, q) ==> Good(f, size, table', p, q)
  }

  // Every cell with an odd coordinate is right; no other cell is ever read.
  ghost predicate OddCellsGood<T(!new)>(f: (nat, nat) -> T, size: nat, table: seq<T>) {
    forall p: nat, q: nat :: p < size && q < size && (p % 2 == 1 || q % 2 == 1) ==> Good(f, size, table, p, q)
  }

  lemma Store<T(!new)>(f: (nat, nat) -> T, size: nat, table: seq<T>, p: nat, q: nat, v: T)
    requires |table| == Cell(0, size, size)
    requires p < size && q < size && v == f(p, q)
    ensures Cell(p, q, size) < |table|
    ensures var table' := table[Cell(p, q, size) := v];
            Good(f, size, table', p, q) && Keeps(f, size, table, table')
  {
    CellInRange(p, q, size, size);
    var table' := table[Cell(p, q, size) := v];
    forall p': nat, q': nat | p' < size && Good(f, size, table, p', q')
      ensures Good(f, size, table', p', q')
    {
      if Cell(p', q', size) == Cell(p, q, size) {
        CellsDistinct(p', q', p, q, size);
      }
    }
  }

  // Cell `j`, which is (p + dp, q + dq), becomes cell `from`, which is (p, q), plus dp*x + dq*y.
  method AddToTable<T(!new)>(G: Group<T>, ghost f: (nat, nat) -> T, size: nat, table: seq<T>,
                             j: nat, from: nat, with: T, ghost p: nat, ghost q: nat, ghost dp: nat, ghost dq: nat)
    returns (table': seq<T>)
    requires Additive(G, f)
    requires |table| == Cell(0, size, size) && Good(f, size, table, p, q)
    requires from == Cell(p, q, size) && with == f(dp, dq)
    requires p + dp < size && q + dq < size && j == Cell(p + dp, q + dq, size)
    ensures Good(f, size, table', p + dp, q + dq) && Keeps(f, size, table, table')
  {
    assert AdditiveAt(G, f, p, q, dp, dq);
    Store(f, size, table, p + dp, q + dq, G.add(table[from], with));
    table' := table[j := G.add(table[from], with)];
  }

  // The four cells the large table starts from.
  method SeedTable<T(!new)>(G: Group<T>, ghost f: (nat, nat) -> T, x: T, y: T, tableSize: nat) returns (powerTable: seq<T>)
    requires Additive(G, f) && x == f(1, 0) && y == f(0, 1)
    requires tableSize >= 4
    ensures |powerTable| == Cell(0, tableSize, tableSize)
    ensures Good(f, tableSize, powerTable, 1, 0) && Good(f, tableSize, powerTable, 0, 1)
    ensures Good(f, tableSize, powerTable, 2, 0) && Good(f, tableSize, powerTable, 0, 2)
  {
    assert AdditiveAt(G, f, 1, 0, 1, 0) && AdditiveAt(G, f, 0, 1, 0, 1);
    CellIndex(0, tableSize, tableSize);
    powerTable := seq(tableSize * tableSize, _ => G.identity);
    Store(f, tableSize, powerTable, 1, 0, x);
    powerTable := powerTable[1 := x];
    Store(f, tableSize, powerTable, 0, 1, y);
    powerTable := powerTable[tableSize := y];
    Store(f, tableSize, powerTable, 2, 0, G.double(x));
    powerTable := powerTable[2 := G.double(x)];
    Store(f, tableSize, powerTable, 0, 2, G.double(y));
    powerTable := powerTable[2 * tableSize := G.double(y)];
  }

  // First row: the odd multiples of x.
  method FillFirstRow<T(!new)>(G: Group<T>, ghost f: (nat, nat) -> T, tableSize: nat, table: seq<T>) returns (powerTable: seq<T>)
    requires Additive(G, f)
    requires tableSize >= 4 && tableSize % 2 == 0 && |table| == Cell(0, tableSize, tableSize)
    requires Good(f, tableSize, table, 1, 0) && Good(f, tableSize, table, 2, 0)
    ensures Keeps(f, tableSize, table, powerTable)
    ensures forall p: nat :: p < tableSize && p % 2 == 1 ==> Good(f, tableSize, powerTable, p, 0)
  {
    hide Additive, Good, Cell;
    powerTable := table;
    var i := 3;
    while i < tableSize
      invariant i % 2 == 1 && i <= tableSize + 1
      invariant Keeps(f, tableSize, table, powerTable)
      invariant forall p: nat :: p < i && p % 2 == 1 ==> Good(f, tableSize, powerTable, p, 0)
    {
      CellFirstRow(2, tableSize);
      CellFirstRow(i, tableSize);
      CellFirstRow(i - 2, tableSize);
      ReadGood(f, tableSize, powerTable, 2, 0);
      powerTable := AddToTable(G, f, tableSize, powerTable, i, i - 2, powerTable[2], i - 2, 0, 2, 0);
      i := i + 2;
    }
  }

  method FillColumn<T(!new)>(G: Group<T>, ghost f: (nat, nat) -> T, y: T, tableSize: nat, table: seq<T>, i: nat) returns (powerTable: seq<T>)
    requires Additive(G, f) && y == f(0, 1)
    requires i < tableSize && |table| == Cell(0, tableSize, tableSize) && Good(f, tableSize, table, i, 0)
    ensures Keeps(f, tableSize, table, powerTable)
    ensures forall q: nat :: q < tableSize ==> Good(f, tableSize, powerTable, i, q)
  {
    hide Additive, Good, Cell;
    powerTable := table;
    CellFirstRow(i, tableSize);
    CellUp(i, 0, tableSize);
    var j := i + tableSize;
    ghost var q := 1;
    while j < |powerTable|
      invariant 1 <= q <= tableSize && j == Cell(i, q, tableSize)
      invariant Keeps(f, tableSize, table, powerTable)
      invariant forall k: nat :: k < q ==> Good(f, tableSize, powerTable, i, k)
      decreases tableSize - q
    {
      CellInRange(i, q, tableSize, tableSize);
      CellUp(i, q - 1, tableSize);
      CellUp(i, q, tableSize);
      powerTable := AddToTable(G, f, tableSize, powerTable, j, j - tableSize, y, i, q - 1, 0, 1);
      j := j + tableSize;
      q := q + 1;
    }
    CellInRange(i, q, tableSize, tableSize);
  }

  // The odd columns, each upwards from the first row.
  method FillOddColumns<T(!new)>(G: Group<T>, ghost f: (nat, nat) -> T, y: T, tableSize: nat, table: seq<T>) returns (powerTable: seq<T>)
    requires Additive(G, f) && y == f(0, 1)
    requires tableSize % 2 == 0 && |table| == Cell(0, tableSize, tableSize)
    requires forall p: nat :: p < tableSize && p % 2 == 1 ==> Good(f, tableSize, table, p, 0)
    ensures Keeps(f, tableSize, table, powerTable)
    ensures forall p: nat, q: nat :: p < tableSize && p % 2 == 1 && q < tableSize ==> Good(f, tableSize, powerTable, p, q)
  {
    powerTable := table;
    var i := 1;
    while i < tableSize
      invariant i % 2 == 1 && i <= tableSize + 1
      invariant Keeps(f, tableSize, table, powerTable)
      invariant forall p: nat, q: nat :: p < i && p % 2 == 1 && q < tableSize ==> Good(f, tableSize, powerTable, p, q)
    {
      powerTable := FillColumn(G, f, y, tableSize, powerTable, i);
      i := i + 2;
    }
  }

  // First column: the odd multiples of y.
  method FillFirstColumn<T(!new)>(G: Group<T>, ghost f: (nat, nat) -> T, tableSize: nat, table: seq<T>) returns (powerTable: seq<T>)
    requires Additive(G, f)
    requires tableSize >= 4 && tableSize % 2 == 0 && |table| == Cell(0, tableSize, tableSize)
    requires Good(f, tableSize, table, 0, 1) && Good(f, tableSize, table, 0, 2)
    ensures Keeps(f, tableSize, table, powerTable)
    ensures forall q: nat :: q < tableSize && q % 2 == 1 ==> Good(f, tableSize, powerTable, 0, q)
  {
    hide Additive, Good, Cell;
    powerTable := table;
    CellFirstRow(0, tableSize);
    CellUp(0, 0, tableSize);
    CellUp(0, 1, tableSize);
    var i := 3 * tableSize;
    ghost var row := 3;
    while i < |powerTable|
      invariant row % 2 == 1 && 3 <= row <= tableSize + 1 && i == Cell(0, row, tableSize)
      invariant Keeps(f, tableSize, table, powerTable)
      invariant forall q: nat :: q < row && q % 2 == 1 ==> Good(f, tableSize, powerTable, 0, q)
      decreases tableSize + 1 - row
    {
      CellInRange(0, row, tableSize, tableSize);
      CellUp(0, row - 2, tableSize);
      CellUp(0, row, tableSize);
      ReadGood(f, tableSize, powerTable, 0, 2);
      powerTable := AddToTable(G, f, tableSize, powerTable, i, i - 2 * tableSize, powerTable[2 * tableSize],
                               0, row - 2, 0, 2);
      i := i + 2 * tableSize;
      row := row + 2;
    }
    CellInRange(0, row, tableSize, tableSize);
  }

  method FillRow<T(!new)>(G: Group<T>, ghost f: (nat, nat) -> T, x: T, tableSize: nat, table: seq<T>, i: nat, ghost row: nat)
    returns (powerTable: seq<T>)
    requires Additive(G, f) && x == f(1, 0)
    requires tableSize % 2 == 0 && row < tableSize && i == Cell(0, row, tableSize) && |table| == Cell(0, tableSize, tableSize)
    requires forall p: nat :: p < tableSize && (p == 0 || p % 2 == 1) ==> Good(f, tableSize, table, p, row)
    ensures Keeps(f, tableSize, table, powerTable)
    ensures forall p: nat :: p < tableSize ==> Good(f, tableSize, powerTable, p, row)
  {
    hide Additive, Good, Cell;
    powerTable := table;
    var j := i + 2;
    ghost var p := 2;
    while j < i + tableSize
      invariant p % 2 == 0 && 2 <= p <= tableSize && j == i + p
      invariant Keeps(f, tableSize, table, powerTable)
      invariant forall k: nat :: k < p && k < tableSize ==> Good(f, tableSize, powerTable, k, row)
      decreases tableSize - p
    {
      CellAcross(p - 1, row, tableSize);
      CellAcross(p, row, tableSize);
      powerTable := AddToTable(G, f, tableSize, powerTable, j, j - 1, x, p - 1, row, 1, 0);
      assert Good(f, tableSize, table, p + 1, row) || p + 1 >= tableSize;
      j := j + 2;
      p := p + 2;
    }
  }

  // The even columns of the odd rows, each from the odd column before it.
  method FillOddRows<T(!new)>(G: Group<T>, ghost f: (nat, nat) -> T, x: T, tableSize: nat, table: seq<T>) returns (powerTable: seq<T>)
    requires Additive(G, f) && x == f(1, 0)
    requires tableSize >= 4 && tableSize % 2 == 0 && |table| == Cell(0, tableSize, tableSize)
    requires forall q: nat :: q < tableSize && q % 2 == 1 ==> Good(f, tableSize, table, 0, q)
    requires forall p: nat, q: nat :: p < tableSize && p % 2 == 1 && q < tableSize ==> Good(f, tableSize, table, p, q)
    ensures Keeps(f, tableSize, table, powerTable) && OddCellsGood(f, tableSize, powerTable)
  {
    powerTable := table;
    assert Cell(0, 1, tableSize) == tableSize;
    var i := tableSize;
    ghost var row := 1;
    while i < |powerTable|
      invariant row % 2 == 1 && row <= tableSize + 1 && i == Cell(0, row, tableSize)
      invariant Keeps(f, tableSize, table, powerTable)
      invariant forall p: nat, q: nat :: q < row && q % 2 == 1 && p < tableSize ==> Good(f, tableSize, powerTable, p, q)
      decreases tableSize + 1 - row
    {
      CellInRange(0, row, tableSize, tableSize);
      powerTable := FillRow(G, f, x, tableSize, powerTable, i, row);
      i := i + 2 * tableSize;
      row := row + 2;
    }
    CellInRange(0, row, tableSize, tableSize);
  }

  method FillTable<T(!new)>(G: Group<T>, ghost f: (nat, nat) -> T, x: T, y: T, w: nat) returns (powerTable: seq<T>)
    requires Additive(G, f) && x == f(1, 0) && y == f(0, 1)
    requires w >= 1
    ensures |powerTable| == Cell(0, Pow2(w), Pow2(w)) && OddCellsGood(f, Pow2(w), powerTable)
  {
    var tableSize := Pow2(w);
    assert tableSize == 2 * Pow2(w - 1);
    if w == 1 {
      assert AdditiveAt(G, f, 1, 0, 0, 1);
      powerTable := [G.identity, x, y, G.add(x, y)];
    } else {
      Pow2Monotone(2, w);
      assert Pow2(2) == 2 * Pow2(1) == 4 * Pow2(0);
      powerTable := SeedTable(G, f, x, y, tableSize);
      powerTable := FillFirstRow(G, f, tableSize, powerTable);
      assert Good(f, tableSize, powerTable, 0, 1) && Good(f, tableSize, powerTable, 0, 2);
      powerTable := FillOddColumns(G, f, y, tableSize, powerTable);
      assert Good(f, tableSize, powerTable, 0, 1) && Good(f, tableSize, powerTable, 0, 2);
      powerTable := FillFirstColumn(G, f, tableSize, powerTable);
      powerTable := FillOddRows(G, f, x, tableSize, powerTable);
    }
  }

  // ----- The scan from the top bit down -----

  method DoubleRepeatedly<T(!new)>(G: Group<T>, ghost f: (nat, nat) -> T, r: T, n: nat, ghost a: nat, ghost b: nat)
    returns (result: T)
    requires Additive(G, f)
    requires r == f(a, b)
    ensures result == f(ShiftLeft(a, n), ShiftLeft(b, n))
  {
    result := r;
    var left := n;
    while left > 0
      invariant 0 <= left <= n && result == f(ShiftLeft(a, n - left), ShiftLeft(b, n - left))
    {
      assert AdditiveAt(G, f, ShiftLeft(a, n - left), ShiftLeft(b, n - left), 0, 0);
      result := G.double(result);
      left := left - 1;
    }
  }

  // Halve both until one is odd, so that the table has them; the halvings become doublings after the addition.
  method StripTwos(p1: nat, p2: nat, before: nat, ghost n: nat)
    returns (power1: nat, power2: nat, squaresBefore: nat, squaresAfter: nat)
    requires p1 < Pow2(n) && p2 < Pow2(n)
    requires n == before || (n == before + 1 && (p1 != 0 || p2 != 0))
    ensures p1 == ShiftLeft(power1, squaresAfter) && p2 == ShiftLeft(power2, squaresAfter)
    ensures power1 <= p1 && power2 <= p2
    ensures squaresBefore + squaresAfter == before
    ensures power1 % 2 == 1 || power2 % 2 == 1 || p1 == power1 == p2 == power2 == 0
  {
    power1, power2, squaresBefore, squaresAfter := p1, p2, before, 0;
    while (power1 != 0 || power2 != 0) && power1 % 2 == 0 && power2 % 2 == 0
      invariant p1 == ShiftLeft(power1, squaresAfter) && p2 == ShiftLeft(power2, squaresAfter)
      invariant power1 <= p1 && power2 <= p2
      invariant squaresBefore + squaresAfter == before
      invariant power1 == power2 == 0 ==> p1 == p2 == 0
      invariant power1 < Pow2(n - squaresAfter) && power2 < Pow2(n - squaresAfter)
      decreases power1 + power2
    {
      ShiftLeftTwice(power1 / 2, 1, squaresAfter);
      ShiftLeftTwice(power2 / 2, 1, squaresAfter);
      assert ShiftLeft(power1 / 2, 1) == power1 && ShiftLeft(power2 / 2, 1) == power2;
      power1, power2 := power1 / 2, power2 / 2;
      squaresBefore := squaresBefore - 1;
      squaresAfter := squaresAfter + 1;
    }
  }

  method LookUp<T(!new)>(ghost f: (nat, nat) -> T, tableSize: nat, powerTable: seq<T>, p: nat, q: nat) returns (entry: T)
    requires p < tableSize && q < tableSize && (p % 2 == 1 || q % 2 == 1)
    requires OddCellsGood(f, tableSize, powerTable)
    ensures entry == f(p, q)
  {
    assert Good(f, tableSize, powerTable, p, q);
    CellIndex(p, q, tableSize);
    entry := powerTable[q * tableSize + p];
  }

  // The squarings before the table look-up, and the addition of what is looked up.
  method AddWindow<T(!new)>(G: Group<T>, ghost f: (nat, nat) -> T, tableSize: nat, powerTable: seq<T>, r: T,
                            power1: nat, power2: nat, squaresBefore: nat, ghost a: nat, ghost b: nat)
    returns (result: T)
    requires Additive(G, f) && r == f(a, b)
    requires OddCellsGood(f, tableSize, powerTable) && power1 < tableSize && power2 < tableSize
    requires power1 % 2 == 1 || power2 % 2 == 1 || power1 == power2 == 0
    ensures result == f(ShiftLeft(a, squaresBefore) + power1, ShiftLeft(b, squaresBefore) + power2)
  {
    hide ShiftLeft, OddCellsGood, Additive;
    result := DoubleRepeatedly(G, f, r, squaresBefore, a, b);
    if power1 != 0 || power2 != 0 {
      var entry := LookUp(f, tableSize, powerTable, power1, power2);
      AdditionAt(G, f, ShiftLeft(a, squaresBefore), ShiftLeft(b, squaresBefore), power1, power2);
      result := G.add(result, entry);
    }
  }

  // One window of n bits, `p1` and `p2` from the two exponents, ends here: (a, b) move up n bits and (p1, p2) join them.
  // The first window comes with one bit fewer to double past, and nothing accumulated.
  method FinishWindow<T(!new)>(G: Group<T>, ghost f: (nat, nat) -> T, w: nat, powerTable: seq<T>, firstTime: bool, r: T,
                               p1: nat, p2: nat, before: nat, ghost n: nat, ghost a: nat, ghost b: nat)
    returns (result: T)
    requires Additive(G, f)
    requires |powerTable| == Cell(0, Pow2(w), Pow2(w)) && OddCellsGood(f, Pow2(w), powerTable)
    requires p1 < Pow2(w) && p2 < Pow2(w) && p1 < Pow2(n) && p2 < Pow2(n)
    requires firstTime ==> a == 0 && b == 0 && n == before + 1 && (p1 != 0 || p2 != 0)
    requires !firstTime ==> n == before && r == f(a, b)
    ensures result == f(ShiftLeft(a, n) + p1, ShiftLeft(b, n) + p2)
  {
    hide ShiftLeft, Pow2, Cell, OddCellsGood, Additive;
    var power1, power2, squaresBefore, squaresAfter := StripTwos(p1, p2, before, n);
    var tableSize := Pow2(w);
    if firstTime {
      result := LookUp(f, tableSize, powerTable, power1, power2);
      result := DoubleRepeatedly(G, f, result, squaresAfter, power1, power2);
      ShiftLeftOfZero(n);
    } else {
      result := AddWindow(G, f, tableSize, powerTable, r, power1, power2, squaresBefore, a, b);
      result := DoubleRepeatedly(G, f, result, squaresAfter,
                                 ShiftLeft(a, squaresBefore) + power1, ShiftLeft(b, squaresBefore) + power2);
      WindowValue(a, squaresBefore, power1, squaresAfter);
      WindowValue(b, squaresBefore, power2, squaresAfter);
    }
  }

  lemma AdditionAt<T(!new)>(G: Group<T>, f: (nat, nat) -> T, a: nat, b: nat, c: nat, d: nat)
    requires Additive(G, f)
    ensures AdditiveAt(G, f, a, b, c, d)
  {
  }

  lemma WindowValue(a: nat, before: nat, power: nat, after: nat)
    ensures ShiftLeft(ShiftLeft(a, before) + power, after) == ShiftLeft(a, before + after) + ShiftLeft(power, after)
  {
    ShiftLeftSum(ShiftLeft(a, before), power, after);
    ShiftLeftTwice(a, before, after);
  }

  // Of the bits of e from i up, `a` comes from finished windows and `p` are the n below it.
  ghost predicate Scanned(e: nat, i: nat, a: nat, n: nat, p: nat) {
    ShiftRight(e, i) == ShiftLeft(a, n) + p && p < Pow2(n)
  }

  lemma NothingPending(e: nat, i: nat)
    ensures Scanned(e, i, ShiftRight(e, i), 0, 0)
  {
  }

  lemma AllScanned(e: nat, a: nat, p: nat)
    requires Scanned(e, 0, a, 0, p)
    ensures a == e
  {
  }

  lemma AppendBit(e: nat, i: nat, a: nat, n: nat, p: nat)
    requires Scanned(e, i + 1, a, n, p)
    ensures Scanned(e, i, a, n + 1, 2 * p + Bit(e, i)) && Bit(e, i) <= 1
  {
    ShiftStep(e, i);
  }

  // The first window contains the top bit of the longer exponent.
  lemma FirstWindowNonzero(e1: nat, e2: nat, i: nat, n: nat, p1: nat, p2: nat)
    requires i < BitCount(e1) || i < BitCount(e2)
    requires Scanned(e1, i, 0, n, p1) && Scanned(e2, i, 0, n, p2)
    ensures p1 != 0 || p2 != 0
  {
    ShiftLeftOfZero(n);
    HighPartNonzero(if i < BitCount(e1) then e1 else e2, i);
  }

  // A window ends at bit i: from here up, everything is in the result.
  method EndWindow<T(!new)>(G: Group<T>, ghost f: (nat, nat) -> T, w: nat, powerTable: seq<T>, firstTime: bool, r: T,
                            p1: nat, p2: nat, before: nat, ghost e1: nat, ghost e2: nat, ghost i: nat,
                            ghost n: nat, ghost a: nat, ghost b: nat)
    returns (result: T)
    requires Additive(G, f)
    requires |powerTable| == Cell(0, Pow2(w), Pow2(w)) && OddCellsGood(f, Pow2(w), powerTable)
    requires p1 < Pow2(w) && p2 < Pow2(w) && Scanned(e1, i, a, n, p1) && Scanned(e2, i, b, n, p2)
    requires firstTime ==> a == 0 && b == 0 && n == before + 1 && (i < BitCount(e1) || i < BitCount(e2))
    requires !firstTime ==> n == before && r == f(a, b)
    ensures result == f(ShiftRight(e1, i), ShiftRight(e2, i))
  {
    hide ShiftLeft, ShiftRight, Pow2, BitCount, Cell, OddCellsGood, Additive;
    if firstTime {
      FirstWindowNonzero(e1, e2, i, n, p1, p2);
    }
    result := FinishWindow(G, f, w, powerTable, firstTime, r, p1, p2, before, n, a, b);
  }

  lemma TableSizeEven(w: nat)
    requires w >= 1
    ensures Pow2(w) > 0 && Pow2(w) % 2 == 0
  {
    assert Pow2(w) == 2 * Pow2(w - 1);
  }

  method ScanExponents<T(!new)>(G: Group<T>, ghost f: (nat, nat) -> T, w: nat, powerTable: seq<T>, e1: nat, e2: nat,
                                expLen: nat)
    returns (result: T)
    requires Additive(G, f)
    requires w >= 1 && |powerTable| == Cell(0, Pow2(w), Pow2(w)) && OddCellsGood(f, Pow2(w), powerTable)
    requires expLen > 0 && BitCount(e1) <= expLen && BitCount(e2) <= expLen
    requires BitCount(e1) == expLen || BitCount(e2) == expLen
    ensures result == f(e1, e2)
  {
    hide *;
    var tableSize := Pow2(w);
    TableSizeEven(w);
    result := G.identity;
    var power1: nat, power2: nat, prevPosition := 0, 0, expLen - 1;
    var firstTime := true;
    ghost var n: nat, a: nat, b: nat := 0, 0, 0;
    BitsPastTheEnd(e1, expLen);
    BitsPastTheEnd(e2, expLen);
    NothingPending(e1, expLen);
    NothingPending(e2, expLen);
    var i := expLen - 1;
    while i >= 0
      invariant -1 <= i < expLen
      invariant Scanned(e1, i + 1, a, n, power1) && Scanned(e2, i + 1, b, n, power2)
      invariant 2 * power1 < tableSize && 2 * power2 < tableSize
      invariant firstTime ==> a == 0 && b == 0 && n == prevPosition - i
      invariant !firstTime ==> n + 1 + i == prevPosition && result == f(a, b)
      invariant i < 0 ==> n == 0 && !firstTime
    {
      AppendBit(e1, i, a, n, power1);
      AppendBit(e2, i, b, n, power2);
      power1 := 2 * power1 + Bit(e1, i);
      power2 := 2 * power2 + Bit(e2, i);
      n := n + 1;
      if i == 0 || 2 * power1 >= tableSize || 2 * power2 >= tableSize {
        result := EndWindow(G, f, w, powerTable, firstTime, result, power1, power2, prevPosition - i, e1, e2, i, n, a, b);
        firstTime := false;
        prevPosition := i;
        a, b := ShiftRight(e1, i), ShiftRight(e2, i);
        power1, power2, n := 0, 0, 0;
        NothingPending(e1, i);
        NothingPending(e2, i);
      }
      i := i - 1;
    }
    AllScanned(e1, a, power1);
    AllScanned(e2, b, power2);
  }

  method CascadeScalarMultiply<T(!new)>(G: Group<T>, x: T, e1: nat, y: T, e2: nat) returns (result: T)
    requires IsAbelianGroup(G) && G.contains(x) && G.contains(y)
    ensures result == G.add(Mul(G, e1, x), Mul(G, e2, y))
  {
    var expLen := if BitCount(e1) > BitCount(e2) then BitCount(e1) else BitCount(e2);
    if expLen == 0 {
      CombinationUnits(G, x, y);
      return G.identity;
    }
    ghost var f := (p: nat, q: nat) => Combination(G, x, y, p, q);
    CombinationAdditive(G, x, y);
    var w := if expLen <= 46 then 1 else if expLen <= 260 then 2 else 3;
    var powerTable := FillTable(G, f, x, y, w);
    result := ScanExponents(G, f, w, powerTable, e1, e2, expLen);
  }
}
