/** Data masks and their penalty. */
module QrMask {
  import opened Arith
  import opened QrBits
  import opened QrPatterns

  // Data masks and the penalty that chooses between them (ISO/IEC 18004:2015
  // section 7.8).

  /** Mask m inverts module (x, y). */
  predicate MaskBit(m: nat, x: nat, y: nat) {
    match m
    case 0 => (x + y) % 2 == 0
    case 1 => y % 2 == 0
    case 2 => x % 3 == 0
    case 3 => (x + y) % 3 == 0
    case 4 => (x / 3 + y / 2) % 2 == 0
    case 5 => x * y % 2 + x * y % 3 == 0
    case 6 => (x * y % 2 + x * y % 3) % 2 == 0
    case 7 => ((x + y) % 2 + x * y % 3) % 2 == 0
    case _ => false
  }

  /** Where a reader inverts back, by parities and remainders of the column and the row. */
  predicate Inverted(m: nat, x: nat, y: nat) {
    match m
    case 0 => x % 2 == y % 2
    case 1 => y % 2 == 0
    case 2 => x % 3 == 0
    case 3 => (x % 3 + y % 3) % 3 == 0
    case 4 => x / 3 % 2 == y / 2 % 2
    case 5 => x * y % 6 == 0
    case 6 => x * y % 6 < 3
    case 7 => (x % 2 != y % 2) == (x * y % 3 == 1)
    case _ => false
  }

  lemma SumIsEven(a: nat, b: nat)
    ensures (a + b) % 2 == 0 <==> a % 2 == b % 2
  {}

  lemma SixIsTwoAndThree(n: nat)
    ensures n % 6 == 0 <==> n % 2 + n % 3 == 0
    ensures n % 6 < 3 <==> (n % 2 + n % 3) % 2 == 0
  {
    var q, r := n / 6, n % 6;
    DivMod(n, 6);
    DivUnique(n, 2, 3 * q + r / 2, r % 2);
    DivUnique(n, 3, 2 * q + r / 3, r % 3);
    SmallSix(r);
  }

  lemma SmallSix(r: nat)
    requires r < 6
    ensures r == 0 <==> r % 2 + r % 3 == 0
    ensures r < 3 <==> (r % 2 + r % 3) % 2 == 0
  {}

  lemma SumModThree(x: nat, y: nat)
    ensures (x + y) % 3 == (x % 3 + y % 3) % 3
  {
    var r := x % 3 + y % 3;
    DivMod(x, 3);
    DivMod(y, 3);
    DivUnique(x + y, 3, x / 3 + y / 3 + r / 3, r % 3);
  }

  lemma OddOrOne(s: nat, r: nat)
    requires s < 2 && r < 3
    ensures (s + r) % 2 == 0 <==> (s == 1 <==> r == 1)
  {}

  /** The masks invert exactly there. */
  lemma MasksInvertThere(m: nat, x: nat, y: nat)
    ensures MaskBit(m, x, y) <==> Inverted(m, x, y)
  {
    match m
    case 0 => SumIsEven(x, y);
    case 3 => SumModThree(x, y);
    case 4 => SumIsEven(x / 3, y / 2);
    case 5 => MulNonneg(x, y); SixIsTwoAndThree(x * y);
    case 6 => MulNonneg(x, y); SixIsTwoAndThree(x * y);
    case 7 => LastMask(x, y);
    case _ =>
  }

  lemma LastMask(x: nat, y: nat)
    ensures MaskBit(7, x, y) <==> Inverted(7, x, y)
  {
    SumIsEven(x, y);
    MulNonneg(x, y);
    var p := x * y;
    OddOrOne((x + y) % 2, p % 3);
  }

  /** A symbol with its mask taken off. */
  function WithoutMask(g: Grid, f: Grid, size: nat, m: nat): (r: Grid)
    requires IsGrid(g, size) && IsGrid(f, size)
    ensures IsGrid(r, size)
  {
    seq(size, y requires 0 <= y < size =>
      seq(size, x requires 0 <= x < size => if !f[y][x] && Inverted(m, x, y) then !g[y][x] else g[y][x]))
  }

  lemma WithoutMaskIsMasked(g: Grid, f: Grid, size: nat, m: nat)
    requires IsGrid(g, size) && IsGrid(f, size)
    ensures WithoutMask(g, f, size, m) == Masked(g, f, size, m)
  {
    hide MaskBit, Inverted;
    var r, s := WithoutMask(g, f, size, m), Masked(g, f, size, m);
    forall y | 0 <= y < size ensures r[y] == s[y] {
      forall x | 0 <= x < size ensures r[y][x] == s[y][x] { MasksInvertThere(m, x, y); }
    }
  }

  /** Every module that is not marked, inverted where the mask says so. */
  function Masked(g: Grid, f: Grid, size: nat, m: nat): (r: Grid)
    requires IsGrid(g, size) && IsGrid(f, size)
    ensures IsGrid(r, size)
  {
    seq(size, y requires 0 <= y < size =>
      seq(size, x requires 0 <= x < size => if f[y][x] then g[y][x] else g[y][x] != MaskBit(m, x, y)))
  }

  /** Masking twice restores every module. */
  lemma MaskingTwice(g: Grid, f: Grid, size: nat, m: nat)
    requires IsGrid(g, size) && IsGrid(f, size)
    ensures Masked(Masked(g, f, size, m), f, size, m) == g
  {
    hide MaskBit;
    var r := Masked(Masked(g, f, size, m), f, size, m);
    forall y | 0 <= y < size ensures r[y] == g[y] {
      forall x | 0 <= x < size ensures r[y][x] == g[y][x] { }
    }
  }

  /** Row y is done up to column x, the rows above it entirely. */
  ghost predicate MaskedUpTo(g0: Grid, g: Grid, f: Grid, size: nat, m: nat, x: nat, y: nat)
    requires IsGrid(g0, size) && IsGrid(f, size) && IsGrid(g, size)
  {
    forall b, a | 0 <= b < size && 0 <= a < size ::
      g[b][a] == if b < y || (b == y && a < x) then Masked(g0, f, size, m)[b][a] else g0[b][a]
  }

  method ApplyMask(modules: BitBucket, isFunction: BitBucket, size: nat, mask: nat)
    requires Canvas(modules, isFunction, size) && mask < 8
    modifies modules.data
    ensures modules.Modules() == Masked(old(modules.Modules()), isFunction.Modules(), size, mask)
    ensures forall y, x | 0 <= y < size && 0 <= x < size ::
      modules.Modules()[y][x] == (old(modules.Modules())[y][x] != (!isFunction.Modules()[y][x] && Inverted(mask, x, y)))
    ensures isFunction.Modules() == old(isFunction.Modules())
  {
    hide GridOf, MaskBit, Inverted;
    ghost var g0, f := modules.Modules(), isFunction.Modules();
    var y := 0;
    while y < size
      invariant y <= size && isFunction.Modules() == f
      invariant MaskedUpTo(g0, modules.Modules(), f, size, mask, 0, y)
    {
      var x := 0;
      while x < size
        invariant x <= size && isFunction.Modules() == f
        invariant MaskedUpTo(g0, modules.Modules(), f, size, mask, x, y)
      {
        var fixed := isFunction.GetBit(x, y);
        if !fixed {
          modules.InvertBit(x, y, MaskBit(mask, x, y));
        }
        x := x + 1;
      }
      y := y + 1;
    }
    assert forall b | 0 <= b < size :: modules.Modules()[b] == Masked(g0, f, size, mask)[b];
    WithoutMaskIsMasked(g0, f, size, mask);
  }

  // ------------------------------------------------------------- the penalty

  /** The length of the run of equal modules that ends at x. */
  function RunLength(line: Bits, x: nat): (n: nat)
    requires x < |line|
    ensures 1 <= n <= x + 1
  {
    if x == 0 || line[x] != line[x - 1] then 1 else RunLength(line, x - 1) + 1
  }

  function RunStep(run: nat): (n: nat)
    ensures n <= 3
  {
    if run == 5 then 3 else if run > 5 then 1 else 0
  }

  /** What the runs within the first n modules of a line cost. */
  function RunCost(line: Bits, n: nat): (c: nat)
    requires 1 <= n <= |line|
    ensures c <= 3 * n
  {
    if n == 1 then 0 else RunCost(line, n - 1) + RunStep(RunLength(line, n - 1))
  }

  function Column(g: Grid, size: nat, x: nat): (r: Bits)
    requires IsGrid(g, size) && x < size
    ensures |r| == size
  {
    seq(size, y requires 0 <= y < size => g[y][x])
  }

  function RowRuns(g: Grid, size: nat, n: nat): (c: nat)
    requires IsGrid(g, size) && n <= size && size >= 1
    ensures c <= 3 * size * n
  {
    if n == 0 then 0 else MulAdd(n - 1, 1, 3 * size); RowRuns(g, size, n - 1) + RunCost(g[n - 1], size)
  }

  function ColumnRuns(g: Grid, size: nat, n: nat): (c: nat)
    requires IsGrid(g, size) && n <= size && size >= 1
    ensures c <= 3 * size * n
  {
    if n == 0 then 0 else MulAdd(n - 1, 1, 3 * size); ColumnRuns(g, size, n - 1) + RunCost(Column(g, size, n - 1), size)
  }

  /** A maximal run of L modules, from `start` to `end`, costs L - 2 if L >= 5 and nothing
      otherwise, at the start of the line as anywhere in it. */
  lemma {:induction false} MaximalRun(line: Bits, start: nat, end: nat)
    requires start < end <= |line| && (start >= 1 ==> line[start] != line[start - 1])
    requires forall i | start <= i < end :: line[i] == line[start]
    ensures RunLength(line, end - 1) == end - start
    ensures RunCost(line, end) ==
            (if start == 0 then 0 else RunCost(line, start)) + (if end - start >= 5 then end - start - 2 else 0)
  {
    if end == start + 1 {
      assert RunLength(line, start) == 1;
    } else {
      MaximalRun(line, start, end - 1);
      assert RunLength(line, end - 1) == RunLength(line, end - 2) + 1;
    }
  }

  /** The last eleven modules up to x as a number, the way a shift register sees them. */
  function Register(line: Bits, x: nat): (w: nat)
    requires x < |line|
    ensures w < 2048
  {
    (if x == 0 then 0 else 2 * Register(line, x - 1) % 2048) + (if line[x] then 1 else 0)
  }

  function Tail(line: Bits, x: nat): (r: Bits)
    requires x < |line|
    ensures |r| <= 11
  {
    if x < 10 then line[..x + 1] else line[x - 10..x + 1]
  }

  lemma {:induction false} ValueOfSnoc(b: Bits, on: bool)
    ensures ValueOf(b + [on]) == 2 * ValueOf(b) + (if on then 1 else 0)
  {
    if |b| == 0 {
      assert b + [on] == [on];
      assert [on][1..] == [];
    } else {
      ValueOfSnoc(b[1..], on);
      assert (b + [on])[1..] == b[1..] + [on];
    }
  }

  lemma Pow2Of10()
    ensures Pow(2, 10) == 1024
  {
    assert Pow(2, 5) == 32;
    PowAdd(2, 5, 5);
  }

  lemma ValueOfFirst(b: Bits)
    requires |b| == 11
    ensures ValueOf(b) == (if b[0] then 1024 else 0) + ValueOf(b[1..]) && ValueOf(b[1..]) < 1024
  {
    Pow2Of10();
    hide Pow;
  }

  lemma ValueOfDropFirst(b: Bits, on: bool)
    requires |b| == 11
    ensures ValueOf(b[1..] + [on]) == 2 * ValueOf(b) % 2048 + (if on then 1 else 0)
  {
    hide ValueOf, Pow;
    ValueOfSnoc(b[1..], on);
    ValueOfFirst(b);
  }

  lemma ValueOfShort(b: Bits)
    requires |b| <= 10
    ensures 2 * ValueOf(b) % 2048 == 2 * ValueOf(b)
  {
    hide ValueOf, Pow;
    Pow2Of10();
    PowMonotone(2, |b|, 10);
  }

  /** The register holds the value of the last eleven modules. */
  lemma {:induction false} RegisterIsTheTail(line: Bits, x: nat)
    requires x < |line|
    ensures Register(line, x) == ValueOf(Tail(line, x))
  {
    hide ValueOf, Pow;
    if x == 0 {
      ValueOfSnoc([], line[0]);
      assert ValueOf([]) == 0 by { NoBits(); }
      assert [] + [line[0]] == Tail(line, 0);
    } else {
      RegisterIsTheTail(line, x - 1);
      var b := Tail(line, x - 1);
      if x <= 10 {
        assert Tail(line, x) == b + [line[x]];
        ValueOfSnoc(b, line[x]);
        ValueOfShort(b);
      } else {
        assert b == line[x - 11..x] && b[1..] == line[x - 10..x];
        assert Tail(line, x) == b[1..] + [line[x]];
        ValueOfDropFirst(b, line[x]);
      }
    }
  }

  lemma NoBits()
    ensures ValueOf([]) == 0
  {
  }

  /** 1:1:3:1:1 beside four light modules, in either order. */
  predicate FinderLike(register: nat) { register == 0x05D || register == 0x5D0 }

  function CellCost(g: Grid, size: nat, x: nat, y: nat): (c: nat)
    requires IsGrid(g, size) && x < size && y < size
    ensures c <= 83
  {
    (if x > 0 && y > 0 && g[y][x] == g[y - 1][x - 1] && g[y][x] == g[y - 1][x] && g[y][x] == g[y][x - 1] then 3 else 0)
    + (if x >= 10 && FinderLike(Register(g[y], x)) then 40 else 0)
    + (if x >= 10 && FinderLike(Register(Column(g, size, y), x)) then 40 else 0)
  }

  /** The cells of row y before column x. */
  function RowCells(g: Grid, size: nat, x: nat, y: nat): (c: nat)
    requires IsGrid(g, size) && x <= size && y < size
    ensures c <= 83 * x
  {
    if x == 0 then 0 else RowCells(g, size, x - 1, y) + CellCost(g, size, x - 1, y)
  }

  function AllCells(g: Grid, size: nat, y: nat): (c: nat)
    requires IsGrid(g, size) && y <= size
    ensures c <= 83 * size * y
  {
    if y == 0 then 0 else MulAdd(y - 1, 1, 83 * size); AllCells(g, size, y - 1) + RowCells(g, size, size, y - 1)
  }

  function DarkInRow(line: Bits, x: nat): (n: nat)
    requires x <= |line|
    ensures n <= x
  {
    if x == 0 then 0 else DarkInRow(line, x - 1) + (if line[x - 1] then 1 else 0)
  }

  function DarkModules(g: Grid, size: nat, y: nat): (n: nat)
    requires IsGrid(g, size) && y <= size
    ensures n <= size * y
  {
    if y == 0 then 0 else MulAdd(y - 1, 1, size); DarkModules(g, size, y - 1) + DarkInRow(g[y - 1], size)
  }

  predicate Balanced(dark: nat, total: nat, k: nat) {
    (9 - k) * total <= dark * 20 <= (11 + k) * total
  }

  /** The least k' >= k for which the share of dark modules is within k' steps of
      five per cent of the middle. */
  function Imbalance(dark: nat, total: nat, k: nat): (r: nat)
    requires dark <= total && k <= 9
    ensures k <= r <= 9 && Balanced(dark, total, r)
    ensures forall j: nat | k <= j < r :: !Balanced(dark, total, j)
    decreases 9 - k
  {
    if k == 9 || Balanced(dark, total, k) then k else Imbalance(dark, total, k + 1)
  }

  function Penalty(g: Grid, size: nat): (p: nat)
    requires IsGrid(g, size) && 1 <= size <= 177
    ensures p < 0x7FFF_FFFF
  {
    MulMonotone(3 * size, 531, size);
    MulMonotone(83 * size, 14691, size);
    RowRuns(g, size, size) + ColumnRuns(g, size, size) + AllCells(g, size, size)
      + 10 * Imbalance(DarkModules(g, size, size), size * size, 0)
  }

  // ------------------------------------------------------------------ the code

  /** The runs of one row. */
  method RowRun(modules: BitBucket, size: nat, y: nat) returns (cost: nat)
    requires modules.ValidGrid() && modules.bitOffsetOrWidth == size && y < size
    ensures cost == RunCost(modules.Modules()[y], size)
  {
    hide GridOf;
    ghost var line := modules.Modules()[y];
    cost := 0;
    var colorX := modules.GetBit(0, y);
    var x, runX := 1, 1;
    while x < size
      invariant 1 <= x <= size && colorX == line[x - 1] && runX == RunLength(line, x - 1)
      invariant cost == RunCost(line, x)
    {
      var cx := modules.GetBit(x, y);
      if cx != colorX {
        colorX := cx;
        runX := 1;
      } else {
        runX := runX + 1;
        if runX == 5 { cost := cost + 3; }
        else if runX > 5 { cost := cost + 1; }
      }
      x := x + 1;
    }
  }

  method ColumnRun(modules: BitBucket, size: nat, x: nat) returns (cost: nat)
    requires modules.ValidGrid() && modules.bitOffsetOrWidth == size && x < size
    ensures cost == RunCost(Column(modules.Modules(), size, x), size)
  {
    hide GridOf;
    ghost var line := Column(modules.Modules(), size, x);
    cost := 0;
    var colorY := modules.GetBit(x, 0);
    var y, runY := 1, 1;
    while y < size
      invariant 1 <= y <= size && colorY == line[y - 1] && runY == RunLength(line, y - 1)
      invariant cost == RunCost(line, y)
    {
      var cy := modules.GetBit(x, y);
      if cy != colorY {
        colorY := cy;
        runY := 1;
      } else {
        runY := runY + 1;
        if runY == 5 { cost := cost + 3; }
        else if runY > 5 { cost := cost + 1; }
      }
      y := y + 1;
    }
  }

  method RunPenalty(modules: BitBucket, size: nat) returns (result: nat)
    requires modules.ValidGrid() && modules.bitOffsetOrWidth == size && 1 <= size <= 177
    ensures result == RowRuns(modules.Modules(), size, size) + ColumnRuns(modules.Modules(), size, size)
  {
    hide GridOf, RunCost;
    ghost var g := modules.Modules();
    result := 0;
    var y := 0;
    while y < size
      invariant y <= size && result == RowRuns(g, size, y)
    {
      var cost := RowRun(modules, size, y);
      result := result + cost;
      y := y + 1;
    }
    var x := 0;
    while x < size
      invariant x <= size && result == RowRuns(g, size, size) + ColumnRuns(g, size, x)
    {
      var cost := ColumnRun(modules, size, x);
      result := result + cost;
      x := x + 1;
    }
  }

  method CellPenalty(modules: BitBucket, size: nat, x: nat, y: nat, color: bool, bitsRow: nat, bitsCol: nat) returns (c: nat)
    requires modules.ValidGrid() && modules.bitOffsetOrWidth == size && x < size && y < size
    requires color == modules.Modules()[y][x]
    requires bitsRow == Register(modules.Modules()[y], x) && bitsCol == Register(Column(modules.Modules(), size, y), x)
    ensures c == CellCost(modules.Modules(), size, x, y)
  {
    hide GridOf, Register;
    c := 0;
    if x > 0 && y > 0 {
      var colorUL := modules.GetBit(x - 1, y - 1);
      var colorUR := modules.GetBit(x, y - 1);
      var colorL := modules.GetBit(x - 1, y);
      if color == colorUL && color == colorUR && color == colorL { c := c + 3; }
    }
    if x >= 10 {
      if bitsRow == 0x05D || bitsRow == 0x5D0 { c := c + 40; }
      if bitsCol == 0x05D || bitsCol == 0x5D0 { c := c + 40; }
    }
  }

  /** Blocks of four, finder-like runs, and the count of dark modules, in one pass. */
  method CellsPenalty(modules: BitBucket, size: nat) returns (result: nat, black: nat)
    requires modules.ValidGrid() && modules.bitOffsetOrWidth == size && 1 <= size <= 177
    ensures result == AllCells(modules.Modules(), size, size)
    ensures black == DarkModules(modules.Modules(), size, size)
  {
    hide GridOf, CellCost;
    ghost var g := modules.Modules();
    result, black := 0, 0;
    var y := 0;
    while y < size
      invariant y <= size && result == AllCells(g, size, y) && black == DarkModules(g, size, y)
    {
      ghost var before, dark := result, black;
      var bitsRow: nat, bitsCol: nat := 0, 0;
      var x := 0;
      while x < size
        invariant x <= size && result == before + RowCells(g, size, x, y) && black == dark + DarkInRow(g[y], x)
        invariant bitsRow == if x == 0 then 0 else Register(g[y], x - 1)
        invariant bitsCol == if x == 0 then 0 else Register(Column(g, size, y), x - 1)
      {
        var color := modules.GetBit(x, y);
        bitsRow := 2 * bitsRow % 2048 + (if color then 1 else 0);
        var turned := modules.GetBit(y, x);
        bitsCol := 2 * bitsCol % 2048 + (if turned then 1 else 0);
        var c := CellPenalty(modules, size, x, y, color, bitsRow, bitsCol);
        result := result + c;
        if color { black := black + 1; }
        x := x + 1;
      }
      y := y + 1;
    }
  }

  method GetPenaltyScore(modules: BitBucket, size: nat) returns (result: nat)
    requires modules.ValidGrid() && modules.bitOffsetOrWidth == size && 1 <= size <= 177
    ensures result == Penalty(modules.Modules(), size)
  {
    hide GridOf, RowRuns, ColumnRuns, AllCells, DarkModules;
    var runs := RunPenalty(modules, size);
    var cells, black := CellsPenalty(modules, size);
    result := runs + cells;
    var total := size * size;
    var k := 0;
    while black * 20 < (9 - k) * total || black * 20 > (11 + k) * total
      invariant 0 <= k <= 9 && result == runs + cells + 10 * k
      invariant Imbalance(black, total, k) == Imbalance(black, total, 0)
      decreases 9 - k
    {
      result := result + 10;
      k := k + 1;
    }
  }
}
