/** The placement walk: two-module columns from the right, alternately upwards
    and downwards, stepping over the timing column 6 (ISO/IEC 18004:2015 section
    7.7.3).  `size` is the odd side of the symbol. */
module QrZigzag {
  import opened Arith
  import opened QrBits
  import opened QrPatterns

  predicate IsSide(size: nat) { size >= 21 && size % 4 == 1 }

  /** The number of modules outside column 6. */
  function Steps(size: nat): nat
    requires size >= 1
  {
    MulNonneg(size - 1, size);
    (size - 1) * size
  }

  /** The right-hand column of column pair p. */
  function Right(size: nat, p: int): int {
    if size - 1 - 2 * p > 6 then size - 1 - 2 * p else size - 2 - 2 * p
  }

  /** The test of the code: ((right & 2) == 0) ^ (x < 6). */
  function Upwards(right: int, x: int): bool
    requires right >= 0
  {
    (right / 2 % 2 == 0) != (x < 6)
  }

  function RowOf(size: nat, right: int, x: int, vert: int): int
    requires right >= 0
  {
    if Upwards(right, x) then size - 1 - vert else vert
  }

  /** Step number of row `vert`, column `j` of pair p. */
  function StepNumber(size: nat, p: nat, vert: nat, j: nat): nat { p * (2 * size) + (2 * vert + j) }

  function PairOf(size: nat, k: nat): int
    requires size > 0
  {
    k / (2 * size)
  }

  function WithinPair(size: nat, k: nat): int
    requires size > 0
  {
    k % (2 * size)
  }

  function CellX(size: nat, k: nat): int
    requires size > 0
  {
    Right(size, PairOf(size, k)) - WithinPair(size, k) % 2
  }

  function CellY(size: nat, k: nat): int
    requires size > 0 && Right(size, PairOf(size, k)) >= 0
  {
    RowOf(size, Right(size, PairOf(size, k)), CellX(size, k), WithinPair(size, k) / 2)
  }

  function PairAt(size: nat, x: nat): int { if x > 6 then (size - 1 - x) / 2 else (size - 2 - x) / 2 }

  /** The step that visits module (x, y). */
  function StepOf(size: nat, x: nat, y: nat): int
    requires IsSide(size) && x < size && y < size && x != 6
  {
    var p := PairAt(size, x);
    assert Right(size, p) >= 0;
    var right := Right(size, p);
    p * (2 * size) + (2 * RowOf(size, right, x, y) + (right - x))
  }

  lemma StepParts(size: nat, p: nat, vert: nat, j: nat)
    requires IsSide(size) && p < (size - 1) / 2 && vert < size && j < 2
    ensures StepNumber(size, p, vert, j) < Steps(size)
    ensures PairOf(size, StepNumber(size, p, vert, j)) == p
    ensures WithinPair(size, StepNumber(size, p, vert, j)) == 2 * vert + j
  {
    DivUnique(StepNumber(size, p, vert, j), 2 * size, p, 2 * vert + j);
    MulStrict(p, (size - 1) / 2, 2 * size);
    MulAssoc((size - 1) / 2, 2, size);
  }

  lemma PartsOfStep(size: nat, k: nat)
    requires IsSide(size) && k < Steps(size)
    ensures 0 <= PairOf(size, k) < (size - 1) / 2 && 0 <= WithinPair(size, k) < 2 * size
    ensures PairOf(size, k) * (2 * size) + WithinPair(size, k) == k
  {
    var d, n := 2 * size, (size - 1) / 2;
    assert n * d == Steps(size) by {
      assert 2 * n == size - 1;
      MulAssoc(n, 2, size);
    }
    QuotientBelow(k, d, n);
  }

  /** The pair of a column, and the column of a pair. */
  lemma PairRecovered(size: nat, p: nat, j: nat)
    requires IsSide(size) && p < (size - 1) / 2 && j < 2
    ensures Right(size, p) >= 1 && 0 <= Right(size, p) - j < size && Right(size, p) - j != 6
    ensures PairAt(size, Right(size, p) - j) == p
  {
  }

  lemma RowRecovered(size: nat, right: nat, x: nat, vert: nat)
    requires vert < size
    ensures 0 <= RowOf(size, right, x, vert) < size
    ensures RowOf(size, right, x, RowOf(size, right, x, vert)) == vert
  {
  }

  /** Every step lands inside the symbol and off column 6, and the step of that
      module is the step itself. */
  lemma StepVisitsItsCell(size: nat, k: nat)
    requires IsSide(size) && k < Steps(size)
    ensures Right(size, PairOf(size, k)) >= 1
    ensures 0 <= CellX(size, k) < size && CellX(size, k) != 6 && 0 <= CellY(size, k) < size
    ensures StepOf(size, CellX(size, k), CellY(size, k)) == k
  {
    hide Right, PairOf, WithinPair, PairAt, RowOf, Steps;
    PartsOfStep(size, k);
    var p, w := PairOf(size, k), WithinPair(size, k);
    PairRecovered(size, p, w % 2);
    RowRecovered(size, Right(size, p), Right(size, p) - w % 2, w / 2);
  }

  /** The module (column, row) that step k of the walk visits. */
  function CellAt(size: nat, k: nat): (c: (nat, nat))
    requires IsSide(size) && k < Steps(size)
    ensures c.0 < size && c.1 < size && c.0 != 6
    ensures StepOf(size, c.0, c.1) == k
  {
    StepVisitsItsCell(size, k);
    (CellX(size, k), CellY(size, k))
  }

  /** Every module off column 6 is visited by its step, and (by the
      postcondition of `CellAt`) by no other. */
  lemma CellIsVisited(size: nat, x: nat, y: nat)
    requires IsSide(size) && x < size && y < size && x != 6
    ensures 0 <= StepOf(size, x, y) < Steps(size)
    ensures CellAt(size, StepOf(size, x, y)) == (x, y)
  {
    hide Right, PairOf, WithinPair, PairAt, RowOf, Steps;
    ColumnRecovered(size, x);
    var p := PairAt(size, x);
    var right := Right(size, p);
    var j := right - x;
    RowRecovered(size, right, x, y);
    var vert := RowOf(size, right, x, y);
    StepParts(size, p, vert, j);
    assert (2 * vert + j) / 2 == vert && (2 * vert + j) % 2 == j;
  }

  lemma CellOfParts(size: nat, p: nat, vert: nat, j: nat)
    requires IsSide(size) && p < (size - 1) / 2 && vert < size && j < 2
    ensures StepNumber(size, p, vert, j) < Steps(size) && Right(size, p) >= 1
    ensures CellAt(size, StepNumber(size, p, vert, j)) == (Right(size, p) - j, RowOf(size, Right(size, p), Right(size, p) - j, vert))
  {
    hide Right, PairOf, WithinPair, PairAt, RowOf, Steps, StepNumber, StepOf;
    PairRecovered(size, p, j);
    StepParts(size, p, vert, j);
    assert (2 * vert + j) / 2 == vert && (2 * vert + j) % 2 == j;
  }

  lemma ColumnRecovered(size: nat, x: nat)
    requires IsSide(size) && x < size && x != 6
    ensures 0 <= PairAt(size, x) < (size - 1) / 2
    ensures Right(size, PairAt(size, x)) >= 1 && 0 <= Right(size, PairAt(size, x)) - x < 2
  {
    var h := size / 4;
    assert size == 4 * h + 1;
    assert (size - 1) / 2 == 2 * h;
    if x > 6 {
      Halves(size - 1 - x);
      RightOfCentre(h, x, (size - 1 - x) / 2);
    } else {
      Halves(size - 2 - x);
      LeftOfTiming(h, x, (size - 2 - x) / 2);
    }
    hide Right;
  }

  lemma Halves(a: nat)
    ensures 2 * (a / 2) <= a <= 2 * (a / 2) + 1
  {
  }

  lemma RightOfCentre(h: nat, x: nat, p: nat)
    requires h >= 5 && 6 < x <= 4 * h && 2 * p <= 4 * h - x <= 2 * p + 1
    ensures p < 2 * h && Right(4 * h + 1, p) == 4 * h - 2 * p
  {
  }

  lemma LeftOfTiming(h: nat, x: nat, p: nat)
    requires h >= 5 && x < 6 && 2 * p <= 4 * h - 1 - x <= 2 * p + 1
    ensures p < 2 * h && Right(4 * h + 1, p) == 4 * h - 1 - 2 * p
  {
  }

  // ------------------------------------------------------- drawing and reading

  /** A module the walk may fill. */
  predicate Free(f: Grid, size: nat, k: nat)
    requires IsSide(size) && IsGrid(f, size) && k < Steps(size)
  {
    !f[CellAt(size, k).1][CellAt(size, k).0]
  }

  /** How many of the first k modules of the walk are free. */
  function FreeBefore(f: Grid, size: nat, k: nat): (n: nat)
    requires IsSide(size) && IsGrid(f, size) && k <= Steps(size)
    ensures n <= k
  {
    if k == 0 then 0 else FreeBefore(f, size, k - 1) + (if Free(f, size, k - 1) then 1 else 0)
  }

  /** The grid after the first k steps of filling the free modules with `bits`. */
  function Drawn(g: Grid, f: Grid, size: nat, bits: Bits, k: nat): (r: Grid)
    requires IsSide(size) && IsGrid(f, size) && IsGrid(g, size) && k <= Steps(size)
    ensures IsGrid(r, size)
  {
    if k == 0 then g
    else
      var r := Drawn(g, f, size, bits, k - 1);
      var i := FreeBefore(f, size, k - 1);
      var c := CellAt(size, k - 1);
      if Free(f, size, k - 1) && i < |bits| then Put(r, c.0, c.1, bits[i]) else r
  }

  /** The free modules of the first k steps, in the order of the walk. */
  function ReadWalk(g: Grid, f: Grid, size: nat, k: nat): (r: Bits)
    requires IsSide(size) && IsGrid(f, size) && IsGrid(g, size) && k <= Steps(size)
    ensures |r| == FreeBefore(f, size, k)
  {
    if k == 0 then []
    else
      var c := CellAt(size, k - 1);
      ReadWalk(g, f, size, k - 1) + (if Free(f, size, k - 1) then [g[c.1][c.0]] else [])
  }

  /** What a visited module holds once the walk has passed it. */
  lemma {:induction false} DrawnAtStep(g: Grid, f: Grid, size: nat, bits: Bits, k: nat, m: nat)
    requires IsSide(size) && IsGrid(f, size) && IsGrid(g, size) && k <= Steps(size) && m < Steps(size)
    ensures Drawn(g, f, size, bits, k)[CellAt(size, m).1][CellAt(size, m).0]
         == if m < k && Free(f, size, m) && FreeBefore(f, size, m) < |bits| then bits[FreeBefore(f, size, m)]
            else g[CellAt(size, m).1][CellAt(size, m).0]
  {
    hide CellAt, Free, StepOf, FreeBefore;
    if k != 0 {
      DrawnAtStep(g, f, size, bits, k - 1, m);
    }
  }

  /** The walk leaves function modules and column 6 alone. */
  lemma {:induction false} DrawnKeepsFunctionModules(g: Grid, f: Grid, size: nat, bits: Bits, k: nat, x: nat, y: nat)
    requires IsSide(size) && IsGrid(f, size) && IsGrid(g, size) && k <= Steps(size) && x < size && y < size
    requires f[y][x] || x == 6
    ensures Drawn(g, f, size, bits, k)[y][x] == g[y][x]
  {
    hide CellAt, StepOf, FreeBefore;
    if k != 0 {
      DrawnKeepsFunctionModules(g, f, size, bits, k - 1, x, y);
    }
  }

  /** Reading along the walk returns the bits that were drawn along it. */
  lemma {:induction false} ReadingReturnsTheBits(g: Grid, f: Grid, size: nat, bits: Bits, k: nat)
    requires IsSide(size) && IsGrid(f, size) && IsGrid(g, size) && k <= Steps(size)
    ensures var r := ReadWalk(Drawn(g, f, size, bits, Steps(size)), f, size, k);
      forall i | 0 <= i < |r| && i < |bits| :: r[i] == bits[i]
  {
    hide Drawn, CellAt, Free, FreeBefore;
    if k != 0 {
      ReadingReturnsTheBits(g, f, size, bits, k - 1);
      DrawnAtStep(g, f, size, bits, Steps(size), k - 1);
      FreeBeforeStep(f, size, k - 1);
    }
  }

  lemma FreeBeforeStep(f: Grid, size: nat, k: nat)
    requires IsSide(size) && IsGrid(f, size) && k < Steps(size)
    ensures FreeBefore(f, size, k + 1) == FreeBefore(f, size, k) + (if Free(f, size, k) then 1 else 0)
    ensures FreeBefore(f, size, 0) == 0
  {
  }

  /** Only the free modules matter to a reading. */
  lemma {:induction false} ReadingIgnoresFunctionModules(g: Grid, h: Grid, f: Grid, size: nat, k: nat)
    requires IsSide(size) && IsGrid(f, size) && IsGrid(g, size) && IsGrid(h, size) && k <= Steps(size)
    requires forall y, x | 0 <= y < size && 0 <= x < size && !f[y][x] :: g[y][x] == h[y][x]
    ensures ReadWalk(g, f, size, k) == ReadWalk(h, f, size, k)
  {
    hide CellAt, StepOf, FreeBefore;
    if k != 0 { ReadingIgnoresFunctionModules(g, h, f, size, k - 1); }
  }

  // ------------------------------------------------------------------ the code

  function Min(a: int, b: int): int { if a < b then a else b }

  /** The walk has done its first k steps and taken i bits. */
  ghost predicate Walked(modules: BitBucket, isFunction: BitBucket, g0: Grid, f: Grid, size: nat, bits: Bits, k: nat, i: nat)
    reads modules, isFunction, modules.data, isFunction.data
  {
    && IsSide(size) && IsGrid(g0, size) && IsGrid(f, size) && k <= Steps(size)
    && Canvas(modules, isFunction, size) && isFunction.Modules() == f
    && modules.Modules() == Drawn(g0, f, size, bits, k)
    && i == Min(FreeBefore(f, size, k), |bits|)
  }

  /** Step k: the module at (x, y) takes the next bit if it is free. */
  method DrawStep(modules: BitBucket, isFunction: BitBucket, codewords: BitBucket, size: nat, x: nat, y: nat, i: nat,
                  ghost g0: Grid, ghost f: Grid, ghost bits: Bits, ghost k: nat) returns (next: nat)
    requires Walked(modules, isFunction, g0, f, size, bits, k, i) && k < Steps(size) && CellAt(size, k) == (x, y)
    requires codewords.bitOffsetOrWidth <= 8 * codewords.data.Length && codewords.data != modules.data
    requires bits == BitsIn(codewords.data[..])[..codewords.bitOffsetOrWidth]
    modifies modules.data
    ensures Walked(modules, isFunction, g0, f, size, bits, k + 1, next)
  {
    hide GridOf, CellAt, BitsIn;
    FreeBeforeStep(f, size, k);
    next := i;
    var fixed := isFunction.GetBit(x, y);
    if !fixed && i < codewords.bitOffsetOrWidth {
      var bit := TestBit(codewords.data[i / 8], i % 8);
      assert bit == bits[i] by { BitIs(codewords.data[..], i); }
      modules.SetBit(x, y, bit);
      next := i + 1;
    }
  }

  lemma BitIs(s: seq<bv8>, i: nat)
    requires i < 8 * |s|
    ensures BitsIn(s)[i] == TestBit(s[i / 8], i % 8)
  {
  }

  /** The column pair whose right column the loop variable names. */
  ghost predicate AtPair(size: nat, right: int, p: nat) {
    IsSide(size) && p <= (size - 1) / 2 && right == if size - 1 - 2 * p >= 6 then size - 1 - 2 * p else size - 2 - 2 * p
  }

  lemma PairSteps(size: nat, p: nat)
    requires IsSide(size) && p < (size - 1) / 2
    ensures StepNumber(size, p, size, 0) == StepNumber(size, p + 1, 0, 0)
    ensures StepNumber(size, p, size, 0) <= Steps(size)
  {
    MulAdd(p, 1, 2 * size);
    MulMonotone(p + 1, (size - 1) / 2, 2 * size);
    MulAssoc((size - 1) / 2, 2, size);
  }

  lemma LastPair(size: nat)
    requires IsSide(size)
    ensures StepNumber(size, (size - 1) / 2, 0, 0) == Steps(size)
  {
    MulAssoc((size - 1) / 2, 2, size);
  }

  lemma AtPairNow(size: nat, right: int, p: nat)
    requires AtPair(size, right, p) && right >= 1
    ensures p < (size - 1) / 2 && Right(size, p) == (if right == 6 then 5 else right)
    ensures AtPair(size, Right(size, p) - 2, p + 1)
  {
  }

  lemma AtPairEnd(size: nat, right: int, p: nat)
    requires AtPair(size, right, p) && right < 1
    ensures p == (size - 1) / 2
  {
  }

  /** One column pair, row by row. */
  method DrawPair(modules: BitBucket, isFunction: BitBucket, codewords: BitBucket, size: nat, right: nat, start: nat,
                  ghost g0: Grid, ghost f: Grid, ghost bits: Bits, ghost p: nat) returns (i: nat)
    requires IsSide(size) && p < (size - 1) / 2 && right == Right(size, p)
    requires Walked(modules, isFunction, g0, f, size, bits, StepNumber(size, p, 0, 0), start)
    requires codewords.bitOffsetOrWidth <= 8 * codewords.data.Length && codewords.data != modules.data
    requires bits == BitsIn(codewords.data[..])[..codewords.bitOffsetOrWidth]
    modifies modules.data
    ensures Walked(modules, isFunction, g0, f, size, bits, StepNumber(size, p + 1, 0, 0), i)
  {
    hide Walked, CellAt, BitsIn, RowOf, Right;
    i := start;
    var vert := 0;
    while vert < size
      invariant vert <= size
      invariant Walked(modules, isFunction, g0, f, size, bits, StepNumber(size, p, vert, 0), i)
      invariant bits == BitsIn(codewords.data[..])[..codewords.bitOffsetOrWidth]
    {
      var j := 0;
      while j < 2
        invariant 0 <= j <= 2
        invariant Walked(modules, isFunction, g0, f, size, bits, StepNumber(size, p, vert, j), i)
        invariant bits == BitsIn(codewords.data[..])[..codewords.bitOffsetOrWidth]
      {
        PairRecovered(size, p, j);
        var x := right - j;
        RowRecovered(size, right, x, vert);
        var y := RowOf(size, right, x, vert);
        CellOfParts(size, p, vert, j);
        i := DrawStep(modules, isFunction, codewords, size, x, y, i, g0, f, bits, StepNumber(size, p, vert, j));
        j := j + 1;
      }
      assert StepNumber(size, p, vert, 2) == StepNumber(size, p, vert + 1, 0);
      vert := vert + 1;
    }
    PairSteps(size, p);
  }

  /** Draws the codewords along the walk. */
  method DrawCodewords(modules: BitBucket, isFunction: BitBucket, codewords: BitBucket, size: nat)
    requires IsSide(size) && Canvas(modules, isFunction, size)
    requires codewords.bitOffsetOrWidth <= 8 * codewords.data.Length && codewords.data != modules.data
    modifies modules.data
    ensures modules.Modules() == Drawn(old(modules.Modules()), isFunction.Modules(), size,
                                       BitsIn(codewords.data[..])[..codewords.bitOffsetOrWidth], Steps(size))
    ensures isFunction.Modules() == old(isFunction.Modules())
  {
    hide GridOf, BitsIn;
    ghost var g0, f := modules.Modules(), isFunction.Modules();
    ghost var bits := BitsIn(codewords.data[..])[..codewords.bitOffsetOrWidth];
    ghost var p := 0;
    var i := 0;
    assert StepNumber(size, 0, 0, 0) == 0;
    assert Walked(modules, isFunction, g0, f, size, bits, 0, 0);
    var right := size - 1;
    assert AtPair(size, right, 0);
    LastPair(size);
    while right >= 1
      invariant AtPair(size, right, p)
      invariant Walked(modules, isFunction, g0, f, size, bits, StepNumber(size, p, 0, 0), i)
      invariant bits == BitsIn(codewords.data[..])[..codewords.bitOffsetOrWidth]
      decreases right
    {
      hide AtPair, Walked, StepNumber, Right;
      AtPairNow(size, right, p);
      if right == 6 { right := 5; }
      i := DrawPair(modules, isFunction, codewords, size, right, i, g0, f, bits, p);
      p := p + 1;
      right := right - 2;
    }
    AtPairEnd(size, right, p);
  }
}
