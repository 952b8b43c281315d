/** The function patterns of a symbol (ISO/IEC 18004:2015 sections 6.3 and 7.9,
    7.10): what each of them covers, what it paints, and the loops that do it. */
module QrPatterns {
  import opened Arith
  import opened QrBits
  import opened QrTables

  function Abs(a: int): nat { if a < 0 then -a else a }

  function Max(a: int, b: int): int { if a > b then a else b }

  // ----------------------------------------------------- the format information

  /** Bit i of a word, least significant first. */
  function WordBit(w: bv32, i: nat): bool
    requires i < 32
  {
    (w >> i) & 1 != 0
  }

  // Words as polynomials over GF(2).

  function Plus(p: bv32, q: bv32): bv32 { p ^ q }

  function TimesX(p: bv32): bv32 { p << 1 }

  function Term(top: bool, g: bv32): bv32 { if top then g else 0 }

  /** The coefficient that a step of the division clears. */
  predicate FormatTop(rem: bv32) { rem >> 9 != 0 }

  function FormatStep(rem: bv32): bv32 { Plus(TimesX(rem), Term(FormatTop(rem), 0x537)) }

  /** n steps of the division by the generator 0x537. */
  function FormatRemainder(data: bv32, n: nat): bv32 {
    if n == 0 then data else FormatStep(FormatRemainder(data, n - 1))
  }

  function FormatMasked(data: bv32, rem: bv32): bv32 {
    ((data << 10) | rem) ^ 0x5412
  }

  /** Level and mask with their check bits, masked with 0x5412. */
  function FormatWord(ecc: nat, mask: nat): bv32
    requires ecc < 4 && mask < 8
  {
    var data := (8 * ecc + mask) as bv32;
    FormatMasked(data, FormatRemainder(data, 10))
  }

  // The words are multiples of their generators, as polynomials over GF(2).

  /** The product of a polynomial, highest coefficient first, and g. */
  function Times(q: seq<bool>, g: bv32): bv32 {
    if |q| == 0 then 0 else Plus(TimesX(Times(q[..|q| - 1], g)), Term(q[|q| - 1], g))
  }

  /** data * x^n. */
  function Raised(data: bv32, n: nat): bv32 {
    if n == 0 then data else TimesX(Raised(data, n - 1))
  }

  lemma DivisionStep(product: bv32, rem: bv32, part: bv32)
    ensures TimesX(Plus(product, rem)) == Plus(Plus(TimesX(product), part), Plus(TimesX(rem), part))
  {}

  lemma OneMoreTerm(q: seq<bool>, top: bool, g: bv32)
    ensures Times(q + [top], g) == Plus(TimesX(Times(q, g)), Term(top, g))
  {
    hide Plus, TimesX, Term;
    assert (q + [top])[..|q|] == q;
  }

  lemma ZeroIsNeutral(x: bv32)
    ensures Plus(0, x) == x
  {}

  lemma AddedTwice(p: bv32, r: bv32)
    ensures Plus(Plus(p, r), r) == p
  {}

  /** n steps of the division leave the remainder of data * x^n. */
  lemma {:induction false} FormatDivision(data: bv32, n: nat) returns (q: seq<bool>)
    ensures |q| == n && Raised(data, n) == Plus(Times(q, 0x537), FormatRemainder(data, n))
  {
    hide Plus, TimesX, Term, FormatTop;
    if n == 0 {
      q := [];
      ZeroIsNeutral(data);
    } else {
      var p := FormatDivision(data, n - 1);
      var rem := FormatRemainder(data, n - 1);
      q := p + [FormatTop(rem)];
      OneMoreTerm(p, FormatTop(rem), 0x537);
      DivisionStep(Times(p, 0x537), rem, Term(FormatTop(rem), 0x537));
    }
  }

  lemma ShiftsAddUp(data: bv32)
    ensures TimesX(data) == data << 1 && TimesX(data << 1) == data << 2 && TimesX(data << 2) == data << 3
    ensures TimesX(data << 3) == data << 4 && TimesX(data << 4) == data << 5 && TimesX(data << 5) == data << 6
    ensures TimesX(data << 6) == data << 7 && TimesX(data << 7) == data << 8 && TimesX(data << 8) == data << 9
    ensures TimesX(data << 9) == data << 10 && TimesX(data << 10) == data << 11 && TimesX(data << 11) == data << 12
  {}

  lemma RaisedOnce(data: bv32, n: nat)
    ensures Raised(data, n + 1) == TimesX(Raised(data, n)) && Raised(data, 0) == data
  {}

  lemma RaisedIsShifted(data: bv32)
    ensures Raised(data, 10) == data << 10 && Raised(data, 12) == data << 12
  {
    hide *;
    ShiftsAddUp(data);
    RaisedOnce(data, 0);
    RaisedOnce(data, 1);
    RaisedOnce(data, 2);
    RaisedOnce(data, 3);
    RaisedOnce(data, 4);
    RaisedOnce(data, 5);
    RaisedOnce(data, 6);
    RaisedOnce(data, 7);
    RaisedOnce(data, 8);
    RaisedOnce(data, 9);
    RaisedOnce(data, 10);
    RaisedOnce(data, 11);
  }

  /** The format word before its mask, and its high five bits. */
  function Unmasked(word: bv32): bv32 { word ^ 0x5412 }

  function HighFive(word: bv32): bv32 { word >> 10 }

  lemma FormatIsAdded(data: bv32, rem: bv32)
    requires data < 0x20 && rem < 0x400
    ensures Unmasked(FormatMasked(data, rem)) == Plus(data << 10, rem) && HighFive(Unmasked(FormatMasked(data, rem))) == data
  {}

  /** Level and mask as five bits. */
  function FormatData(ecc: nat, mask: nat): (data: bv32)
    requires ecc < 4 && mask < 8
    ensures data < 0x20
  {
    (8 * ecc + mask) as bv32
  }

  lemma FormatWordIs(ecc: nat, mask: nat)
    requires ecc < 4 && mask < 8
    ensures FormatWord(ecc, mask) == FormatMasked(FormatData(ecc, mask), FormatRemainder(FormatData(ecc, mask), 10))
  {}

  /** Unmasked, the format word is the multiple of 0x537 that has the data as its high five
      bits: a codeword of the (15, 5) code of section 7.9. */
  lemma FormatWordIsAMultiple(ecc: nat, mask: nat) returns (q: seq<bool>)
    requires ecc < 4 && mask < 8
    ensures |q| == 10 && Unmasked(FormatWord(ecc, mask)) == Times(q, 0x537)
    ensures HighFive(Unmasked(FormatWord(ecc, mask))) == FormatData(ecc, mask)
  {
    hide *;
    var data := FormatData(ecc, mask);
    var rem := FormatRemainder(data, 10);
    q := FormatDivision(data, 10);
    FormatWordIs(ecc, mask);
    RemaindersAreShort(data, 10);
    RaisedIsShifted(data);
    FormatIsAdded(data, rem);
    AddedTwice(Times(q, 0x537), rem);
  }

  // Reading the format word: its high five bits are the data under the mask.

  lemma RemainderIsShort(rem: bv32)
    requires rem < 0x400
    ensures FormatStep(rem) < 0x400
  {
  }

  lemma {:induction false} RemaindersAreShort(data: bv32, n: nat)
    requires data < 0x20
    ensures FormatRemainder(data, n) < 0x400
  {
    if n != 0 {
      RemaindersAreShort(data, n - 1);
      RemainderIsShort(FormatRemainder(data, n - 1));
      hide FormatStep;
    }
  }

  /** Bit k of the five data bits. */
  function DataBit(ecc: nat, mask: nat, k: nat): bool {
    if k == 0 then mask % 2 == 1
    else if k == 1 then mask / 2 % 2 == 1
    else if k == 2 then mask / 4 == 1
    else if k == 3 then ecc % 2 == 1
    else ecc / 2 == 1
  }

  lemma HighBits(data: bv32, rem: bv32)
    requires data < 0x20 && rem < 0x400
    ensures WordBit(FormatMasked(data, rem), 10) == (data & 1 == 0)
    ensures WordBit(FormatMasked(data, rem), 11) == (data & 2 != 0)
    ensures WordBit(FormatMasked(data, rem), 12) == (data & 4 == 0)
    ensures WordBit(FormatMasked(data, rem), 13) == (data & 8 != 0)
    ensures WordBit(FormatMasked(data, rem), 14) == (data & 16 == 0)
  {
  }

  lemma DataWord(ecc: nat, mask: nat)
    requires ecc < 4 && mask < 8
    ensures var data := (8 * ecc + mask) as bv32;
      data < 0x20 && (data & 1 != 0) == DataBit(ecc, mask, 0) && (data & 2 != 0) == DataBit(ecc, mask, 1)
      && (data & 4 != 0) == DataBit(ecc, mask, 2) && (data & 8 != 0) == DataBit(ecc, mask, 3)
      && (data & 16 != 0) == DataBit(ecc, mask, 4)
  {
    var n := 8 * ecc + mask;
    if n < 8 {
      if n == 0 { } else if n == 1 { } else if n == 2 { } else if n == 3 { } else if n == 4 { } else if n == 5 { } else if n == 6 { } else { }
    } else if n < 16 {
      if n == 8 { } else if n == 9 { } else if n == 10 { } else if n == 11 { } else if n == 12 { } else if n == 13 { } else if n == 14 { } else { }
    } else if n < 24 {
      if n == 16 { } else if n == 17 { } else if n == 18 { } else if n == 19 { } else if n == 20 { } else if n == 21 { } else if n == 22 { } else { }
    } else {
      if n == 24 { } else if n == 25 { } else if n == 26 { } else if n == 27 { } else if n == 28 { } else if n == 29 { } else if n == 30 { } else { }
    }
  }

  /** Format bit 10 + k is data bit k, inverted for even k. */
  lemma FormatShowsData(ecc: nat, mask: nat, k: nat)
    requires ecc < 4 && mask < 8 && k < 5
    ensures WordBit(FormatWord(ecc, mask), 10 + k) == (DataBit(ecc, mask, k) != (k % 2 == 0))
  {
    DataWord(ecc, mask);
    var data := (8 * ecc + mask) as bv32;
    RemaindersAreShort(data, 10);
    HighBits(data, FormatRemainder(data, 10));
    hide WordBit, FormatMasked, FormatRemainder, DataBit;
  }

  /** Which bit of the format word module (x, y) shows; 15 is the module that is
      always dark and -1 means none. */
  function FormatIndex(size: nat, x: int, y: int): int {
    if x == 8 then
      if 0 <= y <= 5 then y
      else if y == 7 then 6
      else if y == 8 then 7
      else if y == size - 8 then 15
      else if size - 7 <= y < size then y - size + 15
      else -1
    else if y == 8 then
      if x == 7 then 8
      else if 0 <= x <= 5 then 14 - x
      else if size - 8 <= x < size then size - 1 - x
      else -1
    else -1
  }

  predicate VersionTop(rem: bv32) { rem >> 11 != 0 }

  function VersionStep(rem: bv32): bv32 { Plus(TimesX(rem), Term(VersionTop(rem), 0x1F25)) }

  function VersionRemainder(data: bv32, n: nat): bv32 {
    if n == 0 then data else VersionStep(VersionRemainder(data, n - 1))
  }

  function WithRemainder(data: bv32, rem: bv32): bv32 {
    (data << 12) | rem
  }

  function VersionWord(v: nat): bv32
    requires v <= 40
  {
    var data := v as bv32;
    WithRemainder(data, VersionRemainder(data, 12))
  }

  lemma VersionStepIsShort(rem: bv32)
    requires rem < 0x1000
    ensures VersionStep(rem) < 0x1000
  {}

  lemma {:induction false} VersionDivision(data: bv32, n: nat) returns (q: seq<bool>)
    requires data < 0x1000
    ensures |q| == n && Raised(data, n) == Plus(Times(q, 0x1F25), VersionRemainder(data, n)) && VersionRemainder(data, n) < 0x1000
  {
    hide Plus, TimesX, Term, VersionTop;
    if n == 0 {
      q := [];
      ZeroIsNeutral(data);
    } else {
      var p := VersionDivision(data, n - 1);
      var rem := VersionRemainder(data, n - 1);
      q := p + [VersionTop(rem)];
      OneMoreTerm(p, VersionTop(rem), 0x1F25);
      VersionStepIsShort(rem);
      DivisionStep(Times(p, 0x1F25), rem, Term(VersionTop(rem), 0x1F25));
    }
  }

  lemma VersionIsAdded(data: bv32, rem: bv32)
    requires data < 0x40 && rem < 0x1000
    ensures WithRemainder(data, rem) == Plus(data << 12, rem) && WithRemainder(data, rem) >> 12 == data
  {}

  lemma VersionWordIs(v: nat) returns (data: bv32)
    requires 7 <= v <= 40
    ensures data == v as bv32 && data < 0x40 && VersionWord(v) == WithRemainder(data, VersionRemainder(data, 12))
  {
    data := v as bv32;
  }

  lemma SixBits(data: bv32)
    requires data < 0x40
    ensures data < 0x1000
  {}

  /** The version word is the multiple of 0x1F25 that has the version as its high six bits:
      a codeword of the (18, 6) code of section 7.10. */
  lemma VersionWordIsAMultiple(v: nat) returns (q: seq<bool>)
    requires 7 <= v <= 40
    ensures |q| == 12 && VersionWord(v) == Times(q, 0x1F25) && VersionWord(v) >> 12 == v as bv32
  {
    hide *;
    var data := VersionWordIs(v);
    SixBits(data);
    var rem := VersionRemainder(data, 12);
    q := VersionDivision(data, 12);
    RaisedIsShifted(data);
    VersionIsAdded(data, rem);
    AddedTwice(Times(q, 0x1F25), rem);
  }

  /** Which bit of the version word module (x, y) shows, or -1. */
  function VersionIndex(size: nat, x: int, y: int): int {
    if size - 11 <= x < size - 8 && 0 <= y < 6 then 3 * y + (x - (size - 11))
    else if size - 11 <= y < size - 8 && 0 <= x < 6 then 3 * x + (y - (size - 11))
    else -1
  }

  // ----------------------------------------------------------------- patterns

  datatype Pattern =
    | Timing
    | Finder(cx: int, cy: int)
    | Alignment(cx: int, cy: int)
    | Format(ecc: nat, mask: nat)
    | Version(v: nat)
  {
    predicate Known() {
      && (Format? ==> ecc < 4 && mask < 8)
      && (Version? ==> v <= 40)
    }

    predicate Covers(size: nat, x: int, y: int) {
      match this
      case Timing => x == 6 || y == 6
      case Finder(cx, cy) => Abs(x - cx) <= 4 && Abs(y - cy) <= 4
      case Alignment(cx, cy) => Abs(x - cx) <= 2 && Abs(y - cy) <= 2
      case Format(_, _) => FormatIndex(size, x, y) != -1
      case Version(v) => v >= 7 && VersionIndex(size, x, y) != -1
    }

    predicate Dark(size: nat, x: int, y: int)
      requires Known() && Covers(size, x, y)
    {
      match this
      case Timing => if y == 6 then x % 2 == 0 else y % 2 == 0
      case Finder(cx, cy) => Max(Abs(x - cx), Abs(y - cy)) != 2 && Max(Abs(x - cx), Abs(y - cy)) != 4
      case Alignment(cx, cy) => Max(Abs(x - cx), Abs(y - cy)) != 1
      case Format(ecc, mask) =>
        var i := FormatIndex(size, x, y);
        i == 15 || WordBit(FormatWord(ecc, mask), i)
      case Version(v) => WordBit(VersionWord(v), VersionIndex(size, x, y))
    }
  }

  function Paint(g: Grid, size: nat, p: Pattern): (r: Grid)
    requires IsGrid(g, size) && p.Known()
    ensures IsGrid(r, size)
  {
    seq(size, y requires 0 <= y < size =>
      seq(size, x requires 0 <= x < size => if p.Covers(size, x, y) then p.Dark(size, x, y) else g[y][x]))
  }

  function Mark(f: Grid, size: nat, p: Pattern): (r: Grid)
    requires IsGrid(f, size)
    ensures IsGrid(r, size)
  {
    seq(size, y requires 0 <= y < size =>
      seq(size, x requires 0 <= x < size => p.Covers(size, x, y) || f[y][x]))
  }

  ghost predicate AllKnown(ps: seq<Pattern>) { forall i | 0 <= i < |ps| :: ps[i].Known() }

  function PaintAll(g: Grid, size: nat, ps: seq<Pattern>): (r: Grid)
    requires IsGrid(g, size) && AllKnown(ps)
    ensures IsGrid(r, size)
  {
    if |ps| == 0 then g else Paint(PaintAll(g, size, ps[..|ps| - 1]), size, ps[|ps| - 1])
  }

  function MarkAll(f: Grid, size: nat, ps: seq<Pattern>): (r: Grid)
    requires IsGrid(f, size)
    ensures IsGrid(r, size)
  {
    if |ps| == 0 then f else Mark(MarkAll(f, size, ps[..|ps| - 1]), size, ps[|ps| - 1])
  }

  // ------------------------------------------------- where the patterns are

  function AlignStep(v: nat): nat
    requires 2 <= v <= 40
  {
    var n := AlignCount(v);
    if v != 32 then (v * 4 + n * 2 + 1) / (2 * n - 2) * 2 else 26
  }

  function AlignPosition(v: nat, i: nat): int
    requires 2 <= v <= 40
  {
    if i == 0 then 6 else Side(v) - 7 - (AlignCount(v) - 1 - i) * AlignStep(v)
  }

  /** The three corners that hold finders instead. */
  predicate AtFinder(n: nat, i: int, j: int) {
    (i == 0 && j == 0) || (i == 0 && j == n - 1) || (i == n - 1 && j == 0)
  }

  /** Centres (i, j) before row i, column j of the scan, row by row. */
  function AlignmentsUpTo(v: nat, i: nat, j: nat): (ps: seq<Pattern>)
    requires 2 <= v <= 40 && j <= AlignCount(v)
    decreases i, j
  {
    if j > 0 then
      AlignmentsUpTo(v, i, j - 1)
        + (if AtFinder(AlignCount(v), i, j - 1) then [] else [Alignment(AlignPosition(v, i), AlignPosition(v, j - 1))])
    else if i > 0 then AlignmentsUpTo(v, i - 1, AlignCount(v))
    else []
  }

  function Alignments(v: nat): seq<Pattern>
    requires 1 <= v <= 40
  {
    if v == 1 then [] else AlignmentsUpTo(v, AlignCount(v), 0)
  }

  function Finders(size: nat): seq<Pattern> {
    [Finder(3, 3), Finder(size - 4, 3), Finder(3, size - 4)]
  }

  /** Everything that is drawn before the data, in the order of drawing. */
  function FunctionPatterns(v: nat, ecc: nat): seq<Pattern>
    requires 1 <= v <= 40
  {
    [Timing] + Finders(Side(v)) + Alignments(v) + [Format(ecc, 0)] + [Version(v)]
  }

  lemma AlignStepRange(v: nat)
    requires 2 <= v <= 40
    ensures AlignStep(v) >= 12 && (AlignCount(v) - 2) * AlignStep(v) <= Side(v) - 25
  {
    var n := AlignCount(v);
    if v < 7 { } else if n == 3 { } else if n == 4 { } else if n == 5 { } else if n == 6 { } else { assert n == 7; }
  }

  /** The least distance between neighbouring centres, and the room to the edges. */
  lemma AlignmentRoom(v: nat, i: nat)
    requires 2 <= v <= 40 && i < AlignCount(v)
    ensures i == 0 ==> AlignPosition(v, i) == 6
    ensures i >= 1 ==> 18 <= AlignPosition(v, i) <= Side(v) - 7
    ensures i + 1 < AlignCount(v) ==> AlignPosition(v, i) + 12 <= AlignPosition(v, i + 1)
  {
    AlignStepRange(v);
    var n, s := AlignCount(v), AlignStep(v);
    hide AlignCount, AlignStep;
    if i >= 1 {
      MulMonotone(n - 1 - i, n - 2, s);
      MulNonneg(n - 1 - i, s);
    }
    if 1 <= i < n - 1 { MulAdd(n - 2 - i, 1, s); }
  }

  // ------------------------------------------------------------------ drawing

  ghost predicate Canvas(modules: BitBucket, isFunction: BitBucket, size: nat)
    reads modules, isFunction
  {
    && modules.data != isFunction.data && modules != isFunction
    && modules.ValidGrid() && isFunction.ValidGrid()
    && modules.bitOffsetOrWidth == isFunction.bitOffsetOrWidth == size
  }

  method SetFunctionModule(modules: BitBucket, isFunction: BitBucket, ghost size: nat, x: nat, y: nat, on: bool)
    requires Canvas(modules, isFunction, size) && x < size && y < size
    modifies modules.data, isFunction.data
    ensures modules.Modules() == Put(old(modules.Modules()), x, y, on)
    ensures isFunction.Modules() == Put(old(isFunction.Modules()), x, y, true)
  {
    modules.SetBit(x, y, on);
    isFunction.SetBit(x, y, true);
  }

  /** Between `g0` and `g1` the modules in `done`, all of them covered by p, were
      painted and marked, and nothing else changed. */
  ghost predicate Partly(g0: Grid, g1: Grid, f0: Grid, f1: Grid, size: nat, p: Pattern, done: set<(int, int)>) {
    && IsGrid(g0, size) && IsGrid(g1, size) && IsGrid(f0, size) && IsGrid(f1, size) && p.Known()
    && forall y, x | 0 <= y < size && 0 <= x < size ::
      if (x, y) in done then p.Covers(size, x, y) && g1[y][x] == p.Dark(size, x, y) && f1[y][x]
      else g1[y][x] == g0[y][x] && f1[y][x] == f0[y][x]
  }

  lemma PartlyStarts(g0: Grid, f0: Grid, size: nat, p: Pattern)
    requires IsGrid(g0, size) && IsGrid(f0, size) && p.Known()
    ensures Partly(g0, g0, f0, f0, size, p, {})
  {
  }

  lemma PartlyGrows(g0: Grid, g1: Grid, f0: Grid, f1: Grid, size: nat, p: Pattern, done: set<(int, int)>, x: nat, y: nat)
    requires Partly(g0, g1, f0, f1, size, p, done)
    requires x < size && y < size && p.Covers(size, x, y)
    ensures Partly(g0, Put(g1, x, y, p.Dark(size, x, y)), f0, Put(f1, x, y, true), size, p, done + {(x, y)})
  {
  }

  lemma PartlyIsAll(g0: Grid, g1: Grid, f0: Grid, f1: Grid, size: nat, p: Pattern, done: set<(int, int)>)
    requires Partly(g0, g1, f0, f1, size, p, done)
    requires forall y, x | 0 <= y < size && 0 <= x < size && p.Covers(size, x, y) :: (x, y) in done
    ensures g1 == Paint(g0, size, p) && f1 == Mark(f0, size, p)
  {
    assert forall y | 0 <= y < size :: g1[y] == Paint(g0, size, p)[y];
    assert forall y | 0 <= y < size :: f1[y] == Mark(f0, size, p)[y];
  }

  /** One module of a pattern that is being drawn. */
  method DrawModule(modules: BitBucket, isFunction: BitBucket, size: nat, x: nat, y: nat, on: bool,
                    ghost g0: Grid, ghost f0: Grid, ghost p: Pattern, ghost done: set<(int, int)>)
    requires Canvas(modules, isFunction, size) && x < size && y < size
    requires Partly(g0, modules.Modules(), f0, isFunction.Modules(), size, p, done)
    requires p.Covers(size, x, y) && on == p.Dark(size, x, y)
    modifies modules.data, isFunction.data
    ensures Partly(g0, modules.Modules(), f0, isFunction.Modules(), size, p, done + {(x, y)})
  {
    hide GridOf, Partly, Put;
    PartlyGrows(g0, modules.Modules(), f0, isFunction.Modules(), size, p, done, x, y);
    SetFunctionModule(modules, isFunction, size, x, y, on);
  }

  method DrawFinderPattern(modules: BitBucket, isFunction: BitBucket, size: nat, x: nat, y: nat)
    requires Canvas(modules, isFunction, size) && x < size && y < size
    modifies modules.data, isFunction.data
    ensures modules.Modules() == Paint(old(modules.Modules()), size, Finder(x, y))
    ensures isFunction.Modules() == Mark(old(isFunction.Modules()), size, Finder(x, y))
  {
    hide GridOf, Partly;
    ghost var g0, f0, p := modules.Modules(), isFunction.Modules(), Finder(x, y);
    ghost var done: set<(int, int)> := {};
    PartlyStarts(g0, f0, size, p);
    var i := -4;
    while i <= 4
      invariant -4 <= i <= 5
      invariant Partly(g0, modules.Modules(), f0, isFunction.Modules(), size, p, done)
      invariant forall b, a | 0 <= b < size && 0 <= a < size && p.Covers(size, a, b) && b - y < i :: (a, b) in done
    {
      var j := -4;
      while j <= 4
        invariant -4 <= j <= 5
        invariant Partly(g0, modules.Modules(), f0, isFunction.Modules(), size, p, done)
        invariant forall b, a | 0 <= b < size && 0 <= a < size && p.Covers(size, a, b) && b - y < i :: (a, b) in done
        invariant forall b, a | 0 <= b < size && 0 <= a < size && p.Covers(size, a, b) && b - y == i && a - x < j :: (a, b) in done
      {
        var dist := Max(Abs(i), Abs(j));
        var xx, yy := x + j, y + i;
        if 0 <= xx < size && 0 <= yy < size {
          DrawModule(modules, isFunction, size, xx, yy, dist != 2 && dist != 4, g0, f0, p, done);
          done := done + {(xx, yy)};
        }
        j := j + 1;
      }
      i := i + 1;
    }
    PartlyIsAll(g0, modules.Modules(), f0, isFunction.Modules(), size, p, done);
  }

  method DrawAlignmentPattern(modules: BitBucket, isFunction: BitBucket, size: nat, x: nat, y: nat)
    requires Canvas(modules, isFunction, size)
    requires 2 <= x && x + 2 < size && 2 <= y && y + 2 < size
    modifies modules.data, isFunction.data
    ensures modules.Modules() == Paint(old(modules.Modules()), size, Alignment(x, y))
    ensures isFunction.Modules() == Mark(old(isFunction.Modules()), size, Alignment(x, y))
  {
    hide GridOf, Partly;
    ghost var g0, f0, p := modules.Modules(), isFunction.Modules(), Alignment(x, y);
    ghost var done: set<(int, int)> := {};
    PartlyStarts(g0, f0, size, p);
    var i := -2;
    while i <= 2
      invariant -2 <= i <= 3
      invariant Partly(g0, modules.Modules(), f0, isFunction.Modules(), size, p, done)
      invariant forall b, a | 0 <= b < size && 0 <= a < size && p.Covers(size, a, b) && b - y < i :: (a, b) in done
    {
      var j := -2;
      while j <= 2
        invariant -2 <= j <= 3
        invariant Partly(g0, modules.Modules(), f0, isFunction.Modules(), size, p, done)
        invariant forall b, a | 0 <= b < size && 0 <= a < size && p.Covers(size, a, b) && b - y < i :: (a, b) in done
        invariant forall b, a | 0 <= b < size && 0 <= a < size && p.Covers(size, a, b) && b - y == i && a - x < j :: (a, b) in done
      {
        DrawModule(modules, isFunction, size, x + j, y + i, Max(Abs(i), Abs(j)) != 1, g0, f0, p, done);
        done := done + {(x + j, y + i)};
        j := j + 1;
      }
      i := i + 1;
    }
    PartlyIsAll(g0, modules.Modules(), f0, isFunction.Modules(), size, p, done);
  }

  method DrawTiming(modules: BitBucket, isFunction: BitBucket, size: nat)
    requires Canvas(modules, isFunction, size) && size >= 21
    modifies modules.data, isFunction.data
    ensures modules.Modules() == Paint(old(modules.Modules()), size, Timing)
    ensures isFunction.Modules() == Mark(old(isFunction.Modules()), size, Timing)
  {
    hide GridOf, Partly;
    ghost var g0, f0, p := modules.Modules(), isFunction.Modules(), Timing;
    ghost var done: set<(int, int)> := {};
    PartlyStarts(g0, f0, size, p);
    var i := 0;
    while i < size
      invariant i <= size
      invariant Partly(g0, modules.Modules(), f0, isFunction.Modules(), size, p, done)
      invariant forall b, a | 0 <= b < size && 0 <= a < size && ((a == 6 && b < i) || (b == 6 && a < i)) :: (a, b) in done
    {
      DrawModule(modules, isFunction, size, 6, i, i % 2 == 0, g0, f0, p, done);
      done := done + {(6, i)};
      DrawModule(modules, isFunction, size, i, 6, i % 2 == 0, g0, f0, p, done);
      done := done + {(i, 6)};
      i := i + 1;
    }
    PartlyIsAll(g0, modules.Modules(), f0, isFunction.Modules(), size, p, done);
  }

  method FormatBits(ecc: nat, mask: nat) returns (data: bv32)
    requires ecc < 4 && mask < 8
    ensures data == FormatWord(ecc, mask)
  {
    hide FormatStep, FormatMasked;
    data := (8 * ecc + mask) as bv32;
    var rem := data;
    var i := 0;
    while i < 10
      invariant i <= 10 && rem == FormatRemainder(data, i)
    {
      rem := FormatStep(rem);
      i := i + 1;
    }
    data := FormatMasked(data, rem);
  }

  /** The corner of the format information that a module belongs to. */
  ghost predicate InCorner(size: nat, x: int, y: int) { FormatIndex(size, x, y) != -1 && x <= 8 && y <= 8 }

  method DrawFirstFormat(modules: BitBucket, isFunction: BitBucket, size: nat, data: bv32,
                         ghost g0: Grid, ghost f0: Grid, ghost p: Pattern) returns (ghost done: set<(int, int)>)
    requires Canvas(modules, isFunction, size) && size >= 21 && p.Known() && p.Format? && data == FormatWord(p.ecc, p.mask)
    requires Partly(g0, modules.Modules(), f0, isFunction.Modules(), size, p, {})
    modifies modules.data, isFunction.data
    ensures Partly(g0, modules.Modules(), f0, isFunction.Modules(), size, p, done)
    ensures forall y, x | 0 <= y < size && 0 <= x < size && InCorner(size, x, y) :: (x, y) in done
  {
    hide GridOf, Partly, WordBit, FormatWord;
    done := {};
    var i := 0;
    while i <= 5
      invariant i <= 6
      invariant Partly(g0, modules.Modules(), f0, isFunction.Modules(), size, p, done)
      invariant forall b | 0 <= b < i :: (8, b) in done
    {
      DrawModule(modules, isFunction, size, 8, i, WordBit(data, i), g0, f0, p, done);
      done := done + {(8, i)};
      i := i + 1;
    }
    DrawModule(modules, isFunction, size, 8, 7, WordBit(data, 6), g0, f0, p, done);
    done := done + {(8, 7)};
    DrawModule(modules, isFunction, size, 8, 8, WordBit(data, 7), g0, f0, p, done);
    done := done + {(8, 8)};
    DrawModule(modules, isFunction, size, 7, 8, WordBit(data, 8), g0, f0, p, done);
    done := done + {(7, 8)};
    i := 9;
    while i < 15
      invariant 9 <= i <= 15
      invariant Partly(g0, modules.Modules(), f0, isFunction.Modules(), size, p, done)
      invariant {(8, 7), (8, 8), (7, 8)} <= done
      invariant forall b | 0 <= b < 6 :: (8, b) in done
      invariant forall a | 14 - i < a < 6 :: (a, 8) in done
    {
      DrawModule(modules, isFunction, size, 14 - i, 8, WordBit(data, i), g0, f0, p, done);
      done := done + {(14 - i, 8)};
      i := i + 1;
    }
  }

  method DrawSecondFormat(modules: BitBucket, isFunction: BitBucket, size: nat, data: bv32,
                          ghost g0: Grid, ghost f0: Grid, ghost p: Pattern, ghost corner: set<(int, int)>)
      returns (ghost done: set<(int, int)>)
    requires Canvas(modules, isFunction, size) && size >= 21 && p.Known() && p.Format? && data == FormatWord(p.ecc, p.mask)
    requires Partly(g0, modules.Modules(), f0, isFunction.Modules(), size, p, corner)
    modifies modules.data, isFunction.data
    ensures Partly(g0, modules.Modules(), f0, isFunction.Modules(), size, p, done) && corner <= done
    ensures forall y, x | 0 <= y < size && 0 <= x < size && FormatIndex(size, x, y) != -1 && !InCorner(size, x, y) :: (x, y) in done
  {
    hide GridOf, Partly, WordBit, FormatWord;
    done := corner;
    var i := 0;
    while i <= 7
      invariant i <= 8
      invariant Partly(g0, modules.Modules(), f0, isFunction.Modules(), size, p, done)
      invariant corner <= done
      invariant forall a | size - 1 - i < a < size :: (a, 8) in done
    {
      DrawModule(modules, isFunction, size, size - 1 - i, 8, WordBit(data, i), g0, f0, p, done);
      done := done + {(size - 1 - i, 8)};
      i := i + 1;
    }
    i := 8;
    while i < 15
      invariant 8 <= i <= 15
      invariant Partly(g0, modules.Modules(), f0, isFunction.Modules(), size, p, done)
      invariant corner <= done
      invariant forall a | size - 8 <= a < size :: (a, 8) in done
      invariant forall b | size - 7 <= b < size - 15 + i :: (8, b) in done
    {
      DrawModule(modules, isFunction, size, 8, size - 15 + i, WordBit(data, i), g0, f0, p, done);
      done := done + {(8, size - 15 + i)};
      i := i + 1;
    }
    DrawModule(modules, isFunction, size, 8, size - 8, true, g0, f0, p, done);
    done := done + {(8, size - 8)};
  }

  method DrawFormatBits(modules: BitBucket, isFunction: BitBucket, size: nat, ecc: nat, mask: nat)
    requires Canvas(modules, isFunction, size) && size >= 21 && ecc < 4 && mask < 8
    modifies modules.data, isFunction.data
    ensures modules.Modules() == Paint(old(modules.Modules()), size, Format(ecc, mask))
    ensures isFunction.Modules() == Mark(old(isFunction.Modules()), size, Format(ecc, mask))
  {
    hide GridOf, Partly, WordBit, FormatWord, FormatIndex;
    ghost var g0, f0, p := modules.Modules(), isFunction.Modules(), Format(ecc, mask);
    PartlyStarts(g0, f0, size, p);
    var data := FormatBits(ecc, mask);
    ghost var corner := DrawFirstFormat(modules, isFunction, size, data, g0, f0, p);
    ghost var done := DrawSecondFormat(modules, isFunction, size, data, g0, f0, p, corner);
    PartlyIsAll(g0, modules.Modules(), f0, isFunction.Modules(), size, p, done);
  }

  method VersionBits(v: nat) returns (data: bv32)
    requires v <= 40
    ensures data == VersionWord(v)
  {
    hide VersionStep, WithRemainder;
    data := v as bv32;
    var rem := data;
    var i := 0;
    while i < 12
      invariant i <= 12 && rem == VersionRemainder(data, i)
    {
      rem := VersionStep(rem);
      i := i + 1;
    }
    data := WithRemainder(data, rem);
  }

  lemma VersionCells(size: nat, i: nat)
    requires i < 18 && size >= 21
    ensures VersionIndex(size, size - 11 + i % 3, i / 3) == i == VersionIndex(size, i / 3, size - 11 + i % 3)
    ensures forall b, a | VersionIndex(size, a, b) == i ::
      (a, b) == (size - 11 + i % 3, i / 3) || (a, b) == (i / 3, size - 11 + i % 3)
  {
  }

  lemma VersionIndexRange(size: nat)
    ensures forall b, a {:trigger VersionIndex(size, a, b)} :: -1 <= VersionIndex(size, a, b) < 18
  {
  }

  method DrawVersion(modules: BitBucket, isFunction: BitBucket, size: nat, v: nat)
    requires 1 <= v <= 40 && size == Side(v) && Canvas(modules, isFunction, size)
    modifies modules.data, isFunction.data
    ensures modules.Modules() == Paint(old(modules.Modules()), size, Version(v))
    ensures isFunction.Modules() == Mark(old(isFunction.Modules()), size, Version(v))
  {
    hide GridOf, Partly, WordBit, VersionWord, VersionIndex;
    VersionIndexRange(size);
    ghost var g0, f0, p := modules.Modules(), isFunction.Modules(), Version(v);
    ghost var done: set<(int, int)> := {};
    PartlyStarts(g0, f0, size, p);
    if v >= 7 {
      var data := VersionBits(v);
      var i := 0;
      while i < 18
        invariant i <= 18
        invariant Partly(g0, modules.Modules(), f0, isFunction.Modules(), size, p, done)
        invariant forall b, a | 0 <= b < size && 0 <= a < size && 0 <= VersionIndex(size, a, b) < i :: (a, b) in done
      {
        VersionCells(size, i);
        var bit := WordBit(data, i);
        var a, b := size - 11 + i % 3, i / 3;
        DrawModule(modules, isFunction, size, a, b, bit, g0, f0, p, done);
        done := done + {(a, b)};
        DrawModule(modules, isFunction, size, b, a, bit, g0, f0, p, done);
        done := done + {(b, a)};
        i := i + 1;
      }
    }
    PartlyIsAll(g0, modules.Modules(), f0, isFunction.Modules(), size, p, done);
  }

  lemma AllSnoc(g: Grid, size: nat, ps: seq<Pattern>, p: Pattern)
    requires IsGrid(g, size) && AllKnown(ps) && p.Known()
    ensures AllKnown(ps + [p])
    ensures PaintAll(g, size, ps + [p]) == Paint(PaintAll(g, size, ps), size, p)
    ensures MarkAll(g, size, ps + [p]) == Mark(MarkAll(g, size, ps), size, p)
  {
    assert (ps + [p])[..|ps|] == ps;
  }

  lemma AlignPositionStep(v: nat, i: nat)
    requires 2 <= v <= 40 && 1 <= i < AlignCount(v)
    ensures AlignPosition(v, AlignCount(v) - i) == Side(v) - 7 - (i - 1) * AlignStep(v)
  {
  }

  method AlignPositions(v: nat) returns (alignPosition: array<int>)
    requires 2 <= v <= 40
    ensures fresh(alignPosition) && alignPosition.Length == AlignCount(v)
    ensures forall i: nat | i < AlignCount(v) :: alignPosition[i] == AlignPosition(v, i)
  {
    var alignCount := v / 7 + 2;
    var step: int;
    if v != 32 {
      step := (v * 4 + alignCount * 2 + 1) / (2 * alignCount - 2) * 2;
    } else {
      step := 26;
    }
    assert step == AlignStep(v);
    hide AlignStep, AlignPosition;
    assert AlignPosition(v, 0) == 6 by { AlignmentRoom(v, 0); }
    var alignPositionIndex := alignCount - 1;
    alignPosition := new int[alignCount];
    alignPosition[0] := 6;
    var i, pos := 0, 4 * v + 17 - 7;
    while i < alignCount - 1
      invariant i <= alignCount - 1 && alignPositionIndex == alignCount - 1 - i
      invariant pos == Side(v) - 7 - i * step
      invariant alignPosition[0] == 6
      invariant forall k: nat | alignPositionIndex < k < alignCount :: alignPosition[k] == AlignPosition(v, k)
    {
      AlignPositionStep(v, i + 1);
      MulAdd(i, 1, step);
      alignPosition[alignPositionIndex] := pos;
      alignPositionIndex := alignPositionIndex - 1;
      i, pos := i + 1, pos - step;
    }
  }

  method DrawFinders(modules: BitBucket, isFunction: BitBucket, size: nat)
    requires Canvas(modules, isFunction, size) && size >= 21
    modifies modules.data, isFunction.data
    ensures modules.Modules() == PaintAll(old(modules.Modules()), size, Finders(size))
    ensures isFunction.Modules() == MarkAll(old(isFunction.Modules()), size, Finders(size))
  {
    ghost var g0, f0 := modules.Modules(), isFunction.Modules();
    var a, b, c := Finder(3, 3), Finder(size - 4, 3), Finder(3, size - 4);
    assert [] + [a] == [a] && [a] + [b] == [a, b] && [a, b] + [c] == Finders(size);
    assert PaintAll(g0, size, []) == g0 && MarkAll(f0, size, []) == f0;
    hide GridOf, Paint, Mark, PaintAll, MarkAll;
    AllSnoc(g0, size, [], a);
    AllSnoc(f0, size, [], a);
    AllSnoc(g0, size, [a], b);
    AllSnoc(f0, size, [a], b);
    AllSnoc(g0, size, [a, b], c);
    AllSnoc(f0, size, [a, b], c);
    DrawFinderPattern(modules, isFunction, size, 3, 3);
    DrawFinderPattern(modules, isFunction, size, size - 4, 3);
    DrawFinderPattern(modules, isFunction, size, 3, size - 4);
  }

  lemma AlignmentsKnown(v: nat, i: nat, j: nat)
    requires 2 <= v <= 40 && j <= AlignCount(v)
    ensures AllKnown(AlignmentsUpTo(v, i, j))
    decreases i, j
  {
    if j > 0 { AlignmentsKnown(v, i, j - 1); } else if i > 0 { AlignmentsKnown(v, i - 1, AlignCount(v)); }
  }

  /** Both grids stand where the scan of the centres reached (i, j). */
  ghost predicate Scanned(modules: BitBucket, isFunction: BitBucket, v: nat, i: nat, j: nat, g0: Grid, f0: Grid)
    requires 2 <= v <= 40 && j <= AlignCount(v)
    reads modules, isFunction, modules.data, isFunction.data
  {
    && Canvas(modules, isFunction, Side(v)) && IsGrid(g0, Side(v)) && IsGrid(f0, Side(v))
    && AllKnown(AlignmentsUpTo(v, i, j))
    && modules.Modules() == PaintAll(g0, Side(v), AlignmentsUpTo(v, i, j))
    && isFunction.Modules() == MarkAll(f0, Side(v), AlignmentsUpTo(v, i, j))
  }

  /** One centre of the scan. */
  method DrawOneAlignment(modules: BitBucket, isFunction: BitBucket, v: nat, i: nat, j: nat, x: nat, y: nat,
                          ghost g0: Grid, ghost f0: Grid)
    requires 2 <= v <= 40 && Canvas(modules, isFunction, Side(v)) && i < AlignCount(v) && j < AlignCount(v)
    requires x == AlignPosition(v, i) && y == AlignPosition(v, j)
    requires Scanned(modules, isFunction, v, i, j, g0, f0)
    modifies modules.data, isFunction.data
    ensures Scanned(modules, isFunction, v, i, j + 1, g0, f0)
  {
    hide GridOf, Paint, Mark, PaintAll, MarkAll, AlignPosition;
    AlignmentsKnown(v, i, j + 1);
    var alignCount := AlignCount(v);
    ghost var before := AlignmentsUpTo(v, i, j);
    if (i == 0 && j == 0) || (i == 0 && j == alignCount - 1) || (i == alignCount - 1 && j == 0) {
      assert before + [] == before;
      return;
    }
    AlignmentRoom(v, i);
    AlignmentRoom(v, j);
    AllSnoc(g0, Side(v), before, Alignment(x, y));
    AllSnoc(f0, Side(v), before, Alignment(x, y));
    DrawAlignmentPattern(modules, isFunction, Side(v), x, y);
  }

  lemma NextRow(modules: BitBucket, isFunction: BitBucket, v: nat, i: nat, g0: Grid, f0: Grid)
    requires 2 <= v <= 40 && Scanned(modules, isFunction, v, i, AlignCount(v), g0, f0)
    ensures Scanned(modules, isFunction, v, i + 1, 0, g0, f0)
  {
    assert AlignmentsUpTo(v, i + 1, 0) == AlignmentsUpTo(v, i, AlignCount(v));
    hide PaintAll, MarkAll, GridOf, AlignmentsUpTo;
  }

  method DrawAlignments(modules: BitBucket, isFunction: BitBucket, v: nat)
    requires 2 <= v <= 40 && Canvas(modules, isFunction, Side(v))
    modifies modules.data, isFunction.data
    ensures AllKnown(Alignments(v))
    ensures modules.Modules() == PaintAll(old(modules.Modules()), Side(v), Alignments(v))
    ensures isFunction.Modules() == MarkAll(old(isFunction.Modules()), Side(v), Alignments(v))
  {
    hide GridOf, Paint, Mark;
    var alignPosition := AlignPositions(v);
    var alignCount := alignPosition.Length;
    ghost var g0, f0 := modules.Modules(), isFunction.Modules();
    assert Scanned(modules, isFunction, v, 0, 0, g0, f0);
    var i := 0;
    while i < alignCount
      invariant i <= alignCount
      invariant Scanned(modules, isFunction, v, i, 0, g0, f0)
      invariant forall k: nat | k < AlignCount(v) :: alignPosition[k] == AlignPosition(v, k)
    {
      hide AlignPosition, AlignmentsUpTo, Scanned, PaintAll, MarkAll;
      var j := 0;
      while j < alignCount
        invariant j <= alignCount
        invariant Scanned(modules, isFunction, v, i, j, g0, f0)
        invariant forall k: nat | k < AlignCount(v) :: alignPosition[k] == AlignPosition(v, k)
      {
        AlignmentRoom(v, i);
        AlignmentRoom(v, j);
        DrawOneAlignment(modules, isFunction, v, i, j, alignPosition[i], alignPosition[j], g0, f0);
        j := j + 1;
      }
      NextRow(modules, isFunction, v, i, g0, f0);
      i := i + 1;
    }
  }

  lemma AllConcat(g: Grid, size: nat, ps: seq<Pattern>, qs: seq<Pattern>)
    requires IsGrid(g, size) && AllKnown(ps) && AllKnown(qs)
    ensures AllKnown(ps + qs)
    ensures PaintAll(g, size, ps + qs) == PaintAll(PaintAll(g, size, ps), size, qs)
    ensures MarkAll(g, size, ps + qs) == MarkAll(MarkAll(g, size, ps), size, qs)
    decreases |qs|
  {
    if |qs| == 0 {
      assert ps + qs == ps;
    } else {
      hide Paint, Mark, PaintAll, MarkAll;
      var front, last := qs[..|qs| - 1], qs[|qs| - 1];
      assert qs == front + [last] && ps + qs == (ps + front) + [last];
      AllConcat(g, size, ps, front);
      AllSnoc(g, size, ps + front, last);
      AllSnoc(PaintAll(g, size, ps), size, front, last);
      AllSnoc(MarkAll(g, size, ps), size, front, last);
    }
  }

  /** The function patterns up to and including the alignment patterns. */
  function FixedPatterns(v: nat): seq<Pattern>
    requires 1 <= v <= 40
  {
    [Timing] + Finders(Side(v)) + Alignments(v)
  }

  lemma PatternsAreKnown(v: nat, ecc: nat)
    requires 1 <= v <= 40 && ecc < 4
    ensures AllKnown(Alignments(v)) && AllKnown(FixedPatterns(v)) && AllKnown(FunctionPatterns(v, ecc))
  {
    if v != 1 { AlignmentsKnown(v, AlignCount(v), 0); }
    hide AlignmentsUpTo;
  }

  method DrawFixedPatterns(modules: BitBucket, isFunction: BitBucket, v: nat)
    requires 1 <= v <= 40 && Canvas(modules, isFunction, Side(v))
    modifies modules.data, isFunction.data
    ensures AllKnown(FixedPatterns(v))
    ensures modules.Modules() == PaintAll(old(modules.Modules()), Side(v), FixedPatterns(v))
    ensures isFunction.Modules() == MarkAll(old(isFunction.Modules()), Side(v), FixedPatterns(v))
  {
    var size := Side(v);
    ghost var g0, f0 := modules.Modules(), isFunction.Modules();
    assert [] + [Timing] == [Timing];
    assert PaintAll(g0, size, []) == g0 && MarkAll(f0, size, []) == f0;
    PatternsAreKnown(v, 0);
    hide GridOf, Paint, Mark, Finders, Alignments, PaintAll, MarkAll;
    AllSnoc(g0, size, [], Timing);
    AllSnoc(f0, size, [], Timing);
    DrawTiming(modules, isFunction, size);
    AllConcat(g0, size, [Timing], Finders(size));
    AllConcat(f0, size, [Timing], Finders(size));
    DrawFinders(modules, isFunction, size);
    ghost var ps := [Timing] + Finders(size);
    if v > 1 {
      AllConcat(g0, size, ps, Alignments(v));
      AllConcat(f0, size, ps, Alignments(v));
      DrawAlignments(modules, isFunction, v);
    } else {
      NoAlignments();
      assert ps + Alignments(v) == ps;
    }
  }

  method DrawFunctionPatterns(modules: BitBucket, isFunction: BitBucket, v: nat, ecc: nat)
    requires 1 <= v <= 40 && ecc < 4 && Canvas(modules, isFunction, Side(v))
    modifies modules.data, isFunction.data
    ensures AllKnown(FunctionPatterns(v, ecc))
    ensures modules.Modules() == PaintAll(old(modules.Modules()), Side(v), FunctionPatterns(v, ecc))
    ensures isFunction.Modules() == MarkAll(old(isFunction.Modules()), Side(v), FunctionPatterns(v, ecc))
  {
    PatternsAreKnown(v, ecc);
    hide GridOf, Paint, Mark, Finders, Alignments, PaintAll, MarkAll;
    var size := Side(v);
    ghost var g0, f0 := modules.Modules(), isFunction.Modules();
    DrawFixedPatterns(modules, isFunction, v);
    AllSnoc(g0, size, FixedPatterns(v), Format(ecc, 0));
    AllSnoc(f0, size, FixedPatterns(v), Format(ecc, 0));
    DrawFormatBits(modules, isFunction, size, ecc, 0);
    AllSnoc(g0, size, FixedPatterns(v) + [Format(ecc, 0)], Version(v));
    AllSnoc(f0, size, FixedPatterns(v) + [Format(ecc, 0)], Version(v));
    DrawVersion(modules, isFunction, size, v);
  }

  lemma NoAlignments()
    ensures Alignments(1) == []
  {
  }
}
