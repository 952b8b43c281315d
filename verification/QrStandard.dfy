/** What a scanner relies on, clause by clause. */
module QrStandard {
  import opened Arith
  import opened QrBits
  import opened QrTables
  import opened QrPatterns
  import opened QrZigzag
  import opened QrMask
  import opened QrText
  import opened QrInterleave
  import opened QrCode

  // The conventions of ISO/IEC 18004:2015 that an encoder and a reader could both get
  // wrong without noticing: orders, directions, constants. Each is stated here in the
  // standard's own terms and proved of the functions that the encoder is proved against.

  // ------------------------------------------------------------- bits and bytes

  /** The first bit of a codeword is the most significant (section 7.6). */
  lemma FirstBitIsMostSignificant(b: bv8)
    ensures TestBit(b, 0) == (b & 0x80 == 0x80) && TestBit(b, 1) == (b & 0x40 == 0x40)
    ensures TestBit(b, 2) == (b & 0x20 == 0x20) && TestBit(b, 3) == (b & 0x10 == 0x10)
    ensures TestBit(b, 4) == (b & 8 == 8) && TestBit(b, 5) == (b & 4 == 4)
    ensures TestBit(b, 6) == (b & 2 == 2) && TestBit(b, 7) == (b & 1 == 1)
  {}

  /** A number is written with its most significant bit first. */
  lemma {:induction false} NumbersAreMostSignificantFirst(v: nat, n: nat, i: nat)
    requires i < n
    ensures BitsOf(v, n)[i] == (v / Pow(2, n - 1 - i) % 2 == 1)
  {
    if i > 0 {
      NumbersAreMostSignificantFirst(v, n - 1, i - 1);
      assert BitsOf(v, n)[i] == BitsOf(v, n - 1)[i - 1];
    }
  }

  // ------------------------------------------------------------- the characters

  /** The 45 characters of alphanumeric mode by value: digits, letters, and nine others
      (table 5). */
  lemma AlphanumericTable(i: nat)
    requires i < 45
    ensures i < 10 ==> AlphanumericChar(i) as int == 48 + i
    ensures 10 <= i < 36 ==> AlphanumericChar(i) as int == 65 + (i - 10)
    ensures AlphanumericChar(36) == ' ' && AlphanumericChar(37) == '$' && AlphanumericChar(38) == '%'
    ensures AlphanumericChar(39) == '*' && AlphanumericChar(40) == '+' && AlphanumericChar(41) == '-'
    ensures AlphanumericChar(42) == '.' && AlphanumericChar(43) == '/' && AlphanumericChar(44) == ':'
    ensures GetAlphanumeric(AlphanumericChar(i)) == i
  {}

  /** One of the 45 characters. */
  predicate InTable(c: Byte) { exists v: nat :: v < 45 && AlphanumericChar(v) == c }

  /** Digits alone are numeric, the 45 characters alphanumeric, and anything else is bytes. */
  lemma ModesOfTheStandard(t: seq<Byte>)
    ensures ModeOf(t) == Numeric <==> forall i | 0 <= i < |t| :: 48 <= t[i] as int <= 57
    ensures ModeOf(t) != Byte8 <==> forall i | 0 <= i < |t| :: InTable(t[i])
  {
    forall i | 0 <= i < |t| ensures IsDigit(t[i]) <==> 48 <= t[i] as int <= 57 {}
    forall i | 0 <= i < |t| ensures GetAlphanumeric(t[i]) != -1 <==> InTable(t[i]) {
      CharacterHasValue(t[i]);
    }
    hide GetAlphanumeric, InTable, IsDigit;
    if AllDigits(t) { DigitsAreAlphanumeric(t); }
  }

  lemma CharacterHasValue(c: Byte)
    ensures GetAlphanumeric(c) != -1 <==> InTable(c)
  {
    if GetAlphanumeric(c) != -1 {
      AlphanumericRoundTrip(c);
      var v: nat := GetAlphanumeric(c);
      assert v < 45 && AlphanumericChar(v) == c;
    }
    forall v: nat | v < 45 ensures GetAlphanumeric(AlphanumericChar(v)) == v { AlphanumericTable(v); }
  }

  lemma DigitsAreAlphanumeric(t: seq<Byte>)
    requires AllDigits(t)
    ensures AllAlphanumeric(t)
  {
    forall i | 0 <= i < |t| ensures GetAlphanumeric(t[i]) != -1 { assert IsDigit(t[i]); }
  }

  /** A grid takes as many bytes as its modules need. */
  lemma GridFitsItsBuffer(version: nat)
    requires 1 <= version <= 40
    ensures var side := 4 * version + 17; 8 * (GetBufferSize(version) - 1) < side * side <= 8 * GetBufferSize(version)
  {
    assert Side(version) == 4 * version + 17;
  }

  /** The mode indicators (table 2). */
  lemma ModeIndicators(t: seq<Byte>, version: nat)
    requires 1 <= version <= 40
    ensures EncodedText(t, version)[..4] ==
      match ModeOf(t)
      case Numeric => [false, false, false, true]
      case Alphanumeric => [false, false, true, false]
      case Byte8 => [false, true, false, false]
  {
    Indicator(ModeOf(t));
    hide ModeOf, Payload, GetModeBits, Pow, BitsOf;
    LowPowers();
    var v := Pow(2, ModeOf(t).Number());
    NumbersAreMostSignificantFirst(v, 4, 0);
    NumbersAreMostSignificantFirst(v, 4, 1);
    NumbersAreMostSignificantFirst(v, 4, 2);
    NumbersAreMostSignificantFirst(v, 4, 3);
  }

  // ------------------------------------------------------------------- the walk

  /** The right-hand column of pair p, counted from the right edge; the pairs step over
      column 6 (section 7.7.3). */
  function PairColumn(size: nat, p: nat): int { if 2 * p + 7 < size then size - 1 - 2 * p else size - 2 - 2 * p }

  /** Pairs are filled alternately upwards, the first one, and downwards, the right-hand
      module of each row first. */
  lemma WalkOfTheStandard(size: nat, p: nat, row: nat, left: bool)
    requires IsSide(size) && p < (size - 1) / 2 && row < size
    ensures var k := 2 * size * p + 2 * row + (if left then 1 else 0);
      k < Steps(size)
      && CellAt(size, k) == (PairColumn(size, p) - (if left then 1 else 0), if p % 2 == 0 then size - 1 - row else row)
  {
    var j := if left then 1 else 0;
    CellOfParts(size, p, row, j);
    assert StepNumber(size, p, row, j) == 2 * size * p + 2 * row + j by { MulAssoc(p, 2, size); }
    hide StepOf, CellX, CellY, Steps;
    PairDirection(size, p, j);
  }

  lemma PairDirection(size: nat, p: nat, j: nat)
    requires IsSide(size) && p < (size - 1) / 2 && j < 2
    ensures Right(size, p) >= 1 && Right(size, p) == PairColumn(size, p)
    ensures Upwards(Right(size, p), Right(size, p) - j) == (p % 2 == 0)
  {}

  // ------------------------------------------------------- the function patterns

  /** Where bit i of the format information stands, twice, and the module that is always
      dark (figure 25): no other module belongs to it. */
  lemma FormatPlaces(size: nat, i: nat)
    requires size >= 21 && i < 15
    ensures FormatIndex(size, 8, size - 8) == 15
    ensures i < 6 ==> FormatIndex(size, 8, i) == i
    ensures FormatIndex(size, 8, 7) == 6 && FormatIndex(size, 8, 8) == 7 && FormatIndex(size, 7, 8) == 8
    ensures 9 <= i ==> FormatIndex(size, 14 - i, 8) == i
    ensures i < 8 ==> FormatIndex(size, size - 1 - i, 8) == i
    ensures 8 <= i ==> FormatIndex(size, 8, size - 15 + i) == i
  {}

  lemma OnlyFormatPlaces(size: nat, x: nat, y: nat)
    requires size >= 21 && x < size && y < size
    ensures FormatIndex(size, x, y) != -1 <==>
      (x == 8 && (y <= 8 || y >= size - 8) && y != 6) || (y == 8 && (x <= 8 || x >= size - 8) && x != 6)
  {}

  /** Where bit i of the version information stands, twice (figure 27). */
  lemma VersionPlaces(size: nat, i: nat)
    requires size >= 45 && i < 18
    ensures VersionIndex(size, size - 11 + i % 3, i / 3) == i && VersionIndex(size, i / 3, size - 11 + i % 3) == i
  {}

  /** A finder is a dark square of 3, a light ring, a dark ring, and a light separator
      around it; an alignment pattern a dark module, a light ring and a dark ring. */
  lemma FinderRings(size: nat, cx: int, cy: int, x: int, y: int)
    requires Abs(x - cx) <= 4 && Abs(y - cy) <= 4
    ensures Finder(cx, cy).Covers(size, x, y)
    ensures Finder(cx, cy).Dark(size, x, y) <==>
      (Abs(x - cx) <= 1 && Abs(y - cy) <= 1) || (Abs(x - cx) == 3 && Abs(y - cy) <= 3) || (Abs(y - cy) == 3 && Abs(x - cx) <= 3)
  {}

  lemma AlignmentRings(size: nat, cx: int, cy: int, x: int, y: int)
    requires Abs(x - cx) <= 2 && Abs(y - cy) <= 2
    ensures Alignment(cx, cy).Covers(size, x, y)
    ensures Alignment(cx, cy).Dark(size, x, y) <==>
      (x == cx && y == cy) || Abs(x - cx) == 2 || Abs(y - cy) == 2
  {}

  /** Timing modules alternate, beginning dark; finders are at three corners. */
  lemma TimingAlternates(size: nat, i: nat)
    requires i < size
    ensures Timing.Covers(size, i, 6) && Timing.Covers(size, 6, i)
    ensures Timing.Dark(size, i, 6) == Timing.Dark(size, 6, i) == (i % 2 == 0)
    ensures Finders(size) == [Finder(3, 3), Finder(size - 4, 3), Finder(3, size - 4)]
  {}

  /** The distance between alignment centres of a version, where it has more than two a side
      (table E.1). */
  function CentreDistance(v: nat): nat {
    if v < 14 then 16 + 2 * (v - 7)
    else if v < 21 then (if v == 14 then 20 else if v == 15 then 22 else if v < 18 then 24 else if v == 18 then 26 else 28)
    else if v < 28 then (if v == 21 then 22 else if v < 24 then 24 else if v < 26 then 26 else 28)
    else if v < 35 then (if v < 30 then 24 else if v < 33 then 26 else 28)
    else if v == 35 then 24 else if v < 39 then 26 else 28
  }

  lemma AlignmentDistance(v: nat)
    requires 7 <= v <= 40
    ensures AlignCount(v) == v / 7 + 2 && AlignStep(v) == CentreDistance(v)
  {
    if v < 14 { FewCentres(v); } else if v < 21 { assert AlignCount(v) == 4; }
    else if v < 28 { assert AlignCount(v) == 5; } else if v < 35 { assert AlignCount(v) == 6; } else { assert AlignCount(v) == 7; }
  }

  lemma FewCentres(v: nat)
    requires 7 <= v < 14
    ensures AlignCount(v) == 3 && AlignStep(v) == 16 + 2 * (v - 7)
  {}

  /** The centres: 6, then evenly spaced up to the seventh module from the edge. */
  lemma AlignmentCentres(v: nat, i: nat)
    requires 2 <= v <= 40 && i < AlignCount(v)
    ensures AlignCount(v) == v / 7 + 2
    ensures AlignPosition(v, i) == if i == 0 then 6 else 4 * v + 10 - (v / 7 + 1 - i) * (if v < 7 then 0 else CentreDistance(v))
  {
    hide CentreDistance, AlignStep;
    if v < 7 {
      assert i == 1 ==> AlignCount(v) - 1 - i == 0;
      MulNonneg(0, AlignStep(v));
    } else {
      AlignmentDistance(v);
    }
  }

  // --------------------------------------------------------- blocks and padding

  /** The order of the codewords: a data codeword comes before the check codewords, and
      among either the i-th ones of all blocks before any (i+1)-th, block by block (section
      7.6). With `PositionIsInverse` that leaves one order only. */
  lemma OrderOfCodewords(g: Geometry, b: nat, i: nat, c: nat, j: nat)
    requires g.Valid()
    ensures g.Holds(Data(b, i)) && g.Holds(Check(c, j)) ==> g.Position(Data(b, i)) < g.Position(Check(c, j))
    ensures g.Holds(Data(b, i)) && g.Holds(Data(c, j)) && (i < j || (i == j && b < c)) ==>
      g.Position(Data(b, i)) < g.Position(Data(c, j))
    ensures g.Holds(Check(b, i)) && g.Holds(Check(c, j)) && (i < j || (i == j && b < c)) ==>
      g.Position(Check(b, i)) < g.Position(Check(c, j))
  {
    if g.Holds(Data(b, i)) { DataPosition(g, b, i); }
    if g.Holds(Check(c, j)) { CheckPosition(g, c, j); }
    if i < j {
      MulStrict(i, j, g.blocks);
      if i < g.len <= j { MulStrict(i, g.len, g.blocks); }
    }
  }

  /** Blocks are cut from the data in turn, the shorter ones first. */
  lemma BlocksInTurn(g: Geometry, data: seq<bv8>, b: nat, i: nat)
    requires g.Valid() && |data| >= g.DataTotal() && b < g.blocks && i < g.DataLen(b)
    ensures g.DataLen(b) == if b < g.short then g.len else g.len + 1
    ensures var start := b * g.len + (if b <= g.short then 0 else b - g.short);
      start + i < |data| && Block(g, data, b)[i] == data[start + i]
  {
    DataStartIs(g, b);
    DataStartGrows(g, b, g.blocks);
  }

  /** The pad codewords 11101100 and 00010001. */
  function PadWord(odd: bool): (w: Bits)
    ensures |w| == 8
  {
    if odd then [false, false, false, true, false, false, false, true] else [true, true, true, false, true, true, false, false]
  }

  /** Where the data bits end with their terminator, and where the next codeword starts. */
  function PaddingFrom(used: nat, room: nat): nat { ((if room - used > 4 then used + 4 else room) + 7) / 8 * 8 }

  /** The padding of a text: up to four zeros, zeros to the byte, then the two pad codewords
      in turn (section 7.4.10). */
  lemma PaddingOfTheStandard(b: Bits, capacity: nat, k: nat)
    requires |b| <= 8 * capacity && |b| <= k < 8 * capacity
    ensures var start := PaddingFrom(|b|, 8 * capacity);
      Padded(b, capacity)[k] == if k < start then false else PadWord((k - start) / 8 % 2 == 1)[(k - start) % 8]
  {
    var start := |Aligned(b, capacity)|;
    AlignedWithZeros(b, capacity);
    var pad := PadBytes(capacity - start / 8, 0xEC);
    assert Padded(b, capacity) == Aligned(b, capacity) + pad;
    hide *;
    if k >= start { PadBits(capacity - start / 8, false, k - start); }
  }

  lemma AlignedWithZeros(b: Bits, capacity: nat)
    requires |b| <= 8 * capacity
    ensures |Aligned(b, capacity)| == PaddingFrom(|b|, 8 * capacity)
    ensures forall k | |b| <= k < |Aligned(b, capacity)| :: !Aligned(b, capacity)[k]
  {
    var zeros := Terminator(|b|, 8 * capacity);
    ZeroBits(zeros);
    var ended := b + BitsOf(0, zeros);
    ZeroBits(Fill(|ended|));
    FillAligns(|ended|, capacity);
    NextByte(|ended|);
    hide BitsOf, Fill;
  }

  lemma NextByte(n: nat)
    ensures n + Fill(n) == (n + 7) / 8 * 8
  {}

  lemma {:induction false} ZeroBits(n: nat)
    ensures forall i | 0 <= i < n :: !BitsOf(0, n)[i]
  {
    if n > 0 {
      ZeroBits(n - 1);
      DivUnique(0, Pow(2, n - 1), 0, 0);
    }
  }

  lemma PadWords(odd: bool)
    ensures BitsOf(if odd then 0x11 else 0xEC, 8) == PadWord(odd)
  {
    var v := if odd then 0x11 else 0xEC;
    LowPowers();
    hide BitsOf, Pow;
    NumbersAreMostSignificantFirst(v, 8, 0);
    NumbersAreMostSignificantFirst(v, 8, 1);
    NumbersAreMostSignificantFirst(v, 8, 2);
    NumbersAreMostSignificantFirst(v, 8, 3);
    NumbersAreMostSignificantFirst(v, 8, 4);
    NumbersAreMostSignificantFirst(v, 8, 5);
    NumbersAreMostSignificantFirst(v, 8, 6);
    NumbersAreMostSignificantFirst(v, 8, 7);
  }

  lemma {:induction false} PadBits(n: nat, odd: bool, i: nat)
    requires i < 8 * n
    ensures PadBytes(n, if odd then 0x11 else 0xEC)[i] == PadWord((i / 8 % 2 == 1) != odd)[i % 8]
  {
    PadWords(odd);
    hide BitsOf, PadWord;
    if i >= 8 {
      PadBits(n - 1, !odd, i - 8);
      NextTurn(i);
    }
  }

  lemma NextTurn(i: nat)
    requires i >= 8
    ensures (i - 8) % 8 == i % 8 && ((i - 8) / 8 % 2 == 1) == (i / 8 % 2 == 0)
  {}

  // ---------------------------------------------------------------- the penalty

  ghost function SumOf(s: seq<nat>): nat {
    if |s| == 0 then 0 else SumOf(s[..|s| - 1]) + s[|s| - 1]
  }

  /** Four modules of one colour, by the lower right one. */
  predicate IsSquare(g: Grid, size: nat, x: nat, y: nat)
    requires IsGrid(g, size)
  {
    1 <= x < size && 1 <= y < size && g[y - 1][x - 1] == g[y - 1][x] == g[y][x - 1] == g[y][x]
  }

  ghost function Squares(g: Grid, size: nat, y: nat, n: nat): set<nat>
    requires IsGrid(g, size)
  {
    set x: nat | x < n && IsSquare(g, size, x, y)
  }

  /** Dark, light, three dark, light, dark, with four light modules on one side, ending at x. */
  predicate LooksLikeFinder(line: Bits, x: nat) {
    10 <= x < |line|
    && (line[x - 10..x + 1] == [false, false, false, false, true, false, true, true, true, false, true]
        || line[x - 10..x + 1] == [true, false, true, true, true, false, true, false, false, false, false])
  }

  ghost function FinderEnds(line: Bits, n: nat): set<nat> { set x: nat | x < n && LooksLikeFinder(line, x) }

  lemma ElevenBits(b: Bits)
    requires |b| == 11
    ensures ValueOf(b) == Number(b[0], 1024) + Number(b[1], 512) + Number(b[2], 256) + Number(b[3], 128) + Number(b[4], 64)
                        + Number(b[5], 32) + Number(b[6], 16) + Number(b[7], 8) + Number(b[8], 4) + Number(b[9], 2) + Number(b[10], 1)
  {
    hide *;
    FirstFive(b);
    LastSix(b);
    assert b[0..] == b;
  }

  lemma FirstFive(b: Bits)
    requires |b| == 11
    ensures ValueOf(b[0..]) ==
      Number(b[0], 1024) + Number(b[1], 512) + Number(b[2], 256) + Number(b[3], 128) + Number(b[4], 64) + ValueOf(b[5..])
  {
    hide *;
    LowPowers();
    OneBit(b, 0, 1024);
    OneBit(b, 1, 512);
    OneBit(b, 2, 256);
    OneBit(b, 3, 128);
    OneBit(b, 4, 64);
  }

  lemma LastSix(b: Bits)
    requires |b| == 11
    ensures ValueOf(b[5..]) ==
      Number(b[5], 32) + Number(b[6], 16) + Number(b[7], 8) + Number(b[8], 4) + Number(b[9], 2) + Number(b[10], 1)
  {
    hide *;
    LowPowers();
    OneBit(b, 5, 32);
    OneBit(b, 6, 16);
    OneBit(b, 7, 8);
    OneBit(b, 8, 4);
    OneBit(b, 9, 2);
    OneBit(b, 10, 1);
    NoBits();
    assert b[11..] == [];
  }

  lemma LowPowers()
    ensures Pow(2, 0) == 1 && Pow(2, 1) == 2 && Pow(2, 2) == 4 && Pow(2, 3) == 8 && Pow(2, 4) == 16 && Pow(2, 5) == 32
    ensures Pow(2, 6) == 64 && Pow(2, 7) == 128 && Pow(2, 8) == 256 && Pow(2, 9) == 512 && Pow(2, 10) == 1024
  {
    assert Pow(2, 3) == 2 * Pow(2, 2);
    assert Pow(2, 6) == 8 * Pow(2, 3);
    assert Pow(2, 9) == 8 * Pow(2, 6);
  }

  function One(on: bool): nat { if on then 1 else 0 }

  lemma OneBit(b: Bits, i: nat, weight: nat)
    requires i < |b| && weight == Pow(2, |b| - 1 - i)
    ensures ValueOf(b[i..]) == Number(b[i], weight) + ValueOf(b[i + 1..])
  {
    hide Pow;
    assert b[i..][1..] == b[i + 1..];
  }

  lemma FinderRegisters(line: Bits, x: nat)
    requires 10 <= x < |line|
    ensures FinderLike(Register(line, x)) <==> LooksLikeFinder(line, x)
  {
    RegisterIsTheTail(line, x);
    hide ValueOf, Register;
    var b := line[x - 10..x + 1];
    assert Tail(line, x) == b;
    ElevenBits(b);
    RegisterBits(b, ValueOf(b));
  }

  lemma RegisterBits(b: Bits, v: nat)
    requires |b| == 11
    requires v == Number(b[0], 1024) + Number(b[1], 512) + Number(b[2], 256) + Number(b[3], 128) + Number(b[4], 64) + Number(b[5], 32)
                + Number(b[6], 16) + Number(b[7], 8) + Number(b[8], 4) + Number(b[9], 2) + Number(b[10], 1)
    ensures v == 93 <==> b == [false, false, false, false, true, false, true, true, true, false, true]
    ensures v == 1488 <==> b == [true, false, true, true, true, false, true, false, false, false, false]
  {}

  lemma CellPoints(g: Grid, size: nat, x: nat, y: nat)
    requires IsGrid(g, size) && x < size && y < size
    ensures CellCost(g, size, x, y) ==
      3 * One(IsSquare(g, size, x, y)) + 40 * One(LooksLikeFinder(g[y], x)) + 40 * One(LooksLikeFinder(Column(g, size, y), x))
  {
    if x >= 10 {
      FinderRegisters(g[y], x);
      FinderRegisters(Column(g, size, y), x);
    }
    hide Register, FinderLike;
  }

  lemma OneMoreSquare(g: Grid, size: nat, y: nat, n: nat)
    requires IsGrid(g, size)
    ensures |Squares(g, size, y, n + 1)| == |Squares(g, size, y, n)| + One(IsSquare(g, size, n, y))
  {
    hide IsSquare;
    var more := if IsSquare(g, size, n, y) then {n} else {};
    assert Squares(g, size, y, n + 1) == Squares(g, size, y, n) + more;
  }

  lemma OneMoreFinder(line: Bits, n: nat)
    ensures |FinderEnds(line, n + 1)| == |FinderEnds(line, n)| + One(LooksLikeFinder(line, n))
  {
    hide LooksLikeFinder;
    var more := if LooksLikeFinder(line, n) then {n} else {};
    assert FinderEnds(line, n + 1) == FinderEnds(line, n) + more;
  }

  lemma {:induction false} RowPoints(g: Grid, size: nat, x: nat, y: nat)
    requires IsGrid(g, size) && x <= size && y < size
    ensures RowCells(g, size, x, y) ==
      3 * |Squares(g, size, y, x)| + 40 * |FinderEnds(g[y], x)| + 40 * |FinderEnds(Column(g, size, y), x)|
  {
    hide CellCost, IsSquare, LooksLikeFinder, Column;
    if x > 0 {
      RowPoints(g, size, x - 1, y);
      CellPoints(g, size, x - 1, y);
      OneMoreSquare(g, size, y, x - 1);
      OneMoreFinder(g[y], x - 1);
      OneMoreFinder(Column(g, size, y), x - 1);
    }
  }

  /** The points of the second and third rule, row by row: 3 for every square of one colour,
      40 for every sequence like a finder, in rows and in columns. */
  ghost function CellPointsBelow(g: Grid, size: nat, n: nat): seq<nat>
    requires IsGrid(g, size) && n <= size
  {
    seq(n, y requires 0 <= y < n =>
      3 * |Squares(g, size, y, size)| + 40 * |FinderEnds(g[y], size)| + 40 * |FinderEnds(Column(g, size, y), size)|)
  }

  lemma {:induction false} CellsOfTheStandard(g: Grid, size: nat, n: nat)
    requires IsGrid(g, size) && n <= size
    ensures AllCells(g, size, n) == SumOf(CellPointsBelow(g, size, n))
  {
    hide RowCells, Squares, FinderEnds, Column;
    if n > 0 {
      CellsOfTheStandard(g, size, n - 1);
      RowPoints(g, size, size, n - 1);
      assert CellPointsBelow(g, size, n)[..n - 1] == CellPointsBelow(g, size, n - 1);
    }
  }

  ghost function DarkIn(line: Bits, n: nat): set<nat> { set x: nat | x < n && x < |line| && line[x] }

  lemma {:induction false} DarkInRowIs(line: Bits, n: nat)
    requires n <= |line|
    ensures DarkInRow(line, n) == |DarkIn(line, n)|
  {
    if n > 0 {
      DarkInRowIs(line, n - 1);
      var more := if line[n - 1] then {n - 1} else {};
      assert DarkIn(line, n) == DarkIn(line, n - 1) + more;
    }
  }

  ghost function DarkBelow(g: Grid, size: nat, n: nat): seq<nat>
    requires IsGrid(g, size) && n <= size
  {
    seq(n, y requires 0 <= y < n => |DarkIn(g[y], size)|)
  }

  lemma {:induction false} DarkOfTheStandard(g: Grid, size: nat, n: nat)
    requires IsGrid(g, size) && n <= size
    ensures DarkModules(g, size, n) == SumOf(DarkBelow(g, size, n))
  {
    hide DarkInRow, DarkIn;
    if n > 0 {
      DarkOfTheStandard(g, size, n - 1);
      DarkInRowIs(g[n - 1], size);
      assert DarkBelow(g, size, n)[..n - 1] == DarkBelow(g, size, n - 1);
    }
  }

  ghost function RunsBelow(g: Grid, size: nat, n: nat, columns: bool): seq<nat>
    requires IsGrid(g, size) && n <= size && size >= 1
  {
    seq(n, i requires 0 <= i < n => RunCost(if columns then Column(g, size, i) else g[i], size))
  }

  lemma {:induction false} RunsOfTheStandard(g: Grid, size: nat, n: nat)
    requires IsGrid(g, size) && n <= size && size >= 1
    ensures RowRuns(g, size, n) == SumOf(RunsBelow(g, size, n, false))
    ensures ColumnRuns(g, size, n) == SumOf(RunsBelow(g, size, n, true))
  {
    hide RunCost, Column;
    if n > 0 {
      RunsOfTheStandard(g, size, n - 1);
      assert RunsBelow(g, size, n, false)[..n - 1] == RunsBelow(g, size, n - 1, false);
      assert RunsBelow(g, size, n, true)[..n - 1] == RunsBelow(g, size, n - 1, true);
    }
  }

  /** The penalty of section 7.8.3: the runs of all rows and columns (`MaximalRun` says what
      each costs), the squares and finder-like sequences, and ten points for every further
      five per cent that the share of dark modules is away from one half. */
  lemma PenaltyOfTheStandard(g: Grid, size: nat) returns (k: nat)
    requires IsGrid(g, size) && 1 <= size <= 177
    ensures Penalty(g, size) ==
      SumOf(RunsBelow(g, size, size, false)) + SumOf(RunsBelow(g, size, size, true)) + SumOf(CellPointsBelow(g, size, size)) + 10 * k
    ensures var d := 20 * SumOf(DarkBelow(g, size, size)) - 10 * (size * size);
      Abs(d) <= (k + 1) * (size * size) && (k > 0 ==> Abs(d) > k * (size * size))
  {
    RunsOfTheStandard(g, size, size);
    CellsOfTheStandard(g, size, size);
    DarkOfTheStandard(g, size, size);
    hide RunsBelow, CellPointsBelow, DarkBelow, SumOf, RowRuns, ColumnRuns, AllCells, DarkModules;
    MulMonotone(size, size, size);
    k := Imbalance(DarkModules(g, size, size), size * size, 0);
    Away(DarkModules(g, size, size), size * size, k);
    if k > 0 { Away(DarkModules(g, size, size), size * size, k - 1); }
  }

  lemma Away(dark: nat, total: nat, k: nat)
    ensures Balanced(dark, total, k) <==> Abs(20 * dark - 10 * total) <= (k + 1) * total
  {
    var steps: int := k;
    MulAdd(9, -steps, total);
    MulAdd(11, k, total);
    MulAdd(k, 1, total);
  }

  // ---------------------------------------------------------------- the capacity

  function PerBlockL(v: nat): nat {
    if v <= 1 then 7 else if v <= 2 then 10 else if v <= 3 then 15 else if v <= 4 then 20 else if v <= 5 then 26
    else if v <= 6 then 18 else if v <= 7 then 20 else if v <= 8 then 24 else if v <= 9 then 30
    else if v <= 10 then 18 else if v <= 11 then 20 else if v <= 12 then 24 else if v <= 13 then 26
    else if v <= 14 then 30 else if v <= 15 then 22 else if v <= 16 then 24 else if v <= 17 then 28
    else if v <= 18 then 30 else if v <= 22 then 28 else if v <= 24 then 30 else if v <= 25 then 26
    else if v <= 26 then 28 else 30
  }

  function PerBlockM(v: nat): nat {
    if v <= 1 then 10 else if v <= 2 then 16 else if v <= 3 then 26 else if v <= 4 then 18
    else if v <= 5 then 24 else if v <= 6 then 16 else if v <= 7 then 18 else if v <= 9 then 22
    else if v <= 10 then 26 else if v <= 11 then 30 else if v <= 13 then 22 else if v <= 15 then 24
    else if v <= 17 then 28 else if v <= 21 then 26 else 28
  }

  function PerBlockQ(v: nat): nat {
    if v <= 1 then 13 else if v <= 2 then 22 else if v <= 3 then 18 else if v <= 4 then 26
    else if v <= 5 then 18 else if v <= 6 then 24 else if v <= 7 then 18 else if v <= 8 then 22
    else if v <= 9 then 20 else if v <= 10 then 24 else if v <= 11 then 28 else if v <= 12 then 26
    else if v <= 13 then 24 else if v <= 14 then 20 else if v <= 15 then 30 else if v <= 16 then 24
    else if v <= 18 then 28 else if v <= 19 then 26 else if v <= 20 then 30 else if v <= 21 then 28
    else if v <= 25 then 30 else if v <= 26 then 28 else 30
  }

  function PerBlockH(v: nat): nat {
    if v <= 1 then 17 else if v <= 2 then 28 else if v <= 3 then 22 else if v <= 4 then 16
    else if v <= 5 then 22 else if v <= 6 then 28 else if v <= 8 then 26 else if v <= 9 then 24
    else if v <= 10 then 28 else if v <= 11 then 24 else if v <= 12 then 28 else if v <= 13 then 22
    else if v <= 15 then 24 else if v <= 16 then 30 else if v <= 18 then 28 else if v <= 19 then 26
    else if v <= 20 then 28 else if v <= 21 then 30 else if v <= 22 then 24 else 30
  }

  /** Each block of a level has this many check codewords (table 9). */
  lemma CheckCodewordsOfTheStandard(v: nat)
    requires 1 <= v <= 40
    ensures EccCodewords(1, v) == BlocksL(v) * PerBlockL(v) && EccCodewords(0, v) == BlocksM(v) * PerBlockM(v)
    ensures EccCodewords(3, v) == BlocksQ(v) * PerBlockQ(v) && EccCodewords(2, v) == BlocksH(v) * PerBlockH(v)
  {
    PerBlock1(v);
    PerBlock2(v);
    PerBlock3(v);
    PerBlock4(v);
  }

  lemma PerBlock1(v: nat)
    requires 1 <= v <= 40
    ensures EccL(v) == BlocksL(v) * PerBlockL(v)
  {}

  lemma PerBlock2(v: nat)
    requires 1 <= v <= 40
    ensures EccM(v) == BlocksM(v) * PerBlockM(v)
  {}

  lemma PerBlock3(v: nat)
    requires 1 <= v <= 40
    ensures EccQ(v) == BlocksQ(v) * PerBlockQ(v)
  {}

  lemma PerBlock4(v: nat)
    requires 1 <= v <= 40
    ensures EccH(v) == BlocksH(v) * PerBlockH(v)
  {}
}
