/** The whole encoder, and the theorem that a reader gets the text back.

    The reader is written from the standard: it knows the version from the size
    of the symbol and everything else from the modules. */
module QrCode {
  import opened Arith
  import opened QrBits
  import opened QrTables
  import opened QrPatterns
  import opened QrZigzag
  import opened QrRoom
  import opened QrMask
  import opened QrText
  import opened QrInterleave

  // ----------------------------------------------------------- block geometry

  /** How the code divides `raw` modules into blocks, `sum` of their codewords
      being check codewords. */
  function Divided(sum: nat, blocks: nat, raw: nat): Geometry
    requires ColumnIsSound(sum, blocks, raw)
  {
    Geometry(blocks, blocks - raw / 8 % blocks, raw / 8 / blocks - sum / blocks, sum / blocks)
  }

  lemma DividedFits(sum: nat, blocks: nat, raw: nat)
    requires ColumnIsSound(sum, blocks, raw)
    ensures var g := Divided(sum, blocks, raw);
      g.Valid() && g.check <= 30 && g.Total() == raw / 8 && g.DataTotal() == raw / 8 - sum
  {
    var g, total := Divided(sum, blocks, raw), raw / 8;
    DivMod(total, blocks);
    DivMod(sum, blocks);
    DataStartIs(g, blocks);
    MulAdd(g.len, g.check, blocks);
  }

  function GeometryOf(ecc: nat, v: nat): Geometry
    requires ecc < 4 && 1 <= v <= 40
  {
    ColumnsAreSound(ecc, v);
    Divided(EccCodewords(ecc, v), EccBlocks(ecc, v), RawModules(v))
  }

  function DataCapacity(ecc: nat, v: nat): int { RawModules(v) / 8 - EccCodewords(ecc, v) }

  lemma GeometryFits(ecc: nat, v: nat)
    requires ecc < 4 && 1 <= v <= 40
    ensures var g := GeometryOf(ecc, v);
      g.Valid() && g.check <= 30 && g.Total() == RawModules(v) / 8 && g.DataTotal() == DataCapacity(ecc, v)
      && 1 <= DataCapacity(ecc, v) <= Capacity(v)
  {
    hide EccBlocks, EccCodewords, RawModules, Capacity, Divided;
    ColumnsAreSound(ecc, v);
    DividedFits(EccCodewords(ecc, v), EccBlocks(ecc, v), RawModules(v));
  }

  // ------------------------------------------------------ the reference reader

  ghost function FunctionGrid(v: nat): (f: Grid)
    requires 1 <= v <= 40
    ensures IsGrid(f, Side(v))
  {
    seq(Side(v), y requires 0 <= y < Side(v) => seq(Side(v), x requires 0 <= x < Side(v) => IsFunctionModule(v, x, y)))
  }

  /** Data bit k of the format information, from its first copy. */
  function FormatDataAt(g: Grid, k: nat): bool
    requires IsGrid(g, |g|) && |g| >= 9 && k < 5
  {
    g[8][4 - k] != (k % 2 == 0)
  }

  function Number(on: bool, weight: nat): nat { if on then weight else 0 }

  function ReadMask(g: Grid): (m: nat)
    requires IsGrid(g, |g|) && |g| >= 9
    ensures m < 8
  {
    Number(FormatDataAt(g, 0), 1) + Number(FormatDataAt(g, 1), 2) + Number(FormatDataAt(g, 2), 4)
  }

  function ReadEcc(g: Grid): (e: nat)
    requires IsGrid(g, |g|) && |g| >= 9
    ensures e < 4
  {
    Number(FormatDataAt(g, 3), 1) + Number(FormatDataAt(g, 4), 2)
  }

  /** Format information, unmasking, the walk: the level and the codewords. */
  ghost function ReadCodewords(v: nat, g: Grid): (r: Option<(nat, seq<bv8>)>)
    requires 1 <= v <= 40 && IsGrid(g, Side(v))
    ensures r.Some? ==> r.value.0 < 4 && |r.value.1| == RawModules(v) / 8
  {
    var size, f := Side(v), FunctionGrid(v);
    var r := ReadWalk(WithoutMask(g, f, size, ReadMask(g)), f, size, Steps(size));
    if |r| < RawModules(v) then None else Some((ReadEcc(g), BytesOf(r[..RawModules(v)])))
  }

  /** The blocks, and the text in their data. */
  function ReadData(v: nat, ecc: nat, codewords: seq<bv8>): Option<seq<Byte>>
    requires 1 <= v <= 40 && ecc < 4 && |codewords| == RawModules(v) / 8
  {
    GeometryFits(ecc, v);
    var geometry := GeometryOf(ecc, v);
    DecodeText(BitsIn(Deinterleaved(geometry, codewords, geometry.blocks)), v)
  }

  /** Reads a symbol of version v. */
  ghost function DecodeSymbol(v: nat, g: Grid): Option<seq<Byte>>
    requires 1 <= v <= 40 && IsGrid(g, Side(v))
  {
    match ReadCodewords(v, g)
    case None => None
    case Some(read) => ReadData(v, read.0, read.1)
  }

  // -------------------------------------------------- what the reader finds

  /** A grid whose walk carries `bits`, with format information and mask. */
  function Finished(g: Grid, f: Grid, size: nat, ecc: nat, mask: nat): (r: Grid)
    requires IsGrid(g, size) && IsGrid(f, size) && ecc < 4 && mask < 8
    ensures IsGrid(r, size)
  {
    Masked(Paint(g, size, Format(ecc, mask)), f, size, mask)
  }

  lemma FormatIsFunction(v: nat, x: nat, y: nat)
    requires 1 <= v <= 40 && x < Side(v) && y < Side(v) && FormatIndex(Side(v), x, y) != -1
    ensures FunctionGrid(v)[y][x]
  {
    hide Aligned, VersionIndex;
  }

  lemma FormatReadsBack(v: nat, g: Grid, ecc: nat, mask: nat, k: nat)
    requires 1 <= v <= 40 && IsGrid(g, Side(v)) && ecc < 4 && mask < 8 && k < 5
    ensures FormatDataAt(Finished(g, FunctionGrid(v), Side(v), ecc, mask), k) == DataBit(ecc, mask, k)
  {
    var size := Side(v);
    assert FormatIndex(size, 4 - k, 8) == 10 + k;
    FormatIsFunction(v, 4 - k, 8);
    FormatShowsData(ecc, mask, k);
    hide FunctionGrid, WordBit, FormatWord, DataBit, MaskBit;
  }

  lemma NumbersReadBack(v: nat, g: Grid, ecc: nat, mask: nat)
    requires 1 <= v <= 40 && IsGrid(g, Side(v)) && ecc < 4 && mask < 8
    ensures ReadMask(Finished(g, FunctionGrid(v), Side(v), ecc, mask)) == mask
    ensures ReadEcc(Finished(g, FunctionGrid(v), Side(v), ecc, mask)) == ecc
  {
    hide Finished, FunctionGrid, FormatDataAt;
    FormatReadsBack(v, g, ecc, mask, 0);
    FormatReadsBack(v, g, ecc, mask, 1);
    FormatReadsBack(v, g, ecc, mask, 2);
    FormatReadsBack(v, g, ecc, mask, 3);
    FormatReadsBack(v, g, ecc, mask, 4);
  }

  lemma FunctionGridIsFunction(v: nat)
    requires 1 <= v <= 40
    ensures forall y: nat, x: nat | y < Side(v) && x < Side(v) && FunctionGrid(v)[y][x] :: IsFunctionModule(v, x, y)
  {
    hide IsFunctionModule;
  }

  /** The walk over the unmasked symbol yields the bits that were drawn. */
  lemma BitsReadBack(v: nat, g: Grid, bits: Bits, ecc: nat, mask: nat)
    requires 1 <= v <= 40 && IsGrid(g, Side(v)) && ecc < 4 && mask < 8 && |bits| == RawModules(v)
    ensures var size, f := Side(v), FunctionGrid(v);
      var s := Finished(Drawn(g, f, size, bits, Steps(size)), f, size, ecc, mask);
      var r := ReadWalk(WithoutMask(s, f, size, mask), f, size, Steps(size));
      |r| >= |bits| && r[..|bits|] == bits
  {
    var size, f := Side(v), FunctionGrid(v);
    var drawn := Drawn(g, f, size, bits, Steps(size));
    var painted := Paint(drawn, size, Format(ecc, mask));
    hide FunctionGrid, Drawn, ReadWalk, Steps, Masked, RawModules;
    MaskingTwice(painted, f, size, mask);
    WithoutMaskIsMasked(Finished(drawn, f, size, ecc, mask), f, size, mask);
    assert Masked(Finished(drawn, f, size, ecc, mask), f, size, mask) == painted;
    forall y: nat, x: nat | y < size && x < size && !f[y][x] ensures painted[y][x] == drawn[y][x] {
      if FormatIndex(size, x, y) != -1 { FormatIsFunction(v, x, y); }
    }
    ReadingIgnoresFunctionModules(painted, drawn, f, size, Steps(size));
    ReadingReturnsTheBits(g, f, size, bits, Steps(size));
    FunctionGridIsFunction(v);
    RoomForAllCodewords(v, f);
  }

  /** The symbol that carries the codewords `out`, whatever grid g it was drawn on. */
  ghost function SymbolOf(v: nat, ecc: nat, mask: nat, g: Grid, out: seq<bv8>): (s: Grid)
    requires 1 <= v <= 40 && ecc < 4 && mask < 8 && IsGrid(g, Side(v)) && RawModules(v) <= 8 * |out|
    ensures IsGrid(s, Side(v))
  {
    var size, f := Side(v), FunctionGrid(v);
    Finished(Drawn(g, f, size, BitsIn(out)[..RawModules(v)], Steps(size)), f, size, ecc, mask)
  }

  lemma CodewordsReadBack(v: nat, ecc: nat, mask: nat, g: Grid, out: seq<bv8>)
    requires 1 <= v <= 40 && ecc < 4 && mask < 8 && IsGrid(g, Side(v)) && RawModules(v) <= 8 * |out|
    ensures ReadCodewords(v, SymbolOf(v, ecc, mask, g, out)) == Some((ecc, out[..RawModules(v) / 8]))
  {
    hide FunctionGrid, Drawn, ReadWalk, Steps, Masked, RawModules, BitsIn, Finished, BytesOf, ReadMask, ReadEcc;
    var bits := BitsIn(out)[..RawModules(v)];
    NumbersReadBack(v, Drawn(g, FunctionGrid(v), Side(v), bits, Steps(Side(v))), ecc, mask);
    BitsReadBack(v, g, bits, ecc, mask);
    BytesOfBitsIn(out, RawModules(v));
  }

  lemma ShorterIsInterleaved(g: Geometry, data: seq<bv8>, out: seq<bv8>)
    requires g.Valid() && |data| >= g.DataTotal() && IsInterleaved(g, data, out)
    ensures IsInterleaved(g, data, out[..g.Total()])
  {
    hide CodewordAt;
  }

  lemma BitsOfPrefix(s: seq<bv8>, n: nat)
    requires n <= |s|
    ensures BitsIn(s[..n]) == BitsIn(s)[..8 * n]
  {
    hide TestBit;
  }

  /** `data` starts with the text, encoded and padded to the capacity. */
  ghost predicate Carries(v: nat, ecc: nat, data: seq<bv8>, t: seq<Byte>)
    requires 1 <= v <= 40
  {
    0 <= DataCapacity(ecc, v) <= |data| && EncodedText(t, v) <= BitsIn(data)[..8 * DataCapacity(ecc, v)]
  }

  lemma DataReadsBack(v: nat, ecc: nat, data: seq<bv8>, t: seq<Byte>)
    requires 1 <= v <= 40 && ecc < 4 && Carries(v, ecc, data, t)
    ensures DecodeText(BitsIn(data[..DataCapacity(ecc, v)]), v) == Some(t)
  {
    hide BitsIn, EncodedText, DecodeText, DataCapacity, GetModeBits, ModeOf, Capacity;
    GeometryFits(ecc, v);
    var n := DataCapacity(ecc, v);
    BitsOfPrefix(data, n);
    CountFits(t, v);
    var rest := BitsIn(data)[..8 * n][|EncodedText(t, v)|..];
    assert BitsIn(data)[..8 * n] == EncodedText(t, v) + rest;
    TextRoundTrip(t, v, rest);
  }

  /** The interleaved codewords of a padded text give the text. */
  lemma TextReadsBack(v: nat, ecc: nat, data: seq<bv8>, out: seq<bv8>, t: seq<Byte>)
    requires 1 <= v <= 40 && ecc < 4 && Carries(v, ecc, data, t)
    requires GeometryOf(ecc, v).Valid() && |data| >= GeometryOf(ecc, v).DataTotal()
    requires IsInterleaved(GeometryOf(ecc, v), data, out) && RawModules(v) / 8 <= |out|
    ensures ReadData(v, ecc, out[..RawModules(v) / 8]) == Some(t)
  {
    hide RawModules, BitsIn, IsInterleaved, GeometryOf, DecodeText, Deinterleaved, DataCapacity, Carries, Capacity;
    var geometry := GeometryOf(ecc, v);
    GeometryFits(ecc, v);
    ShorterIsInterleaved(geometry, data, out);
    DataComesBack(geometry, data, out[..geometry.Total()], geometry.blocks);
    DataReadsBack(v, ecc, data, t);
  }

  /** Whatever the mask and the canvas: a symbol that carries the interleaved
      codewords of a padded text is read as that text. */
  lemma SymbolReadsBack(v: nat, ecc: nat, mask: nat, g: Grid, data: seq<bv8>, out: seq<bv8>, t: seq<Byte>)
    requires 1 <= v <= 40 && ecc < 4 && mask < 8 && IsGrid(g, Side(v)) && Carries(v, ecc, data, t)
    requires GeometryOf(ecc, v).Valid() && |data| >= GeometryOf(ecc, v).DataTotal()
    requires IsInterleaved(GeometryOf(ecc, v), data, out) && RawModules(v) <= 8 * |out|
    ensures DecodeSymbol(v, SymbolOf(v, ecc, mask, g, out)) == Some(t)
  {
    hide RawModules, GeometryOf, IsInterleaved, Carries, SymbolOf, ReadCodewords, ReadData;
    CodewordsReadBack(v, ecc, mask, g, out);
    TextReadsBack(v, ecc, data, out, t);
  }

  // ------------------------------------------------------------------ the code

  /** n pad codewords, 0xEC and 0x11 in turn. */
  function PadBytes(n: nat, first: nat): (b: Bits)
    ensures |b| == 8 * n
  {
    if n == 0 then [] else BitsOf(first, 8) + PadBytes(n - 1, if first == 0xEC then 0x11 else 0xEC)
  }

  function Terminator(used: nat, room: nat): nat
    requires used <= room
  {
    if room - used > 4 then 4 else room - used
  }

  /** Zeros up to the next byte. */
  function Fill(n: nat): nat { (8 - n % 8) % 8 }

  lemma FillAligns(n: nat, capacity: nat)
    requires n <= 8 * capacity
    ensures (n + Fill(n)) % 8 == 0 && n + Fill(n) <= 8 * capacity
  {
  }

  /** The text with its terminator, up to a byte boundary. */
  function Aligned(b: Bits, capacity: nat): (r: Bits)
    requires |b| <= 8 * capacity
    ensures |r| <= 8 * capacity && |r| % 8 == 0 && b <= r
  {
    var ended := b + BitsOf(0, Terminator(|b|, 8 * capacity));
    FillAligns(|ended|, capacity);
    ended + BitsOf(0, Fill(|ended|))
  }

  /** Terminator, zeros to the next byte, pad codewords: section 7.4.10. */
  function Padded(b: Bits, capacity: nat): (r: Bits)
    requires |b| <= 8 * capacity
    ensures |r| == 8 * capacity && b <= r
  {
    Aligned(b, capacity) + PadBytes(capacity - |Aligned(b, capacity)| / 8, 0xEC)
  }

  method AlignCodewords(codewords: BitBucket, dataCapacity: nat)
    requires codewords.Valid() && !codewords.overflowed
    requires codewords.bitOffsetOrWidth <= 8 * dataCapacity <= 8 * codewords.data.Length
    modifies codewords, codewords.data
    ensures codewords.Valid() && !codewords.overflowed
    ensures codewords.Contents() == Aligned(old(codewords.Contents()), dataCapacity)
  {
    hide BitsOf, BitsIn, Fill;
    var padding := dataCapacity * 8 - codewords.bitOffsetOrWidth;
    if padding > 4 { padding := 4; }
    codewords.AppendBits(0, padding);
    FillAligns(codewords.bitOffsetOrWidth, dataCapacity);
    var fill := (8 - codewords.bitOffsetOrWidth % 8) % 8;
    assert fill == Fill(codewords.bitOffsetOrWidth) by { FillIs(codewords.bitOffsetOrWidth); }
    codewords.AppendBits(0, fill);
  }

  lemma FillIs(n: nat)
    ensures Fill(n) == (8 - n % 8) % 8
  {
  }

  method PadCodewords(codewords: BitBucket, dataCapacity: nat)
    requires codewords.Valid() && !codewords.overflowed
    requires codewords.bitOffsetOrWidth <= 8 * dataCapacity <= 8 * codewords.data.Length
    modifies codewords, codewords.data
    ensures codewords.Valid() && !codewords.overflowed
    ensures codewords.Contents() == Padded(old(codewords.Contents()), dataCapacity)
  {
    hide BitsOf, BitsIn, Aligned;
    ghost var all := Padded(codewords.Contents(), dataCapacity);
    AlignCodewords(codewords, dataCapacity);
    ghost var left := dataCapacity - codewords.bitOffsetOrWidth / 8;
    var padByte := 0xEC;
    while codewords.bitOffsetOrWidth < dataCapacity * 8
      invariant codewords.Valid() && !codewords.overflowed && (padByte == 0xEC || padByte == 0x11)
      invariant left >= 0 && codewords.bitOffsetOrWidth + 8 * left == 8 * dataCapacity
      invariant codewords.Contents() + PadBytes(left, padByte) == all
      decreases left
    {
      ghost var before, first := codewords.Contents(), BitsOf(padByte, 8);
      codewords.AppendBits(padByte, 8);
      padByte := if padByte == 0xEC then 0x11 else 0xEC;
      left := left - 1;
      assert (before + first) + PadBytes(left, padByte) == before + (first + PadBytes(left, padByte));
    }
    assert PadBytes(0, padByte) == [];
  }

  /** The data codewords of a text, or a refusal exactly when it does not fit. */
  method DataCodewords(codewords: BitBucket, text: seq<Byte>, version: nat, ecc: nat) returns (ok: bool, mode: Mode)
    requires 1 <= version <= 40 && ecc < 4
    requires codewords.Valid() && !codewords.overflowed && codewords.bitOffsetOrWidth == 0
    requires codewords.data.Length == (RawModules(version) + 7) / 8
    modifies codewords, codewords.data
    ensures mode == ModeOf(text)
    ensures ok <==> |EncodedText(text, version)| <= 8 * DataCapacity(ecc, version)
    ensures codewords.Valid() && 1 <= DataCapacity(ecc, version)
    ensures ok ==> codewords.Contents() == Padded(EncodedText(text, version), DataCapacity(ecc, version))
  {
    hide EncodedText, RawModules, EccCodewords, EccBlocks, GeometryOf, Capacity, Padded;
    GeometryFits(ecc, version);
    var dataCapacity := RawModules(version) / 8 - EccCodewords(ecc, version);
    assert codewords.Contents() == [];
    mode := EncodeDataCodewords(codewords, text, version);
    if codewords.overflowed || codewords.bitOffsetOrWidth > dataCapacity * 8 {
      return false, mode;
    }
    assert codewords.Contents() == EncodedText(text, version);
    PadCodewords(codewords, dataCapacity);
    ok := true;
  }

  method PerformErrorCorrection(version: nat, ecc: nat, codewords: BitBucket)
    requires 1 <= version <= 40 && ecc < 4
    requires codewords.data.Length == (RawModules(version) + 7) / 8
    modifies codewords, codewords.data
    ensures codewords.bitOffsetOrWidth == RawModules(version)
    ensures GeometryOf(ecc, version).Valid() && codewords.data.Length >= GeometryOf(ecc, version).DataTotal()
    ensures IsInterleaved(GeometryOf(ecc, version), old(codewords.data[..]), codewords.data[..])
  {
    hide IsInterleaved, RawModules, EccCodewords, EccBlocks;
    GeometryFits(ecc, version);
    var numBlocks := EccBlocks(ecc, version);
    var totalEcc := EccCodewords(ecc, version);
    var moduleCount := RawModules(version);
    ColumnsAreSound(ecc, version);
    var blockEccLen := totalEcc / numBlocks;
    var numShortBlocks := numBlocks - moduleCount / 8 % numBlocks;
    var shortBlockLen := moduleCount / 8 / numBlocks;
    var shortDataBlockLen := shortBlockLen - blockEccLen;
    var geometry := Geometry(numBlocks, numShortBlocks, shortDataBlockLen, blockEccLen);
    assert geometry == GeometryOf(ecc, version);
    hide GeometryOf;
    Interleave(geometry, codewords.data);
    codewords.bitOffsetOrWidth := moduleCount;
  }

  lemma PaintFormatOver(g: Grid, size: nat, ecc: nat, a: nat, b: nat)
    requires IsGrid(g, size) && ecc < 4 && a < 8 && b < 8
    ensures Paint(Paint(g, size, Format(ecc, a)), size, Format(ecc, b)) == Paint(g, size, Format(ecc, b))
  {
    hide WordBit, FormatWord, FormatIndex;
    var r, s := Paint(Paint(g, size, Format(ecc, a)), size, Format(ecc, b)), Paint(g, size, Format(ecc, b));
    assert forall y | 0 <= y < size :: r[y] == s[y];
  }

  lemma MarkFormatOver(f: Grid, size: nat, ecc: nat, m: nat)
    requires IsGrid(f, size) && FormatMarked(f, size)
    ensures Mark(f, size, Format(ecc, m)) == f
  {
    assert forall y | 0 <= y < size :: Mark(f, size, Format(ecc, m))[y] == f[y];
  }

  ghost predicate FormatMarked(f: Grid, size: nat)
    requires IsGrid(f, size)
  {
    forall y, x | 0 <= y < size && 0 <= x < size && FormatIndex(size, x, y) != -1 :: f[y][x]
  }

  /** `mask` is the first of the least penalties among the masks below n. */
  ghost predicate IsFirstBest(g: Grid, f: Grid, size: nat, ecc: nat, mask: nat, n: nat)
    requires IsGrid(g, size) && IsGrid(f, size) && ecc < 4 && mask < 8 && n <= 8 && 1 <= size <= 177
  {
    forall m: nat | m < n ::
      var best, other := Penalty(Finished(g, f, size, ecc, mask), size), Penalty(Finished(g, f, size, ecc, m), size);
      best <= other && (m < mask ==> best < other)
  }

  /** The grid may hold any format information; everything else is as in g. */
  ghost predicate UpToFormat(h: Grid, g: Grid, size: nat, ecc: nat)
    requires IsGrid(h, size) && IsGrid(g, size) && ecc < 4
  {
    forall m: nat | m < 8 :: Paint(h, size, Format(ecc, m)) == Paint(g, size, Format(ecc, m))
  }

  lemma PaintedIsUpToFormat(h: Grid, g: Grid, size: nat, ecc: nat, m: nat)
    requires IsGrid(h, size) && IsGrid(g, size) && ecc < 4 && m < 8 && UpToFormat(h, g, size, ecc)
    ensures UpToFormat(Paint(h, size, Format(ecc, m)), g, size, ecc)
  {
    hide Paint;
    forall k: nat | k < 8
      ensures Paint(Paint(h, size, Format(ecc, m)), size, Format(ecc, k)) == Paint(g, size, Format(ecc, k))
    {
      PaintFormatOver(h, size, ecc, m, k);
    }
  }

  /** One trial: draw the format information, mask, score, and unmask again. */
  method TryMask(modules: BitBucket, isFunction: BitBucket, size: nat, ecc: nat, i: nat, ghost g: Grid) returns (penalty: nat)
    requires Canvas(modules, isFunction, size) && 21 <= size <= 177 && ecc < 4 && i < 8 && IsGrid(g, size)
    requires FormatMarked(isFunction.Modules(), size) && UpToFormat(modules.Modules(), g, size, ecc)
    modifies modules.data, isFunction.data
    ensures isFunction.Modules() == old(isFunction.Modules())
    ensures UpToFormat(modules.Modules(), g, size, ecc)
    ensures penalty == Penalty(Finished(g, isFunction.Modules(), size, ecc, i), size)
  {
    hide GridOf, Paint, Mark, Masked, Penalty, FormatMarked;
    MarkFormatOver(isFunction.Modules(), size, ecc, i);
    PaintedIsUpToFormat(modules.Modules(), g, size, ecc, i);
    DrawFormatBits(modules, isFunction, size, ecc, i);
    MaskingTwice(modules.Modules(), isFunction.Modules(), size, i);
    ApplyMask(modules, isFunction, size, i);
    penalty := GetPenaltyScore(modules, size);
    ApplyMask(modules, isFunction, size, i);
  }

  /** Tries the eight masks and leaves the grid finished with the first best one. */
  method ChooseMask(modules: BitBucket, isFunction: BitBucket, size: nat, ecc: nat) returns (mask: nat)
    requires Canvas(modules, isFunction, size) && 21 <= size <= 177 && ecc < 4
    requires FormatMarked(isFunction.Modules(), size)
    modifies modules.data, isFunction.data
    ensures mask < 8
    ensures isFunction.Modules() == old(isFunction.Modules())
    ensures modules.Modules() == Finished(old(modules.Modules()), isFunction.Modules(), size, ecc, mask)
    ensures IsFirstBest(old(modules.Modules()), isFunction.Modules(), size, ecc, mask, 8)
  {
    hide GridOf, Paint, Mark, Masked, Penalty, FormatMarked, Finished, UpToFormat;
    ghost var g, f := modules.Modules(), isFunction.Modules();
    assert UpToFormat(g, g, size, ecc) by { SelfUpToFormat(g, size, ecc); }
    mask := 0;
    var minPenalty := 0x7FFF_FFFF;
    var i := 0;
    while i < 8
      invariant i <= 8 && mask < 8
      invariant isFunction.Modules() == f && UpToFormat(modules.Modules(), g, size, ecc)
      invariant if i == 0 then mask == 0 && minPenalty == 0x7FFF_FFFF
                else mask < i && minPenalty == Penalty(Finished(g, f, size, ecc, mask), size)
      invariant IsFirstBest(g, f, size, ecc, mask, i)
    {
      var penalty := TryMask(modules, isFunction, size, ecc, i, g);
      if penalty < minPenalty {
        mask := i;
        minPenalty := penalty;
      }
      i := i + 1;
    }
    MarkFormatOver(f, size, ecc, mask);
    UseUpToFormat(modules.Modules(), g, f, size, ecc, mask);
    DrawFormatBits(modules, isFunction, size, ecc, mask);
    ApplyMask(modules, isFunction, size, mask);
  }

  lemma UseUpToFormat(h: Grid, g: Grid, f: Grid, size: nat, ecc: nat, m: nat)
    requires IsGrid(h, size) && IsGrid(g, size) && IsGrid(f, size) && ecc < 4 && m < 8 && UpToFormat(h, g, size, ecc)
    ensures Masked(Paint(h, size, Format(ecc, m)), f, size, m) == Finished(g, f, size, ecc, m)
  {
    hide Paint, Masked;
  }

  lemma SelfUpToFormat(g: Grid, size: nat, ecc: nat)
    requires IsGrid(g, size) && ecc < 4
    ensures UpToFormat(g, g, size, ecc)
  {
  }

  /** qrcode.h numbers the levels L, M, Q, H; the standard's format bits differ. */
  function EccFormatBits(ecc: nat): (r: nat)
    requires ecc < 4
    ensures r == [1, 0, 3, 2][ecc]
  {
    assert Pow(2, 2) == 4 && Pow(2, 4) == 16 && Pow(2, 6) == 64 by {
      assert Pow(2, 4) == 16;
      PowAdd(2, 4, 2);
    }
    0xB1 / Pow(2, 2 * ecc) % 4
  }

  function GetBufferSize(version: nat): nat { (Side(version) * Side(version) + 7) / 8 }

  /** The symbol with its mask exchanged for mask m. */
  ghost function Remasked(v: nat, s: Grid, m: nat): (r: Grid)
    requires 1 <= v <= 40 && IsGrid(s, Side(v)) && m < 8
    ensures IsGrid(r, Side(v))
  {
    var size, f := Side(v), FunctionGrid(v);
    Finished(Masked(s, f, size, ReadMask(s)), f, size, ReadEcc(s), m)
  }

  /** No mask gives a lower penalty, and none before it the same. */
  ghost predicate HasFirstBestMask(v: nat, s: Grid)
    requires 1 <= v <= 40 && IsGrid(s, Side(v))
  {
    forall m: nat | m < 8 ::
      var own, other := Penalty(s, Side(v)), Penalty(Remasked(v, s, m), Side(v));
      own <= other && (m < ReadMask(s) ==> own < other)
  }

  lemma RemaskedIs(v: nat, g: Grid, ecc: nat, mask: nat, m: nat)
    requires 1 <= v <= 40 && IsGrid(g, Side(v)) && ecc < 4 && mask < 8 && m < 8
    ensures Remasked(v, Finished(g, FunctionGrid(v), Side(v), ecc, mask), m) == Finished(g, FunctionGrid(v), Side(v), ecc, m)
  {
    hide FunctionGrid, Paint, Masked, ReadMask, ReadEcc;
    var f, size := FunctionGrid(v), Side(v);
    NumbersReadBack(v, g, ecc, mask);
    MaskingTwice(Paint(g, size, Format(ecc, mask)), f, size, mask);
    PaintFormatOver(g, size, ecc, mask, m);
  }

  lemma BestMaskIsKept(v: nat, g: Grid, ecc: nat, mask: nat)
    requires 1 <= v <= 40 && IsGrid(g, Side(v)) && ecc < 4 && mask < 8
    requires IsFirstBest(g, FunctionGrid(v), Side(v), ecc, mask, 8)
    ensures HasFirstBestMask(v, Finished(g, FunctionGrid(v), Side(v), ecc, mask))
  {
    hide FunctionGrid, Remasked, Finished, Penalty, ReadMask, ReadEcc;
    NumbersReadBack(v, g, ecc, mask);
    forall m: nat | m < 8
      ensures Remasked(v, Finished(g, FunctionGrid(v), Side(v), ecc, mask), m) == Finished(g, FunctionGrid(v), Side(v), ecc, m)
    {
      RemaskedIs(v, g, ecc, mask, m);
    }
  }

  lemma BlankMarks(v: nat, ecc: nat, blank: Grid)
    requires 1 <= v <= 40 && IsGrid(blank, Side(v))
    requires forall y, x | 0 <= y < Side(v) && 0 <= x < Side(v) :: !blank[y][x]
    ensures MarkAll(blank, Side(v), FunctionPatterns(v, ecc)) == FunctionGrid(v)
    ensures FormatMarked(FunctionGrid(v), Side(v))
  {
    var size := Side(v);
    var f := MarkAll(blank, size, FunctionPatterns(v, ecc));
    hide MarkAll, FunctionPatterns, IsFunctionModule;
    forall y: nat | y < size ensures f[y] == FunctionGrid(v)[y] {
      forall x: nat | x < size ensures f[y][x] == FunctionGrid(v)[y][x] {
        MarksAreFunctionModules(v, ecc, blank, x, y);
      }
    }
    forall y: nat, x: nat | y < size && x < size && FormatIndex(size, x, y) != -1 ensures FunctionGrid(v)[y][x] {
      FormatIsFunction(v, x, y);
    }
  }

  lemma ZerosAreBlank(s: seq<bv8>, size: nat)
    requires size * size <= 8 * |s| && forall k | 0 <= k < |s| :: s[k] == 0
    ensures forall y, x | 0 <= y < size && 0 <= x < size :: !GridOf(s, size)[y][x]
  {
    forall y: nat, x: nat | y < size && x < size ensures !GridOf(s, size)[y][x] {
      OffsetInside(size, x, y, |s|);
      assert s[Offset(size, x, y) / 8] == 0;
      NoBitInZero(Offset(size, x, y) % 8);
    }
    hide GridOf, Offset, TestBit;
  }

  lemma NoBitInZero(k: nat)
    requires k < 8
    ensures !TestBit(0, k)
  {
  }

  /** The symbol of the given codewords, drawn and masked. */
  method DrawSymbol(modules: BitBucket, isFunction: BitBucket, codewords: BitBucket, version: nat, ecc: nat) returns (mask: nat)
    requires 1 <= version <= 40 && ecc < 4 && Canvas(modules, isFunction, Side(version))
    requires codewords.data != modules.data && codewords.data != isFunction.data
    requires codewords.bitOffsetOrWidth == RawModules(version) <= 8 * codewords.data.Length
    requires IsGrid(modules.Modules(), Side(version)) && isFunction.Modules() == FunctionGrid(version)
    modifies modules.data, isFunction.data
    ensures mask < 8 && Canvas(modules, isFunction, Side(version))
    ensures modules.Modules() == SymbolOf(version, ecc, mask, old(modules.Modules()), codewords.data[..])
    ensures HasFirstBestMask(version, modules.Modules()) && ReadMask(modules.Modules()) == mask
  {
    hide GridOf, BitsIn, FunctionGrid, Drawn, IsFirstBest, HasFirstBestMask, Finished, RawModules, FormatMarked;
    var size := Side(version);
    FunctionGridMarksFormat(version);
    ghost var g := modules.Modules();
    DrawCodewords(modules, isFunction, codewords, size);
    ghost var drawn := modules.Modules();
    mask := ChooseMask(modules, isFunction, size, ecc);
    BestMaskIsKept(version, drawn, ecc, mask);
    NumbersReadBack(version, drawn, ecc, mask);
  }

  lemma FunctionGridMarksFormat(v: nat)
    requires 1 <= v <= 40
    ensures FormatMarked(FunctionGrid(v), Side(v))
  {
    forall y: nat, x: nat | y < Side(v) && x < Side(v) && FormatIndex(Side(v), x, y) != -1 ensures FunctionGrid(v)[y][x] {
      FormatIsFunction(v, x, y);
    }
  }

  /** The function modules of s show what the standard draws there. */
  ghost predicate ShowsFunctionPatterns(v: nat, ecc: nat, mask: nat, s: Grid)
    requires 1 <= v <= 40 && ecc < 4 && mask < 8 && IsGrid(s, Side(v))
  {
    forall y: nat, x: nat | y < Side(v) && x < Side(v) && IsFunctionModule(v, x, y) :: s[y][x] == FunctionDark(v, ecc, mask, x, y)
  }

  ghost predicate PatternsDrawn(v: nat, ecc: nat, g: Grid)
    requires 1 <= v <= 40
  {
    AllKnown(FunctionPatterns(v, ecc))
    && exists blank: Grid :: IsGrid(blank, Side(v)) && g == PaintAll(blank, Side(v), FunctionPatterns(v, ecc))
  }

  lemma SymbolShowsFunctionPatterns(v: nat, ecc: nat, mask: nat, g: Grid, out: seq<bv8>)
    requires 1 <= v <= 40 && ecc < 4 && mask < 8 && IsGrid(g, Side(v)) && RawModules(v) <= 8 * |out|
    requires PatternsDrawn(v, ecc, g)
    ensures ShowsFunctionPatterns(v, ecc, mask, SymbolOf(v, ecc, mask, g, out))
  {
    hide IsFunctionModule, Covered, FunctionPatterns, PaintAll, Drawn, BitsIn, RawModules, TopDark, MaskBit, FormatIndex, WordBit, FormatWord;
    var size, f := Side(v), FunctionGrid(v);
    var bits := BitsIn(out)[..RawModules(v)];
    var blank: Grid :| IsGrid(blank, size) && g == PaintAll(blank, size, FunctionPatterns(v, ecc));
    forall y: nat, x: nat | y < size && x < size && IsFunctionModule(v, x, y)
      ensures SymbolOf(v, ecc, mask, g, out)[y][x] == FunctionDark(v, ecc, mask, x, y)
    {
      DrawnKeepsFunctionModules(g, f, size, bits, Steps(size), x, y);
      PaintAllAt(blank, size, FunctionPatterns(v, ecc), x, y);
      FunctionModulesAreCovered(v, ecc, x, y);
    }
  }

  /** Both grids with the function patterns drawn, the second one only marking them. */
  method FreshGrids(buffer: array<bv8>, version: nat, level: nat) returns (modulesGrid: BitBucket, isFunctionGrid: BitBucket)
    requires 1 <= version <= 40 && level < 4 && buffer.Length == GetBufferSize(version)
    modifies buffer
    ensures modulesGrid.data == buffer && fresh(modulesGrid) && fresh(isFunctionGrid) && fresh(isFunctionGrid.data)
    ensures Canvas(modulesGrid, isFunctionGrid, Side(version))
    ensures isFunctionGrid.Modules() == FunctionGrid(version)
    ensures PatternsDrawn(version, level, modulesGrid.Modules())
  {
    hide GridOf, FunctionGrid, PaintAll, MarkAll, FunctionPatterns;
    var side := Side(version);
    modulesGrid := new BitBucket(buffer, side);
    var isFunctionGridBytes := new bv8[GetBufferSize(version)];
    isFunctionGrid := new BitBucket(isFunctionGridBytes, side);
    ZerosAreBlank(isFunctionGridBytes[..], side);
    BlankMarks(version, level, isFunctionGrid.Modules());
    DrawFunctionPatterns(modulesGrid, isFunctionGrid, version, level);
  }

  class QRCode {
    var version: nat
    var size: nat
    var ecc: nat
    var mode: Mode
    var mask: nat
    var modules: array<bv8>

    constructor (buffer: array<bv8>)
      ensures modules == buffer
    {
      version, size, ecc, mode, mask, modules := 0, 0, 0, Byte8, 0, buffer;
    }

    /** Draws `data` as a symbol into `buffer`: 0 exactly when it fits, and then
        the reference reader gets it back from the modules. */
    method InitText(buffer: array<bv8>, version: nat, ecc: nat, data: seq<Byte>) returns (rc: int)
      requires 1 <= version <= 40 && ecc < 4 && |data| < 65536
      requires buffer.Length == GetBufferSize(version)
      modifies this, buffer
      ensures rc == 0 <==> |EncodedText(data, version)| <= 8 * DataCapacity(EccFormatBits(ecc), version)
      ensures rc == 0 || rc == -1
      ensures this.version == version && this.size == Side(version) && this.ecc == ecc && this.modules == buffer
      ensures Side(version) * Side(version) <= 8 * buffer.Length
      ensures rc == 0 ==> DecodeSymbol(version, GridOf(buffer[..], Side(version))) == Some(data)
      ensures rc == 0 ==> mask < 8 && ShowsFunctionPatterns(version, EccFormatBits(ecc), mask, GridOf(buffer[..], Side(version)))
      ensures rc == 0 ==> HasFirstBestMask(version, GridOf(buffer[..], Side(version)))
      ensures rc == 0 ==> mask == ReadMask(GridOf(buffer[..], Side(version))) && mode == ModeOf(data)
    {
      hide RawModules, EccCodewords, EccBlocks, EncodedText, Padded, GeometryOf, IsInterleaved, GridOf, BitsIn, SymbolOf,
           FunctionGrid, DecodeSymbol, HasFirstBestMask, ReadMask, Carries, DataCapacity,
           ShowsFunctionPatterns, PatternsDrawn, EccFormatBits;
      this.version := version;
      this.size := Side(version);
      this.ecc := ecc;
      this.modules := buffer;
      var level := EccFormatBits(ecc);
      var moduleCount := RawModules(version);
      var codewordBytes := new bv8[(moduleCount + 7) / 8];
      var codewords := new BitBucket(codewordBytes, 0);
      EmptyStream(codewords);
      var ok, m := DataCodewords(codewords, data, version, level);
      if !ok { return -1; }
      this.mode := m;
      CarriesText(version, level, codewords, data);
      var modulesGrid, isFunctionGrid := FreshGrids(buffer, version, level);
      ghost var g, dataBytes := modulesGrid.Modules(), codewords.data[..];
      PerformErrorCorrection(version, level, codewords);
      var chosen := DrawSymbol(modulesGrid, isFunctionGrid, codewords, version, level);
      SymbolReadsBack(version, level, chosen, g, dataBytes, codewords.data[..], data);
      SymbolShowsFunctionPatterns(version, level, chosen, g, codewords.data[..]);
      this.mask := chosen;
      return 0;
    }
  }

  lemma EmptyStream(b: BitBucket)
    requires b.bitOffsetOrWidth == 0 && forall k | 0 <= k < b.data.Length :: b.data[k] == 0
    ensures b.Valid()
  {
    forall k: nat | k < 8 * b.data.Length ensures !BitsIn(b.data[..])[k] {
      NoBitInZero(k % 8);
    }
  }

  lemma CarriesText(v: nat, ecc: nat, b: BitBucket, t: seq<Byte>)
    requires 1 <= v <= 40 && ecc < 4 && b.Valid() && b.data.Length == (RawModules(v) + 7) / 8
    requires |EncodedText(t, v)| <= 8 * DataCapacity(ecc, v)
    requires b.Contents() == Padded(EncodedText(t, v), DataCapacity(ecc, v))
    ensures Carries(v, ecc, b.data[..], t)
  {
    hide EncodedText, BitsIn, RawModules;
  }
}
