/** Blocks, check codewords and their interleaving (ISO/IEC 18004:2015 sections
    7.5.1 and 7.6), for any geometry: short blocks come before the long ones,
    which hold one data codeword more. */
module QrInterleave {
  import opened Arith
  import opened Gf256
  import opened ReedSolomon
  import opened QrTables

  /** `short` of the `blocks` blocks hold `len` data codewords, the others one
      more; every block has `check` check codewords. */
  datatype Geometry = Geometry(blocks: nat, short: nat, len: nat, check: nat) {
    predicate Valid() { 1 <= short <= blocks && len >= 1 && check >= 1 }

    function DataLen(b: nat): nat { if b < short then len else len + 1 }

    /** Where block b starts in the data. */
    function DataStart(b: nat): nat {
      if b == 0 then 0 else DataStart(b - 1) + DataLen(b - 1)
    }

    function DataTotal(): nat { DataStart(blocks) }

    function Total(): nat { DataTotal() + check * blocks }

    predicate Holds(p: Place) {
      match p
      case Data(b, i) => b < blocks && i < DataLen(b)
      case Check(b, j) => b < blocks && j < check
    }

    /** Codeword i of every block before codeword i+1 of any; the check
        codewords follow the data in the same fashion. */
    function Position(p: Place): int {
      match p
      case Data(b, i) => if i < len then i * blocks + b else len * blocks + (b - short)
      case Check(b, j) => DataTotal() + (j * blocks + b)
    }

    function PlaceAt(k: nat): Place
      requires Valid()
    {
      if k < len * blocks then Data(k % blocks, k / blocks)
      else if k < DataTotal() then Data(short + (k - len * blocks), len)
      else Check((k - DataTotal()) % blocks, (k - DataTotal()) / blocks)
    }
  }

  /** A codeword of the symbol: data codeword i or check codeword j of block b. */
  datatype Place = Data(b: nat, i: nat) | Check(b: nat, j: nat)

  lemma {:induction false} DataStartIs(g: Geometry, b: nat)
    requires g.Valid()
    ensures g.DataStart(b) == b * g.len + (if b <= g.short then 0 else b - g.short)
  {
    if b != 0 {
      DataStartIs(g, b - 1);
      MulAdd(b - 1, 1, g.len);
    }
  }

  lemma {:induction false} DataStartGrows(g: Geometry, b: nat, c: nat)
    requires b < c
    ensures g.DataStart(b) + g.DataLen(b) <= g.DataStart(c)
  {
    if c != b + 1 { DataStartGrows(g, b, c - 1); }
  }

  lemma DataPosition(g: Geometry, b: nat, i: nat)
    requires g.Valid() && g.Holds(Data(b, i))
    ensures 0 <= g.Position(Data(b, i)) < g.DataTotal() <= g.Total()
    ensures g.PlaceAt(g.Position(Data(b, i))) == Data(b, i)
  {
    DataStartIs(g, g.blocks);
    MulNonneg(g.check, g.blocks);
    if i < g.len {
      MulStrict(i, g.len, g.blocks);
      DivUnique(i * g.blocks + b, g.blocks, i, b);
    }
  }

  lemma CheckPosition(g: Geometry, b: nat, j: nat)
    requires g.Valid() && g.Holds(Check(b, j))
    ensures g.DataTotal() <= g.Position(Check(b, j)) < g.Total()
    ensures g.PlaceAt(g.Position(Check(b, j))) == Check(b, j)
  {
    DataStartIs(g, g.blocks);
    MulStrict(j, g.check, g.blocks);
    DivUnique(j * g.blocks + b, g.blocks, j, b);
  }

  /** Every codeword has one position and every position one codeword. */
  lemma PositionIsInverse(g: Geometry, p: Place)
    requires g.Valid() && g.Holds(p)
    ensures 0 <= g.Position(p) < g.Total()
    ensures g.PlaceAt(g.Position(p)) == p
    ensures p.Data? <==> g.Position(p) < g.DataTotal()
  {
    match p
    case Data(b, i) => DataPosition(g, b, i);
    case Check(b, j) => CheckPosition(g, b, j);
  }

  lemma PlaceIsInverse(g: Geometry, k: nat)
    requires g.Valid() && k < g.Total()
    ensures g.Holds(g.PlaceAt(k))
    ensures g.Position(g.PlaceAt(k)) == k
  {
    DataStartIs(g, g.blocks);
    if k < g.len * g.blocks {
      QuotientBelow(k, g.blocks, g.len);
    } else if k >= g.DataTotal() {
      QuotientBelow(k - g.DataTotal(), g.blocks, g.check);
    }
  }

  function Block(g: Geometry, data: Poly, b: nat): (r: Poly)
    requires g.Valid() && b < g.blocks && |data| >= g.DataTotal()
    ensures |r| == g.DataLen(b)
  {
    DataStartGrows(g, b, g.blocks);
    data[g.DataStart(b)..g.DataStart(b) + g.DataLen(b)]
  }

  /** The codeword that belongs at position k. */
  function CodewordAt(g: Geometry, data: Poly, k: nat): bv8
    requires g.Valid() && |data| >= g.DataTotal() && k < g.Total()
  {
    PlaceIsInverse(g, k);
    match g.PlaceAt(k)
    case Data(b, i) => Block(g, data, b)[i]
    case Check(b, j) => CheckCodewords(g.check, Block(g, data, b))[j]
  }

  ghost predicate IsInterleaved(g: Geometry, data: Poly, out: Poly)
    requires g.Valid() && |data| >= g.DataTotal()
  {
    && |out| >= g.Total()
    && (forall k: nat | k < g.Total() :: out[k] == CodewordAt(g, data, k))
    && (forall k: nat | g.Total() <= k < |out| :: out[k] == 0)
  }

  // ---------------------------------------------------- the reference reading

  /** The first n blocks, read back from an interleaved codeword sequence. */
  function Deinterleaved(g: Geometry, out: Poly, n: nat): Poly
    requires g.Valid() && n <= g.blocks && |out| >= g.Total()
  {
    if n == 0 then [] else Deinterleaved(g, out, n - 1) + BlockOf(g, out, n - 1)
  }

  function BlockOf(g: Geometry, out: Poly, b: nat): (r: Poly)
    requires g.Valid() && b < g.blocks && |out| >= g.Total()
    ensures |r| == g.DataLen(b)
  {
    seq(g.DataLen(b), i requires 0 <= i < g.DataLen(b) => (PositionIsInverse(g, Data(b, i)); out[g.Position(Data(b, i))]))
  }

  lemma BlockComesBack(g: Geometry, data: Poly, out: Poly, b: nat)
    requires g.Valid() && |data| >= g.DataTotal() && IsInterleaved(g, data, out) && b < g.blocks
    ensures BlockOf(g, out, b) == Block(g, data, b)
  {
    forall i | 0 <= i < g.DataLen(b) ensures BlockOf(g, out, b)[i] == Block(g, data, b)[i] {
      PositionIsInverse(g, Data(b, i));
    }
  }

  /** Reading the blocks back yields the data. */
  lemma {:induction false} DataComesBack(g: Geometry, data: Poly, out: Poly, n: nat)
    requires g.Valid() && |data| >= g.DataTotal() && IsInterleaved(g, data, out) && n <= g.blocks
    ensures g.DataStart(n) <= g.DataTotal()
    ensures Deinterleaved(g, out, n) == data[..g.DataStart(n)]
  {
    hide IsInterleaved, BlockOf;
    if n < g.blocks { DataStartGrows(g, n, g.blocks); }
    if n != 0 {
      DataComesBack(g, data, out, n - 1);
      BlockComesBack(g, data, out, n - 1);
    }
  }

  function ChecksOf(g: Geometry, out: Poly, b: nat): (r: Poly)
    requires g.Valid() && b < g.blocks && |out| >= g.Total()
    ensures |r| == g.check
  {
    seq(g.check, j requires 0 <= j < g.check => (PositionIsInverse(g, Check(b, j)); out[g.Position(Check(b, j))]))
  }

  /** Every block read back from the symbol, with its check codewords, vanishes
      at alpha^0 .. alpha^(check-1). */
  lemma ReadBlockIsACodeword(g: Geometry, data: Poly, out: Poly, b: nat, i: nat)
    requires g.Valid() && |data| >= g.DataTotal() && IsInterleaved(g, data, out)
    requires b < g.blocks && i < g.check
    ensures Eval(BlockOf(g, out, b) + ChecksOf(g, out, b), Alpha(i)) == 0
  {
    BlockComesBack(g, data, out, b);
    var block := Block(g, data, b);
    assert ChecksOf(g, out, b) == CheckCodewords(g.check, block) by {
      forall j | 0 <= j < g.check ensures ChecksOf(g, out, b)[j] == CheckCodewords(g.check, block)[j] {
        PositionIsInverse(g, Check(b, j));
      }
      hide CheckCodewords;
    }
    BlockIsACodeword(g.check, block, i);
  }

  // ------------------------------------------------------------------ the code

  /** Positions below n are final. */
  ghost predicate Written(g: Geometry, data: Poly, result: Poly, n: nat)
    requires g.Valid() && |data| >= g.DataTotal()
  {
    n <= g.Total() <= |result| && forall k: nat | k < n :: result[k] == CodewordAt(g, data, k)
  }

  ghost predicate ZeroFrom(result: Poly, n: nat) {
    forall k: nat | n <= k < |result| :: result[k] == 0
  }

  lemma CodewordIsData(g: Geometry, data: Poly, b: nat, i: nat, k: nat)
    requires g.Valid() && g.Holds(Data(b, i)) && |data| >= g.DataTotal() && k == g.Position(Data(b, i))
    ensures k < g.Total() && g.DataStart(b) + i < |data|
    ensures CodewordAt(g, data, k) == data[g.DataStart(b) + i]
  {
    DataPosition(g, b, i);
    DataStartGrows(g, b, g.blocks);
  }

  lemma WriteOne(g: Geometry, data: Poly, before: Poly, after: Poly, b: nat, i: nat, k: nat)
    requires g.Valid() && g.Holds(Data(b, i)) && |data| >= g.DataTotal() && k == g.Position(Data(b, i))
    requires Written(g, data, before, k) && ZeroFrom(before, k)
    requires k < |before| && g.DataStart(b) + i < |data| && after == before[k := data[g.DataStart(b) + i]]
    ensures Written(g, data, after, k + 1) && ZeroFrom(after, k + 1)
  {
    CodewordIsData(g, data, b, i, k);
    hide CodewordAt;
  }

  lemma SourceInRange(g: Geometry, b: nat, i: nat)
    requires g.Valid() && g.Holds(Data(b, i))
    ensures g.DataStart(b) + i < g.DataTotal() <= g.Total()
    ensures 0 <= g.Position(Data(b, i)) < g.Total()
  {
    DataPosition(g, b, i);
    DataStartGrows(g, b, g.blocks);
  }

  /** Row i of the data: codeword i of every block, while all blocks have one. */
  method WriteRow(g: Geometry, data: array<bv8>, i: nat, result: array<bv8>, start: nat) returns (offset: nat)
    requires g.Valid() && data != result && i < g.len && start == i * g.blocks
    requires g.DataTotal() <= g.Total() <= data.Length == result.Length
    requires Written(g, data[..], result[..], start) && ZeroFrom(result[..], start)
    modifies result
    ensures offset == start + g.blocks
    ensures Written(g, data[..], result[..], offset) && ZeroFrom(result[..], offset)
  {
    hide Written, ZeroFrom;
    offset := start;
    var index := i;
    var stride := g.len;
    var blockNum := 0;
    while blockNum < g.blocks
      invariant blockNum <= g.blocks && offset == start + blockNum
      invariant index == i + g.DataStart(blockNum)
      invariant stride == if blockNum <= g.short then g.len else g.len + 1
      invariant Written(g, data[..], result[..], offset) && ZeroFrom(result[..], offset)
    {
      ghost var before := result[..];
      SourceInRange(g, blockNum, i);
      result[offset] := data[index];
      assert result[..] == before[offset := data[index]];
      WriteOne(g, data[..], before, result[..], blockNum, i, offset);
      offset := offset + 1;
      if blockNum == g.short { stride := stride + 1; }
      index := index + stride;
      blockNum := blockNum + 1;
    }
  }

  /** The codeword that only the long blocks have. */
  method WriteLongRow(g: Geometry, data: array<bv8>, result: array<bv8>, start: nat) returns (offset: nat)
    requires g.Valid() && data != result && start == g.len * g.blocks
    requires g.DataTotal() <= g.Total() <= data.Length == result.Length
    requires Written(g, data[..], result[..], start) && ZeroFrom(result[..], start)
    modifies result
    ensures offset == g.DataTotal()
    ensures Written(g, data[..], result[..], offset) && ZeroFrom(result[..], offset)
  {
    hide Written, ZeroFrom;
    offset := start;
    DataStartIs(g, g.short);
    DataStartIs(g, g.blocks);
    MulAdd(g.short, 1, g.len);
    var index := g.len * (g.short + 1);
    var stride := g.len;
    var blockNum := 0;
    while blockNum < g.blocks - g.short
      invariant blockNum <= g.blocks - g.short && offset == start + blockNum
      invariant index == g.len + g.DataStart(g.short + blockNum)
      invariant stride == if blockNum == 0 then g.len else g.len + 1
      invariant Written(g, data[..], result[..], offset) && ZeroFrom(result[..], offset)
    {
      ghost var before := result[..];
      SourceInRange(g, g.short + blockNum, g.len);
      result[offset] := data[index];
      assert result[..] == before[offset := data[index]];
      WriteOne(g, data[..], before, result[..], g.short + blockNum, g.len, offset);
      offset := offset + 1;
      if blockNum == 0 { stride := stride + 1; }
      index := index + stride;
      blockNum := blockNum + 1;
    }
  }

  /** The data and the check codewords of the first n blocks are in place, all
      other bytes are still zero. */
  ghost predicate ChecksDone(g: Geometry, data: Poly, result: Poly, n: nat)
    requires g.Valid() && |data| >= g.DataTotal()
  {
    && g.Total() <= |result|
    && forall k: nat | k < |result| ::
      result[k] == if k < g.Total() && (k < g.DataTotal() || g.PlaceAt(k).b < n) then CodewordAt(g, data, k) else 0
  }

  /** The check codewords of block b, and nothing else, lie on its stride. */
  lemma StrideOfBlock(g: Geometry, b: nat, base: nat, k: nat)
    requires g.Valid() && b < g.blocks && base == g.DataTotal() + b
    ensures OnStride(base, g.blocks, g.check, k) <==> g.DataTotal() <= k < g.Total() && g.PlaceAt(k).b == b
    ensures g.DataTotal() <= k < g.Total() && g.PlaceAt(k).b == b ==>
      g.PlaceAt(k).Check? && g.PlaceAt(k).j < g.check && k == At(base, g.blocks, g.PlaceAt(k).j)
  {
    DataStartIs(g, g.blocks);
    if OnStride(base, g.blocks, g.check, k) {
      var j: nat :| j < g.check && k == At(base, g.blocks, j);
      assert k == g.Position(Check(b, j));
      CheckPosition(g, b, j);
    }
    if g.DataTotal() <= k < g.Total() && g.PlaceAt(k).b == b {
      PlaceIsInverse(g, k);
      hide At;
      assert k == At(base, g.blocks, g.PlaceAt(k).j) by { AtIs(base, g.blocks, g.PlaceAt(k).j); }
    }
  }

  lemma AtIs(base: nat, stride: nat, j: nat)
    ensures At(base, stride, j) == base + j * stride
  {
  }

  lemma BlockInReach(g: Geometry, b: nat, base: nat)
    requires g.Valid() && b < g.blocks && base == g.DataTotal() + b
    ensures InReach(g.Total(), base, g.blocks, g.check)
    ensures forall j: nat | j < g.check :: g.PlaceAt(At(base, g.blocks, j)) == Check(b, j)
    ensures forall j: nat | j < g.check :: g.DataTotal() <= At(base, g.blocks, j) < g.Total()
  {
    forall j: nat | j < g.check
      ensures g.PlaceAt(At(base, g.blocks, j)) == Check(b, j)
      ensures g.DataTotal() <= At(base, g.blocks, j) < g.Total()
    {
      CheckPosition(g, b, j);
      assert At(base, g.blocks, j) == g.Position(Check(b, j));
    }
  }

  lemma StillZero(g: Geometry, data: Poly, result: Poly, b: nat, base: nat)
    requires g.Valid() && |data| >= g.DataTotal() && b < g.blocks && base == g.DataTotal() + b
    requires ChecksDone(g, data, result, b) && InReach(|result|, base, g.blocks, g.check)
    ensures Strided(result, base, g.blocks, g.check) == Zeros(g.check)
  {
    BlockInReach(g, b, base);
    hide At, CodewordAt;
  }

  lemma OneMoreBlock(g: Geometry, data: Poly, before: Poly, after: Poly, b: nat, base: nat)
    requires g.Valid() && |data| >= g.DataTotal() && b < g.blocks && base == g.DataTotal() + b
    requires ChecksDone(g, data, before, b) && |after| == |before|
    requires InReach(|after|, base, g.blocks, g.check)
    requires Strided(after, base, g.blocks, g.check) == CheckCodewords(g.check, Block(g, data, b))
    requires forall k | 0 <= k < |after| && !OnStride(base, g.blocks, g.check, k) :: after[k] == before[k]
    ensures ChecksDone(g, data, after, b + 1)
  {
    hide CheckCodewords, At, OnStride, Block, InReach;
    DataStartIs(g, g.blocks);
    forall k: nat | k < |after|
      ensures after[k] == if k < g.Total() && (k < g.DataTotal() || g.PlaceAt(k).b < b + 1) then CodewordAt(g, data, k) else 0
    {
      StrideOfBlock(g, b, base, k);
      if g.DataTotal() <= k < g.Total() && g.PlaceAt(k).b == b {
        var j := g.PlaceAt(k).j;
        assert after[k] == Strided(after, base, g.blocks, g.check)[j];
      }
    }
  }

  method CheckBlock(g: Geometry, coeff: array<bv8>, data: array<bv8>, from: nat, blockSize: nat,
                    result: array<bv8>, b: nat, base: nat)
    requires g.Valid() && data != result && coeff != result && b < g.blocks && base == g.DataTotal() + b
    requires g.DataTotal() <= g.Total() <= data.Length == result.Length
    requires coeff.Length == g.check && coeff[..] == Generator(g.check)[1..]
    requires from == g.DataStart(b) && blockSize == g.DataLen(b)
    requires ChecksDone(g, data[..], result[..], b)
    modifies result
    ensures ChecksDone(g, data[..], result[..], b + 1)
  {
    hide OnStride, Generator, Remainder, At, InReach, ChecksDone, IsInterleaved;
    ghost var before, codewords := result[..], data[..];
    DataStartGrows(g, b, g.blocks);
    assert codewords[from..from + blockSize] == Block(g, codewords, b);
    Reach(g, b, base, result.Length);
    StillZero(g, codewords, before, b, base);
    RsGetRemainder(g.check, coeff, data, from, blockSize, result, base, g.blocks);
    hide Strided, Block;
    OneMoreBlock(g, codewords, before, result[..], b, base);
  }

  method WriteChecks(g: Geometry, data: array<bv8>, result: array<bv8>, offset: nat)
    requires g.Valid() && data != result && offset == g.DataTotal() && g.check <= 255
    requires g.DataTotal() <= g.Total() <= data.Length == result.Length
    requires Written(g, data[..], result[..], offset) && ZeroFrom(result[..], offset)
    modifies result
    ensures IsInterleaved(g, data[..], result[..])
  {
    var coeff := new bv8[g.check];
    RsInit(g.check, coeff);
    assert coeff[..] == Generator(g.check)[1..];
    hide Generator, ChecksDone, IsInterleaved;
    ChecksStart(g, data[..], result[..]);
    var blockSize := g.len;
    var blockNum, from := 0, 0;
    while blockNum < g.blocks
      invariant blockNum <= g.blocks
      invariant coeff[..] == Generator(g.check)[1..]
      invariant from == g.DataStart(blockNum)
      invariant blockSize == if blockNum <= g.short then g.len else g.len + 1
      invariant ChecksDone(g, data[..], result[..], blockNum)
    {
      if blockNum == g.short { blockSize := blockSize + 1; }
      CheckBlock(g, coeff, data, from, blockSize, result, blockNum, offset + blockNum);
      from := from + blockSize;
      blockNum := blockNum + 1;
    }
    ChecksEnd(g, data[..], result[..]);
  }

  lemma Reach(g: Geometry, b: nat, base: nat, size: nat)
    requires g.Valid() && b < g.blocks && base == g.DataTotal() + b && g.Total() <= size
    ensures InReach(size, base, g.blocks, g.check)
  {
    BlockInReach(g, b, base);
    hide At;
  }

  lemma ChecksStart(g: Geometry, data: Poly, result: Poly)
    requires g.Valid() && |data| >= g.DataTotal()
    requires Written(g, data, result, g.DataTotal()) && ZeroFrom(result, g.DataTotal())
    ensures ChecksDone(g, data, result, 0)
  {
    hide CodewordAt;
  }

  lemma ChecksEnd(g: Geometry, data: Poly, result: Poly)
    requires g.Valid() && |data| >= g.DataTotal() && ChecksDone(g, data, result, g.blocks)
    ensures IsInterleaved(g, data, result)
  {
    hide CodewordAt;
    forall k: nat | k < g.Total() ensures g.PlaceAt(k).b < g.blocks { PlaceIsInverse(g, k); }
  }

  /** Splits the data into blocks, adds the check codewords and interleaves
      everything, in place of the data. */
  method Interleave(g: Geometry, data: array<bv8>)
    requires g.Valid() && g.check <= 255
    requires g.DataTotal() <= g.Total() <= data.Length
    modifies data
    ensures IsInterleaved(g, old(data[..]), data[..])
  {
    var result := new bv8[data.Length](_ => 0);
    ghost var codewords := data[..];
    assert Written(g, codewords, result[..], 0) && ZeroFrom(result[..], 0);
    hide IsInterleaved, Written, ZeroFrom;
    DataStartIs(g, g.blocks);
    var offset, i := 0, 0;
    while i < g.len
      invariant i <= g.len && offset == i * g.blocks
      invariant data[..] == codewords
      invariant Written(g, codewords, result[..], offset) && ZeroFrom(result[..], offset)
    {
      MulAdd(i, 1, g.blocks);
      offset := WriteRow(g, data, i, result, offset);
      i := i + 1;
    }
    offset := WriteLongRow(g, data, result, offset);
    WriteChecks(g, data, result, offset);
    ghost var out := result[..];
    i := 0;
    while i < data.Length
      invariant i <= data.Length
      invariant result[..] == out && data[..i] == out[..i]
    {
      data[i] := result[i];
      i := i + 1;
    }
    assert data[..] == out;
  }
}
