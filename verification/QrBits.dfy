/** Bits in bytes, most significant first, and the bit bucket that the encoder
    uses both as an append-only bit stream and as a square grid of modules. */
module QrBits {
  import opened Arith

  type Bits = seq<bool>

  /** 1 << (7 - k). */
  function Mask(k: nat): bv8
    requires k < 8
  {
    if k == 0 then 0x80 else if k == 1 then 0x40 else if k == 2 then 0x20 else if k == 3 then 0x10
    else if k == 4 then 0x08 else if k == 5 then 0x04 else if k == 6 then 0x02 else 0x01
  }

  function TestBit(b: bv8, k: nat): bool
    requires k < 8
  {
    b & Mask(k) != 0
  }

  function WithBit(b: bv8, k: nat, on: bool): bv8
    requires k < 8
  {
    if on then b | Mask(k) else b & !Mask(k)
  }

  lemma TestWithBit(b: bv8, k: nat, on: bool, j: nat)
    requires k < 8 && j < 8
    ensures TestBit(WithBit(b, k, on), j) == if j == k then on else TestBit(b, j)
  {
    if on {
      assert (b | Mask(k)) & Mask(j) == (b & Mask(j)) | (Mask(k) & Mask(j));
    } else {
      assert (b & !Mask(k)) & Mask(j) == (b & Mask(j)) & !Mask(k);
    }
  }

  lemma BitsDecideByte(a: bv8, b: bv8)
    requires forall k: nat | k < 8 :: TestBit(a, k) == TestBit(b, k)
    ensures a == b
  {
    assert TestBit(a, 0) == TestBit(b, 0) && TestBit(a, 1) == TestBit(b, 1);
    assert TestBit(a, 2) == TestBit(b, 2) && TestBit(a, 3) == TestBit(b, 3);
    assert TestBit(a, 4) == TestBit(b, 4) && TestBit(a, 5) == TestBit(b, 5);
    assert TestBit(a, 6) == TestBit(b, 6) && TestBit(a, 7) == TestBit(b, 7);
  }

  /** Bit k of a byte string. */
  function BitAt(s: seq<bv8>, k: nat): bool
    requires k < 8 * |s|
  {
    TestBit(s[k / 8], k % 8)
  }

  function BitsIn(s: seq<bv8>): (r: Bits)
    ensures |r| == 8 * |s|
  {
    seq(8 * |s|, k requires 0 <= k < 8 * |s| => BitAt(s, k))
  }

  lemma SetOneBit(s: seq<bv8>, k: nat, on: bool)
    requires k < 8 * |s|
    ensures BitsIn(s[k / 8 := WithBit(s[k / 8], k % 8, on)]) == BitsIn(s)[k := on]
  {
    var t := s[k / 8 := WithBit(s[k / 8], k % 8, on)];
    forall j | 0 <= j < 8 * |s| ensures BitsIn(t)[j] == BitsIn(s)[k := on][j] {
      if j / 8 == k / 8 {
        TestWithBit(s[k / 8], k % 8, on, j % 8);
        assert j % 8 == k % 8 ==> j == k;
      }
      hide WithBit, TestBit;
    }
  }

  lemma ClearBitOr(b: bv8, k: nat, on: bool)
    requires k < 8 && !TestBit(b, k)
    ensures b | (if on then Mask(k) else 0) == WithBit(b, k, on)
  {
    assert b & Mask(k) == 0;
    if !on { assert b & !Mask(k) == b; }
  }

  /** The byte whose first n bits are those of b. */
  function ByteOf(b: Bits, n: nat): bv8
    requires n <= 8 <= |b|
  {
    if n == 0 then 0 else WithBit(ByteOf(b, n - 1), n - 1, b[n - 1])
  }

  lemma {:induction false} TestByteOf(b: Bits, n: nat, k: nat)
    requires n <= 8 <= |b| && k < 8
    ensures TestBit(ByteOf(b, n), k) == (k < n && b[k])
  {
    assert !TestBit(0, k);
    hide WithBit, TestBit;
    if n != 0 {
      TestByteOf(b, n - 1, k);
      TestWithBit(ByteOf(b, n - 1), n - 1, b[n - 1], k);
    }
  }

  /** The whole bytes at the front of a bit string. */
  function BytesOf(b: Bits): (s: seq<bv8>)
    ensures |s| == |b| / 8
  {
    seq(|b| / 8, i requires 0 <= i < |b| / 8 => ByteOf(b[8 * i..8 * i + 8], 8))
  }

  /** Cutting a byte string's bits short keeps its whole bytes. */
  lemma BytesOfBitsIn(s: seq<bv8>, n: nat)
    requires n <= 8 * |s|
    ensures BytesOf(BitsIn(s)[..n]) == s[..n / 8]
  {
    var b := BitsIn(s)[..n];
    forall i: nat | i < n / 8 ensures BytesOf(b)[i] == s[i] {
      var w := b[8 * i..8 * i + 8];
      forall k: nat | k < 8 ensures TestBit(ByteOf(w, 8), k) == TestBit(s[i], k) {
        TestByteOf(w, 8, k);
        assert w[k] == BitsIn(s)[8 * i + k];
        assert (8 * i + k) / 8 == i && (8 * i + k) % 8 == k;
      }
      hide ByteOf, TestBit;
      BitsDecideByte(ByteOf(w, 8), s[i]);
    }
  }

  // -------------------------------------------------------- numbers as bits

  /** The n low bits of v, most significant first. */
  function BitsOf(v: nat, n: nat): (r: Bits)
    ensures |r| == n
  {
    if n == 0 then [] else [v / Pow(2, n - 1) % 2 == 1] + BitsOf(v, n - 1)
  }

  function ValueOf(b: Bits): (v: nat)
    ensures v < Pow(2, |b|)
  {
    if |b| == 0 then 0 else (if b[0] then Pow(2, |b| - 1) else 0) + ValueOf(b[1..])
  }

  lemma TopBit(v: nat, p: nat)
    requires p >= 1
    ensures v % (2 * p) == (if v / p % 2 == 1 then p else 0) + v % p
  {
    var q, r := v / p, v % p;
    var h, b := q / 2, q % 2;
    DivMod(v, p);
    MulAdd(2 * h, b, p);
    MulAssoc(h, 2, p);
    DivUnique(v, 2 * p, h, (if b == 1 then p else 0) + r);
  }

  lemma {:induction false} ValueOfBitsOf(v: nat, n: nat)
    ensures ValueOf(BitsOf(v, n)) == v % Pow(2, n)
  {
    if n != 0 {
      ValueOfBitsOf(v, n - 1);
      TopBit(v, Pow(2, n - 1));
      assert BitsOf(v, n)[1..] == BitsOf(v, n - 1);
    }
  }

  // ----------------------------------------------------------- the bucket

  lemma BitsOfSplit(v: nat, i: nat)
    ensures BitsOf(v, i + 1) == [v / Pow(2, i) % 2 == 1] + BitsOf(v, i)
    ensures BitsOf(v, 0) == []
  {
  }

  /** A square of modules, row by row. */
  type Grid = seq<seq<bool>>

  predicate IsGrid(g: Grid, size: nat) {
    |g| == size && forall y | 0 <= y < size :: |g[y]| == size
  }

  function Put(g: Grid, x: nat, y: nat, on: bool): (r: Grid)
    requires IsGrid(g, |g|) && x < |g| && y < |g|
    ensures IsGrid(r, |g|)
  {
    g[y := g[y][x := on]]
  }

  function Offset(size: nat, x: nat, y: nat): nat { y * size + x }

  lemma OffsetInside(size: nat, x: nat, y: nat, bytes: nat)
    requires x < size && y < size && size * size <= 8 * bytes
    ensures Offset(size, x, y) < 8 * bytes
  {
    MulStrict(y, size, size);
  }

  lemma OffsetApart(size: nat, x: nat, y: nat, x': nat, y': nat)
    requires x < size && x' < size && Offset(size, x, y) == Offset(size, x', y')
    ensures x == x' && y == y'
  {
    DivUnique(y * size + x, size, y, x);
    DivUnique(y' * size + x', size, y', x');
  }

  function GridOf(s: seq<bv8>, size: nat): (g: Grid)
    requires size * size <= 8 * |s|
    ensures IsGrid(g, size)
  {
    seq(size, y requires 0 <= y < size =>
      seq(size, x requires 0 <= x < size => (OffsetInside(size, x, y, |s|); BitAt(s, Offset(size, x, y)))))
  }

  lemma SetOneModule(s: seq<bv8>, size: nat, x: nat, y: nat, on: bool)
    requires size * size <= 8 * |s| && x < size && y < size
    requires Offset(size, x, y) < 8 * |s|
    ensures var k := Offset(size, x, y);
      GridOf(s[k / 8 := WithBit(s[k / 8], k % 8, on)], size) == Put(GridOf(s, size), x, y, on)
  {
    var k := Offset(size, x, y);
    var t := s[k / 8 := WithBit(s[k / 8], k % 8, on)];
    SetOneBit(s, k, on);
    hide Offset, WithBit, TestBit;
    var g, h := GridOf(t, size), Put(GridOf(s, size), x, y, on);
    forall y' | 0 <= y' < size ensures g[y'] == h[y'] {
      forall x' | 0 <= x' < size ensures g[y'][x'] == h[y'][x'] {
        OffsetInside(size, x', y', |s|);
        var k' := Offset(size, x', y');
        assert BitsIn(t)[k'] == BitsIn(s)[k := on][k'];
        if k' == k { OffsetApart(size, x, y, x', y'); }
      }
    }
  }

  class BitBucket {
    var bitOffsetOrWidth: nat
    var overflowed: bool
    const data: array<bv8>

    /** As a stream: nothing is set past the write position. */
    ghost predicate Valid()
      reads this, data
    {
      && bitOffsetOrWidth <= 8 * data.Length
      && forall k | bitOffsetOrWidth <= k < 8 * data.Length :: !BitsIn(data[..])[k]
    }

    ghost function Contents(): (r: Bits)
      requires Valid()
      reads this, data
      ensures |r| == bitOffsetOrWidth
    {
      BitsIn(data[..])[..bitOffsetOrWidth]
    }

    /** As a grid of `bitOffsetOrWidth` modules a side. */
    ghost predicate ValidGrid()
      reads this
    {
      bitOffsetOrWidth * bitOffsetOrWidth <= 8 * data.Length
    }

    ghost function Modules(): (g: Grid)
      requires ValidGrid()
      reads this, data
      ensures IsGrid(g, bitOffsetOrWidth)
    {
      GridOf(data[..], bitOffsetOrWidth)
    }

    /** bb_initBuffer and bb_initGrid differ only in the number they store. */
    constructor (buffer: array<bv8>, offsetOrWidth: nat)
      modifies buffer
      ensures data == buffer && bitOffsetOrWidth == offsetOrWidth && !overflowed
      ensures forall k | 0 <= k < buffer.Length :: buffer[k] == 0
    {
      data := buffer;
      bitOffsetOrWidth := offsetOrWidth;
      overflowed := false;
      new;
      for i := 0 to buffer.Length
        invariant bitOffsetOrWidth == offsetOrWidth && !overflowed
        invariant forall k | 0 <= k < i :: buffer[k] == 0
      {
        buffer[i] := 0;
      }
    }

    /** data[offset >> 3] |= on << (7 - (offset & 7)). */
    method OrBit(offset: nat, on: bool)
      requires offset < 8 * data.Length && !BitsIn(data[..])[offset]
      modifies data
      ensures BitsIn(data[..]) == BitsIn(old(data[..]))[offset := on]
    {
      ghost var bytes := data[..];
      SetOneBit(bytes, offset, on);
      ClearBitOr(bytes[offset / 8], offset % 8, on);
      data[offset / 8] := data[offset / 8] | (if on then Mask(offset % 8) else 0);
      hide WithBit, TestBit, Mask, BitsIn;
      assert data[..] == bytes[offset / 8 := WithBit(bytes[offset / 8], offset % 8, on)];
    }

    method AppendBits(val: nat, length: nat)
      requires Valid() && length <= 32
      modifies this, data
      ensures Valid()
      ensures old(bitOffsetOrWidth) + length > 8 * data.Length ==>
        overflowed && Contents() == old(Contents())
      ensures old(bitOffsetOrWidth) + length <= 8 * data.Length ==>
        overflowed == old(overflowed) && Contents() == old(Contents()) + BitsOf(val, length)
    {
      hide BitsIn, BitsOf;
      var offset := bitOffsetOrWidth;
      if offset + length > 8 * data.Length {
        overflowed := true;
        return;
      }
      ghost var written := Contents();
      BitsOfSplit(val, 0);
      var i := length - 1;
      while i >= 0
        invariant -1 <= i < length
        invariant offset == old(bitOffsetOrWidth) + (length - 1 - i) && offset <= 8 * data.Length
        invariant bitOffsetOrWidth == old(bitOffsetOrWidth) && overflowed == old(overflowed)
        invariant written == BitsIn(data[..])[..offset]
        invariant written + BitsOf(val, i + 1) == old(Contents()) + BitsOf(val, length)
        invariant forall k | offset <= k < 8 * data.Length :: !BitsIn(data[..])[k]
      {
        var on := val / Pow(2, i) % 2 == 1;
        BitsOfSplit(val, i);
        OrBit(offset, on);
        assert (written + [on]) + BitsOf(val, i) == written + ([on] + BitsOf(val, i));
        written := written + [on];
        i := i - 1;
        offset := offset + 1;
      }
      bitOffsetOrWidth := offset;
    }

    method SetBit(x: nat, y: nat, on: bool)
      requires ValidGrid() && x < bitOffsetOrWidth && y < bitOffsetOrWidth
      modifies data
      ensures Modules() == Put(old(Modules()), x, y, on)
    {
      OffsetInside(bitOffsetOrWidth, x, y, data.Length);
      SetOneModule(data[..], bitOffsetOrWidth, x, y, on);
      hide Offset, WithBit, GridOf, Put;
      var offset := Offset(bitOffsetOrWidth, x, y);
      ghost var bytes := data[..];
      data[offset / 8] := WithBit(data[offset / 8], offset % 8, on);
      assert data[..] == bytes[offset / 8 := WithBit(bytes[offset / 8], offset % 8, on)];
    }

    method GetBit(x: nat, y: nat) returns (on: bool)
      requires ValidGrid() && x < bitOffsetOrWidth && y < bitOffsetOrWidth
      ensures on == Modules()[y][x]
    {
      OffsetInside(bitOffsetOrWidth, x, y, data.Length);
      var offset := Offset(bitOffsetOrWidth, x, y);
      on := TestBit(data[offset / 8], offset % 8);
    }

    method InvertBit(x: nat, y: nat, invert: bool)
      requires ValidGrid() && x < bitOffsetOrWidth && y < bitOffsetOrWidth
      modifies data
      ensures Modules() == Put(old(Modules()), x, y, old(Modules()[y][x]) != invert)
    {
      var on := GetBit(x, y);
      SetBit(x, y, on != invert);
    }
  }
}
