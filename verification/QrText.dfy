/** Text to data bits and back: mode, character count and the three packings of
    ISO/IEC 18004:2015 section 7.4.  The decoder is the reference; nothing in the
    firmware reads a symbol. */
module QrText {
  import opened Arith
  import opened QrBits
  import opened QrTables

  /** One byte of a C string. */
  type Byte = c: char | c as int < 256

  datatype Mode = Numeric | Alphanumeric | Byte8 {
    function Number(): nat {
      match this case Numeric => 0 case Alphanumeric => 1 case Byte8 => 2
    }
  }

  predicate IsDigit(c: Byte) { '0' <= c <= '9' }

  function GetAlphanumeric(c: Byte): (r: int)
    ensures -1 <= r < 45
  {
    if '0' <= c <= '9' then c as int - '0' as int
    else if 'A' <= c <= 'Z' then c as int - 'A' as int + 10
    else match c
      case ' ' => 36
      case '$' => 37
      case '%' => 38
      case '*' => 39
      case '+' => 40
      case '-' => 41
      case '.' => 42
      case '/' => 43
      case ':' => 44
      case _ => -1
  }

  function AlphanumericChar(v: nat): Byte
    requires v < 45
  {
    if v < 10 then (v + '0' as int) as char
    else if v < 36 then (v - 10 + 'A' as int) as char
    else [' ', '$', '%', '*', '+', '-', '.', '/', ':'][v - 36]
  }

  lemma AlphanumericRoundTrip(c: Byte)
    requires GetAlphanumeric(c) != -1
    ensures AlphanumericChar(GetAlphanumeric(c)) == c
  {
  }

  ghost predicate AllDigits(t: seq<Byte>) { forall i | 0 <= i < |t| :: IsDigit(t[i]) }

  ghost predicate AllAlphanumeric(t: seq<Byte>) { forall i | 0 <= i < |t| :: GetAlphanumeric(t[i]) != -1 }

  ghost function ModeOf(t: seq<Byte>): Mode {
    if AllDigits(t) then Numeric else if AllAlphanumeric(t) then Alphanumeric else Byte8
  }

  method IsNumeric(t: seq<Byte>) returns (r: bool)
    ensures r == AllDigits(t)
  {
    var length: nat := |t|;
    while length != 0
      invariant length <= |t|
      invariant forall i | length <= i < |t| :: IsDigit(t[i])
    {
      length := length - 1;
      var c := t[length];
      if c < '0' || c > '9' { return false; }
    }
    return true;
  }

  method IsAlphanumeric(t: seq<Byte>) returns (r: bool)
    ensures r == AllAlphanumeric(t)
  {
    var length: nat := |t|;
    while length != 0
      invariant length <= |t|
      invariant forall i | length <= i < |t| :: GetAlphanumeric(t[i]) != -1
    {
      length := length - 1;
      if GetAlphanumeric(t[length]) == -1 { return false; }
    }
    return true;
  }

  /** The width of the character count, unpacked from a table of three-bit
      entries; the entry 15 stands for 16. */
  function GetModeBits(version: nat, mode: Mode): (r: nat)
    requires 1 <= version <= 40
    ensures r == match mode
      case Numeric => if version <= 9 then 10 else if version <= 26 then 12 else 14
      case Alphanumeric => if version <= 9 then 9 else if version <= 26 then 11 else 13
      case Byte8 => if version <= 9 then 8 else 16
  {
    var info := 0x7bbb80a;
    var info := if version > 9 then info / 512 else info;
    var info := if version > 26 then info / 512 else info;
    assert info == if version <= 9 then 0x7bbb80a else if version <= 26 then 0x3dddc else 0x1ee;
    var entry := (match mode case Numeric => info case Alphanumeric => info / 8 case Byte8 => info / 64) % 8;
    if 8 + entry == 15 then 16 else 8 + entry
  }

  // ------------------------------------------------------------ the encoding

  function Digits(t: seq<Byte>): (v: nat)
    requires AllDigits(t)
    ensures v < Pow(10, |t|)
  {
    if |t| == 0 then 0
    else 10 * Digits(t[..|t| - 1]) + (t[|t| - 1] as int - '0' as int)
  }

  function NumericBits(t: seq<Byte>): Bits
    requires AllDigits(t)
  {
    if |t| >= 3 then BitsOf(Digits(t[..3]), 10) + NumericBits(t[3..])
    else if |t| == 0 then []
    else BitsOf(Digits(t), 3 * |t| + 1)
  }

  function AlphanumericBits(t: seq<Byte>): Bits
    requires AllAlphanumeric(t)
  {
    if |t| >= 2 then BitsOf(45 * GetAlphanumeric(t[0]) + GetAlphanumeric(t[1]), 11) + AlphanumericBits(t[2..])
    else if |t| == 0 then []
    else BitsOf(GetAlphanumeric(t[0]), 6)
  }

  function ByteBits(t: seq<Byte>): Bits {
    if |t| == 0 then [] else BitsOf(t[0] as int, 8) + ByteBits(t[1..])
  }

  ghost function Payload(t: seq<Byte>): Bits {
    match ModeOf(t)
    case Numeric => NumericBits(t)
    case Alphanumeric => AlphanumericBits(t)
    case Byte8 => ByteBits(t)
  }

  ghost function Header(t: seq<Byte>, version: nat): Bits
    requires 1 <= version <= 40
  {
    BitsOf(Pow(2, ModeOf(t).Number()), 4) + BitsOf(|t|, GetModeBits(version, ModeOf(t)))
  }

  ghost function EncodedText(t: seq<Byte>, version: nat): Bits
    requires 1 <= version <= 40
  {
    Header(t, version) + Payload(t)
  }

  // ---------------------------------------------------- the reference decoder

  datatype Option<+T> = None | Some(value: T)

  /** The n-digit decimal numeral of v. */
  function DigitString(v: nat, n: nat): (t: seq<Byte>)
    ensures |t| == n
  {
    if n == 0 then [] else DigitString(v / 10, n - 1) + [(v % 10 + '0' as int) as char]
  }

  function DecodeNumeric(b: Bits, n: nat): Option<seq<Byte>> {
    if n == 0 then Some([])
    else
      var k := if n >= 3 then 3 else n;
      var width := 3 * k + 1;
      if |b| < width then None
      else match DecodeNumeric(b[width..], n - k)
        case None => None
        case Some(rest) => Some(DigitString(ValueOf(b[..width]), k) + rest)
  }

  function DecodeAlphanumeric(b: Bits, n: nat): Option<seq<Byte>> {
    if n == 0 then Some([])
    else if n == 1 then
      if |b| < 6 || ValueOf(b[..6]) >= 45 then None else Some([AlphanumericChar(ValueOf(b[..6]))])
    else if |b| < 11 || ValueOf(b[..11]) >= 45 * 45 then None
    else match DecodeAlphanumeric(b[11..], n - 2)
      case None => None
      case Some(rest) =>
        var v := ValueOf(b[..11]);
        Some([AlphanumericChar(v / 45), AlphanumericChar(v % 45)] + rest)
  }

  function DecodeBytes(b: Bits, n: nat): Option<seq<Byte>> {
    if n == 0 then Some([])
    else if |b| < 8 then None
    else match DecodeBytes(b[8..], n - 1)
      case None => None
      case Some(rest) => assert Pow(2, 8) == 256 by { Pow2Of8(); } Some([ValueOf(b[..8]) as char] + rest)
  }

  lemma Pow2Of8()
    ensures Pow(2, 8) == 256
  {
    assert Pow(2, 4) == 16;
  }

  function DecodePayload(mode: Mode, b: Bits, n: nat): Option<seq<Byte>> {
    match mode
    case Numeric => DecodeNumeric(b, n)
    case Alphanumeric => DecodeAlphanumeric(b, n)
    case Byte8 => DecodeBytes(b, n)
  }

  /** Reads the mode, the count and that many characters; what follows is not looked at. */
  function DecodeText(b: Bits, version: nat): Option<seq<Byte>>
    requires 1 <= version <= 40
  {
    if |b| < 4 then None
    else
      var indicator := ValueOf(b[..4]);
      if indicator != 1 && indicator != 2 && indicator != 4 then None
      else
        var mode := if indicator == 1 then Numeric else if indicator == 2 then Alphanumeric else Byte8;
        var width := GetModeBits(version, mode);
        if |b| < 4 + width then None
        else DecodePayload(mode, b[4 + width..], ValueOf(b[4..4 + width]))
  }

  // -------------------------------------------------------------- round trips

  lemma ReadBack(v: nat, n: nat, rest: Bits)
    requires v < Pow(2, n)
    ensures ValueOf((BitsOf(v, n) + rest)[..n]) == v
    ensures (BitsOf(v, n) + rest)[n..] == rest
  {
    ValueOfBitsOf(v, n);
    assert (BitsOf(v, n) + rest)[..n] == BitsOf(v, n);
    DivUnique(v, Pow(2, n), 0, v);
  }

  lemma {:induction false} DigitStringOfDigits(t: seq<Byte>)
    requires AllDigits(t)
    ensures DigitString(Digits(t), |t|) == t
  {
    if |t| != 0 {
      DigitStringOfDigits(t[..|t| - 1]);
      assert t == t[..|t| - 1] + [t[|t| - 1]];
    }
  }

  lemma SmallPowers()
    ensures Pow(10, 0) == 1 && Pow(10, 1) == 10 && Pow(10, 2) == 100 && Pow(10, 3) == 1000
    ensures Pow(2, 4) == 16 && Pow(2, 6) == 64 && Pow(2, 7) == 128 && Pow(2, 10) == 1024 && Pow(2, 11) == 2048
  {
    assert Pow(10, 2) == 10 * Pow(10, 1);
    assert Pow(2, 4) == 16;
    assert Pow(2, 7) == 8 * Pow(2, 4);
    assert Pow(2, 10) == 8 * Pow(2, 7);
  }

  lemma {:induction false} NumericRoundTrip(t: seq<Byte>, rest: Bits)
    requires AllDigits(t)
    ensures DecodeNumeric(NumericBits(t) + rest, |t|) == Some(t)
  {
    hide BitsOf, ValueOf, DigitString, Digits, Pow;
    if |t| != 0 {
      var k := if |t| >= 3 then 3 else |t|;
      var w := 3 * k + 1;
      var front, tail := t[..k], t[k..];
      var code, more := BitsOf(Digits(front), w), NumericBits(tail) + rest;
      assert NumericBits(t) + rest == code + more by {
        if k < 3 { assert front == t && tail == []; }
      }
      SmallPowers();
      ReadBack(Digits(front), w, more);
      DigitStringOfDigits(front);
      NumericRoundTrip(tail, rest);
      assert DecodeNumeric(code + more, |t|) == Some(front + tail);
      assert front + tail == t;
    }
  }

  lemma {:induction false} AlphanumericTextRoundTrip(t: seq<Byte>, rest: Bits)
    requires AllAlphanumeric(t)
    ensures DecodeAlphanumeric(AlphanumericBits(t) + rest, |t|) == Some(t)
  {
    hide BitsOf, ValueOf, GetAlphanumeric, AlphanumericChar, Pow;
    SmallPowers();
    if |t| == 1 {
      AlphanumericRoundTrip(t[0]);
      ReadBack(GetAlphanumeric(t[0]), 6, rest);
      assert t == [t[0]];
    } else if |t| >= 2 {
      var a, b := GetAlphanumeric(t[0]), GetAlphanumeric(t[1]);
      var v := 45 * a + b;
      var code, more := BitsOf(v, 11), AlphanumericBits(t[2..]) + rest;
      assert AlphanumericBits(t) + rest == code + more;
      AlphanumericRoundTrip(t[0]);
      AlphanumericRoundTrip(t[1]);
      ReadBack(v, 11, more);
      AlphanumericTextRoundTrip(t[2..], rest);
      assert v / 45 == a && v % 45 == b;
      assert DecodeAlphanumeric(code + more, |t|) == Some([t[0], t[1]] + t[2..]);
      assert [t[0], t[1]] + t[2..] == t;
    }
  }

  lemma {:induction false} BytesRoundTrip(t: seq<Byte>, rest: Bits)
    ensures DecodeBytes(ByteBits(t) + rest, |t|) == Some(t)
  {
    hide BitsOf, ValueOf, Pow;
    if |t| != 0 {
      var code, more := BitsOf(t[0] as int, 8), ByteBits(t[1..]) + rest;
      Pow2Of8();
      assert ByteBits(t) + rest == code + more;
      ReadBack(t[0] as int, 8, more);
      BytesRoundTrip(t[1..], rest);
      assert DecodeBytes(code + more, |t|) == Some([t[0]] + t[1..]);
      assert [t[0]] + t[1..] == t;
    }
  }

  lemma PayloadRoundTrip(t: seq<Byte>, rest: Bits)
    ensures DecodePayload(ModeOf(t), Payload(t) + rest, |t|) == Some(t)
  {
    match ModeOf(t)
    case Numeric => NumericRoundTrip(t, rest);
    case Alphanumeric => AlphanumericTextRoundTrip(t, rest);
    case Byte8 => BytesRoundTrip(t, rest);
  }

  lemma Indicator(mode: Mode)
    ensures Pow(2, mode.Number()) == match mode case Numeric => 1 case Alphanumeric => 2 case Byte8 => 4
  {
    assert Pow(2, 2) == 2 * Pow(2, 1);
  }

  /** Whatever follows, the decoder returns the text. */
  lemma TextRoundTrip(t: seq<Byte>, version: nat, rest: Bits)
    requires 1 <= version <= 40
    requires |t| < Pow(2, GetModeBits(version, ModeOf(t)))
    ensures DecodeText(EncodedText(t, version) + rest, version) == Some(t)
  {
    hide BitsOf, ValueOf, Pow, GetModeBits, DecodePayload, Payload, ModeOf;
    var mode := ModeOf(t);
    var width := GetModeBits(version, mode);
    var b := EncodedText(t, version) + rest;
    var indicator := Pow(2, mode.Number());
    var more := Payload(t) + rest;
    var tail := BitsOf(|t|, width) + more;
    SmallPowers();
    Indicator(mode);
    assert b == BitsOf(indicator, 4) + tail;
    ReadBack(indicator, 4, tail);
    ReadBack(|t|, width, more);
    assert b[4..4 + width] == tail[..width];
    assert b[4 + width..] == tail[width..];
    PayloadRoundTrip(t, rest);
  }

  // ---------------------------------------- the count fits when the text does

  lemma {:induction false} NumericLength(t: seq<Byte>)
    requires AllDigits(t)
    ensures 3 * |NumericBits(t)| >= 10 * |t|
  {
    hide BitsOf, Digits;
    if |t| >= 3 { NumericLength(t[3..]); }
  }

  lemma {:induction false} AlphanumericLength(t: seq<Byte>)
    requires AllAlphanumeric(t)
    ensures 2 * |AlphanumericBits(t)| >= 11 * |t|
  {
    hide BitsOf, GetAlphanumeric;
    if |t| >= 2 { AlphanumericLength(t[2..]); }
  }

  lemma {:induction false} ByteLength(t: seq<Byte>)
    ensures |ByteBits(t)| == 8 * |t|
  {
    hide BitsOf;
    if |t| != 0 { ByteLength(t[1..]); }
  }

  /** No text that fits a symbol's data codewords overruns the count field. */
  lemma CountFits(t: seq<Byte>, version: nat)
    requires 1 <= version <= 40
    requires |EncodedText(t, version)| <= 8 * Capacity(version)
    ensures |t| < Pow(2, GetModeBits(version, ModeOf(t)))
  {
    SmallPowers();
    Pow2Of8();
    assert Pow(2, 9) == 2 * Pow(2, 8);
    assert Pow(2, 12) == 2 * Pow(2, 11);
    assert Pow(2, 14) == 4 * Pow(2, 12) && Pow(2, 13) == 2 * Pow(2, 12);
    assert Pow(2, 16) == 4 * Pow(2, 14);
    hide BitsOf, Pow, NumericBits, AlphanumericBits, ByteBits;
    match ModeOf(t)
    case Numeric => NumericLength(t);
    case Alphanumeric => AlphanumericLength(t);
    case Byte8 => ByteLength(t);
  }

  // ------------------------------------------------------------------ the code

  /** Where a writer stands that has to add `whole` to `start` and still owes
      `rest`: either all before `rest` is there, or the whole never fitted. */
  ghost predicate Owes(b: BitBucket, start: Bits, whole: Bits, rest: Bits)
    reads b, b.data
  {
    && b.Valid()
    && (!b.overflowed ==> b.Contents() + rest == start + whole)
    && (b.overflowed ==> |start| + |whole| > 8 * b.data.Length)
  }

  /** `added` was appended in full, or the bucket is marked and it did not fit. */
  ghost predicate Appended(b: BitBucket, start: Bits, added: Bits)
    reads b, b.data
  {
    && b.Valid()
    && b.overflowed == (|start| + |added| > 8 * b.data.Length)
    && (!b.overflowed ==> b.Contents() == start + added)
  }

  /** One append inside a longer write. */
  method Pay(b: BitBucket, val: nat, width: nat, ghost start: Bits, ghost whole: Bits, ghost rest: Bits)
    requires width <= 32 && Owes(b, start, whole, BitsOf(val, width) + rest)
    modifies b, b.data
    ensures Owes(b, start, whole, rest)
  {
    hide BitsOf;
    ghost var before := b.Contents();
    b.AppendBits(val, width);
    assert (before + BitsOf(val, width)) + rest == before + (BitsOf(val, width) + rest);
  }

  lemma Settled(b: BitBucket, start: Bits, whole: Bits)
    requires Owes(b, start, whole, [])
    ensures Appended(b, start, whole)
  {
    assert !b.overflowed ==> b.Contents() + [] == b.Contents();
  }

  lemma NumericGroups(t: seq<Byte>)
    requires AllDigits(t)
    ensures |t| >= 3 ==> NumericBits(t) == BitsOf(Digits(t[..3]), 10) + NumericBits(t[3..])
    ensures 0 < |t| < 3 ==> NumericBits(t) == BitsOf(Digits(t), 3 * |t| + 1) + []
    ensures |t| == 0 ==> NumericBits(t) == []
  {
  }

  lemma DigitsStep(t: seq<Byte>, i: nat, j: nat)
    requires AllDigits(t) && i <= j < |t|
    ensures Digits(t[i..j + 1]) == Digits(t[i..j]) * 10 + (t[j] as int - '0' as int)
    ensures Digits(t[i..i]) == 0
  {
    assert t[i..j + 1][..j - i] == t[i..j];
  }

  method AppendNumeric(b: BitBucket, t: seq<Byte>, ghost start: Bits, ghost whole: Bits)
    requires AllDigits(t) && Owes(b, start, whole, NumericBits(t))
    modifies b, b.data
    ensures Owes(b, start, whole, [])
  {
    hide BitsOf, Owes, NumericBits, Digits;
    var accumData, accumCount := 0, 0;
    var i := 0;
    assert t[0..] == t;
    if |t| > 0 { DigitsStep(t, 0, 0); } else { NumericGroups(t); }
    while i < |t|
      invariant accumCount <= i <= |t| && accumCount < 3
      invariant i < |t| || accumCount > 0 ==> accumData == Digits(t[i - accumCount..i])
      invariant Owes(b, start, whole, NumericBits(t[i - accumCount..]))
    {
      ghost var from := i - accumCount;
      DigitsStep(t, from, i);
      accumData := accumData * 10 + (t[i] as int - '0' as int);
      accumCount := accumCount + 1;
      i := i + 1;
      if accumCount == 3 {
        NumericGroups(t[from..]);
        assert t[from..][..3] == t[from..i] && t[from..][3..] == t[i..];
        Pay(b, accumData, 10, start, whole, NumericBits(t[i..]));
        accumData := 0;
        accumCount := 0;
        if i < |t| { DigitsStep(t, i, i); }
      }
    }
    NumericGroups(t[i - accumCount..]);
    if accumCount > 0 {
      assert t[i - accumCount..i] == t[i - accumCount..];
      Pay(b, accumData, accumCount * 3 + 1, start, whole, []);
    }
  }

  method AppendAlphanumeric(b: BitBucket, t: seq<Byte>, ghost start: Bits, ghost whole: Bits)
    requires AllAlphanumeric(t) && Owes(b, start, whole, AlphanumericBits(t))
    modifies b, b.data
    ensures Owes(b, start, whole, [])
  {
    hide BitsOf, GetAlphanumeric;
    var accumData: nat, accumCount := 0, 0;
    var i := 0;
    while i < |t|
      invariant accumCount <= i <= |t| && accumCount < 2
      invariant accumData == if accumCount == 0 then 0 else GetAlphanumeric(t[i - 1])
      invariant Owes(b, start, whole, AlphanumericBits(t[i - accumCount..]))
    {
      ghost var from := i - accumCount;
      accumData := accumData * 45 + GetAlphanumeric(t[i]);
      accumCount := accumCount + 1;
      i := i + 1;
      if accumCount == 2 {
        assert t[from..][2..] == t[i..];
        Pay(b, accumData, 11, start, whole, AlphanumericBits(t[i..]));
        accumData := 0;
        accumCount := 0;
      }
    }
    if accumCount > 0 {
      assert BitsOf(accumData, 6) + [] == AlphanumericBits(t[i - accumCount..]);
      Pay(b, accumData, 6, start, whole, []);
    }
  }

  method AppendByteText(b: BitBucket, t: seq<Byte>, ghost start: Bits, ghost whole: Bits)
    requires Owes(b, start, whole, ByteBits(t))
    modifies b, b.data
    ensures Owes(b, start, whole, [])
  {
    hide BitsOf;
    var i := 0;
    while i < |t|
      invariant i <= |t|
      invariant Owes(b, start, whole, ByteBits(t[i..]))
    {
      assert t[i..][1..] == t[i + 1..];
      Pay(b, t[i] as int, 8, start, whole, ByteBits(t[i + 1..]));
      i := i + 1;
    }
  }

  method AppendHeader(b: BitBucket, mode: Mode, t: seq<Byte>, version: nat, ghost start: Bits, ghost rest: Bits)
    requires 1 <= version <= 40 && mode == ModeOf(t)
    requires Owes(b, start, EncodedText(t, version), EncodedText(t, version)) && rest == Payload(t)
    modifies b, b.data
    ensures Owes(b, start, EncodedText(t, version), rest)
  {
    hide BitsOf, GetModeBits, ModeOf, Payload;
    ghost var whole := EncodedText(t, version);
    Indicator(mode);
    var width := GetModeBits(version, mode);
    ghost var count := BitsOf(|t|, width);
    assert whole == BitsOf(Pow(2, mode.Number()), 4) + (count + rest);
    Pay(b, Pow(2, mode.Number()), 4, start, whole, count + rest);
    Pay(b, |t|, width, start, whole, rest);
  }

  /** Appends mode, count and text; tells by the bucket's mark whether it fitted. */
  method EncodeDataCodewords(b: BitBucket, t: seq<Byte>, version: nat) returns (mode: Mode)
    requires 1 <= version <= 40 && b.Valid() && !b.overflowed
    modifies b, b.data
    ensures mode == ModeOf(t)
    ensures Appended(b, old(b.Contents()), EncodedText(t, version))
  {
    hide EncodedText, Appended, NumericBits, AlphanumericBits, ByteBits;
    ghost var start, whole := b.Contents(), EncodedText(t, version);
    var numeric := IsNumeric(t);
    if numeric {
      mode := Numeric;
      AppendHeader(b, mode, t, version, start, NumericBits(t));
      AppendNumeric(b, t, start, whole);
    } else {
      var alphanumeric := IsAlphanumeric(t);
      if alphanumeric {
        mode := Alphanumeric;
        AppendHeader(b, mode, t, version, start, AlphanumericBits(t));
        AppendAlphanumeric(b, t, start, whole);
      } else {
        mode := Byte8;
        AppendHeader(b, mode, t, version, start, ByteBits(t));
        AppendByteText(b, t, start, whole);
      }
    }
    Settled(b, start, whole);
  }
}
