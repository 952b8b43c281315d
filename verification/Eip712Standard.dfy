/** EIP-712 and EIP-55 in their own terms: spellings, words, texts and pages. */
module Eip712Standard {
  import AbiStatic
  import opened Arith
  import opened Bytes
  import opened Cbor
  import opened Decimal
  import opened Eip712
  import opened Eip712Types
  import opened Eip712Walk

  // --------------------------------------------------------- type spellings

  function Printed(n: nat): (s: seq<u8>)
    requires n <= 256
  {
    if n < 10 then [48 + n] else if n < 100 then [48 + n / 10, 48 + n % 10] else [48 + n / 100, 48 + n / 10 % 10, 48 + n % 10]
  }

  /** A type whose values are single words. */
  predicate IsBasic(t: AbiType) {
    match t
    case AbiBytesN(size) => 1 <= size <= 32
    case AbiUint(bits) => 8 <= bits <= 256 && bits % 8 == 0
    case AbiInt(bits) => 8 <= bits <= 256 && bits % 8 == 0
    case AbiStruct(_) => false
    case AbiUnsupported => false
    case _ => true
  }

  /** The letters of a type name, and the number behind them if it has one. */
  function Stem(t: AbiType): seq<u8>
    requires IsBasic(t)
  {
    match t
    case AbiAddress => [97, 100, 100, 114, 101, 115, 115]
    case AbiBool => [98, 111, 111, 108]
    case AbiString => [115, 116, 114, 105, 110, 103]
    case AbiBytes => [98, 121, 116, 101, 115]
    case AbiBytesN(_) => [98, 121, 116, 101, 115]
    case AbiUint(_) => [117, 105, 110, 116]
    case AbiInt(_) => [105, 110, 116]
  }

  function Width(t: AbiType): Option<nat>
    requires IsBasic(t)
  {
    match t
    case AbiBytesN(size) => Some(size)
    case AbiUint(bits) => Some(bits)
    case AbiInt(bits) => Some(bits)
    case _ => None
  }

  function Spelling(t: AbiType): seq<u8>
    requires IsBasic(t)
  {
    Stem(t) + if Width(t).Some? then Printed(Width(t).value) else []
  }

  lemma PrintedIsRead(n: nat)
    requires 1 <= n <= 256
    ensures NumberOf(Printed(n)) == Some(n) && BRACKET !in Printed(n)
  {
    var s := Printed(n);
    assert NumberOf([]) == Some(0);
    if n < 10 {
      assert s[..0] == [];
    } else if n < 100 {
      assert s[..1] == [48 + n / 10] && s[..1][..0] == [];
      assert NumberOf(s[..1]) == Some(n / 10);
    } else {
      assert s[..2] == [48 + n / 100, 48 + n / 10 % 10] && s[..2][..1] == [48 + n / 100] && s[..2][..1][..0] == [];
      assert NumberOf(s[..2][..1]) == Some(n / 100);
      assert NumberOf(s[..2]) == Some(n / 10);
    }
  }

  lemma AddressName() ensures Ascii("address") == Stem(AbiAddress) { AsciiIs("address", Stem(AbiAddress)); }

  lemma BoolName() ensures Ascii("bool") == Stem(AbiBool) { AsciiIs("bool", Stem(AbiBool)); }

  lemma StringName() ensures Ascii("string") == Stem(AbiString) { AsciiIs("string", Stem(AbiString)); }

  lemma BytesName() ensures Ascii("bytes") == Stem(AbiBytes) { AsciiIs("bytes", Stem(AbiBytes)); }

  lemma UintName() ensures Ascii("uint") == Stem(AbiUint(8)) { AsciiIs("uint", Stem(AbiUint(8))); }

  lemma IntName() ensures Ascii("int") == Stem(AbiInt(8)) { AsciiIs("int", Stem(AbiInt(8))); }

  /** The names as the code spells them. */
  lemma NamesAreStems()
    ensures Ascii("address") == Stem(AbiAddress) && Ascii("bool") == Stem(AbiBool)
    ensures Ascii("string") == Stem(AbiString) && Ascii("bytes") == Stem(AbiBytes)
    ensures Ascii("uint") == Stem(AbiUint(8)) && Ascii("int") == Stem(AbiInt(8))
  {
    hide *;
    AddressName();
    BoolName();
    StringName();
    BytesName();
    UintName();
    IntName();
  }

  lemma StemsDiffer()
    ensures |Stem(AbiAddress)| == 7 && |Stem(AbiBool)| == 4 && |Stem(AbiString)| == 6 && |Stem(AbiBytes)| == 5
    ensures |Stem(AbiUint(8))| == 4 && |Stem(AbiInt(8))| == 3
    ensures Stem(AbiAddress)[0] == 97 && Stem(AbiBool)[0] == 98 && Stem(AbiString)[0] == 115
    ensures Stem(AbiBytes)[0] == 98 && Stem(AbiUint(8))[0] == 117 && Stem(AbiInt(8))[0] == 105
    ensures Stem(AbiBool)[1] == 111 && Stem(AbiBytes)[1] == 121
    ensures forall t: AbiType | IsBasic(t) :: BRACKET !in Stem(t) && |Stem(t)| > 1
  {}

  /** Every elementary type is read from its spelling, whatever the table says. */
  lemma SpellingIsRead(table: Table, t: AbiType)
    requires IsBasic(t)
    ensures Elementary(Spelling(t)) == Some(t) && Classify(table, Spelling(t)) == t
  {
    if Width(t).None? {
      assert Spelling(t) == Stem(t) + [] == Stem(t);
      PlainIsRead(t);
    } else {
      SizedIsRead(t, Width(t).value, Stem(t));
    }
  }

  lemma PlainIsRead(t: AbiType)
    requires IsBasic(t) && Width(t).None?
    ensures Elementary(Stem(t)) == Some(t)
  {
    hide Stem, Ascii, NumberOf;
    NamesAreStems();
    StemsDiffer();
  }

  /** A stem with a number behind it. */
  lemma NumberBehind(stem: seq<u8>, n: nat)
    requires |stem| > 1 && BRACKET !in stem && 1 <= n <= 256
    ensures var s := stem + Printed(n);
      |s| > |stem| && s[0] == stem[0] && s[1] == stem[1] && s[..|stem|] == stem && BRACKET !in s
      && TrailingNumber(s, |stem|) == Some(n)
  {
    PrintedIsRead(n);
    assert (stem + Printed(n))[|stem|..] == Printed(n);
    hide NumberOf;
  }

  lemma SizedIsRead(t: AbiType, n: nat, stem: seq<u8>)
    requires IsBasic(t) && Width(t) == Some(n) && stem == Stem(t)
    ensures Elementary(stem + Printed(n)) == Some(t)
  {
    assert 1 <= n <= 256;
    hide *;
    StemIsShared(t);
    StemsDiffer();
    NumberBehind(stem, n);
    SizedSpelling(t, n, stem, stem + Printed(n));
  }

  lemma SizedSpelling(t: AbiType, n: nat, stem: seq<u8>, s: seq<u8>)
    requires IsBasic(t) && Width(t) == Some(n) && stem == Stem(t) && |s| > |stem| > 1
    requires s[0] == stem[0] && s[1] == stem[1] && s[..|stem|] == stem && BRACKET !in s && TrailingNumber(s, |stem|) == Some(n)
    ensures Elementary(s) == Some(t)
  {
    StemIsShared(t);
    hide Stem, Ascii, TrailingNumber;
    NamesAreStems();
    StemsDiffer();
  }

  lemma StemIsShared(t: AbiType)
    requires IsBasic(t)
    ensures t.AbiBytesN? ==> Stem(t) == Stem(AbiBytes)
    ensures t.AbiUint? ==> Stem(t) == Stem(AbiUint(8))
    ensures t.AbiInt? ==> Stem(t) == Stem(AbiInt(8))
  {}

  // ------------------------------------------------- and nothing else is read

  lemma {:induction false} OnlyNumbersAreRead(s: seq<u8>, n: nat) returns (zeros: nat)
    requires NumberOf(s) == Some(n)
    ensures zeros <= |s| && (forall i | 0 <= i < zeros :: s[i] == 48)
    ensures n <= 256 && s[zeros..] == if n == 0 then [] else Printed(n)
  {
    if |s| == 0 {
      zeros := 0;
    } else {
      var before, c := NumberOf(s[..|s| - 1]).value, s[|s| - 1];
      zeros := OnlyNumbersAreRead(s[..|s| - 1], before);
      DigitBehind(before, c - 48);
      if before == 0 && c == 48 {
        zeros := |s|;
      }
      hide Printed, NumberOf;
      if before > 0 || c > 48 {
        assert s[zeros..] == s[..|s| - 1][zeros..] + [c];
      }
    }
  }

  lemma DigitBehind(n: nat, d: nat)
    requires d < 10 && 10 * n + d <= 256
    ensures n > 0 ==> Printed(10 * n + d) == Printed(n) + [48 + d]
    ensures Printed(d) == [48 + d]
  {}

  function Noughts(n: nat): (s: seq<u8>)
    ensures |s| == n
  {
    seq(n, _ => 48)
  }

  lemma NumberIsSpelled(kind: seq<u8>, prefix: nat, n: nat) returns (zeros: nat)
    requires TrailingNumber(kind, prefix) == Some(n) && n > 0
    ensures prefix <= |kind| && n <= 256 && kind == kind[..prefix] + Noughts(zeros) + Printed(n)
  {
    zeros := OnlyNumbersAreRead(kind[prefix..], n);
    assert kind[prefix..][..zeros] == Noughts(zeros);
    assert kind[prefix..] == kind[prefix..][..zeros] + kind[prefix..][zeros..];
    assert kind == kind[..prefix] + kind[prefix..];
    hide NumberOf, Printed;
    Joined(kind[..prefix], Noughts(zeros), Printed(n));
  }

  /** Nothing else is read as an elementary type, but for zeros before the number. */
  lemma OnlySpellingsAreRead(kind: seq<u8>, t: AbiType) returns (zeros: nat)
    requires Elementary(kind) == Some(t) && t != AbiUnsupported
    ensures IsBasic(t) && (Width(t).None? ==> kind == Stem(t))
    ensures Width(t).Some? ==> kind == Stem(t) + Noughts(zeros) + Printed(Width(t).value)
  {
    hide Stem, Ascii, NumberOf, Printed, TrailingNumber;
    NamesAreStems();
    StemsDiffer();
    assert IsBasic(t);
    StemIsShared(t);
    zeros := 0;
    if Width(t).Some? {
      var stem := Stem(t);
      assert TrailingNumber(kind, |stem|) == Width(t) && StartsWith(kind, stem);
      hide Elementary;
      zeros := NumberIsSpelled(kind, |stem|, Width(t).value);
    }
  }

  /** Any other name is that of a struct, if the table has it; arrays are refused whatever
      they hold. */
  lemma NamesLeftToStructs(table: Table, kind: seq<u8>)
    ensures Elementary(kind).None? ==> Classify(table, kind) == if kind in table then AbiStruct(kind) else AbiUnsupported
    ensures 91 in kind ==> Classify(table, kind) == AbiUnsupported
    ensures Elementary(kind).None? <==>
      91 !in kind && kind != Stem(AbiAddress) && kind != Stem(AbiBool) && kind != Stem(AbiString)
      && !(Stem(AbiBytes) <= kind) && !(Stem(AbiUint(8)) <= kind) && !(Stem(AbiInt(8)) <= kind)
    ensures 91 in kind ==> Elementary(kind) == Some(AbiUnsupported)
  {
    hide Stem, Ascii, NumberOf, TrailingNumber, Sized;
    NamesAreStems();
    StemsDiffer();
  }

  // ------------------------------------------------------------ encoded words

  /** The number an item stands for, in either spelling. */
  function Amount(item: Item): nat {
    if item.kind.Uint? then item.value else FromBigEndian(item.data)
  }

  /** The first k bytes are zero exactly when the number fits the others. */
  lemma {:induction false} ZeroInFront(word: seq<u8>, k: nat)
    requires k <= |word|
    ensures (forall i | 0 <= i < k :: word[i] == 0) <==> FromBigEndian(word) < Power256(|word| - k)
    decreases |word|
  {
    if |word| > k {
      ZeroInFront(word[..|word| - 1], k);
    } else if k > 0 {
      var before := word[..k - 1];
      ZeroInFront(before, k - 1);
      assert FromBigEndian(word) == 256 * FromBigEndian(before) + word[k - 1];
      assert Power256(0) == 1;
      forall i | 0 <= i < k - 1 ensures before[i] == word[i] {}
    }
  }

  lemma WordHasAmount(item: Item)
    requires item.kind.Uint? || (item.kind.Bytes? && |item.data| <= 32)
    requires item.value < 0x1_0000_0000
    ensures var word := if item.kind.Uint? then ZeroBytes(28) + ToBigEndian(item.value, 4) else ZeroBytes(32 - |item.data|) + item.data;
      |word| == 32 && FromBigEndian(word) == Amount(item)
  {
    assert Power256(4) == 0x1_0000_0000 by { assert Power256(3) == 0x100_0000; }
    hide FromBigEndian, ToBigEndian, Power256;
    if item.kind.Uint? {
      PaddingIsFree(28, ToBigEndian(item.value, 4));
      BigEndianRoundTrip(item.value, 4);
    } else {
      PaddingIsFree(32 - |item.data|, item.data);
    }
  }

  /** uintN and intN: a number below 2^N in one of two spellings, as 32 bytes. */
  lemma NumberWord(keccak: Hash, t: AbiType, item: Item, bits: nat)
    requires (t == AbiUint(bits) || t == AbiInt(bits)) && IsBasic(t) && item.value < 0x1_0000_0000
    ensures var word := LeafWord(keccak, t, item);
      (word.Some? <==> (item.kind.Uint? || (item.kind.Bytes? && |item.data| <= 32)) && Amount(item) < Power256(bits / 8))
      && (word.Some? ==> |word.value| == 32 && FromBigEndian(word.value) == Amount(item))
  {
    if item.kind.Uint? || (item.kind.Bytes? && |item.data| <= 32) {
      WordHasAmount(item);
      var word := if item.kind.Uint? then ZeroBytes(28) + ToBigEndian(item.value, 4) else ZeroBytes(32 - |item.data|) + item.data;
      ZeroInFront(word, 32 - bits / 8);
      assert (256 - bits) / 8 == 32 - bits / 8;
      assert WordFromInt(item, bits) == Narrow(word, bits);
      hide FromBigEndian, ToBigEndian, Power256, Amount, ZeroBytes;
    }
  }

  function Nulls(n: nat): (z: seq<u8>)
    ensures |z| == n
  {
    if n == 0 then [] else [0] + Nulls(n - 1)
  }

  lemma {:induction false} NullsAreZeros(n: nat)
    ensures ZeroBytes(n) == Nulls(n)
  {
    if n > 0 {
      NullsAreZeros(n - 1);
      assert ZeroBytes(n) == [0] + ZeroBytes(n - 1);
    }
  }

  /** The other types: addresses and truth values on the right of their word, bytesN on the
      left, string and bytes as their hash. */
  lemma OtherWords(keccak: Hash, t: AbiType, item: Item)
    requires IsBasic(t) && !t.AbiUint? && !t.AbiInt?
    ensures LeafWord(keccak, t, item) ==
      match t
      case AbiAddress => if item.kind.Bytes? && |item.data| == 20 then Some(Nulls(12) + item.data) else None
      case AbiBool => if item.kind.Uint? && item.value <= 1 then Some(Nulls(31) + [item.value]) else None
      case AbiString => if item.kind.Text? then Some(keccak(item.data)) else None
      case AbiBytes => if item.kind.Bytes? then Some(keccak(item.data)) else None
      case AbiBytesN(n) => if item.kind.Bytes? && |item.data| == n then Some(item.data + Nulls(32 - n)) else None
  {
    NullsAreZeros(12);
    NullsAreZeros(31);
    if t.AbiBytesN? { NullsAreZeros(32 - t.size); }
    hide ZeroBytes, Nulls;
  }

  // ------------------------------------------------------------- shown texts

  const HEX := "0123456789abcdef"
  const CAPITALS := "0123456789ABCDEF"

  /** The i-th hexadecimal digit of some bytes, the upper half of a byte first. */
  function DigitAt(data: seq<u8>, i: nat): (d: nat)
    requires i < 2 * |data|
    ensures d < 16
  {
    if i % 2 == 0 then data[i / 2] / 16 else data[i / 2] % 16
  }

  lemma HexDigits(n: nat)
    requires n < 16
    ensures HexDigit(n) == HEX[n] && HEX[n] as int < 128
    ensures HEX[n] as int == if n < 10 then 48 + n else 87 + n
    ensures IsLowerHexLetter(HEX[n]) <==> n >= 10
    ensures n >= 10 ==> Upper(HEX[n]) == CAPITALS[n]
  {}

  lemma {:induction false} HexDigitAt(data: seq<u8>, i: nat)
    requires i < 2 * |data|
    ensures Hex(data)[i] == HEX[DigitAt(data, i)]
  {
    HexDigits(data[0] / 16);
    HexDigits(data[0] % 16);
    hide HexDigit;
    if i >= 2 {
      HexDigitAt(data[1..], i - 2);
      assert DigitAt(data, i) == DigitAt(data[1..], i - 2);
    }
  }

  /** The lower-case text of an address, as bytes. */
  function LowerCase(address: seq<u8>): (b: seq<u8>)
    ensures |b| == 2 * |address|
  {
    seq(2 * |address|, i requires 0 <= i < 2 * |address| => if DigitAt(address, i) < 10 then 48 + DigitAt(address, i) else 87 + DigitAt(address, i))
  }

  lemma LowerCaseIsHex(address: seq<u8>)
    ensures TextBytes(Hex(address)) == LowerCase(address)
  {
    var b := TextBytes(Hex(address));
    assert |b| == |LowerCase(address)|;
    forall i | 0 <= i < |b| ensures b[i] == LowerCase(address)[i] {
      HexDigitAt(address, i);
      HexDigits(DigitAt(address, i));
      hide Hex, DigitAt;
    }
  }

  /** EIP-55: a letter is a capital when the same digit of the hash of the lower-case text
      is 8 or more. */
  lemma AddressAsEip55(keccak: Hash, address: seq<u8>, i: nat)
    requires i < 2 * |address| <= 2 * |keccak(LowerCase(address))|
    ensures var t := AddressText(keccak, address);
      |t| == 2 + 2 * |address| && t[0] == '0' && t[1] == 'x'
      && t[2 + i] == if DigitAt(keccak(LowerCase(address)), i) >= 8 then CAPITALS[DigitAt(address, i)] else HEX[DigitAt(address, i)]
  {
    LowerCaseIsHex(address);
    HexDigitAt(address, i);
    HexDigits(DigitAt(address, i));
    var digest := keccak(LowerCase(address));
    assert Nibble(digest, i) == DigitAt(digest, i);
    hide Hex, DigitAt, TextBytes, LowerCase, Nibble, IsLowerHexLetter, Upper;
    assert DigitAt(address, i) < 10 ==> CAPITALS[DigitAt(address, i)] == HEX[DigitAt(address, i)];
  }

  /** 0x and every byte in two digits, when a row of 80 holds it with its end. */
  lemma BytesAsText(keccak: Hash, t: AbiType, item: Item)
    requires t.AbiBytes? || t.AbiBytesN?
    ensures LeafText(keccak, t, item).Some? <==> 2 * |item.data| + 2 < 80
    ensures LeafText(keccak, t, item).Some? ==>
      var s := LeafText(keccak, t, item).value;
      |s| == 2 + 2 * |item.data| && s[0] == '0' && s[1] == 'x'
      && forall i | 0 <= i < 2 * |item.data| :: s[2 + i] == HEX[DigitAt(item.data, i)]
  {
    if LeafText(keccak, t, item).Some? {
      var s := LeafText(keccak, t, item).value;
      assert s == "0x" + Hex(item.data);
      forall i | 0 <= i < 2 * |item.data| ensures s[2 + i] == HEX[DigitAt(item.data, i)] {
        HexDigitAt(item.data, i);
        hide *;
      }
    }
  }

  /** A string is shown as it is, when all of it is printable and a row holds it; a truth
      value by its name; a number by its digits, which a row always holds. */
  lemma OtherTexts(keccak: Hash, t: AbiType, item: Item)
    requires t.AbiString? || t.AbiBool?
    ensures t.AbiBool? ==> LeafText(keccak, t, item) == Some(if item.value == 0 then "false" else "true")
    ensures t.AbiString? ==>
      (LeafText(keccak, t, item).Some? <==> |item.data| < 80 && forall i | 0 <= i < |item.data| :: 32 <= item.data[i] <= 126)
    ensures t.AbiString? && LeafText(keccak, t, item).Some? ==>
      var s := LeafText(keccak, t, item).value;
      |s| == |item.data| && forall i | 0 <= i < |s| :: s[i] as int == item.data[i]
  {
    assert Printable(item.data) <==> forall i | 0 <= i < |item.data| :: 32 <= item.data[i] <= 126;
    hide Hex, AddressText, NumberText, LeafWord;
  }

  /** A number by its decimal digits. */
  lemma NumberAsText(keccak: Hash, t: AbiType, item: Item, bits: nat)
    requires (t == AbiUint(bits) || t == AbiInt(bits)) && IsBasic(t) && item.value < 0x1_0000_0000
    requires LeafWord(keccak, t, item).Some?
    ensures LeafText(keccak, t, item).Some?
    ensures var s := LeafText(keccak, t, item).value;
      AllDigits(s) && Spelled(s) == Amount(item) && (Amount(item) > 0 ==> s[0] != '0')
  {
    assert LeafText(keccak, t, item) == NumberText(LeafWord(keccak, t, item));
    hide *;
    NumberWord(keccak, t, item, bits);
    WordAsText(LeafWord(keccak, t, item).value, Amount(item));
  }

  lemma WordAsText(word: seq<u8>, n: nat)
    requires |word| == 32 && FromBigEndian(word) == n
    ensures NumberText(Some(word)) == Some(Digits(n))
    ensures AllDigits(Digits(n)) && Spelled(Digits(n)) == n && (n > 0 ==> Digits(n)[0] != '0')
  {
    hide FromBigEndian, Digits, Spelled, Power256;
    DigitsSpell(n);
    BigEndianBound(word);
    WordsHaveFewDigits(n);
  }

  lemma {:induction false} DigitsAreFew(v: nat, n: nat)
    requires n > 0 && v < Pow(10, n)
    ensures |Digits(v)| <= n
  {
    if v >= 10 {
      assert n > 1 by { assert Pow(10, 1) == 10; }
      DigitsAreFew(v / 10, n - 1);
    }
  }

  lemma WordsHaveFewDigits(n: nat)
    requires n < Power256(32)
    ensures |Digits(n)| < 80
  {
    assert Power256(4) == 0x1_0000_0000 by { assert Power256(3) == 0x100_0000; }
    assert Power256(8) == 0x1_0000_0000_0000_0000 by {
      assert Power256(5) == 0x100_0000_0000 && Power256(6) == 0x1_0000_0000_0000 && Power256(7) == 0x100_0000_0000_0000;
    }
    assert Pow(10, 5) == 100000;
    hide Power256, Pow, Digits;
    AbiStatic.PowerSum(8, 8);
    AbiStatic.PowerSum(16, 16);
    PowAdd(10, 5, 5);
    PowAdd(10, 10, 10);
    PowAdd(10, 20, 20);
    PowAdd(10, 39, 39);
    TenTo39();
    MulMonotone(Power256(16), Pow(10, 39), Power256(16));
    MulMonotone(Power256(16), Pow(10, 39), Pow(10, 39));
    DigitsAreFew(n, 78);
  }

  lemma TenTo39()
    ensures Pow(10, 39) == 1_000_000_000_000_000_000_000_000_000_000_000_000_000
  {
    assert Pow(10, 3) == 1000;
    hide Pow;
    PowAdd(10, 3, 3);
    PowAdd(10, 6, 6);
    PowAdd(10, 12, 12);
    PowAdd(10, 12, 3);
    PowAdd(10, 24, 15);
  }

  // -------------------------------------------------------------- encodeType

  ghost predicate AllRead(fields: Fields) { forall i | 0 <= i < |fields| :: fields[i].Some? }

  /** "type name,type name,..." */
  ghost function Members(fields: Fields): seq<u8>
    requires AllRead(fields)
  {
    if |fields| == 0 then []
    else fields[0].value.kind + [32] + fields[0].value.name + if |fields| == 1 then [] else [44] + Members(fields[1..])
  }

  lemma {:induction false} MemberBehind(fields: Fields, last: FieldDef)
    requires AllRead(fields)
    ensures Members(fields + [Some(last)]) ==
      Members(fields) + (if |fields| > 0 then [44] else []) + last.kind + [32] + last.name
  {
    var all := fields + [Some(last)];
    if |fields| == 0 {
      assert all[1..] == [];
    } else {
      assert all[1..] == fields[1..] + [Some(last)];
      MemberBehind(fields[1..], last);
      hide *;
      MembersStep(all);
      MembersStep(fields);
      var f := fields[0].value;
      var head, comma: seq<u8> := f.kind + [32] + f.name, [44];
      Spread(head, comma, Members(fields[1..]), if |fields| > 1 then [44] else [], last.kind, [32], last.name);
      if |fields| == 1 { NoMembers(fields[1..]); }
    }
  }

  lemma MembersStep(fields: Fields)
    requires AllRead(fields) && |fields| > 0
    ensures Members(fields) ==
      fields[0].value.kind + [32] + fields[0].value.name + if |fields| == 1 then [] else [44] + Members(fields[1..])
  {}

  lemma NoMembers(fields: Fields)
    requires |fields| == 0
    ensures Members(fields) == []
  {}

  lemma Spread(a: seq<u8>, b: seq<u8>, c: seq<u8>, d: seq<u8>, e: seq<u8>, f: seq<u8>, g: seq<u8>)
    ensures a + (b + (c + d + e + f + g)) == a + (b + c) + d + e + f + g
    ensures |c| == 0 && |d| == 0 ==> a + (b + (c + d + e + f + g)) == a + b + e + f + g
  {}

  lemma {:induction false} FieldListIsMembers(fields: Fields, n: nat)
    requires n <= |fields|
    ensures FieldList(fields, n).Some? <==> AllRead(fields[..n])
    ensures AllRead(fields[..n]) ==> FieldList(fields, n) == Some(Members(fields[..n]))
  {
    if n > 0 {
      FieldListIsMembers(fields, n - 1);
      assert fields[..n] == fields[..n - 1] + [fields[n - 1]];
      if AllRead(fields[..n]) {
        assert fields[n - 1] == fields[..n][n - 1];
        MemberBehind(fields[..n - 1], fields[n - 1].value);
      }
    }
  }

  /** "Name(type name,type name)". */
  ghost function Definition(name: Name, fields: Fields): seq<u8>
    requires AllRead(fields)
  {
    name + [40] + Members(fields) + [41]
  }

  lemma FragmentIsSpelled(table: Table, name: Name)
    requires name in table
    ensures Fragment(table, name).Some? <==> AllRead(table[name])
    ensures AllRead(table[name]) ==> Fragment(table, name) == Some(Definition(name, table[name]))
  {
    FieldListIsMembers(table[name], |table[name]|);
    assert table[name][..|table[name]|] == table[name];
    hide FieldList, Members, AllRead;
  }

  ghost predicate Readable(table: Table, names: seq<Name>) {
    forall i | 0 <= i < |names| :: names[i] in table && AllRead(table[names[i]])
  }

  /** One definition behind the other. */
  ghost function Definitions(table: Table, names: seq<Name>): seq<u8>
    requires Readable(table, names)
  {
    if |names| == 0 then [] else Definition(names[0], table[names[0]]) + Definitions(table, names[1..])
  }

  lemma {:induction false} DefinitionBehind(table: Table, names: seq<Name>)
    requires Readable(table, names) && |names| > 0
    ensures Definitions(table, names) ==
      Definitions(table, names[..|names| - 1]) + Definition(names[|names| - 1], table[names[|names| - 1]])
  {
    hide Definition, AllRead;
    if |names| == 1 {
      assert names[..0] == [] && names[1..] == [];
    } else {
      DefinitionBehind(table, names[1..]);
      assert names[1..][..|names| - 2] == names[..|names| - 1][1..];
      Joined(Definition(names[0], table[names[0]]), Definitions(table, names[..|names| - 1][1..]),
             Definition(names[|names| - 1], table[names[|names| - 1]]));
    }
  }

  lemma {:induction false} FragmentsAreDefinitions(table: Table, names: seq<Name>)
    requires forall x | x in names :: x in table
    ensures Fragments(table, names).Some? <==> Readable(table, names)
    ensures Readable(table, names) ==> Fragments(table, names) == Some(Definitions(table, names))
  {
    hide Definition, AllRead, Fragment;
    if |names| > 0 {
      var before, last := names[..|names| - 1], names[|names| - 1];
      assert forall x | x in before :: x in names;
      FragmentsAreDefinitions(table, before);
      FragmentIsSpelled(table, last);
      assert Readable(table, names) <==> Readable(table, before) && AllRead(table[last]);
      if Readable(table, names) { DefinitionBehind(table, names); }
    }
  }

  /** a comes before b: at the first difference, or where it ends, its byte is the lower. */
  ghost predicate Lower(a: Name, b: Name) {
    exists k: nat :: k < |b| && k <= |a| && a[..k] == b[..k] && (k == |a| || a[k] < b[k])
  }

  lemma {:induction false} BytewiseOrder(a: Name, b: Name)
    ensures Before(a, b) <==> Lower(a, b)
  {
    if |a| > 0 && |b| > 0 && a[0] == b[0] {
      BytewiseOrder(a[1..], b[1..]);
      if Before(a, b) {
        var k: nat :| k < |b[1..]| && k <= |a[1..]| && a[1..][..k] == b[1..][..k] && (k == |a[1..]| || a[1..][k] < b[1..][k]);
        assert a[..k + 1] == [a[0]] + a[1..][..k] && b[..k + 1] == [b[0]] + b[1..][..k];
      }
      if Lower(a, b) {
        var k: nat :| k < |b| && k <= |a| && a[..k] == b[..k] && (k == |a| || a[k] < b[k]);
        assert k > 0;
        assert a[1..][..k - 1] == a[..k][1..] && b[1..][..k - 1] == b[..k][1..];
        assert Lower(a[1..], b[1..]);
      }
    } else if |a| > 0 && |b| > 0 {
      assert a[..0] == b[..0];
      forall k: nat | 0 < k <= |a| && k <= |b| ensures a[..k] != b[..k] {
        assert a[..k][0] != b[..k][0];
      }
    } else if |b| > 0 {
      assert a[..0] == b[..0];
    }
  }

  /** encodeType: the struct's definition, then those of the types it reaches, each once, in
      bytewise order of their names; shorter than 512 bytes. */
  lemma TypeTextOfTheStandard(table: Table, root: Name) returns (names: seq<Name>)
    requires root in table && EncodeType(table, root, ENCODED_TYPE_SIZE).Some?
    ensures forall i, j | 0 <= i < j < |names| :: Lower(names[i], names[j])
    ensures forall b :: b in names <==> b != root && Reachable(table, root, b)
    ensures AllRead(table[root]) && Readable(table, names)
    ensures EncodeType(table, root, ENCODED_TYPE_SIZE) == Some(Definition(root, table[root]) + Definitions(table, names))
    ensures |EncodeType(table, root, ENCODED_TYPE_SIZE).value| < 512
  {
    assert ENCODED_TYPE_SIZE == 512;
    hide *;
    names := EncodeTypeIsTheOrderedClosure(table, root, ENCODED_TYPE_SIZE);
    FragmentIsSpelled(table, root);
    FragmentsAreDefinitions(table, names);
    forall i, j | 0 <= i < j < |names| ensures Lower(names[i], names[j]) {
      InOrder(names, i, j);
    }
  }

  lemma InOrder(names: seq<Name>, i: nat, j: nat)
    requires Ascending(names) && i < j < |names|
    ensures Lower(names[i], names[j])
  {
    BytewiseOrder(names[i], names[j]);
  }

  /** Fields that can all be read, without arrays, and from which no chain of references is
      longer than so many steps. */
  ghost predicate Shallow(table: Table, fields: Fields, steps: nat)
    decreases steps
  {
    forall i | 0 <= i < |fields| ::
      fields[i].Some? && 91 !in fields[i].value.kind
      && (fields[i].value.kind in table ==> steps > 0 && Shallow(table, table[fields[i].value.kind], steps - 1))
  }

  /** Different names of a table other than one. */
  lemma NamesAreFew(table: Table, root: Name, deps: seq<Name>, ref: Name)
    requires root in table && Distinct(deps) && ref in table && ref != root && ref !in deps
    requires forall x | x in deps :: x in table && x != root
    ensures |deps| + 2 <= |table|
  {
    var all := deps + [ref, root];
    DistinctSize(all);
    assert (set x | x in all) <= table.Keys;
    SubsetSize((set x | x in all), table.Keys);
    assert |table.Keys| == |table|;
  }

  lemma {:induction false} DistinctSize(s: seq<Name>)
    requires Distinct(s)
    ensures |set x | x in s| == |s|
  {
    if |s| > 0 {
      DistinctSize(s[1..]);
      assert s == [s[0]] + s[1..];
      assert (set x | x in s) == {s[0]} + set x | x in s[1..];
      assert s[0] !in s[1..];
    }
  }

  lemma {:induction false} SubsetSize(a: set<Name>, b: set<Name>)
    requires a <= b
    ensures |a| <= |b|
  {
    if a != {} {
      var x :| x in a;
      SubsetSize(a - {x}, b - {x});
    }
  }

  lemma {:induction false} RefsAreFound(table: Table, fields: Fields, i: nat, root: Name, deps: seq<Name>, depth: nat)
    requires i <= |fields| && depth <= 3 && root in table && |table| <= 9 && Shallow(table, fields, 3 - depth)
    requires Distinct(deps) && forall x | x in deps :: x in table && x != root
    ensures var r := RefsFrom(table, fields, i, root, deps, depth);
      r.Some? && Distinct(r.value) && forall x | x in r.value :: x in table && x != root && (x in deps || AllRead(table[x]))
    decreases if depth <= EIP712_MAX_DEPTH then EIP712_MAX_DEPTH + 1 - depth else 0, |fields| - i
  {
    if i < |fields| {
      var ref := fields[i].value.kind;
      if ref !in table || ref == root || ref in deps {
        RefsAreFound(table, fields, i + 1, root, deps, depth);
      } else {
        NamesAreFew(table, root, deps, ref);
        RefsAreFound(table, table[ref], 0, root, deps + [ref], depth + 1);
        RefsAreFound(table, fields, i + 1, root, RefsFrom(table, table[ref], 0, root, deps + [ref], depth + 1).value, depth);
      }
    }
  }

  /** Such types have an encodeType as long as it is short enough. */
  lemma TypeTextIsFound(table: Table, root: Name)
    requires root in table && |table| <= 9 && Shallow(table, table[root], 3)
    ensures Refs(table, root).Some? && AllRead(table[root]) && Readable(table, Sorted(Refs(table, root).value))
    ensures EncodeType(table, root, ENCODED_TYPE_SIZE).Some? <==>
      |Definition(root, table[root])| + |Definitions(table, Sorted(Refs(table, root).value))| < 512
  {
    RefsAreFound(table, table[root], 0, root, [], 0);
    var names := Sorted(Refs(table, root).value);
    assert AllRead(table[root]) && Readable(table, names);
    hide RefsFrom, Sorted, Definition, Definitions, Fragment, Fragments, AllRead;
    FragmentIsSpelled(table, root);
    FragmentsAreDefinitions(table, names);
  }

  // -------------------------------------------------------------------- pages

  /** A name is printed up to its first zero byte. */
  lemma {:induction false} PrintedPart(s: seq<u8>)
    ensures UpToNul(s) <= s && 0 !in UpToNul(s)
    ensures |UpToNul(s)| < |s| ==> s[|UpToNul(s)|] == 0
  {
    if |s| > 0 && s[0] != 0 {
      PrintedPart(s[1..]);
      assert s == [s[0]] + s[1..];
    }
  }

  /** The words that make a number a point in time: deadline, expir, validuntil, validbefore. */
  function TimeWord(k: nat): seq<u8> {
    match k
    case 0 => [100, 101, 97, 100, 108, 105, 110, 101]
    case 1 => [101, 120, 112, 105, 114]
    case 2 => [118, 97, 108, 105, 100, 117, 110, 116, 105, 108]
    case _ => [118, 97, 108, 105, 100, 98, 101, 102, 111, 114, 101]
  }

  /** The word stands in the name at a place, in letters of either case. */
  predicate WordAt(name: Name, word: seq<u8>, i: nat) {
    i + |word| <= |name|
    && forall j | 0 <= j < |word| :: word[j] == name[i + j] + if 65 <= name[i + j] <= 90 then 32 else 0
  }

  lemma HintIsWord(name: Name, word: seq<u8>)
    ensures Hints(name, word) <==> exists i: nat :: WordAt(name, word, i)
  {
    forall i: nat ensures OccursAt(LowerName(name), word, i) <==> WordAt(name, word, i) {
      if OccursAt(LowerName(name), word, i) {
        forall j | 0 <= j < |word| ensures LowerByte(name[i + j]) == word[j] {
          assert LowerName(name)[i..i + |word|][j] == word[j];
        }
      }
      if WordAt(name, word, i) {
        assert LowerName(name)[i..i + |word|] == word;
      }
    }
    if Hints(name, word) {
      var i: nat :| OccursAt(LowerName(name), word, i);
      assert WordAt(name, word, i);
    }
  }

  lemma DeadlineWord() ensures Ascii("deadline") == TimeWord(0) { AsciiIs("deadline", TimeWord(0)); }

  lemma ExpiryWord() ensures Ascii("expir") == TimeWord(1) { AsciiIs("expir", TimeWord(1)); }

  lemma UntilWord() ensures Ascii("validuntil") == TimeWord(2) { AsciiIs("validuntil", TimeWord(2)); }

  lemma BeforeWord() ensures Ascii("validbefore") == TimeWord(3) { AsciiIs("validbefore", TimeWord(3)); }

  ghost predicate NamesATime(name: Name) { exists k: nat, i: nat :: k < 4 && WordAt(name, TimeWord(k), i) }

  lemma DeadlineNames(name: Name)
    ensures IsDeadline(name) <==> NamesATime(name)
  {
    hide Ascii, TimeWord, Hints, WordAt;
    DeadlineWord();
    ExpiryWord();
    UntilWord();
    BeforeWord();
    forall k: nat | k < 4 ensures Hints(name, TimeWord(k)) <==> exists i: nat :: WordAt(name, TimeWord(k), i) {
      HintIsWord(name, TimeWord(k));
    }
    if NamesATime(name) {
      var k: nat, i: nat :| k < 4 && WordAt(name, TimeWord(k), i);
      assert k == 0 || k == 1 || k == 2 || k == 3;
    }
  }

  /** Half the range of the type or more, for types of at least 64 bits. */
  lemma UnlimitedAmounts(word: seq<u8>, bits: nat)
    requires |word| == 32 && 8 <= bits <= 256 && bits % 8 == 0 && FromBigEndian(word) < Power256(bits / 8)
    ensures IsUnlimited(word, bits) <==> bits >= 64 && FromBigEndian(word) >= 128 * Power256(bits / 8 - 1)
  {
    var k := bits / 8;
    ZeroInFront(word, 32 - k);
    var tail := word[32 - k..];
    AbiStatic.FirstByteDecides(tail);
    assert word == ZeroBytes(32 - k) + tail;
    PaddingIsFree(32 - k, tail);
    hide FromBigEndian, Power256;
  }

  /** One more value: a page behind the others while fewer than six are taken and its label
      is shorter than 21, and otherwise, or when its text fits no row, an overflow. */
  lemma PageOfTheStandard(keccak: Hash, s: Screen, path: seq<u8>, name: Name, t: AbiType, item: Item)
    requires IsBasic(t) && item.value < 0x1_0000_0000 && LeafWord(keccak, t, item).Some?
    ensures var caption := (if |path| == 0 then [] else path + [46]) + UpToNul(name);
      var after, text := Shown(keccak, s, Leaf(path, name, t, item)), LeafText(keccak, t, item);
      if |s.fields| >= 6 || |caption| >= 21 then after == Screen(s.fields, true)
      else
        after == Screen(s.fields + [PageOf(keccak, caption, name, t, item)], s.overflow || text.None?)
        && IsPage(PageOf(keccak, caption, name, t, item), caption, text, t, name, item)
  {
    assert Label(path, name) == (if |path| == 0 then [] else path + [46]) + UpToNul(name);
    hide LeafText, IsPage, PageOf, UpToNul;
    PageHolds(keccak, Label(path, name), name, t, item);
  }

  /** A page: its label, its text or nothing, the address behind it, and the two warnings. */
  ghost predicate IsPage(page: Field, caption: seq<u8>, text: Option<string>, t: AbiType, name: Name, item: Item) {
    && page.caption == caption && page.value == (if text.Some? then text.value else "")
    && page.isAddress == t.AbiAddress? && page.address == (if t.AbiAddress? then item.data else [])
    && (page.isDeadline <==> (t.AbiUint? || t.AbiInt?) && NamesATime(name))
    && (page.unlimited <==>
          t.AbiUint? && t.bits >= 64 && !NamesATime(name) && Amount(item) >= 128 * Power256(t.bits / 8 - 1))
  }

  lemma PageHolds(keccak: Hash, caption: seq<u8>, name: Name, t: AbiType, item: Item)
    requires IsBasic(t) && item.value < 0x1_0000_0000 && LeafWord(keccak, t, item).Some?
    ensures IsPage(PageOf(keccak, caption, name, t, item), caption, LeafText(keccak, t, item), t, name, item)
  {
    hide LeafText, LeafWord, IsDeadline, NamesATime, Amount, FromBigEndian, Power256, IsUnlimited;
    DeadlineNames(name);
    if t.AbiUint? {
      NumberWord(keccak, t, item, t.bits);
      UnlimitedAmounts(LeafWord(keccak, t, item).value, t.bits);
    }
  }
}
