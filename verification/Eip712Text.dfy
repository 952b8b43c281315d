/** The text of one value, character by character into the row that holds it. */
module Eip712Text {
  import opened Bytes
  import opened Cbor
  import opened Decimal
  import opened Eip712Types
  import opened Eip712Walk

  lemma {:induction false} HexAt(data: seq<u8>, i: nat)
    requires i < |data|
    ensures Hex(data)[2 * i] == HexDigit(data[i] / 16) && Hex(data)[2 * i + 1] == HexDigit(data[i] % 16)
  {
    if i > 0 {
      HexAt(data[1..], i - 1);
      assert Hex(data)[2 * i] == Hex(data[1..])[2 * (i - 1)];
      assert Hex(data)[2 * i + 1] == Hex(data[1..])[2 * (i - 1) + 1];
    }
  }

  lemma HexPrefix(data: seq<u8>, i: nat)
    requires i < |data|
    ensures Hex(data)[..2 * i + 2] == Hex(data)[..2 * i] + [HexDigit(data[i] / 16), HexDigit(data[i] % 16)]
  {
    hide Hex, HexDigit;
    HexAt(data, i);
    TwoMore(Hex(data), 2 * i);
  }

  lemma TwoMore(s: string, k: nat)
    requires k + 2 <= |s|
    ensures s[..k + 2] == s[..k] + [s[k], s[k + 1]]
  {}

  /** Two digits a byte, from a place in the row on. */
  method PutHex(data: seq<u8>, out: array<char>, at: nat)
    requires at + 2 * |data| <= out.Length
    modifies out
    ensures out[..at] == old(out[..at]) && out[at..at + 2 * |data|] == Hex(data)
  {
    hide Hex, HexDigit;
    ghost var before := out[..at];
    var i := 0;
    while i < |data|
      invariant 0 <= i <= |data| && out[..at] == before && out[at..at + 2 * i] == Hex(data)[..2 * i]
    {
      out[at + 2 * i] := HexDigit(data[i] / 16);
      out[at + 2 * i + 1] := HexDigit(data[i] % 16);
      HexPrefix(data, i);
      assert out[at..at + 2 * (i + 1)] == out[at..at + 2 * i] + [out[at + 2 * i], out[at + 2 * i + 1]];
      i := i + 1;
    }
  }

  /** Bytes in hexadecimal, when the row holds all of them. */
  method HexInto(data: seq<u8>, out: array<char>) returns (ok: bool)
    modifies out
    ensures ok <==> 2 * |data| + 3 <= out.Length
    ensures ok ==> Shows(out[..], "0x" + Hex(data))
  {
    if 2 * |data| + 3 > out.Length { return false; }
    out[0], out[1] := '0', 'x';
    hide Hex;
    assert out[..2] == "0x";
    PutHex(data, out, 2);
    var n := 2 + 2 * |data|;
    assert out[..n] == out[..2] + out[2..n];
    out[n] := '\0';
    assert out[..n] == "0x" + Hex(data);
    ok := true;
  }

  /** The digits in lower case, the digest of those digits, then the case of each letter. */
  method FormatAddress(keccak: Hash, address: seq<u8>, out: array<char>) returns (ok: bool)
    requires |address| == 20
    modifies out
    ensures ok <==> out.Length >= 43
    ensures ok ==> Shows(out[..], AddressText(keccak, address))
  {
    if out.Length < 43 { return false; }
    hide Hex, Nibble, HexDigit;
    var row := new char[40];
    PutHex(address, row, 0);
    var hex := row[..];
    assert hex == Hex(address) by { assert row[0..40] == row[..]; }
    var digest := keccak(TextBytes(hex));
    ghost var text := Checksummed(hex, digest);
    out[0], out[1] := '0', 'x';
    var i := 0;
    while i < 40
      invariant 0 <= i <= 40 && out[..2] == "0x" && out[2..2 + i] == text[..i]
    {
      var c := hex[i];
      if IsLowerHexLetter(c) && Nibble(digest, i) >= 8 { c := Upper(c); }
      out[2 + i] := c;
      assert out[2..2 + (i + 1)] == out[2..2 + i] + [c];
      i := i + 1;
    }
    assert out[..42] == out[..2] + out[2..42];
    out[42] := '\0';
    assert out[..42] == "0x" + text;
    ok := true;
  }

  method PrintableAscii(s: seq<u8>) returns (ok: bool)
    ensures ok <==> Printable(s)
  {
    var i := 0;
    while i < |s|
      invariant 0 <= i <= |s| && Printable(s[..i])
    {
      if s[i] < 0x20 || s[i] > 0x7E { return false; }
      i := i + 1;
    }
    ok := true;
  }

  /** A string as it is, when it can be read in one row. */
  method CopyText(s: seq<u8>, out: array<char>) returns (ok: bool)
    modifies out
    ensures ok <==> |s| + 1 <= out.Length && Printable(s)
    ensures ok ==> Shows(out[..], AsText(s))
  {
    if |s| + 1 > out.Length { return false; }
    ok := PrintableAscii(s);
    if !ok { return; }
    var i := 0;
    while i < |s|
      invariant 0 <= i <= |s| && out[..i] == AsText(s)[..i]
    {
      out[i] := s[i] as char;
      assert out[..i + 1] == out[..i] + [out[i]];
      i := i + 1;
    }
    out[|s|] := '\0';
    assert out[..|s|] == AsText(s);
  }

  /** The text that fills a row, or nothing when it does not fit or cannot be shown. */
  method RenderLeaf(keccak: Hash, abi: AbiType, item: Item) returns (text: Option<string>)
    requires abi.AbiAddress? ==> |item.data| == 20
    ensures text == LeafText(keccak, abi, item)
  {
    hide Hex, Checksummed, Digits, LeafWord, AddressText, AsText, Printable;
    var row := new char[EIP712_MAX_VALUE];
    var ok, n := false, 0;
    match abi {
      case AbiAddress =>
        ok := FormatAddress(keccak, item.data, row);
        n := 42;
        AddressIsLong(keccak, item.data);
      case AbiBool =>
        return Some(if item.value != 0 then "true" else "false");
      case AbiUint(_) =>
        var word := LeafWord(keccak, abi, item);
        NumberIsAWord(keccak, abi, item);
        text := RenderNumber(word);
        return;
      case AbiInt(_) =>
        var word := LeafWord(keccak, abi, item);
        NumberIsAWord(keccak, abi, item);
        text := RenderNumber(word);
        return;
      case AbiString =>
        ok := CopyText(item.data, row);
        n := |item.data|;
      case AbiBytes =>
        ok := HexInto(item.data, row);
        n := 2 + 2 * |item.data|;
      case AbiBytesN(_) =>
        ok := HexInto(item.data, row);
        n := 2 + 2 * |item.data|;
      case _ =>
        return None;
    }
    text := if ok then Some(row[..n]) else None;
  }

  lemma NumberIsAWord(keccak: Hash, abi: AbiType, item: Item)
    requires abi.AbiUint? || abi.AbiInt?
    ensures LeafWord(keccak, abi, item).Some? ==> |LeafWord(keccak, abi, item).value| == 32
  {}

  lemma AddressIsLong(keccak: Hash, address: seq<u8>)
    requires |address| == 20
    ensures |AddressText(keccak, address)| == 42
  {}

  method RenderNumber(word: Option<seq<u8>>) returns (text: Option<string>)
    requires word.Some? ==> |word.value| <= 32
    ensures text == NumberText(word)
  {
    hide FromBigEndian, Digits;
    if word.None? { return None; }
    var row := new char[EIP712_MAX_VALUE];
    var ok := FormatInteger(word.value, row);
    if !ok { return None; }
    ghost var shown := Digits(FromBigEndian(word.value));
    var n := 0;
    while n < row.Length && row[n] != '\0'
      invariant 0 <= n <= |shown| < row.Length && row[..|shown|] == shown && row[|shown|] == '\0'
    {
      DigitsAreNoTerminator(shown);
      n := n + 1;
    }
    DigitsAreNoTerminator(shown);
    text := Some(row[..n]);
  }

  lemma DigitsAreNoTerminator(s: string)
    requires AllDigits(s)
    ensures '\0' !in s
  {}
}
