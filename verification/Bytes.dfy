/** Bytes as numbers, and the small vocabulary that the codecs share. */
module Bytes {
  type u8 = x: int | 0 <= x < 256

  datatype Option<+T> = None | Some(value: T) {
    predicate IsFailure() { None? }

    function PropagateFailure<U>(): Option<U>
      requires None?
    {
      None
    }

    function Extract(): T
      requires Some?
    {
      value
    }
  }

  /** What reading at a place finds: a value, and where reading ends. */
  datatype Found<+T> = Found(value: T, end: nat)

  ghost predicate Finds<T>(r: Option<Found<T>>, value: T, end: nat) {
    r.Some? && r.value.value == value && r.value.end == end
  }

  function Power256(n: nat): (p: nat)
    ensures p > 0
  {
    if n == 0 then 1 else 256 * Power256(n - 1)
  }

  /** A big-endian number. */
  function FromBigEndian(b: seq<u8>): (v: nat) {
    if |b| == 0 then 0 else 256 * FromBigEndian(b[..|b| - 1]) + b[|b| - 1]
  }

  /** The n low bytes of v, most significant first. */
  function ToBigEndian(v: nat, n: nat): (b: seq<u8>)
    ensures |b| == n
  {
    if n == 0 then [] else ToBigEndian(v / 256, n - 1) + [v % 256]
  }

  lemma {:induction false} BigEndianBound(b: seq<u8>)
    ensures FromBigEndian(b) < Power256(|b|)
  {
    if |b| > 0 { BigEndianBound(b[..|b| - 1]); }
  }

  lemma {:induction false} BigEndianRoundTrip(v: nat, n: nat)
    requires v < Power256(n)
    ensures FromBigEndian(ToBigEndian(v, n)) == v
  {
    if n > 0 {
      BigEndianRoundTrip(v / 256, n - 1);
      var b := ToBigEndian(v, n);
      assert b[..n - 1] == ToBigEndian(v / 256, n - 1);
    }
  }

  lemma {:induction false} BigEndianReprint(b: seq<u8>)
    ensures ToBigEndian(FromBigEndian(b), |b|) == b
  {
    if |b| > 0 {
      BigEndianReprint(b[..|b| - 1]);
      assert b == b[..|b| - 1] + [b[|b| - 1]];
    }
  }

  /** Text as the bytes of its characters. */
  function Ascii(s: string): (b: seq<u8>)
    ensures |b| == |s|
  {
    if |s| == 0 then [] else [s[0] as int % 256] + Ascii(s[1..])
  }

  lemma {:induction false} AsciiIs(s: string, b: seq<u8>)
    requires |s| == |b| && forall i | 0 <= i < |s| :: s[i] as int == b[i]
    ensures Ascii(s) == b
  {
    if |s| > 0 {
      AsciiIs(s[1..], b[1..]);
      assert b == [b[0]] + b[1..];
    }
  }

  /** `part` stands in `buf` at pos. */
  ghost predicate Stands(buf: seq<u8>, pos: nat, part: seq<u8>) {
    pos + |part| <= |buf| && buf[pos..pos + |part|] == part
  }

  lemma StandsSplit(buf: seq<u8>, pos: nat, a: seq<u8>, b: seq<u8>)
    requires Stands(buf, pos, a + b)
    ensures Stands(buf, pos, a) && Stands(buf, pos + |a|, b)
  {
    var whole := buf[pos..pos + |a + b|];
    assert buf[pos..pos + |a|] == whole[..|a|];
    assert buf[pos + |a|..pos + |a| + |b|] == whole[|a|..];
  }

  lemma StandsRange(buf: seq<u8>, pos: nat, part: seq<u8>)
    requires Stands(buf, pos, part)
    ensures pos + |part| <= |buf|
  {}

  lemma StandsFirst(buf: seq<u8>, pos: nat, part: seq<u8>)
    requires Stands(buf, pos, part) && |part| > 0
    ensures pos < |buf| && buf[pos] == part[0]
  {
    assert buf[pos..pos + |part|][0] == part[0];
  }

  lemma StandsWhole(buf: seq<u8>)
    ensures Stands(buf, 0, buf)
  {}

  lemma Joined(a: seq<u8>, b: seq<u8>, c: seq<u8>)
    ensures a + b + c == a + (b + c)
  {}
}
