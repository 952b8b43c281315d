/** Calls whose arguments are each one word. */
module AbiStatic {
  import opened AbiWords
  import opened Bytes
  import Decimal

  // Calls whose arguments are each one word: the types a signature declares, and the words
  // that are legal encodings of their values.

  const MAX_ARGS := 6

  /** Widths are in bytes. */
  datatype ArgType = Address | Bool | Uint(width: nat) | Int(width: nat) | BytesN(width: nat) {
    predicate Legal() { Address? || Bool? || 1 <= width <= 32 }
  }

  datatype Value = VAddress(address: seq<u8>) | VBool(b: bool) | VNumber(n: int) | VBytes(bytes: seq<u8>)

  // -------------------------------------------------------- what a word means

  /** The value is one of the type: numbers have the range of their width. */
  predicate Belongs(t: ArgType, v: Value)
    requires t.Legal()
  {
    match t
    case Address => v.VAddress? && |v.address| == 20
    case Bool => v.VBool?
    case Uint(k) => v.VNumber? && 0 <= v.n < Power256(k)
    case Int(k) => v.VNumber? && -128 * Power256(k - 1) <= v.n < 128 * Power256(k - 1)
    case BytesN(k) => v.VBytes? && |v.bytes| == k
  }

  lemma {:induction false} PowersGrow(a: nat, b: nat)
    requires a <= b
    ensures Power256(a) <= Power256(b)
  {
    if a < b { PowersGrow(a, b - 1); }
  }

  /** A number modulo 2^256. */
  function Wrapped(n: int): (r: nat)
    requires 0 <= Power256(32) + n
  {
    if n >= 0 then n else Power256(32) + n
  }

  lemma InRange(t: ArgType, v: Value)
    requires t.Legal() && Belongs(t, v) && v.VNumber?
    ensures 0 <= Power256(32) + v.n && v.n < Power256(32)
  {
    PowersGrow(t.width, 32);
  }

  /** The one word that encodes a value of a type; a negative number is two's complement. */
  function Word(t: ArgType, v: Value): (w: seq<u8>)
    requires t.Legal() && Belongs(t, v)
    ensures |w| == 32
  {
    match t
    case Address => AddressWord(v.address)
    case Bool => ZeroBytes(31) + [if v.b then 1 else 0]
    case Uint(_) => ToBigEndian(v.n, 32)
    case Int(_) => InRange(t, v); ToBigEndian(Wrapped(v.n), 32)
    case BytesN(k) => v.bytes + ZeroBytes(32 - k)
  }

  // ------------------------------------------------------ what the code checks

  function Fill(w: seq<u8>, k: nat): u8
    requires 1 <= k <= 32 == |w|
  {
    if w[32 - k] >= 128 then 255 else 0
  }

  /** The padding is zeros, or for a signed type copies of its sign. */
  predicate Matches(t: ArgType, w: seq<u8>)
    requires t.Legal() && |w| == 32
  {
    match t
    case Address => Filled(w, 0, 12, 0)
    case Bool => Filled(w, 0, 31, 0) && w[31] <= 1
    case Uint(k) => Filled(w, 0, 32 - k, 0)
    case Int(k) => Filled(w, 0, 32 - k, Fill(w, k))
    case BytesN(k) => Filled(w, k, 32, 0)
  }

  /** The value that a matching word stands for. */
  function ValueOf(t: ArgType, w: seq<u8>): Value
    requires t.Legal() && |w| == 32
  {
    match t
    case Address => VAddress(w[12..])
    case Bool => VBool(w[31] == 1)
    case Uint(k) => VNumber(FromBigEndian(w[32 - k..]))
    case Int(k) => var n := FromBigEndian(w[32 - k..]); VNumber(if w[32 - k] >= 128 then n - Power256(k) else n)
    case BytesN(k) => VBytes(w[..k])
  }

  /** A word is accepted exactly when it is the encoding of some value of the type. */
  method WordMatchesType(t: ArgType, w: seq<u8>) returns (ok: bool)
    requires t.Legal() && |w| == 32
    ensures ok <==> Matches(t, w)
    ensures ok <==> exists v :: Belongs(t, v) && Word(t, v) == w
  {
    match t {
      case Address =>
        ok := AllAre(w, 0, 12, 0);
      case Bool =>
        ok := AllAre(w, 0, 31, 0);
        ok := ok && w[31] <= 1;
      case Uint(k) =>
        ok := AllAre(w, 0, 32 - k, 0);
      case Int(k) =>
        ok := AllAre(w, 0, 32 - k, Fill(w, k));
      case BytesN(k) =>
        ok := AllAre(w, k, 32, 0);
    }
    assert ok <==> Matches(t, w);
    hide *;
    MatchesIsExact(t, w);
  }

  // ------------------------------------------------------- numbers with padding

  function Repeated(b: u8, n: nat): (r: seq<u8>)
    ensures |r| == n && forall i | 0 <= i < n :: r[i] == b
  {
    seq(n, i => b)
  }

  lemma {:induction false} PowerSum(a: nat, b: nat)
    ensures Power256(a + b) == Power256(a) * Power256(b)
  {
    if b > 0 { PowerSum(a, b - 1); }
  }

  lemma {:induction false} NumberJoin(a: seq<u8>, b: seq<u8>)
    ensures FromBigEndian(a + b) == FromBigEndian(a) * Power256(|b|) + FromBigEndian(b)
    decreases |b|
  {
    if |b| == 0 {
      assert a + b == a;
    } else {
      var s := a + b;
      assert s[..|s| - 1] == a + b[..|b| - 1];
      NumberJoin(a, b[..|b| - 1]);
      Distributed(FromBigEndian(a), Power256(|b| - 1), FromBigEndian(b[..|b| - 1]));
    }
  }

  lemma Distributed(x: nat, y: nat, z: nat)
    ensures 256 * (x * y + z) == x * (256 * y) + 256 * z
  {}

  lemma {:induction false} PaddingIsWorth(n: nat)
    ensures FromBigEndian(Repeated(0, n)) == 0 && FromBigEndian(Repeated(255, n)) == Power256(n) - 1
  {
    if n > 0 {
      PaddingIsWorth(n - 1);
      assert Repeated(0, n)[..n - 1] == Repeated(0, n - 1) && Repeated(255, n)[..n - 1] == Repeated(255, n - 1);
    }
  }

  /** The sign of a number of k bytes is the top bit of its first. */
  lemma FirstByteDecides(b: seq<u8>)
    requires |b| > 0
    ensures b[0] >= 128 <==> FromBigEndian(b) >= 128 * Power256(|b| - 1)
    ensures FromBigEndian(b) < 256 * Power256(|b| - 1)
  {
    assert b == [b[0]] + b[1..];
    NumberJoin([b[0]], b[1..]);
    assert [b[0]][..0] == [];
    assert FromBigEndian([b[0]]) == b[0];
    BigEndianBound(b[1..]);
    hide FromBigEndian, Power256;
    var p, rest := Power256(|b| - 1), FromBigEndian(b[1..]);
    if b[0] >= 128 { Monotone(128, b[0], p); } else { Monotone(b[0] as int + 1, 128, p); }
    Monotone(b[0] as int + 1, 256, p);
  }

  lemma Monotone(a: nat, b: nat, p: nat)
    requires a <= b
    ensures a * p <= b * p && (a + 1) * p == a * p + p
  {}

  /** A number of k bytes behind zeros is itself, and behind ones it is less by 256^k, wrapped. */
  lemma PaddedNumber(b: u8, tail: seq<u8>)
    requires |tail| <= 32 && (b == 0 || b == 255)
    ensures FromBigEndian(Repeated(b, 32 - |tail|) + tail) ==
            if b == 0 then FromBigEndian(tail) else Power256(32) - Power256(|tail|) + FromBigEndian(tail)
  {
    hide *;
    var k := |tail|;
    var pad := Repeated(b, 32 - k);
    NumberJoin(pad, tail);
    PaddingIsWorth(32 - k);
    PowerSum(32 - k, k);
    assert 32 - k + k == 32;
    LessOne(Power256(32 - k), Power256(k));
  }

  lemma LessOne(x: nat, y: nat)
    ensures 0 * y == 0 && (x - 1) * y == x * y - y
  {}

  /** The signed number that k bytes hold, and its range. */
  lemma SignedRange(tail: seq<u8>)
    requires 1 <= |tail| <= 32
    ensures var n, k := FromBigEndian(tail), |tail|;
      if tail[0] >= 128 then -128 * Power256(k - 1) <= n - Power256(k) < 0 else n < 128 * Power256(k - 1)
    ensures Power256(|tail|) <= Power256(32)
  {
    assert Power256(|tail|) == 256 * Power256(|tail| - 1);
    hide *;
    FirstByteDecides(tail);
    BigEndianBound(tail);
    PowersGrow(|tail|, 32);
  }

  lemma FilledIsRepeated(w: seq<u8>, k: nat, b: u8)
    requires k <= 32 == |w|
    ensures Filled(w, 0, 32 - k, b) <==> w == Repeated(b, 32 - k) + w[32 - k..]
  {
    if w == Repeated(b, 32 - k) + w[32 - k..] {
      forall i | 0 <= i < 32 - k ensures w[i] == b { assert (Repeated(b, 32 - k) + w[32 - k..])[i] == b; }
    }
  }

  // --------------------------------------------------------- one word, one value

  lemma MatchedUint(k: nat, w: seq<u8>)
    requires 1 <= k <= 32 == |w| && Matches(Uint(k), w)
    ensures var v := ValueOf(Uint(k), w); Belongs(Uint(k), v) && Word(Uint(k), v) == w
  {
    FilledIsRepeated(w, k, 0);
    PaddedNumber(0, w[32 - k..]);
    BigEndianBound(w[32 - k..]);
    BigEndianReprint(w);
    hide FromBigEndian, ToBigEndian, Power256;
  }

  /** The padded bytes are the word of the number. */
  lemma SignedWord(k: nat, n: int, low: nat, tail: seq<u8>, b: u8, w: seq<u8>)
    requires 1 <= k <= 32 && 0 <= Power256(32) + n && Power256(k) > 0
    requires low == (if n >= 0 then n else Power256(k) + n) && b == (if n >= 0 then 0 else 255)
    requires |tail| == k && FromBigEndian(tail) == low && w == Repeated(b, 32 - k) + tail
    ensures ToBigEndian(Wrapped(n), 32) == w
  {
    hide Repeated, FromBigEndian, ToBigEndian, Power256;
    PaddedNumber(b, tail);
    BigEndianReprint(w);
  }

  /** The parts of a word that matches a signed type. */
  lemma SignedParts(k: nat, w: seq<u8>)
    requires 1 <= k <= 32 == |w| && Matches(Int(k), w)
    ensures w[32 - k..][0] == w[32 - k] && w == Repeated(Fill(w, k), 32 - k) + w[32 - k..]
    ensures ValueOf(Int(k), w) == VNumber(FromBigEndian(w[32 - k..]) - if w[32 - k] >= 128 then Power256(k) else 0)
    ensures Fill(w, k) == if w[32 - k] >= 128 then 255 else 0
  {
    hide Repeated, FromBigEndian, Power256;
    FilledIsRepeated(w, k, Fill(w, k));
  }

  lemma MatchedInt(k: nat, w: seq<u8>)
    requires 1 <= k <= 32 == |w| && Matches(Int(k), w)
    ensures var v := ValueOf(Int(k), w); Belongs(Int(k), v) && Word(Int(k), v) == w
  {
    SignedParts(k, w);
    var tail := w[32 - k..];
    SignedRange(tail);
    var n := ValueOf(Int(k), w).n;
    hide Repeated, Filled, Fill, Matches, ValueOf, Wrapped, FromBigEndian, ToBigEndian, Power256;
    SignedWord(k, n, FromBigEndian(tail), tail, Fill(w, k), w);
  }

  /** A word that matches is the encoding of the value it stands for. */
  lemma MatchedIsEncoded(t: ArgType, w: seq<u8>)
    requires t.Legal() && |w| == 32 && Matches(t, w)
    ensures Belongs(t, ValueOf(t, w)) && Word(t, ValueOf(t, w)) == w
  {
    hide FromBigEndian, ToBigEndian, Power256;
    match t
    case Address => assert w == ZeroBytes(12) + w[12..];
    case Bool => assert w == ZeroBytes(31) + [w[31]];
    case Uint(k) => MatchedUint(k, w);
    case Int(k) => MatchedInt(k, w);
    case BytesN(k) => assert w == w[..k] + ZeroBytes(32 - k);
  }

  lemma EncodedUint(k: nat, n: nat)
    requires 1 <= k <= 32 && n < Power256(k)
    ensures var w := ToBigEndian(n, 32); Matches(Uint(k), w) && ValueOf(Uint(k), w) == VNumber(n)
  {
    var tail := ToBigEndian(n, k);
    var w := Repeated(0, 32 - k) + tail;
    BigEndianRoundTrip(n, k);
    PaddedNumber(0, tail);
    BigEndianReprint(w);
    hide FromBigEndian, ToBigEndian, Power256;
    assert w[32 - k..] == tail;
    FilledIsRepeated(w, k, 0);
  }

  /** The low bytes of a signed number, and the padding before them. */
  lemma SignedBytes(k: nat, n: int, low: nat, tail: seq<u8>, b: u8)
    requires 1 <= k <= 32 && -128 * Power256(k - 1) <= n < 128 * Power256(k - 1)
    requires low == (if n >= 0 then n else Power256(k) + n) && b == (if n >= 0 then 0 else 255)
    requires tail == ToBigEndian(low, k)
    ensures FromBigEndian(tail) == low && (tail[0] >= 128 <==> n < 0)
  {
    assert Power256(k) == 256 * Power256(k - 1);
    hide *;
    BigEndianRoundTrip(low, k);
    FirstByteDecides(tail);
  }

  /** What such a word stands for. */
  lemma SignedValue(k: nat, n: int, low: nat, tail: seq<u8>, b: u8, w: seq<u8>)
    requires 1 <= k <= 32 && |tail| == k && w == Repeated(b, 32 - k) + tail
    requires low == (if n >= 0 then n else Power256(k) + n) && b == (if n >= 0 then 0 else 255)
    requires FromBigEndian(tail) == low && (tail[0] >= 128 <==> n < 0)
    ensures Matches(Int(k), w) && ValueOf(Int(k), w) == VNumber(n)
  {
    hide Repeated, Filled, FromBigEndian, Power256;
    assert w[32 - k..] == tail && w[32 - k] == tail[0];
    FilledIsRepeated(w, k, b);
  }

  lemma EncodedInt(k: nat, n: int)
    requires 1 <= k <= 32 && -128 * Power256(k - 1) <= n < 128 * Power256(k - 1) && 0 <= Power256(32) + n
    ensures var w := ToBigEndian(Wrapped(n), 32); Matches(Int(k), w) && ValueOf(Int(k), w) == VNumber(n)
  {
    assert Power256(k) == 256 * Power256(k - 1);
    hide *;
    var low, b: u8 := if n >= 0 then n else Power256(k) + n, if n >= 0 then 0 else 255;
    var tail := ToBigEndian(low, k);
    var w := Repeated(b, 32 - k) + tail;
    SignedBytes(k, n, low, tail, b);
    SignedWord(k, n, low, tail, b, w);
    SignedValue(k, n, low, tail, b, w);
  }

  /** The encoding of a value matches, and stands for that value and no other. */
  lemma EncodedIsMatched(t: ArgType, v: Value)
    requires t.Legal() && Belongs(t, v)
    ensures Matches(t, Word(t, v)) && ValueOf(t, Word(t, v)) == v
  {
    hide FromBigEndian, ToBigEndian, Power256;
    match t
    case Address => assert AddressWord(v.address)[12..] == v.address;
    case Bool =>
    case Uint(k) => EncodedUint(k, v.n);
    case Int(k) => InRange(t, v); EncodedInt(k, v.n);
    case BytesN(k) => assert (v.bytes + ZeroBytes(32 - k))[..k] == v.bytes;
  }

  lemma MatchesIsExact(t: ArgType, w: seq<u8>)
    requires t.Legal() && |w| == 32
    ensures Matches(t, w) <==> exists v :: Belongs(t, v) && Word(t, v) == w
  {
    hide Matches, Word, ValueOf, Belongs;
    if Matches(t, w) { MatchedIsEncoded(t, w); }
    forall v | Belongs(t, v) && Word(t, v) == w ensures Matches(t, w) { EncodedIsMatched(t, v); }
  }

  // ----------------------------------------------------------------- whole calls

  predicate AllLegal(types: seq<ArgType>) { forall i | 0 <= i < |types| :: types[i].Legal() }

  predicate AllBelong(types: seq<ArgType>, values: seq<Value>)
    requires AllLegal(types)
  {
    |values| == |types| && forall i | 0 <= i < |types| :: Belongs(types[i], values[i])
  }

  /** The words of a call's arguments, one behind the other. */
  function Words(types: seq<ArgType>, values: seq<Value>): (w: seq<u8>)
    requires AllLegal(types) && AllBelong(types, values)
    ensures |w| == 32 * |types|
  {
    if |types| == 0 then []
    else
      var n := |types| - 1;
      Words(types[..n], values[..n]) + Word(types[n], values[n])
  }

  function WordOf(data: seq<u8>, i: nat): (w: seq<u8>)
    requires 4 + 32 * i + 32 <= |data|
    ensures |w| == 32
  {
    data[4 + 32 * i..4 + 32 * i + 32]
  }

  /** What the decoder accepts: a selector, one matching word for each type, nothing more. */
  predicate Decodes(types: seq<ArgType>, data: seq<u8>)
    requires AllLegal(types)
  {
    |data| == 4 + 32 * |types| && forall i | 0 <= i < |types| :: Matches(types[i], WordOf(data, i))
  }

  method DecodeStatic(types: seq<ArgType>, data: seq<u8>) returns (ok: bool)
    requires AllLegal(types)
    ensures ok <==> Decodes(types, data)
  {
    hide Matches, Word, Belongs;
    if |data| != 4 + 32 * |types| { return false; }
    var i := 0;
    while i < |types|
      invariant 0 <= i <= |types|
      invariant forall j | 0 <= j < i :: Matches(types[j], WordOf(data, j))
    {
      ok := WordMatchesType(types[i], WordOf(data, i));
      if !ok { return; }
      i := i + 1;
    }
    ok := true;
  }

  /** The values that are drawn. */
  function Drawn(types: seq<ArgType>, data: seq<u8>): (v: seq<Value>)
    requires AllLegal(types) && |data| == 4 + 32 * |types|
    ensures |v| == |types| && forall i | 0 <= i < |types| :: v[i] == ValueOf(types[i], WordOf(data, i))
  {
    seq(|types|, i requires 0 <= i < |types| => ValueOf(types[i], WordOf(data, i)))
  }

  lemma DrawnBelong(types: seq<ArgType>, data: seq<u8>)
    requires AllLegal(types) && Decodes(types, data)
    ensures AllBelong(types, Drawn(types, data))
  {
    hide Matches, Word, Belongs, ValueOf, WordOf;
    forall i | 0 <= i < |types| ensures Belongs(types[i], Drawn(types, data)[i]) { MatchedIsEncoded(types[i], WordOf(data, i)); }
  }

  /** Calldata without its last word. */
  lemma AllButLast(types: seq<ArgType>, data: seq<u8>)
    requires |types| > 0 && AllLegal(types) && Decodes(types, data)
    ensures var n, front := |types| - 1, data[..|data| - 32];
      AllLegal(types[..n]) && Decodes(types[..n], front) && Drawn(types, data)[..n] == Drawn(types[..n], front)
      && front[..4] == data[..4] && data == front + WordOf(data, n)
  {
    hide Matches, ValueOf;
    var n, front := |types| - 1, data[..|data| - 32];
    assert forall i | 0 <= i < n :: WordOf(front, i) == WordOf(data, i);
    assert Drawn(types, data)[..n] == Drawn(types[..n], front);
  }

  lemma LastWord(types: seq<ArgType>, data: seq<u8>)
    requires |types| > 0 && AllLegal(types) && Decodes(types, data)
    ensures var n := |types| - 1;
      Belongs(types[n], Drawn(types, data)[n]) && Word(types[n], Drawn(types, data)[n]) == WordOf(data, n)
  {
    var n := |types| - 1;
    hide Matches, Word, Belongs, ValueOf, WordOf;
    MatchedIsEncoded(types[n], WordOf(data, n));
  }

  lemma WordsStep(types: seq<ArgType>, values: seq<Value>)
    requires |types| > 0 && AllLegal(types) && AllBelong(types, values)
    ensures var n := |types| - 1;
      AllLegal(types[..n]) && AllBelong(types[..n], values[..n]) && types[n].Legal() && Belongs(types[n], values[n])
      && Words(types, values) == Words(types[..n], values[..n]) + Word(types[n], values[n])
  {
    hide Word, Belongs;
  }

  lemma SelectorOnly(types: seq<ArgType>, data: seq<u8>)
    requires |types| == 0 && AllLegal(types) && Decodes(types, data)
    ensures AllBelong(types, Drawn(types, data)) && data == data[..4] + Words(types, Drawn(types, data))
  {}

  /** Calldata that is accepted is the selector and the encoding of the values drawn. */
  lemma {:induction false} AcceptedIsEncoded(types: seq<ArgType>, data: seq<u8>)
    requires AllLegal(types) && Decodes(types, data)
    ensures AllBelong(types, Drawn(types, data)) && data == data[..4] + Words(types, Drawn(types, data))
    decreases |types|
  {
    assert |data| == 4 + 32 * |types|;
    hide *;
    DrawnBelong(types, data);
    if |types| == 0 {
      SelectorOnly(types, data);
    } else {
      var n, front, values := |types| - 1, data[..|data| - 32], Drawn(types, data);
      AllButLast(types, data);
      AcceptedIsEncoded(types[..n], front);
      WordsStep(types, values);
      LastWord(types, data);
      Joined(data[..4], Words(types[..n], values[..n]), Word(types[n], values[n]));
    }
  }

  lemma {:induction false} WordStands(types: seq<ArgType>, values: seq<Value>, selector: seq<u8>, i: nat)
    requires |selector| == 4 && AllLegal(types) && AllBelong(types, values) && i < |types|
    ensures WordOf(selector + Words(types, values), i) == Word(types[i], values[i])
    decreases |types|
  {
    hide Word, Belongs;
    var n := |types| - 1;
    var front := selector + Words(types[..n], values[..n]);
    var data := selector + Words(types, values);
    assert data == front + Word(types[n], values[n]);
    if i < n {
      WordStands(types[..n], values[..n], selector, i);
      assert WordOf(data, i) == WordOf(front, i);
    }
  }

  /** The encoding of any values is accepted, and those values are drawn. */
  lemma EncodedIsAccepted(types: seq<ArgType>, values: seq<Value>, selector: seq<u8>)
    requires |selector| == 4 && AllLegal(types) && AllBelong(types, values)
    ensures Decodes(types, selector + Words(types, values)) && Drawn(types, selector + Words(types, values)) == values
  {
    hide Matches, Word, Belongs, ValueOf;
    forall i | 0 <= i < |types|
      ensures Matches(types[i], WordOf(selector + Words(types, values), i))
      ensures ValueOf(types[i], WordOf(selector + Words(types, values), i)) == values[i]
    {
      WordStands(types, values, selector, i);
      EncodedIsMatched(types[i], values[i]);
    }
  }
}
