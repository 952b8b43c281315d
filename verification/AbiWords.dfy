/** The words of canonical ABI calldata. */
module AbiWords {
  import opened Bytes

  // The words and tails that canonical ABI calldata is made of, each read in exactly
  // the one place and form that it can be written.

  const TWO_32 := 0x1_0000_0000

  function ZeroBytes(n: nat): (z: seq<u8>)
    ensures |z| == n && forall i | 0 <= i < n :: z[i] == 0
  {
    seq(n, i => 0)
  }

  function SizeWord(n: nat): (w: seq<u8>)
    ensures |w| == 32
  {
    ZeroBytes(28) + ToBigEndian(n, 4)
  }

  function AddressWord(a: seq<u8>): (w: seq<u8>)
    requires |a| == 20
    ensures |w| == 32
  {
    ZeroBytes(12) + a
  }

  /** A word as a length or an offset; one past the limit is malformed. */
  function SizeAt(args: seq<u8>, off: nat, limit: nat): (r: Option<nat>)
    ensures r.Some? ==> r.value <= limit && off + 32 <= |args|
  {
    if off + 32 > |args| || args[off..off + 28] != ZeroBytes(28) then None
    else
      var n := FromBigEndian(args[off + 28..off + 32]);
      if n <= limit then Some(n) else None
  }

  /** A word as an address: its first twelve bytes are zero. */
  function AddressAt(args: seq<u8>, off: nat): (r: Option<seq<u8>>)
    ensures r.Some? ==> |r.value| == 20 && off + 32 <= |args|
  {
    if off + 32 > |args| || args[off..off + 12] != ZeroBytes(12) then None
    else Some(args[off + 12..off + 32])
  }

  lemma BothStand(buf: seq<u8>, p: nat, a: seq<u8>, b: seq<u8>)
    ensures Stands(buf, p, a + b) <==> Stands(buf, p, a) && Stands(buf, p + |a|, b)
  {
    if p + |a| + |b| <= |buf| {
      var whole := buf[p..p + |a + b|];
      assert buf[p..p + |a|] == whole[..|a|] && buf[p + |a|..p + |a| + |b|] == whole[|a|..];
      assert whole == whole[..|a|] + whole[|a|..];
    }
  }

  lemma SizeIsExact(args: seq<u8>, off: nat, limit: nat, n: nat)
    ensures SizeAt(args, off, limit) == Some(n) <==> n <= limit && n < TWO_32 && Stands(args, off, SizeWord(n))
  {
    hide FromBigEndian, ToBigEndian, ZeroBytes;
    BothStand(args, off, ZeroBytes(28), ToBigEndian(n, 4));
    if off + 32 <= |args| {
      BigEndianReprint(args[off + 28..off + 32]);
      BigEndianBound(args[off + 28..off + 32]);
      FourBytesOfPower();
      if n < TWO_32 { BigEndianRoundTrip(n, 4); }
    }
  }

  lemma FourBytesOfPower() ensures Power256(4) == TWO_32 {
    assert Power256(2) == 0x1_0000;
  }

  lemma AddressIsExact(args: seq<u8>, off: nat, a: seq<u8>)
    ensures AddressAt(args, off) == Some(a) <==> |a| == 20 && Stands(args, off, AddressWord(a))
  {
    hide ZeroBytes;
    BothStand(args, off, ZeroBytes(12), a);
  }

  // ------------------------------------------------------------------- arrays

  function AddressWords(l: seq<seq<u8>>): (w: seq<u8>)
    requires forall i | 0 <= i < |l| :: |l[i]| == 20
    ensures |w| == 32 * |l|
  {
    if |l| == 0 then [] else AddressWords(l[..|l| - 1]) + AddressWord(l[|l| - 1])
  }

  function RawWords(l: seq<seq<u8>>): (w: seq<u8>)
    requires forall i | 0 <= i < |l| :: |l[i]| == 32
    ensures |w| == 32 * |l|
  {
    if |l| == 0 then [] else RawWords(l[..|l| - 1]) + l[|l| - 1]
  }

  function AddressesAt(args: seq<u8>, off: nat, n: nat): (r: Option<seq<seq<u8>>>)
    ensures r.Some? ==> |r.value| == n && forall i | 0 <= i < n :: |r.value[i]| == 20
  {
    if n == 0 then Some([])
    else
      var before :- AddressesAt(args, off, n - 1);
      var last :- AddressAt(args, off + 32 * (n - 1));
      Some(before + [last])
  }

  function WordsAt(args: seq<u8>, off: nat, n: nat): (w: seq<seq<u8>>)
    requires off + 32 * n <= |args|
    ensures |w| == n && forall i | 0 <= i < n :: w[i] == args[off + 32 * i..off + 32 * i + 32]
  {
    seq(n, i requires 0 <= i < n => args[off + 32 * i..off + 32 * i + 32])
  }

  predicate AllAddresses(l: seq<seq<u8>>) { forall i | 0 <= i < |l| :: |l[i]| == 20 }

  predicate AllWords(l: seq<seq<u8>>) { forall i | 0 <= i < |l| :: |l[i]| == 32 }

  lemma AddressesStep(args: seq<u8>, off: nat, before: seq<seq<u8>>, last: seq<u8>)
    ensures AddressesAt(args, off, |before| + 1) == Some(before + [last]) <==>
      AddressesAt(args, off, |before|) == Some(before) && AddressAt(args, off + 32 * |before|) == Some(last)
  {
    hide AddressAt;
    var n := |before|;
    var a, b := AddressesAt(args, off, n), AddressAt(args, off + 32 * n);
    if a.Some? && b.Some? {
      assert (a.value + [b.value])[..n] == a.value && (a.value + [b.value])[n] == b.value;
      assert (before + [last])[..n] == before && (before + [last])[n] == last;
    }
  }

  lemma AddressWordsStep(before: seq<seq<u8>>, last: seq<u8>)
    ensures AllAddresses(before + [last]) <==> AllAddresses(before) && |last| == 20
    ensures AllAddresses(before) && |last| == 20 ==> AddressWords(before + [last]) == AddressWords(before) + AddressWord(last)
  {
    assert (before + [last])[..|before|] == before && (before + [last])[|before|] == last;
    if AllAddresses(before + [last]) {
      forall i | 0 <= i < |before| ensures |before[i]| == 20 { assert (before + [last])[i] == before[i]; }
    }
  }

  lemma {:induction false} AddressesAreExact(args: seq<u8>, off: nat, l: seq<seq<u8>>)
    requires off + 32 * |l| <= |args|
    ensures AddressesAt(args, off, |l|) == Some(l) <==> AllAddresses(l) && Stands(args, off, AddressWords(l))
  {
    if |l| == 0 {
      EmptyStands(args, off);
    } else {
      hide *;
      var before, last := l[..|l| - 1], l[|l| - 1];
      assert l == before + [last];
      AddressesAreExact(args, off, before);
      AddressIsExact(args, off + 32 * |before|, last);
      AddressesStep(args, off, before, last);
      AddressWordsStep(before, last);
      if AllAddresses(before) && |last| == 20 {
        BothStand(args, off, AddressWords(before), AddressWord(last));
      }
    }
  }

  lemma EmptyStands(args: seq<u8>, off: nat)
    requires off <= |args|
    ensures Stands(args, off, [])
  {}

  lemma {:induction false} WordsAreExact(args: seq<u8>, off: nat, l: seq<seq<u8>>)
    requires off + 32 * |l| <= |args|
    ensures WordsAt(args, off, |l|) == l <==> AllWords(l) && Stands(args, off, RawWords(l))
  {
    if |l| > 0 {
      var before, last := l[..|l| - 1], l[|l| - 1];
      WordsAreExact(args, off, before);
      assert l == before + [last];
      assert WordsAt(args, off, |l|) == WordsAt(args, off, |before|) + [args[off + 32 * |before|..off + 32 * |l|]];
      if AllWords(l) {
        BothStand(args, off, RawWords(before), last);
      }
    }
  }

  /** A counted array of addresses. */
  function AddressArray(l: seq<seq<u8>>): (b: seq<u8>)
    requires AllAddresses(l)
    ensures |b| == 32 + 32 * |l|
  {
    SizeWord(|l|) + AddressWords(l)
  }

  /** Between one and so many of them. */
  function AddressArrayAt(args: seq<u8>, off: nat, most: nat): (r: Option<seq<seq<u8>>>)
    ensures r.Some? ==> 1 <= |r.value| <= most && AllAddresses(r.value)
  {
    var n :- SizeAt(args, off, |args|);
    if n == 0 || n > most || off + 32 + n * 32 > |args| then None else AddressesAt(args, off + 32, n)
  }

  lemma AddressArrayIsExact(args: seq<u8>, off: nat, most: nat, l: seq<seq<u8>>)
    requires most < TWO_32
    ensures AddressArrayAt(args, off, most) == Some(l) <==>
      1 <= |l| <= most && AllAddresses(l) && Stands(args, off, AddressArray(l))
  {
    hide SizeAt, AddressesAt, SizeWord, AddressWords;
    SizeIsExact(args, off, |args|, |l|);
    if AllAddresses(l) {
      BothStand(args, off, SizeWord(|l|), AddressWords(l));
    }
    if off + 32 + 32 * |l| <= |args| {
      AddressesAreExact(args, off + 32, l);
    }
  }

  /** A counted array of words, as many as were announced elsewhere. */
  function WordArray(l: seq<seq<u8>>): (b: seq<u8>)
    requires AllWords(l)
    ensures |b| == 32 + 32 * |l|
  {
    SizeWord(|l|) + RawWords(l)
  }

  function WordArrayAt(args: seq<u8>, off: nat, n: nat): (r: Option<seq<seq<u8>>>)
    ensures r.Some? ==> |r.value| == n && AllWords(r.value)
  {
    var m :- SizeAt(args, off, |args|);
    if m != n || off + 32 + n * 32 > |args| then None else Some(WordsAt(args, off + 32, n))
  }

  lemma WordArrayIsExact(args: seq<u8>, off: nat, n: nat, l: seq<seq<u8>>)
    requires n < TWO_32
    ensures WordArrayAt(args, off, n) == Some(l) <==> |l| == n && AllWords(l) && Stands(args, off, WordArray(l))
  {
    hide SizeAt, SizeWord, RawWords;
    SizeIsExact(args, off, |args|, n);
    if AllWords(l) {
      BothStand(args, off, SizeWord(|l|), RawWords(l));
    }
    if off + 32 + 32 * n <= |args| && |l| == n {
      WordsAreExact(args, off + 32, l);
    }
  }

  // -------------------------------------------------------------------- bytes

  function PaddedLength(n: nat): (p: nat)
    ensures n <= p < n + 32 && p % 32 == 0
  {
    (n + 31) / 32 * 32
  }

  /** A counted byte string, padded with zeros to a whole number of words. */
  function Counted(s: seq<u8>): (b: seq<u8>)
    ensures |b| == 32 + PaddedLength(|s|)
  {
    SizeWord(|s|) + s + ZeroBytes(PaddedLength(|s|) - |s|)
  }

  function CountedAt(args: seq<u8>, off: nat): (r: Option<seq<u8>>)
  {
    var n :- SizeAt(args, off, |args|);
    var padded := PaddedLength(n);
    if padded > |args| || off + 32 + padded > |args| then None
    else if args[off + 32 + n..off + 32 + padded] == ZeroBytes(padded - n) then Some(args[off + 32..off + 32 + n])
    else None
  }

  lemma CountedIsExact(args: seq<u8>, off: nat, s: seq<u8>)
    requires |s| < TWO_32
    ensures CountedAt(args, off) == Some(s) <==> Stands(args, off, Counted(s))
  {
    hide SizeAt, SizeWord, ZeroBytes, PaddedLength;
    var n := |s|;
    var pad := PaddedLength(n) - n;
    SizeIsExact(args, off, |args|, n);
    BothStand(args, off, SizeWord(n) + s, ZeroBytes(pad));
    BothStand(args, off, SizeWord(n), s);
  }

  // ------------------------------------------------------ reading byte by byte

  predicate Filled(w: seq<u8>, start: nat, end: nat, b: u8)
    requires start <= end <= |w|
  {
    forall i | start <= i < end :: w[i] == b
  }

  method AllAre(w: seq<u8>, start: nat, end: nat, b: u8) returns (ok: bool)
    requires start <= end <= |w|
    ensures ok <==> Filled(w, start, end, b)
  {
    var i := start;
    while i < end
      invariant start <= i <= end && Filled(w, start, i, b)
    {
      if w[i] != b { return false; }
      i := i + 1;
    }
    ok := true;
  }

  lemma FilledIsZero(args: seq<u8>, start: nat, end: nat)
    requires start <= end <= |args|
    ensures Filled(args, start, end, 0) <==> args[start..end] == ZeroBytes(end - start)
  {
    if args[start..end] == ZeroBytes(end - start) {
      forall i | start <= i < end ensures args[i] == 0 { assert args[i] == args[start..end][i - start]; }
    }
  }

  method ReadAddress(args: seq<u8>, off: nat) returns (a: Option<seq<u8>>)
    ensures a == AddressAt(args, off)
  {
    if off + 32 > |args| { return None; }
    FilledIsZero(args, off, off + 12);
    var padded := AllAre(args, off, off + 12, 0);
    a := if padded then Some(args[off + 12..off + 32]) else None;
  }

  method ReadSize(args: seq<u8>, off: nat, limit: nat) returns (n: Option<nat>)
    ensures n == SizeAt(args, off, limit)
  {
    if off + 32 > |args| { return None; }
    FilledIsZero(args, off, off + 28);
    var small := AllAre(args, off, off + 28, 0);
    if !small { return None; }
    var b := args[off + 28..off + 32];
    FourBytesAre(b);
    var v := 0x100_0000 * (b[0] as int) + 0x1_0000 * (b[1] as int) + 0x100 * (b[2] as int) + b[3] as int;
    n := if v <= limit then Some(v) else None;
  }

  lemma FourBytesAre(b: seq<u8>)
    requires |b| == 4
    ensures FromBigEndian(b) == 0x100_0000 * (b[0] as int) + 0x1_0000 * (b[1] as int) + 0x100 * (b[2] as int) + b[3] as int
  {
    assert b[..3][..2] == b[..2] && b[..2][..1] == b[..1] && b[..1][..0] == [];
    assert FromBigEndian(b[..1]) == b[0];
    assert FromBigEndian(b[..2]) == 256 * (b[0] as int) + b[1] as int;
    assert FromBigEndian(b[..3]) == 0x1_0000 * (b[0] as int) + 0x100 * (b[1] as int) + b[2] as int;
  }

  method ReadCounted(args: seq<u8>, off: nat) returns (s: Option<seq<u8>>)
    ensures s == CountedAt(args, off)
  {
    hide SizeAt;
    var n := ReadSize(args, off, |args|);
    if n.None? { return None; }
    var padded := PaddedLength(n.value);
    if padded > |args| || off + 32 + padded > |args| { return None; }
    FilledIsZero(args, off + 32 + n.value, off + 32 + padded);
    var clean := AllAre(args, off + 32 + n.value, off + 32 + padded, 0);
    s := if clean then Some(args[off + 32..off + 32 + n.value]) else None;
  }
}
