/** Big-endian quantities as decimal text. */
module Decimal {
  import opened Arith
  import opened Bytes

  // Big-endian quantities as decimal text: long division in place, and the two
  // renderings built on it.

  // ----------------------------------------------------- what decimal text is

  function DigitChar(d: nat): (c: char)
    requires d < 10
  {
    '0' + d as char
  }

  predicate IsDigit(c: char) { '0' <= c <= '9' }

  predicate AllDigits(s: string) { forall i | 0 <= i < |s| :: IsDigit(s[i]) }

  function DigitOf(c: char): (d: nat)
    requires IsDigit(c)
    ensures d < 10
  {
    (c - '0') as nat
  }

  /** The number that digits spell. */
  function Spelled(s: string): nat
    requires AllDigits(s)
  {
    if |s| == 0 then 0 else 10 * Spelled(s[..|s| - 1]) + DigitOf(s[|s| - 1])
  }

  /** The digits of a number, without leading zeros. */
  function Digits(v: nat): (s: string)
    ensures |s| > 0 && AllDigits(s)
  {
    if v < 10 then [DigitChar(v)] else Digits(v / 10) + [DigitChar(v % 10)]
  }

  lemma {:induction false} DigitsSpell(v: nat)
    ensures Spelled(Digits(v)) == v
    ensures v > 0 ==> Digits(v)[0] != '0'
  {
    if v >= 10 {
      DigitsSpell(v / 10);
      var s := Digits(v);
      assert s[..|s| - 1] == Digits(v / 10);
    } else {
      assert Digits(v)[..0] == [];
    }
  }

  /** Two numbers are never shown alike. */
  lemma DigitsAreInjective(v: nat, w: nat)
    requires Digits(v) == Digits(w)
    ensures v == w
  {
    DigitsSpell(v);
    DigitsSpell(w);
  }

  /** A number without its k last digits. */
  function Scaled(v: nat, k: nat): (q: nat)
  {
    DivNonneg(v, Pow(10, k));
    v / Pow(10, k)
  }

  lemma {:induction false} ScaledStep(v: nat, k: nat)
    ensures Scaled(v, 0) == v
    ensures k > 0 ==> Scaled(v, k) == Scaled(v / 10, k - 1)
  {
    DivUnique(v, 1, v, 0);
    if k > 0 { DivDiv(v, 10, Pow(10, k - 1)); }
  }

  /** The digit of weight 10^j; beyond the text there is nothing left of the number. */
  lemma {:induction false} DigitAt(v: nat, j: nat)
    ensures j < |Digits(v)| ==> Digits(v)[|Digits(v)| - 1 - j] == DigitChar(Scaled(v, j) % 10)
    ensures j >= |Digits(v)| ==> Scaled(v, j) == 0
  {
    hide Scaled;
    ScaledStep(v, j);
    if j > 0 {
      if v >= 10 {
        DigitAt(v / 10, j - 1);
      } else {
        Zeros(j - 1);
      }
    }
  }

  lemma {:induction false} Zeros(j: nat)
    ensures Scaled(0, j) == 0
  {
    DivUnique(0, Pow(10, j), 0, 0);
  }

  /** Dropping k digits is dividing by 10^k. */
  lemma {:induction false} LeadingDigits(v: nat, k: nat)
    requires k < |Digits(v)|
    ensures Digits(Scaled(v, k)) == Digits(v)[..|Digits(v)| - k]
  {
    hide Scaled;
    ScaledStep(v, k);
    if k > 0 { LeadingDigits(v / 10, k - 1); }
  }

  /** Exactly n digits, zeros included. */
  function FixedDigits(v: nat, n: nat): (s: string)
    ensures |s| == n && AllDigits(s)
  {
    if n == 0 then [] else FixedDigits(v / 10, n - 1) + [DigitChar(v % 10)]
  }

  lemma {:induction false} FixedDigitAt(v: nat, n: nat, i: nat)
    requires i < n
    ensures FixedDigits(v, n)[i] == DigitChar(Scaled(v, n - 1 - i) % 10)
  {
    hide Scaled;
    ScaledStep(v, n - 1 - i);
    if i < n - 1 { FixedDigitAt(v / 10, n - 1, i); }
  }

  lemma {:induction false} FixedDigitsSpell(v: nat, n: nat)
    ensures Spelled(FixedDigits(v, n)) == v % Pow(10, n)
  {
    if n == 0 {
      DivUnique(v, 1, v, 0);
    } else {
      FixedDigitsSpell(v / 10, n - 1);
      assert FixedDigits(v, n)[..n - 1] == FixedDigits(v / 10, n - 1);
      LowDigits(v, Pow(10, n - 1));
    }
  }

  lemma LowDigits(v: nat, p: nat)
    requires p >= 1
    ensures v % (10 * p) == 10 * (v / 10 % p) + v % 10
  {
    var q := v / 10 / p;
    DivMod(v / 10, p);
    assert v == 10 * (q * p + v / 10 % p) + v % 10;
    MulAssoc(10, q, p);
    MulAssoc(q, 10, p);
    DivUnique(v, 10 * p, q, 10 * (v / 10 % p) + v % 10);
  }

  function Trimmed(s: string): (t: string)
    ensures |t| <= |s| && t == s[..|t|]
    ensures t == "" || t[|t| - 1] != '0'
  {
    if |s| > 0 && s[|s| - 1] == '0' then Trimmed(s[..|s| - 1]) else s
  }

  lemma {:induction false} TrimmedSpells(s: string)
    requires AllDigits(s)
    ensures AllDigits(Trimmed(s)) && Spelled(s) == Spelled(Trimmed(s)) * Pow(10, |s| - |Trimmed(s)|)
  {
    if |s| > 0 && s[|s| - 1] == '0' {
      TrimmedSpells(s[..|s| - 1]);
      MulAssoc(10, Spelled(Trimmed(s)), Pow(10, |s| - 1 - |Trimmed(s)|));
      MulAssoc(Spelled(Trimmed(s)), 10, Pow(10, |s| - 1 - |Trimmed(s)|));
    }
  }

  // ------------------------------------------------------- what a value shows

  /** Decimals asked for outside 0..18 mean six. */
  function Places(maxDecimals: int): (d: nat)
    ensures d <= 18
  {
    if maxDecimals < 0 || maxDecimals > 18 then 6 else maxDecimals
  }

  function Fraction(wei: nat, d: nat): (f: string)
    requires d <= 18
    ensures |f| <= d
  {
    Trimmed(FixedDigits(wei, 18)[..d])
  }

  function ValueText(wei: nat, d: nat): (s: string)
    requires d <= 18
  {
    var f := Fraction(wei, d);
    Digits(Scaled(wei, 18)) + if f == "" then "" else "." + f
  }

  lemma {:induction false} FixedPrefix(v: nat, n: nat, d: nat)
    requires d <= n
    ensures FixedDigits(v, n)[..d] == FixedDigits(Scaled(v, n - d), d)
  {
    hide Scaled;
    ScaledStep(v, n - d);
    if d < n { FixedPrefix(v / 10, n - 1, d); }
  }

  /** The text is the value rounded down to d places: the whole part, and a fraction
      of at most d digits without a trailing zero. */
  lemma ValueTextIsExact(wei: nat, d: nat)
    requires d <= 18
    ensures AllDigits(Fraction(wei, d))
    ensures Scaled(wei, 18) * Pow(10, d) + Spelled(Fraction(wei, d)) * Pow(10, d - |Fraction(wei, d)|)
         == Scaled(wei, 18 - d)
    ensures Fraction(wei, d) == "" || Fraction(wei, d)[|Fraction(wei, d)| - 1] != '0'
  {
    hide Pow, Trimmed, Spelled, FixedDigits;
    var scaled := Scaled(wei, 18 - d);
    FixedPrefix(wei, 18, d);
    TrimmedSpells(FixedDigits(scaled, d));
    FixedDigitsSpell(scaled, d);
    PowAdd(10, 18 - d, d);
    DivDiv(wei, Pow(10, 18 - d), Pow(10, d));
    DivMod(scaled, Pow(10, d));
  }

  // ------------------------------------------------------- the long division

  /** Divide a big-endian number by a small one, in place. */
  method DivmodSmall(value: array<u8>, divisor: nat) returns (rest: nat)
    requires 0 < divisor < 0x1_0000_0000
    modifies value
    ensures FromBigEndian(value[..]) == old(FromBigEndian(value[..])) / divisor
    ensures rest == old(FromBigEndian(value[..])) % divisor
  {
    ghost var was := value[..];
    var i := 0;
    rest := 0;
    while i < value.Length
      invariant 0 <= i <= value.Length && rest < divisor
      invariant value[i..] == was[i..]
      invariant FromBigEndian(was[..i]) == FromBigEndian(value[..i]) * divisor + rest
    {
      var cur := rest * 256 + (value[i] as int);
      DivMod(cur, divisor);
      QuotientBelow(cur, divisor, 256);
      DivisionStep(was, i, FromBigEndian(value[..i]), divisor, rest, cur);
      ghost var before := value[..i];
      value[i] := cur / divisor;
      rest := cur % divisor;
      assert value[..i + 1] == before + [value[i]];
      assert value[..i + 1][..i] == before;
      i := i + 1;
    }
    assert value[..i] == value[..] && was[..i] == was;
    DivUnique(FromBigEndian(was), divisor, FromBigEndian(value[..]), rest);
  }

  lemma DivisionStep(was: seq<u8>, i: nat, q: nat, divisor: nat, rest: nat, cur: nat)
    requires i < |was| && divisor > 0 && cur == rest * 256 + was[i] as int
    requires FromBigEndian(was[..i]) == q * divisor + rest
    ensures FromBigEndian(was[..i + 1]) == (256 * q + cur / divisor) * divisor + cur % divisor
  {
    assert was[..i + 1][..i] == was[..i];
    DivMod(cur, divisor);
    MulAssoc(256, q, divisor);
    MulAdd(256 * q, cur / divisor, divisor);
  }

  method IsZero(v: array<u8>) returns (zero: bool)
    ensures zero <==> FromBigEndian(v[..]) == 0
  {
    var i := 0;
    while i < v.Length
      invariant 0 <= i <= v.Length && FromBigEndian(v[..i]) == 0
    {
      assert v[..i + 1][..i] == v[..i];
      if v[i] != 0 {
        PrefixBound(v[..], i + 1);
        return false;
      }
      i := i + 1;
    }
    assert v[..i] == v[..];
    zero := true;
  }

  lemma {:induction false} PrefixBound(b: seq<u8>, k: nat)
    requires k <= |b|
    ensures FromBigEndian(b[..k]) <= FromBigEndian(b)
  {
    if k < |b| {
      PrefixBound(b[..|b| - 1], k);
      assert b[..|b| - 1][..k] == b[..k];
    } else {
      assert b[..k] == b;
    }
  }

  lemma {:induction false} PaddingIsFree(zeros: nat, q: seq<u8>)
    ensures FromBigEndian(seq(zeros, i => 0) + q) == FromBigEndian(q)
  {
    if |q| > 0 {
      assert (seq(zeros, i => 0) + q)[..zeros + |q| - 1] == seq(zeros, i => 0) + q[..|q| - 1];
      PaddingIsFree(zeros, q[..|q| - 1]);
    } else {
      assert seq(zeros, i => 0) + q == seq(zeros, i => 0);
      AllZeros(zeros);
    }
  }

  lemma {:induction false} AllZeros(n: nat)
    ensures FromBigEndian(seq(n, i => 0)) == 0
  {
    if n > 0 {
      assert seq(n, i => 0)[..n - 1] == seq(n - 1, i => 0);
      AllZeros(n - 1);
    }
  }

  /** The first k characters, last first. */
  function Backwards(s: seq<char>, k: nat): (r: string)
    requires k <= |s|
    ensures |r| == k && forall i | 0 <= i < k :: r[i] == s[k - 1 - i]
  {
    if k == 0 then [] else [s[k - 1]] + Backwards(s, k - 1)
  }

  lemma BackwardsGrows(was: seq<char>, now: seq<char>, k: nat)
    requires k < |was| == |now| && was[..k] == now[..k]
    ensures Backwards(now, k + 1) == [now[k]] + Backwards(was, k)
  {
    forall i | 0 <= i < k ensures was[i] == now[i] { assert was[..k][i] == now[..k][i]; }
    assert Backwards(now, k) == Backwards(was, k);
  }

  /** 80 digits are room for every 32-byte number. */
  lemma {:induction false} RoomForDigits(k: nat)
    ensures Power256(2 * k) <= Pow(10, 5 * k)
  {
    if k > 0 {
      RoomForDigits(k - 1);
      assert Power256(2 * k) == 0x1_0000 * Power256(2 * k - 2);
      PowAdd(10, 5, 5 * k - 5);
      assert Pow(10, 5) == 100000;
      MulMonotone(Power256(2 * k - 2), Pow(10, 5 * k - 5), 100000);
    }
  }

  /** The digits of a quantity, the last one first; the scratch never fills up early. */
  method ScratchDigits(q: seq<u8>) returns (digits: array<char>, n: nat)
    requires |q| <= 32
    ensures fresh(digits) && n <= digits.Length == 80 && Backwards(digits[..], n) == Digits(FromBigEndian(q))
  {
    hide Pow, FromBigEndian, Power256, Digits, Backwards;
    ghost var v := FromBigEndian(q);
    var work := Loaded(q);
    digits := new char[80];
    n := 0;
    ZeroDigits();
    BackwardsGrowsNot(digits[..]);
    var zero := IsZero(work);
    if zero {
      digits[0] := '0';
      assert digits[..][..1] == ['0'];
      OneDigit(digits[..]);
      n := 1;
      return;
    }
    BelowTenToThe80(q);
    while !zero && n < 80
      invariant n <= 80
      invariant zero <==> FromBigEndian(work[..]) == 0
      invariant FromBigEndian(work[..]) < Pow(10, 80 - n)
      invariant Remaining(FromBigEndian(work[..])) + Backwards(digits[..], n) == Digits(v)
      decreases 80 - n
    {
      ghost var left := FromBigEndian(work[..]);
      ghost var was := digits[..];
      var rest := DivmodSmall(work, 10);
      DigitTaken(left, 80 - n);
      digits[n] := DigitChar(rest);
      BackwardsGrows(was, digits[..], n);
      n := n + 1;
      zero := IsZero(work);
    }
    PowZero();
  }

  /** What is still to be printed: nothing when nothing is left. */
  ghost function Remaining(v: nat): string { if v == 0 then "" else Digits(v) }

  lemma ZeroDigits() ensures Digits(0) == "0" {}

  lemma BackwardsGrowsNot(s: seq<char>) ensures Backwards(s, 0) == "" {}

  lemma OneDigit(s: seq<char>)
    requires |s| > 0
    ensures Backwards(s, 1) == [s[0]]
  {
    assert Backwards(s, 0) == "";
  }

  lemma PowZero() ensures Pow(10, 0) == 1 {}

  lemma DigitTaken(v: nat, n: nat)
    requires v > 0 && n > 0 && v < Pow(10, n)
    ensures Remaining(v) == Remaining(v / 10) + [DigitChar(v % 10)]
    ensures v / 10 < Pow(10, n - 1)
  {}

  lemma BelowTenToThe80(q: seq<u8>)
    requires |q| <= 32
    ensures FromBigEndian(q) < Pow(10, 80)
  {
    hide FromBigEndian, Pow, Power256;
    BigEndianBound(q);
    PowersGrow(|q|, 32);
    RoomForDigits(16);
  }

  lemma {:induction false} PowersGrow(m: nat, n: nat)
    requires m <= n
    ensures Power256(m) <= Power256(n)
  {
    if m < n { PowersGrow(m, n - 1); }
  }

  /** A quantity right-aligned in a 32-byte scratch. */
  method Loaded(q: seq<u8>) returns (work: array<u8>)
    requires |q| <= 32
    ensures fresh(work) && work.Length == 32 && FromBigEndian(work[..]) == FromBigEndian(q)
  {
    work := new u8[32](i => 0);
    var start := 32 - |q|;
    var i := 0;
    while i < |q|
      invariant 0 <= i <= |q|
      invariant forall k | 0 <= k < start :: work[k] == 0
      invariant forall k | 0 <= k < i :: work[start + k] == q[k]
    {
      work[start + i] := q[i];
      i := i + 1;
    }
    assert work[..] == seq(start, i => 0) + q;
    PaddingIsFree(start, q);
  }

  // ----------------------------------------------------------- the renderings

  /** What a caller sees in the output after success: the text and its terminator. */
  ghost predicate Shows(out: seq<char>, text: string) {
    |text| < |out| && out[..|text|] == text && out[|text|] == '\0'
  }

  /** The exact decimal number, or nothing: never a truncated number. */
  method FormatInteger(q: seq<u8>, out: array<char>) returns (ok: bool)
    requires |q| <= 32
    modifies out
    ensures ok <==> out.Length >= 2 && |Digits(FromBigEndian(q))| + 1 <= out.Length
    ensures ok ==> Shows(out[..], Digits(FromBigEndian(q)))
  {
    hide FromBigEndian, Digits, Backwards;
    if out.Length < 2 { return false; }
    var digits, n := ScratchDigits(q);
    ghost var text := Backwards(digits[..], n);
    BackwardsAt(digits[..], n);
    if n + 1 > out.Length { return false; }
    var i := 0;
    while i < n
      invariant 0 <= i <= n && out[..i] == text[..i]
      invariant forall k | 0 <= k < n :: text[k] == digits[n - 1 - k]
    {
      out[i] := digits[n - 1 - i];
      assert out[..i + 1] == out[..i] + [out[i]];
      i := i + 1;
    }
    out[n] := '\0';
    assert out[..n] == text;
    ok := true;
  }

  lemma BackwardsAt(s: seq<char>, k: nat)
    requires k <= |s|
    ensures |Backwards(s, k)| == k
    ensures forall i | 0 <= i < k :: Backwards(s, k)[i] == s[k - 1 - i]
  {}

  /** Characters one by one, always leaving room for the terminator. */
  method PutChars(out: array<char>, pos: nat, text: string) returns (ok: bool)
    requires pos < out.Length
    modifies out
    ensures ok <==> pos + |text| < out.Length
    ensures ok ==> out[..pos + |text|] == old(out[..pos]) + text
  {
    var i := 0;
    while i < |text|
      invariant 0 <= i <= |text| && pos + i < out.Length && out[..pos + i] == old(out[..pos]) + text[..i]
    {
      if pos + i + 1 >= out.Length { return false; }
      out[pos + i] := text[i];
      assert out[..pos + i + 1] == out[..pos + i] + [text[i]];
      assert text[..i + 1] == text[..i] + [text[i]];
      i := i + 1;
    }
    assert text[..i] == text;
    ok := true;
  }

  /** The digits before the point: a value below one unit has none of its own. */
  method WholePart(digits: array<char>, n: nat, ghost v: nat) returns (text: string)
    requires n <= digits.Length && Backwards(digits[..], n) == Digits(v)
    ensures text == Digits(Scaled(v, 18))
  {
    BackwardsAt(digits[..], n);
    if n <= 18 {
      DigitAt(v, 18);
      hide Scaled, Digits;
      ZeroDigits();
      text := "0";
    } else {
      LeadingDigits(v, 18);
      hide Scaled, Digits;
      text := Backwards(digits[..], n)[..n - 18];
    }
  }

  lemma DigitAfterThePoint(v: nat, digits: seq<char>, n: nat, i: nat)
    requires n <= |digits| && Backwards(digits, n) == Digits(v) && i < 18
    ensures FixedDigits(v, 18)[i] == if 17 - i < n then digits[17 - i] else '0'
  {
    hide Scaled, Digits, Backwards, FixedDigits;
    BackwardsAt(digits, n);
    FixedDigitAt(v, 18, i);
    DigitAt(v, 17 - i);
  }

  /** The digits after the point, at most d of them, without trailing zeros. */
  method FractionDigits(digits: array<char>, n: nat, d: nat, ghost v: nat) returns (text: string)
    requires n <= digits.Length && Backwards(digits[..], n) == Digits(v) && d <= 18
    ensures text == Fraction(v, d)
  {
    ghost var all := FixedDigits(v, 18);
    assert |all| == 18 && Trimmed(all[..d]) == Fraction(v, d);
    hide *;
    var frac := new char[19];
    var fn := 0;
    while fn < 18 && fn < d
      invariant 0 <= fn <= d && frac[..fn] == all[..fn]
    {
      var idx := 17 - fn;
      DigitAfterThePoint(v, digits[..], n, fn);
      frac[fn] := if idx < n then digits[idx] else '0';
      assert frac[..fn + 1] == frac[..fn] + [frac[fn]];
      assert all[..fn + 1] == all[..fn] + [all[fn]];
      fn := fn + 1;
    }
    text := TrimEnd(frac, fn);
  }

  method TrimEnd(frac: array<char>, n: nat) returns (text: string)
    requires n <= frac.Length
    ensures text == Trimmed(frac[..n])
  {
    var fn := n;
    while fn > 0 && frac[fn - 1] == '0'
      invariant 0 <= fn <= n && Trimmed(frac[..fn]) == Trimmed(frac[..n])
    {
      assert frac[..fn][..fn - 1] == frac[..fn - 1];
      fn := fn - 1;
    }
    text := frac[..fn];
  }

  /** A value in units of 10^18, with at most the asked-for decimals; nothing is
      shown in part. */
  method FormatValue(wei: seq<u8>, out: array<char>, maxDecimals: int) returns (ok: bool)
    requires |wei| <= 32
    modifies out
    ensures ok <==> out.Length >= 8 && |ValueText(FromBigEndian(wei), Places(maxDecimals))| < out.Length
    ensures ok ==> Shows(out[..], ValueText(FromBigEndian(wei), Places(maxDecimals)))
  {
    hide FromBigEndian, Digits, Backwards, Fraction, Scaled;
    if out.Length < 8 { return false; }
    var d := Places(maxDecimals);
    ghost var v := FromBigEndian(wei);
    var digits, n := ScratchDigits(wei);
    var whole := WholePart(digits, n, v);
    var fraction := FractionDigits(digits, n, d, v);
    ok := PutChars(out, 0, whole);
    if !ok { return; }
    var pos := |whole|;
    if |fraction| > 0 {
      ok := PutChars(out, pos, "." + fraction);
      if !ok { return; }
      pos := pos + 1 + |fraction|;
    }
    assert out[..pos] == ValueText(v, d);
    out[pos] := '\0';
    ok := true;
  }
}
