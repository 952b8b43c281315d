/** The Reed-Solomon code of a QR symbol (ISO/IEC 18004:2015 section 7.5.2): the
    generator polynomial, the division that yields the check codewords, and why
    a block followed by its check codewords is a codeword. */
module ReedSolomon {
  import opened Gf256

  /** Coefficients, highest degree first. */
  type Poly = seq<bv8>

  function Eval(p: Poly, x: bv8): bv8 {
    if |p| == 0 then 0 else Add(Mul(Eval(p[..|p| - 1], x), x), p[|p| - 1])
  }

  function Sum(p: Poly, q: Poly): (r: Poly)
    requires |p| == |q|
    ensures |r| == |p|
  {
    seq(|p|, i requires 0 <= i < |p| => Add(p[i], q[i]))
  }

  function Scale(p: Poly, c: bv8): (r: Poly)
    ensures |r| == |p|
  {
    seq(|p|, i requires 0 <= i < |p| => Mul(p[i], c))
  }

  function Zeros(n: nat): (r: Poly)
    ensures |r| == n
  {
    seq(n, i => 0)
  }

  /** alpha^i, with alpha = x. */
  function Alpha(i: nat): bv8 { DoubleTimes(1, i) }

  /** p * (x - r). */
  function TimesRoot(p: Poly, r: bv8): (q: Poly)
    ensures |q| == |p| + 1
  {
    Sum(p + [0], [0] + Scale(p, r))
  }

  function Generator(n: nat): (g: Poly)
    ensures |g| == n + 1
  {
    if n == 0 then [1] else TimesRoot(Generator(n - 1), Alpha(n - 1))
  }

  /** The product of (x - alpha^i) for i < n, as a value. */
  function RootProduct(n: nat, x: bv8): bv8 {
    if n == 0 then 1 else Mul(RootProduct(n - 1, x), Add(x, Alpha(n - 1)))
  }

  /** One step of the division by x^n + g, where n = |g|. */
  function Step(g: Poly, rem: Poly, d: bv8): (r: Poly)
    requires |g| == |rem| >= 1
    ensures |r| == |g|
  {
    Sum(rem[1..] + [0], Scale(g, Add(d, rem[0])))
  }

  function Remainder(g: Poly, data: Poly, rem: Poly): (r: Poly)
    requires |g| == |rem| >= 1
    ensures |r| == |g|
  {
    if |data| == 0 then rem else Step(g, Remainder(g, data[..|data| - 1], rem), data[|data| - 1])
  }

  // --------------------------------------------------------------- evaluation

  lemma EvalSnoc(p: Poly, c: bv8, x: bv8)
    ensures Eval(p + [c], x) == Add(Mul(Eval(p, x), x), c)
  {
    assert (p + [c])[..|p|] == p;
  }

  lemma {:induction false} EvalSum(p: Poly, q: Poly, x: bv8)
    requires |p| == |q|
    ensures Eval(Sum(p, q), x) == Add(Eval(p, x), Eval(q, x))
  {
    AddLaws(0, 0, 0);
    hide Add, Mul;
    if |p| != 0 {
      var n := |p| - 1;
      EvalSum(p[..n], q[..n], x);
      assert Sum(p, q)[..n] == Sum(p[..n], q[..n]);
      MulDistributes(Eval(p[..n], x), Eval(q[..n], x), x);
      AddSwap(Mul(Eval(p[..n], x), x), Mul(Eval(q[..n], x), x), p[n], q[n]);
    }
  }

  lemma {:induction false} EvalScale(p: Poly, c: bv8, x: bv8)
    ensures Eval(Scale(p, c), x) == Mul(Eval(p, x), c)
  {
    MulZero(c);
    hide Add, Mul;
    if |p| != 0 {
      var n := |p| - 1;
      var e := Eval(p[..n], x);
      EvalScale(p[..n], c, x);
      assert Scale(p, c)[..n] == Scale(p[..n], c);
      MulAssociates(e, c, x);
      MulCommutes(c, x);
      MulAssociates(e, x, c);
      MulDistributes(Mul(e, x), p[n], c);
    }
  }

  lemma {:induction false} EvalLeadingZero(p: Poly, x: bv8)
    ensures Eval([0] + p, x) == Eval(p, x)
  {
    MulZero(x);
    AddLaws(0, 0, 0);
    hide Add, Mul;
    if |p| == 0 {
      assert ([0] + p)[..0] == [];
    } else {
      var n := |p| - 1;
      assert ([0] + p)[..n + 1] == [0] + p[..n];
      EvalLeadingZero(p[..n], x);
    }
  }

  lemma {:induction false} EvalZeros(n: nat, x: bv8)
    ensures Eval(Zeros(n), x) == 0
  {
    MulZero(x);
    AddLaws(0, 0, 0);
    hide Add, Mul;
    if n != 0 {
      assert Zeros(n)[..n - 1] == Zeros(n - 1);
      EvalZeros(n - 1, x);
    }
  }

  /** Leading zeros never change a value. */
  lemma {:induction false} EvalPadded(n: nat, p: Poly, x: bv8)
    ensures Eval(Zeros(n) + p, x) == Eval(p, x)
  {
    hide Eval;
    if n == 0 {
      assert Zeros(n) + p == p;
    } else {
      assert Zeros(n) + p == [0] + (Zeros(n - 1) + p);
      EvalLeadingZero(Zeros(n - 1) + p, x);
      EvalPadded(n - 1, p, x);
    }
  }

  lemma EvalTimesRoot(p: Poly, r: bv8, x: bv8)
    ensures Eval(TimesRoot(p, r), x) == Mul(Eval(p, x), Add(x, r))
  {
    EvalSum(p + [0], [0] + Scale(p, r), x);
    EvalSnoc(p, 0, x);
    EvalLeadingZero(Scale(p, r), x);
    EvalScale(p, r, x);
    MulDistributes(x, r, Eval(p, x));
    AddLaws(Mul(Eval(p, x), x), 0, 0);
    hide Eval, Add, Mul;
  }

  // -------------------------------------------------------------- the generator

  lemma {:induction false} GeneratorIsMonic(n: nat)
    ensures Generator(n)[0] == 1
  {
    if n != 0 {
      GeneratorIsMonic(n - 1);
      AddLaws(1, 0, 0);
      hide Add, Mul, Alpha;
    }
  }

  /** `Generator(n)` is the product of (x - alpha^i) over i < n. */
  lemma {:induction false} GeneratorIsTheProduct(n: nat, x: bv8)
    ensures Eval(Generator(n), x) == RootProduct(n, x)
  {
    hide Mul, Add, Alpha, TimesRoot;
    if n == 0 {
      assert Eval([], x) == 0;
      hide Eval;
      EvalSnoc([], 1, x);
      assert [] + [1 as bv8] == [1];
      MulZero(x);
      AddLaws(1, 0, 0);
    } else {
      hide Eval;
      GeneratorIsTheProduct(n - 1, x);
      EvalTimesRoot(Generator(n - 1), Alpha(n - 1), x);
    }
  }

  lemma {:induction false} GeneratorRoots(n: nat, i: nat)
    requires i < n
    ensures RootProduct(n, Alpha(i)) == 0
  {
    AddLaws(Alpha(i), 0, 0);
    hide Mul, Add, Alpha;
    if i == n - 1 {
      MulZero(RootProduct(n - 1, Alpha(i)));
    } else {
      GeneratorRoots(n - 1, i);
      MulZero(Add(Alpha(i), Alpha(n - 1)));
    }
  }

  // ---------------------------------------------------------------- codewords

  /** Dividing one more symbol multiplies what was there by x and takes away a
      multiple of the divisor, so a root of the divisor stays a root. */
  lemma StepKeepsRoot(g: Poly, prefix: Poly, rem: Poly, d: bv8, x: bv8)
    requires |g| == |rem| >= 1
    requires Eval([1] + g, x) == 0 && Eval(prefix + rem, x) == 0
    ensures Eval((prefix + [d]) + Step(g, rem, d), x) == 0
  {
    hide Eval, Add, Mul, Step, Sum, Scale;
    var f := Add(d, rem[0]);
    var shifted := (prefix + rem) + [0];
    var taken := Zeros(|prefix|) + Scale([1] + g, f);
    StepIsADifference(g, prefix, rem, d);
    EvalSum(shifted, taken, x);
    EvalSnoc(prefix + rem, 0, x);
    EvalPadded(|prefix|, Scale([1] + g, f), x);
    EvalScale([1] + g, f, x);
    MulZero(x);
    MulZero(f);
    AddLaws(0, 0, 0);
  }

  lemma StepIsADifference(g: Poly, prefix: Poly, rem: Poly, d: bv8)
    requires |g| == |rem| >= 1
    ensures (prefix + [d]) + Step(g, rem, d)
         == Sum((prefix + rem) + [0], Zeros(|prefix|) + Scale([1] + g, Add(d, rem[0])))
  {
    hide Add, Mul;
    var f, m := Add(d, rem[0]), |prefix|;
    var left := (prefix + [d]) + Step(g, rem, d);
    var shifted, taken := (prefix + rem) + [0], Zeros(m) + Scale([1] + g, f);
    forall k | 0 <= k < |left| ensures left[k] == Sum(shifted, taken)[k] {
      assert Sum(shifted, taken)[k] == Add(shifted[k], taken[k]);
      if k < m {
        AddLaws(prefix[k], 0, 0);
      } else if k == m {
        FactorCancels(d, rem[0]);
        MulOne(f);
        assert Scale([1] + g, f)[0] == Mul(1, f);
      } else {
        var j := k - m - 1;
        assert Scale([1] + g, f)[j + 1] == Mul(g[j], f);
        assert shifted[k] == (rem[1..] + [0])[j];
      }
    }
  }

  lemma FactorCancels(d: bv8, r: bv8)
    ensures Add(r, Add(d, r)) == d
  {
  }

  lemma {:induction false} RemainderKeepsRoot(g: Poly, data: Poly, x: bv8)
    requires |g| >= 1 && Eval([1] + g, x) == 0
    ensures Eval(data + Remainder(g, data, Zeros(|g|)), x) == 0
  {
    hide Eval, Add, Mul, Step;
    if |data| == 0 {
      assert data + Zeros(|g|) == Zeros(|g|);
      EvalZeros(|g|, x);
    } else {
      var front, d := data[..|data| - 1], data[|data| - 1];
      RemainderKeepsRoot(g, front, x);
      StepKeepsRoot(g, front, Remainder(g, front, Zeros(|g|)), d, x);
      assert front + [d] == data;
    }
  }

  /** The check codewords of a block. */
  function CheckCodewords(degree: nat, data: Poly): (r: Poly)
    requires degree >= 1
    ensures |r| == degree
  {
    Remainder(Generator(degree)[1..], data, Zeros(degree))
  }

  /** A block followed by its check codewords vanishes at alpha^0 .. alpha^(degree-1). */
  lemma BlockIsACodeword(degree: nat, data: Poly, i: nat)
    requires i < degree
    ensures Eval(data + CheckCodewords(degree, data), Alpha(i)) == 0
  {
    var g := Generator(degree)[1..];
    GeneratorIsMonic(degree);
    GeneratorIsTheProduct(degree, Alpha(i));
    assert [1] + g == Generator(degree);
    GeneratorRoots(degree, i);
    RemainderKeepsRoot(g, data, Alpha(i));
  }

  // ------------------------------------------------------------------ the code

  lemma AlphaStep(i: nat)
    ensures Reduced(Wide(Alpha(i))) == Wide(Alpha(i + 1))
  {
    ReducedIsDouble(Alpha(i));
  }

  /** Where coefficient j of the padded product of the first i factors comes from. */
  function Padded(g: Poly, degree: nat, i: nat, j: nat): bv8
    requires i <= degree && j < degree && |g| == i + 1
  {
    var k := j + i + 1 - degree;
    if k < 0 then 0 else g[k]
  }

  lemma PaddedStep(g: Poly, degree: nat, i: nat, j: nat, r: bv8)
    requires i < degree && j < degree && |g| == i + 1
    ensures Padded(TimesRoot(g, r), degree, i + 1, j)
         == if j + 1 < degree then Add(Mul(Padded(g, degree, i, j), r), Padded(g, degree, i, j + 1))
            else Mul(Padded(g, degree, i, j), r)
  {
    var k := j + i + 2 - degree;
    MulZero(r);
    AddLaws(0, 0, 0);
    if k >= 0 {
      assert TimesRoot(g, r)[k] == Add((g + [0])[k], ([0] + Scale(g, r))[k]);
      AddLaws(if k < |g| then g[k] else 0, if k >= 1 then Mul(g[k - 1], r) else 0, 0);
    }
    hide Mul, Add;
  }

  method RsInit(degree: nat, coeff: array<bv8>)
    requires 1 <= degree == coeff.Length <= 255
    modifies coeff
    ensures [1] + coeff[..] == Generator(degree)
  {
    hide Mul, Add, Alpha, Reduced, Wide, TimesRoot, Padded;
    for j := 0 to degree
      invariant forall k | 0 <= k < j :: coeff[k] == 0
    {
      coeff[j] := 0;
    }
    coeff[degree - 1] := 1;
    var root: bv16 := 1;
    assert root == Wide(Alpha(0)) by { RootStarts(); }
    forall k: nat | k < degree ensures coeff[k] == Padded(Generator(0), degree, 0, k) { PaddedStarts(degree, k); }
    var i := 0;
    while i < degree
      invariant i <= degree
      invariant root == Wide(Alpha(i))
      invariant forall k: nat | k < degree :: coeff[k] == Padded(Generator(i), degree, i, k)
    {
      var g := Generator(i);
      WideIsFaithful(Alpha(i));
      var j := 0;
      while j < degree
        invariant j <= degree
        invariant forall k: nat | k < j :: coeff[k] == Padded(Generator(i + 1), degree, i + 1, k)
        invariant forall k: nat | j <= k < degree :: coeff[k] == Padded(g, degree, i, k)
      {
        PaddedStep(g, degree, i, j, Alpha(i));
        coeff[j] := RsMultiply(coeff[j], root as bv8);
        if j + 1 < degree { coeff[j] := Add(coeff[j], coeff[j + 1]); }
        j := j + 1;
      }
      AlphaStep(i);
      root := Reduced(root);
      i := i + 1;
    }
    GeneratorIsMonic(degree);
    forall k: nat | k < degree ensures coeff[k] == Generator(degree)[k + 1] { PaddedEnds(Generator(degree), degree, k); }
  }

  lemma RootStarts()
    ensures Wide(Alpha(0)) == 1
  {
  }

  lemma PaddedStarts(degree: nat, k: nat)
    requires k < degree
    ensures Padded(Generator(0), degree, 0, k) == if k == degree - 1 then 1 else 0
  {
  }

  lemma PaddedEnds(g: Poly, degree: nat, k: nat)
    requires |g| == degree + 1 && k < degree
    ensures Padded(g, degree, degree, k) == g[k + 1]
  {
  }

  /** Index j of a vector spread over a buffer with a stride. */
  function At(base: nat, stride: nat, j: nat): nat { base + j * stride }

  lemma AtIsMonotone(base: nat, stride: nat, j: nat, k: nat)
    requires stride >= 1 && j < k
    ensures At(base, stride, j) < At(base, stride, k)
  {
    Product(stride, j, k);
  }

  lemma {:induction false} Product(s: nat, j: nat, k: nat)
    requires s >= 1 && j < k
    ensures j * s < k * s
  {
    if k == j + 1 {
      assert k * s == j * s + s;
    } else {
      Product(s, j, k - 1);
      assert k * s == (k - 1) * s + s;
    }
  }

  lemma AtApart(base: nat, stride: nat, n: nat, j: nat)
    requires stride >= 1 && j < n
    ensures forall k: nat | k < n && k != j :: At(base, stride, k) != At(base, stride, j)
  {
    forall k: nat | k < n && k != j ensures At(base, stride, k) != At(base, stride, j) {
      AtIsMonotone(base, stride, if j < k then j else k, if j < k then k else j);
    }
  }

  ghost predicate InReach(size: nat, base: nat, stride: nat, n: nat) {
    forall j: nat | j < n :: At(base, stride, j) < size
  }

  function Strided(s: seq<bv8>, base: nat, stride: nat, n: nat): (r: Poly)
    requires InReach(|s|, base, stride, n)
    ensures |r| == n
  {
    seq(n, j requires 0 <= j < n => s[At(base, stride, j)])
  }

  ghost predicate OnStride(base: nat, stride: nat, n: nat, k: int) {
    exists j: nat :: j < n && k == At(base, stride, j)
  }

  lemma AtIsOnStride(base: nat, stride: nat, n: nat)
    ensures forall j: nat | j < n :: OnStride(base, stride, n, At(base, stride, j))
  {
  }

  /** The shift: every coefficient takes its neighbour's place and a zero follows. */
  method ShiftDown(degree: nat, result: array<bv8>, base: nat, stride: nat)
    requires degree >= 1 && stride >= 1
    requires InReach(result.Length, base, stride, degree)
    modifies result
    ensures Strided(result[..], base, stride, degree) == old(Strided(result[..], base, stride, degree))[1..] + [0]
    ensures forall k | 0 <= k < result.Length && !OnStride(base, stride, degree, k) :: result[k] == old(result[k])
  {
    hide At, OnStride;
    AtIsOnStride(base, stride, degree);
    ghost var was := Strided(result[..], base, stride, degree);
    var j := 1;
    while j < degree
      invariant 1 <= j <= degree
      invariant forall k: nat | k < j - 1 :: result[At(base, stride, k)] == was[k + 1]
      invariant forall k: nat | j - 1 <= k < degree :: result[At(base, stride, k)] == was[k]
      invariant forall k | 0 <= k < result.Length && !OnStride(base, stride, degree, k) :: result[k] == old(result[k])
    {
      AtApart(base, stride, degree, j - 1);
      result[At(base, stride, j - 1)] := result[At(base, stride, j)];
      j := j + 1;
    }
    AtApart(base, stride, degree, degree - 1);
    result[At(base, stride, degree - 1)] := 0;
  }

  method AddMultiple(degree: nat, coeff: array<bv8>, factor: bv8, result: array<bv8>, base: nat, stride: nat)
    requires 1 <= degree == coeff.Length && stride >= 1 && result != coeff
    requires InReach(result.Length, base, stride, degree)
    modifies result
    ensures Strided(result[..], base, stride, degree)
         == Sum(old(Strided(result[..], base, stride, degree)), Scale(coeff[..], factor))
    ensures forall k | 0 <= k < result.Length && !OnStride(base, stride, degree, k) :: result[k] == old(result[k])
  {
    hide At, OnStride, Mul, Add;
    AtIsOnStride(base, stride, degree);
    var j := 0;
    while j < degree
      invariant j <= degree
      invariant forall k: nat | k < j :: result[At(base, stride, k)] == Add(old(result[At(base, stride, k)]), Mul(coeff[k], factor))
      invariant forall k: nat | j <= k < degree :: result[At(base, stride, k)] == old(result[At(base, stride, k)])
      invariant forall k | 0 <= k < result.Length && !OnStride(base, stride, degree, k) :: result[k] == old(result[k])
    {
      AtApart(base, stride, degree, j);
      var product := RsMultiply(coeff[j], factor);
      result[At(base, stride, j)] := Add(result[At(base, stride, j)], product);
      j := j + 1;
    }
  }

  /** Divides `data[from..from+length]` in place: the remainder lives in every
      `stride`-th byte of `result`, so that the check codewords of all the blocks
      come out interleaved. */
  method RsGetRemainder(degree: nat, coeff: array<bv8>, data: array<bv8>, from: nat, length: nat,
                        result: array<bv8>, base: nat, stride: nat)
    requires 1 <= degree == coeff.Length && stride >= 1
    requires from + length <= data.Length
    requires result != coeff && result != data
    requires InReach(result.Length, base, stride, degree)
    modifies result
    ensures Strided(result[..], base, stride, degree)
         == Remainder(coeff[..], data[from..from + length], old(Strided(result[..], base, stride, degree)))
    ensures forall k | 0 <= k < result.Length && !OnStride(base, stride, degree, k) :: result[k] == old(result[k])
  {
    hide Mul, Add, At, OnStride, Sum, Scale;
    ghost var was := Strided(result[..], base, stride, degree);
    assert data[from..from + 0] == [];
    var i := 0;
    while i < length
      invariant i <= length
      invariant Strided(result[..], base, stride, degree) == Remainder(coeff[..], data[from..from + i], was)
      invariant forall k | 0 <= k < result.Length && !OnStride(base, stride, degree, k) :: result[k] == old(result[k])
    {
      ghost var rem := Strided(result[..], base, stride, degree);
      var factor := Add(data[from + i], result[At(base, stride, 0)]);
      assert factor == Add(data[from + i], rem[0]);
      ShiftDown(degree, result, base, stride);
      AddMultiple(degree, coeff, factor, result, base, stride);
      assert Strided(result[..], base, stride, degree) == Step(coeff[..], rem, data[from + i]);
      assert data[from..from + i + 1][..i] == data[from..from + i];
      i := i + 1;
    }
  }
}
