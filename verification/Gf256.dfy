/** The field behind QR error correction. */
module Gf256 {
  // Arithmetic in GF(2)[x] / (x^8 + x^4 + x^3 + x^2 + 1), the field behind the QR
  // error correction (0x11D; ISO/IEC 18004:2015 section 7.5.2).
  //
  // A byte is a polynomial of degree below 8, so addition is exclusive or.  The
  // facts about single machine words come first, one per lemma; every proof
  // below them hides the words and works with `Add`, `Double` and `Select`.

  function Add(a: bv8, b: bv8): bv8 { a ^ b }

  function Select(b: bool, x: bv8): bv8 {
    if b then x else 0
  }

  function Top(z: bv8): bool { z & 0x80 != 0 }

  function Shifted(z: bv8): bv8 { z << 1 }

  /** Multiplication by x, reduced. */
  function Double(z: bv8): bv8 {
    Add(Shifted(z), Select(Top(z), 0x1D))
  }

  /** The eight powers of x below the modulus. */
  function Power(i: nat): bv8
    requires i < 8
  {
    if i == 0 then 0x01 else if i == 1 then 0x02 else if i == 2 then 0x04 else if i == 3 then 0x08
    else if i == 4 then 0x10 else if i == 5 then 0x20 else if i == 6 then 0x40 else 0x80
  }

  /** The coefficient of x^i. */
  function Bit(y: bv8, i: nat): bool
    requires i < 8
  {
    y & Power(i) != 0
  }

  /** The product of x and the top n coefficients of y, by Horner's rule. */
  function MulTop(x: bv8, y: bv8, n: nat): bv8
    requires n <= 8
  {
    if n == 0 then 0 else Add(Double(MulTop(x, y, n - 1)), Select(Bit(y, 8 - n), x))
  }

  function Mul(x: bv8, y: bv8): bv8 {
    MulTop(x, y, 8)
  }

  // ----------------------------------------------------- facts about one word

  lemma AddLaws(a: bv8, b: bv8, c: bv8)
    ensures Add(a, b) == Add(b, a)
    ensures Add(Add(a, b), c) == Add(a, Add(b, c))
    ensures Add(a, 0) == a && Add(0, a) == a && Add(a, a) == 0
  {
  }

  lemma AddSwap(a: bv8, b: bv8, c: bv8, d: bv8)
    ensures Add(Add(a, b), Add(c, d)) == Add(Add(a, c), Add(b, d))
  {
    assert (a ^ b) ^ (c ^ d) == (a ^ c) ^ (b ^ d);
  }

  lemma ShiftedIsLinear(a: bv8, b: bv8)
    ensures Shifted(Add(a, b)) == Add(Shifted(a), Shifted(b))
  {
    assert (a ^ b) << 1 == (a << 1) ^ (b << 1);
  }

  lemma MaskIsLinear(a: bv8, b: bv8, m: bv8)
    ensures (a ^ b) & m == (a & m) ^ (b & m)
  {
  }

  lemma BitIsAll(y: bv8, i: nat)
    requires i < 8
    ensures y & Power(i) == 0 || y & Power(i) == Power(i)
  {
  }

  lemma BitOfAdd(y: bv8, b: bv8, i: nat)
    requires i < 8
    ensures Bit(Add(y, b), i) == (Bit(y, i) != Bit(b, i))
  {
    var m := Power(i);
    assert m != 0;
    MaskIsLinear(y, b, m);
    BitIsAll(y, i);
    BitIsAll(b, i);
    assert m ^ m == 0 && m ^ 0 == m && 0 ^ m == m;
  }

  lemma BitOfPower(i: nat, j: nat)
    requires i < 8 && j < 8
    ensures Bit(Power(i), j) == (i == j)
    ensures i < 7 ==> Double(Power(i)) == Power(i + 1)
  {
  }

  lemma SelectLaws(b: bool, c: bool, x: bv8, y: bv8)
    ensures Select(b, Add(x, y)) == Add(Select(b, x), Select(b, y))
    ensures Select(b != c, x) == Add(Select(b, x), Select(c, x))
  {
    AddLaws(x, x, x);
    assert (0 as bv8) ^ 0 == 0;
  }

  lemma DoubleIsLinear(a: bv8, b: bv8)
    ensures Double(Add(a, b)) == Add(Double(a), Double(b))
  {
    ShiftedIsLinear(a, b);
    assert Top(Add(a, b)) == (Top(a) != Top(b)) by { BitOfAdd(a, b, 7); }
    hide Add, Select, Shifted, Top;
    SelectLaws(Top(a), Top(b), 0x1D, 0);
    AddSwap(Shifted(a), Shifted(b), Select(Top(a), 0x1D), Select(Top(b), 0x1D));
  }

  lemma DoubleOfSelect(b: bool, x: bv8)
    ensures Double(Select(b, x)) == Select(b, Double(x))
  {
    assert Double(0) == 0;
  }

  // ------------------------------------------------------------ the ring laws

  lemma {:induction false} MulTopLeftLinear(x: bv8, a: bv8, y: bv8, n: nat)
    requires n <= 8
    ensures MulTop(Add(x, a), y, n) == Add(MulTop(x, y, n), MulTop(a, y, n))
  {
    AddLaws(0, 0, 0);
    if n != 0 {
      hide Add, Select, Double, Bit;
      var p, q, b := MulTop(x, y, n - 1), MulTop(a, y, n - 1), Bit(y, 8 - n);
      MulTopLeftLinear(x, a, y, n - 1);
      DoubleIsLinear(p, q);
      SelectLaws(b, b, x, a);
      AddSwap(Double(p), Double(q), Select(b, x), Select(b, a));
    }
  }

  lemma {:induction false} MulTopRightLinear(x: bv8, y: bv8, b: bv8, n: nat)
    requires n <= 8
    ensures MulTop(x, Add(y, b), n) == Add(MulTop(x, y, n), MulTop(x, b, n))
  {
    AddLaws(0, 0, 0);
    if n != 0 {
      hide Add, Select, Double, Bit;
      var p, q := MulTop(x, y, n - 1), MulTop(x, b, n - 1);
      MulTopRightLinear(x, y, b, n - 1);
      DoubleIsLinear(p, q);
      BitOfAdd(y, b, 8 - n);
      SelectLaws(Bit(y, 8 - n), Bit(b, 8 - n), x, 0);
      AddSwap(Double(p), Double(q), Select(Bit(y, 8 - n), x), Select(Bit(b, 8 - n), x));
    }
  }

  /** Multiplication distributes over addition on both sides. */
  lemma MulDistributes(x: bv8, y: bv8, z: bv8)
    ensures Mul(Add(x, y), z) == Add(Mul(x, z), Mul(y, z))
    ensures Mul(z, Add(x, y)) == Add(Mul(z, x), Mul(z, y))
  {
    hide Add, MulTop;
    MulTopLeftLinear(x, y, z, 8);
    MulTopRightLinear(z, x, y, 8);
  }

  lemma {:induction false} MulTopDouble(x: bv8, y: bv8, n: nat)
    requires n <= 8
    ensures MulTop(Double(x), y, n) == Double(MulTop(x, y, n))
  {
    DoubleOfSelect(false, 0);
    if n != 0 {
      hide Add, Select, Double, Bit;
      MulTopDouble(x, y, n - 1);
      DoubleOfSelect(Bit(y, 8 - n), x);
      DoubleIsLinear(Double(MulTop(x, y, n - 1)), Select(Bit(y, 8 - n), x));
    }
  }

  function DoubleTimes(x: bv8, n: nat): bv8 {
    if n == 0 then x else Double(DoubleTimes(x, n - 1))
  }

  /** Multiplying by x^i is doubling i times. */
  lemma {:induction false} MulTopPower(x: bv8, i: nat, n: nat)
    requires i < 8 && n <= 8
    ensures MulTop(x, Power(i), n) == if n < 8 - i then 0 else DoubleTimes(x, n + i - 8)
  {
    if n != 0 {
      assert Select(false, x) == 0 && Select(true, x) == x && Double(0) == 0;
      hide Add, Select, Double, Bit, Power;
      MulTopPower(x, i, n - 1);
      BitOfPower(i, 8 - n);
      AddLaws(x, 0, 0);
      AddLaws(Double(MulTop(x, Power(i), n - 1)), 0, 0);
    }
  }

  lemma {:induction false} DoubleTimesCommutes(x: bv8, y: bv8, n: nat)
    ensures Mul(DoubleTimes(x, n), y) == DoubleTimes(Mul(x, y), n)
  {
    if n != 0 {
      hide Double, MulTop;
      DoubleTimesCommutes(x, y, n - 1);
      MulTopDouble(DoubleTimes(x, n - 1), y, 8);
    }
  }

  lemma {:induction false} DoubleTimesOne(i: nat)
    requires i < 8
    ensures DoubleTimes(1, i) == Power(i)
  {
    if i != 0 {
      hide Double;
      DoubleTimesOne(i - 1);
      BitOfPower(i - 1, 0);
    }
  }

  /** y with every coefficient from x^n up cleared. */
  function Low(y: bv8, n: nat): bv8
    requires n <= 8
  {
    if n == 0 then 0 else Add(Low(y, n - 1), Select(Bit(y, n - 1), Power(n - 1)))
  }

  lemma BitsDecide(a: bv8, b: bv8)
    requires forall i: nat | i < 8 :: Bit(a, i) == Bit(b, i)
    ensures a == b
  {
    assert Bit(a, 0) == Bit(b, 0) && Bit(a, 1) == Bit(b, 1) && Bit(a, 2) == Bit(b, 2) && Bit(a, 3) == Bit(b, 3);
    assert Bit(a, 4) == Bit(b, 4) && Bit(a, 5) == Bit(b, 5) && Bit(a, 6) == Bit(b, 6) && Bit(a, 7) == Bit(b, 7);
  }

  lemma {:induction false} BitOfLow(y: bv8, n: nat, j: nat)
    requires n <= 8 && j < 8
    ensures Bit(Low(y, n), j) == (j < n && Bit(y, j))
  {
    assert Select(false, Power(0)) == 0 && !Bit(0, j) && Select(true, Power(j)) == Power(j);
    if n != 0 {
      BitOfLow(y, n - 1, j);
      BitOfPower(n - 1, j);
      BitOfAdd(Low(y, n - 1), Select(Bit(y, n - 1), Power(n - 1)), j);
      hide Add, Bit, Power;
    }
  }

  lemma LowIsAll(y: bv8)
    ensures Low(y, 8) == y
  {
    hide Bit, Low;
    forall j: nat | j < 8 ensures Bit(Low(y, 8), j) == Bit(y, j) { BitOfLow(y, 8, j); }
    BitsDecide(Low(y, 8), y);
  }

  lemma MulZero(x: bv8)
    ensures Mul(x, 0) == 0 && Mul(0, x) == 0
  {
    AddLaws(0, 0, 0);
    AddLaws(Mul(0, x), 0, 0);
    AddLaws(Mul(x, 0), 0, 0);
    hide Add, Mul;
    MulDistributes(0, 0, x);
  }

  /** Multiplying by one term of a sum over the powers of x. */
  lemma MulTerm(y: bv8, b: bool, i: nat)
    requires i < 8
    ensures Mul(y, Select(b, Power(i))) == Select(b, DoubleTimes(y, i))
  {
    assert Select(b, Power(i)) == if b then Power(i) else 0;
    assert Select(b, DoubleTimes(y, i)) == if b then DoubleTimes(y, i) else 0;
    hide Select, Power, MulTop;
    MulZero(y);
    MulTopPower(y, i, 8);
  }

  lemma {:induction false} OneIsUnitUpTo(y: bv8, n: nat)
    requires n <= 8
    ensures Mul(1, Low(y, n)) == Low(y, n)
  {
    MulZero(1);
    if n != 0 {
      var t := Select(Bit(y, n - 1), Power(n - 1));
      MulTerm(1, Bit(y, n - 1), n - 1);
      DoubleTimesOne(n - 1);
      hide Add, Mul, Power, Bit, Select;
      OneIsUnitUpTo(y, n - 1);
      MulDistributes(Low(y, n - 1), t, 1);
    }
  }

  lemma MulOne(y: bv8)
    ensures Mul(1, y) == y && Mul(y, 1) == y
  {
    OneIsUnitUpTo(y, 8);
    LowIsAll(y);
    MulTopPower(y, 0, 8);
  }

  lemma TermMul(y: bv8, b: bool, i: nat)
    requires i < 8
    ensures Mul(Select(b, Power(i)), y) == Select(b, DoubleTimes(y, i))
  {
    assert Select(b, Power(i)) == if b then Power(i) else 0;
    assert Select(b, DoubleTimes(y, i)) == if b then DoubleTimes(y, i) else 0;
    hide Select, Power, Mul, Double;
    MulZero(y);
    DoubleTimesOne(i);
    DoubleTimesCommutes(1, y, i);
    MulOne(y);
  }

  lemma {:induction false} CommutesUpTo(x: bv8, y: bv8, n: nat)
    requires n <= 8
    ensures Mul(x, Low(y, n)) == Mul(Low(y, n), x)
  {
    MulZero(x);
    if n != 0 {
      hide Add, Mul, Power, Bit, Select;
      var t := Select(Bit(y, n - 1), Power(n - 1));
      MulTerm(x, Bit(y, n - 1), n - 1);
      TermMul(x, Bit(y, n - 1), n - 1);
      CommutesUpTo(x, y, n - 1);
      MulDistributes(Low(y, n - 1), t, x);
    }
  }

  lemma MulCommutes(x: bv8, y: bv8)
    ensures Mul(x, y) == Mul(y, x)
  {
    CommutesUpTo(x, y, 8);
    LowIsAll(y);
  }

  lemma TermAssociates(b: bool, i: nat, y: bv8, z: bv8)
    requires i < 8
    ensures Mul(Mul(Select(b, Power(i)), y), z) == Mul(Select(b, Power(i)), Mul(y, z))
  {
    TermMul(y, b, i);
    TermMul(Mul(y, z), b, i);
    var u, v := DoubleTimes(y, i), DoubleTimes(Mul(y, z), i);
    assert Select(b, u) == if b then u else 0;
    assert Select(b, v) == if b then v else 0;
    hide Mul, Power, Select, Double;
    DoubleTimesCommutes(y, z, i);
    MulZero(z);
  }

  lemma {:induction false} AssociatesUpTo(x: bv8, y: bv8, z: bv8, n: nat)
    requires n <= 8
    ensures Mul(Mul(Low(x, n), y), z) == Mul(Low(x, n), Mul(y, z))
  {
    MulZero(y);
    MulZero(z);
    MulZero(Mul(y, z));
    if n != 0 {
      hide Add, Mul, Power, Bit, Select;
      var a, t := Low(x, n - 1), Select(Bit(x, n - 1), Power(n - 1));
      AssociatesUpTo(x, y, z, n - 1);
      TermAssociates(Bit(x, n - 1), n - 1, y, z);
      MulDistributes(a, t, y);
      MulDistributes(Mul(a, y), Mul(t, y), z);
      MulDistributes(a, t, Mul(y, z));
    }
  }

  lemma MulAssociates(x: bv8, y: bv8, z: bv8)
    ensures Mul(Mul(x, y), z) == Mul(x, Mul(y, z))
  {
    AssociatesUpTo(x, y, z, 8);
    LowIsAll(x);
  }

  /** The element x (0x02) is a root of the modulus, and multiplying by it is
      `Double`.  With the ring laws above this fixes the product: bytes are the
      polynomials in x, reduced by x^8 = x^4 + x^3 + x^2 + 1. */
  lemma XIsARootOfTheModulus(z: bv8)
    ensures Mul(0x02, z) == Double(z) == Mul(z, 0x02)
    ensures DoubleTimes(1, 8) == 0x1D == Add(Power(4), Add(Power(3), Add(Power(2), Power(0))))
  {
    DoubleTimesOne(7);
    assert Double(0x80) == 0x1D;
    assert DoubleTimes(1, 8) == Double(DoubleTimes(1, 7));
    MulTopPower(z, 1, 8);
    assert DoubleTimes(z, 1) == Double(DoubleTimes(z, 0));
    MulCommutes(0x02, z);
  }

  // ---------------------------------------------------------------- the code

  /** The accumulator after its shift: a bit that reaches position 8 is
      exchanged for the modulus. */
  function Reduced(z: bv16): bv16 {
    (z << 1) ^ (if z >> 7 == 0 then 0 else 0x11D)
  }

  function Plus(z: bv16, on: bool, x: bv8): bv16 {
    z ^ (if on then x as bv16 else 0)
  }

  function Wide(a: bv8): bv16 { a as bv16 }

  function CodeBit(y: bv8, i: nat): bool
    requires i < 8
  {
    (y >> i) & 1 != 0
  }

  lemma ReducedIsDouble(z: bv8)
    ensures Reduced(Wide(z)) == Wide(Double(z))
  {
  }

  lemma CodeBitIsBit(y: bv8, i: nat)
    requires i < 8
    ensures CodeBit(y, i) == Bit(y, i)
  {
  }

  lemma PlusIsAdd(z: bv8, on: bool, x: bv8)
    ensures Plus(Wide(z), on, x) == Wide(Add(z, Select(on, x)))
  {
    if on { } else { }
  }

  lemma WideIsFaithful(a: bv8)
    ensures Wide(a) < 0x100 && Wide(a) as bv8 == a
    ensures Wide(0) == 0
  {
  }

  /** The shift-and-add loop over a sixteen-bit accumulator that never leaves
      eight bits. */
  method RsMultiply(x: bv8, y: bv8) returns (r: bv8)
    ensures r == Mul(x, y)
  {
    hide Add, Double, Select, Bit, Reduced, Plus, CodeBit, Wide;
    var z: bv16 := 0;
    WideIsFaithful(0);
    var i: int := 7;
    while i >= 0
      invariant -1 <= i <= 7
      invariant z == Wide(MulTop(x, y, 7 - i))
    {
      var top := MulTop(x, y, 7 - i);
      ReducedIsDouble(top);
      CodeBitIsBit(y, i);
      PlusIsAdd(Double(top), CodeBit(y, i), x);
      z := Reduced(z);
      z := Plus(z, CodeBit(y, i), x);
      i := i - 1;
    }
    WideIsFaithful(Mul(x, y));
    r := z as bv8;
  }
}
