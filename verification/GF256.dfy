/**
 The field GF(2^8) with reduction polynomial x^8 + x^4 + x^3 + x + 1
 (section 4.2 of FIPS 197), one byte at a time.

 No law is brute-forced over pairs of bytes: multiplication is additive in each
 argument and commutes with multiplication by x, and everything else follows.
 */
module GF256 {

  // ----- Operations -----

  function Add(a: bv8, b: bv8): bv8 {
    a ^ b
  }

  /** a when c holds, and 0 otherwise. */
  function Mask(a: bv8, c: bool): bv8 {
    if c then a else 0
  }

  function Low(b: bv8): bool {
    b & 1 == 1
  }

  /** Bit i of b, which is the coefficient of x^i. */
  function Nth(b: bv8, i: nat): bool
    requires i < 8
  {
    (b >> i) & 1 == 1
  }

  function Half(b: bv8): bv8 {
    b >> 1
  }

  function Top(a: bv8): bool {
    a & 0x80 != 0
  }

  function Shl(a: bv8): bv8 {
    a << 1
  }

  /** Multiplication by x: shift, and reduce when the degree reaches 8. */
  function Xtime(a: bv8): bv8 {
    Add(Shl(a), Mask(0x1b, Top(a)))
  }

  /** Russian peasant multiplication: acc plus a times the n low bits of b. */
  function Peasant(acc: bv8, a: bv8, b: bv8, n: nat): bv8
    decreases n
  {
    if n == 0 then acc else Peasant(Add(acc, Mask(a, Low(b))), Xtime(a), Half(b), n - 1)
  }

  function Mul(a: bv8, b: bv8): bv8 {
    Peasant(0, a, b, 8)
  }

  function Pow(a: bv8, n: nat): bv8 {
    if n == 0 then 1 else Mul(a, Pow(a, n - 1))
  }

  /** The addition chain of the inversion: x^4, x^8, x^9, x^25, x^50, x^200, x^250, x^254. */
  function Inv(x: bv8): bv8 {
    var x2 := Mul(x, x);
    var y := Mul(x2, x2);
    var r8 := Mul(y, y);
    var z9 := Mul(r8, x);
    var r16 := Mul(r8, r8);
    var r25 := Mul(r16, z9);
    var r50 := Mul(r25, r25);
    var z100 := Mul(r50, r50);
    var z200 := Mul(z100, z100);
    Mul(Mul(r50, z200), y)
  }

  // ----- Addition -----

  lemma AddComm(a: bv8, b: bv8)
    ensures Add(a, b) == Add(b, a)
  {}

  lemma AddAssoc(a: bv8, b: bv8, c: bv8)
    ensures Add(Add(a, b), c) == Add(a, Add(b, c))
  {}

  lemma AddZero(a: bv8)
    ensures Add(a, 0) == a && Add(0, a) == a
  {}

  lemma AddSelf(a: bv8, b: bv8)
    ensures Add(a, b) == 0 <==> a == b
    ensures Add(Add(a, b), b) == a
  {}

  lemma AddSwap(a: bv8, b: bv8, c: bv8, d: bv8)
    ensures Add(Add(a, b), Add(c, d)) == Add(Add(a, c), Add(b, d))
  {
    hide Add;
    AddAssoc(a, b, Add(c, d));
    AddAssoc(b, c, d);
    AddComm(b, c);
    AddAssoc(c, b, d);
    AddAssoc(a, c, Add(b, d));
  }

  // ----- Multiplication by x and by a bit -----

  lemma MaskAdd(a: bv8, b: bv8, c: bool)
    ensures Mask(Add(a, b), c) == Add(Mask(a, c), Mask(b, c))
  {}

  lemma MaskXor(a: bv8, c: bool, d: bool)
    ensures Mask(a, c != d) == Add(Mask(a, c), Mask(a, d))
  {}

  lemma ShlAdd(a: bv8, b: bv8)
    ensures Shl(Add(a, b)) == Add(Shl(a), Shl(b))
    ensures Top(Add(a, b)) == (Top(a) != Top(b))
  {}

  lemma XtimeAdd(a: bv8, b: bv8)
    ensures Xtime(Add(a, b)) == Add(Xtime(a), Xtime(b))
  {
    hide Add, Shl, Top, Mask;
    ShlAdd(a, b);
    MaskXor(0x1b, Top(a), Top(b));
    AddSwap(Shl(a), Shl(b), Mask(0x1b, Top(a)), Mask(0x1b, Top(b)));
  }

  lemma XtimeMask(a: bv8, c: bool)
    ensures Xtime(Mask(a, c)) == Mask(Xtime(a), c)
  {}

  // ----- Multiplication is additive and commutes with multiplication by x -----

  lemma {:induction false} PeasantAddLeft(s: bv8, t: bv8, a: bv8, b: bv8, c: bv8, n: nat)
    ensures Peasant(Add(s, t), Add(a, b), c, n) == Add(Peasant(s, a, c, n), Peasant(t, b, c, n))
    decreases n
  {
    hide Add, Mask, Xtime, Low, Half;
    if n > 0 {
      MaskAdd(a, b, Low(c));
      XtimeAdd(a, b);
      AddSwap(s, t, Mask(a, Low(c)), Mask(b, Low(c)));
      PeasantAddLeft(Add(s, Mask(a, Low(c))), Add(t, Mask(b, Low(c))), Xtime(a), Xtime(b), Half(c), n - 1);
    }
  }

  lemma {:induction false} PeasantXtime(s: bv8, a: bv8, b: bv8, n: nat)
    ensures Peasant(Xtime(s), Xtime(a), b, n) == Xtime(Peasant(s, a, b, n))
    decreases n
  {
    hide Add, Mask, Xtime, Low, Half;
    if n > 0 {
      XtimeMask(a, Low(b));
      XtimeAdd(s, Mask(a, Low(b)));
      PeasantXtime(Add(s, Mask(a, Low(b))), Xtime(a), Half(b), n - 1);
    }
  }

  lemma XtimeZero()
    ensures Xtime(0) == 0
  {}

  lemma MulXtime(a: bv8, b: bv8)
    ensures Mul(Xtime(a), b) == Xtime(Mul(a, b))
  {
    hide Xtime, Peasant;
    XtimeZero();
    PeasantXtime(0, a, b, 8);
  }

  lemma MulAddLeft(a: bv8, b: bv8, c: bv8)
    ensures Mul(Add(a, b), c) == Add(Mul(a, c), Mul(b, c))
  {
    hide Add, Peasant;
    AddZero(0);
    PeasantAddLeft(0, 0, a, b, c, 8);
  }

  lemma MulZeroLeft(c: bv8)
    ensures Mul(0, c) == 0
  {
    MulAddLeft(0, 0, c);
    AddSelf(Mul(0, c), Mul(0, c));
  }

  lemma MulMaskLeft(a: bv8, t: bool, c: bv8)
    ensures Mul(Mask(a, t), c) == Mask(Mul(a, c), t)
  {
    hide Mul;
    MulZeroLeft(c);
  }

  /** Multiplying by c goes through the whole loop of the multiplication by b. */
  lemma {:induction false} MulPeasant(s: bv8, a: bv8, b: bv8, n: nat, c: bv8)
    ensures Mul(Peasant(s, a, b, n), c) == Peasant(Mul(s, c), Mul(a, c), b, n)
    decreases n
  {
    hide Add, Mask, Xtime, Low, Half, Mul;
    if n > 0 {
      MulPeasant(Add(s, Mask(a, Low(b))), Xtime(a), Half(b), n - 1, c);
      MulAddLeft(s, Mask(a, Low(b)), c);
      MulMaskLeft(a, Low(b), c);
      MulXtime(a, c);
    }
  }

  // ----- Field laws -----

  lemma MulRotate(a: bv8, b: bv8, c: bv8)
    ensures Mul(Mul(a, b), c) == Mul(Mul(a, c), b)
  {
    MulPeasant(0, a, b, 8, c);
    assert Mul(Mul(a, b), c) == Mul(Mul(a, c), b) by {
      hide Peasant;
      MulZeroLeft(c);
    }
  }

  /** The sum of those eight values whose bit in b is set. */
  function Select(b: bv8, v0: bv8, v1: bv8, v2: bv8, v3: bv8, v4: bv8, v5: bv8, v6: bv8, v7: bv8): bv8 {
    Add(Add(Add(Add(Add(Add(Add(Mask(v0, Nth(b, 0)), Mask(v1, Nth(b, 1))), Mask(v2, Nth(b, 2))), Mask(v3, Nth(b, 3))),
                    Mask(v4, Nth(b, 4))), Mask(v5, Nth(b, 5))), Mask(v6, Nth(b, 6))), Mask(v7, Nth(b, 7)))
  }

  function Keep(b: bv8, mask: bv8): bv8 {
    b & mask
  }

  lemma LowBits(b: bv8)
    ensures Mask(0x01, Nth(b, 0)) == Keep(b, 0x01)
    ensures Add(Keep(b, 0x01), Mask(0x02, Nth(b, 1))) == Keep(b, 0x03)
    ensures Add(Keep(b, 0x03), Mask(0x04, Nth(b, 2))) == Keep(b, 0x07)
    ensures Add(Keep(b, 0x07), Mask(0x08, Nth(b, 3))) == Keep(b, 0x0f)
    ensures Add(Keep(b, 0x0f), Mask(0x10, Nth(b, 4))) == Keep(b, 0x1f)
    ensures Add(Keep(b, 0x1f), Mask(0x20, Nth(b, 5))) == Keep(b, 0x3f)
    ensures Add(Keep(b, 0x3f), Mask(0x40, Nth(b, 6))) == Keep(b, 0x7f)
    ensures Add(Keep(b, 0x7f), Mask(0x80, Nth(b, 7))) == b
  {}

  lemma HalfSteps(b: bv8)
    ensures Half(b) == b >> 1 && Half(b >> 1) == b >> 2 && Half(b >> 2) == b >> 3 && Half(b >> 3) == b >> 4
    ensures Half(b >> 4) == b >> 5 && Half(b >> 5) == b >> 6 && Half(b >> 6) == b >> 7
    ensures Low(b) == Nth(b, 0) && Low(b >> 1) == Nth(b, 1) && Low(b >> 2) == Nth(b, 2) && Low(b >> 3) == Nth(b, 3)
    ensures Low(b >> 4) == Nth(b, 4) && Low(b >> 5) == Nth(b, 5) && Low(b >> 6) == Nth(b, 6) && Low(b >> 7) == Nth(b, 7)
  {}

  ghost predicate Additive(f: bv8 -> bv8) {
    forall a, b :: f(Add(a, b)) == Add(f(a), f(b))
  }

  lemma AdditiveMask(f: bv8 -> bv8, a: bv8, b: bv8, i: nat)
    requires Additive(f) && i < 8
    ensures f(Mask(a, Nth(b, i))) == Mask(f(a), Nth(b, i))
  {
    hide Nth;
    AddSelf(f(0), f(0));
    assert f(Add(0, 0)) == Add(f(0), f(0));
  }

  lemma AdditiveStep(f: bv8 -> bv8, s: bv8, a: bv8, b: bv8, i: nat)
    requires Additive(f) && i < 8
    ensures f(Add(s, Mask(a, Nth(b, i)))) == Add(f(s), Mask(f(a), Nth(b, i)))
  {
    hide Nth, Mask, Add;
    AdditiveMask(f, a, b, i);
  }

  /** An additive function is determined by its values on the eight powers of x. */
  lemma AdditiveExpand(f: bv8 -> bv8, b: bv8)
    requires Additive(f)
    ensures f(b) == Select(b, f(0x01), f(0x02), f(0x04), f(0x08), f(0x10), f(0x20), f(0x40), f(0x80))
  {
    hide Add, Mask, Nth, Keep, Additive;
    LowBits(b);
    AdditiveMask(f, 0x01, b, 0);
    AdditiveStep(f, Keep(b, 0x01), 0x02, b, 1);
    AdditiveStep(f, Keep(b, 0x03), 0x04, b, 2);
    AdditiveStep(f, Keep(b, 0x07), 0x08, b, 3);
    AdditiveStep(f, Keep(b, 0x0f), 0x10, b, 4);
    AdditiveStep(f, Keep(b, 0x1f), 0x20, b, 5);
    AdditiveStep(f, Keep(b, 0x3f), 0x40, b, 6);
    AdditiveStep(f, Keep(b, 0x7f), 0x80, b, 7);
  }

  /** The multiplication, unrolled the way the bitsliced code writes it out. */
  lemma MulUnrolled(a: bv8, b: bv8)
    ensures var a1 := Xtime(a); var a2 := Xtime(a1); var a3 := Xtime(a2); var a4 := Xtime(a3);
            var a5 := Xtime(a4); var a6 := Xtime(a5); var a7 := Xtime(a6);
            Mul(a, b) == Select(b, a, a1, a2, a3, a4, a5, a6, a7)
  {
    hide Add, Mask, Xtime, Low, Half, Nth;
    HalfSteps(b);
    AddZero(Mask(a, Nth(b, 0)));
    calc {
      Mul(a, b);
      Peasant(0, a, b, 8);
      Peasant(Mask(a, Nth(b, 0)), Xtime(a), b >> 1, 7);
      Peasant(Add(Mask(a, Nth(b, 0)), Mask(Xtime(a), Nth(b, 1))), Xtime(Xtime(a)), b >> 2, 6);
    }
  }

  lemma XtimeSteps()
    ensures Xtime(0x01) == 0x02 && Xtime(0x02) == 0x04 && Xtime(0x04) == 0x08 && Xtime(0x08) == 0x10
    ensures Xtime(0x10) == 0x20 && Xtime(0x20) == 0x40 && Xtime(0x40) == 0x80
    ensures Xtime(0x80) == 0x1b && Xtime(0x1b) == 0x36 && Xtime(0x36) == 0x6c && Xtime(0x6c) == 0xd8
    ensures Xtime(0xd8) == 0xab && Xtime(0xab) == 0x4d && Xtime(0x4d) == 0x9a
  {}

  lemma MulOneLeft(b: bv8)
    ensures Mul(1, b) == b
  {
    hide Add, Mask, Xtime, Nth, Mul, Keep;
    XtimeSteps();
    MulUnrolled(1, b);
    LowBits(b);
  }

  lemma MulComm(a: bv8, b: bv8)
    ensures Mul(a, b) == Mul(b, a)
  {
    hide Mul;
    MulOneLeft(a);
    MulOneLeft(b);
    MulRotate(1, a, b);
  }

  lemma MulAssoc(a: bv8, b: bv8, c: bv8)
    ensures Mul(Mul(a, b), c) == Mul(a, Mul(b, c))
  {
    hide Mul;
    MulComm(a, b);
    MulRotate(b, a, c);
    MulComm(Mul(b, c), a);
  }

  lemma MulAddRight(a: bv8, b: bv8, c: bv8)
    ensures Mul(a, Add(b, c)) == Add(Mul(a, b), Mul(a, c))
  {
    hide Mul, Add;
    MulComm(a, Add(b, c));
    MulComm(a, b);
    MulComm(a, c);
    MulAddLeft(b, c, a);
  }

  lemma MulOne(a: bv8)
    ensures Mul(a, 1) == a && Mul(1, a) == a
  {
    hide Mul;
    MulOneLeft(a);
    MulComm(a, 1);
  }

  lemma MulZero(a: bv8)
    ensures Mul(a, 0) == 0 && Mul(0, a) == 0
  {
    hide Mul;
    MulZeroLeft(a);
    MulComm(a, 0);
  }

  // ----- Inverses: x^256 == x, so x * x^254 is idempotent, and only 0 and 1 are -----

  lemma {:induction false} PowAdd(a: bv8, m: nat, n: nat)
    ensures Pow(a, m + n) == Mul(Pow(a, m), Pow(a, n))
  {
    hide Mul;
    if m == 0 {
      MulOne(Pow(a, n));
    } else {
      PowAdd(a, m - 1, n);
      assert Pow(a, m + n) == Mul(a, Pow(a, m - 1 + n));
      MulAssoc(a, Pow(a, m - 1), Pow(a, n));
    }
  }

  lemma PowOne(a: bv8)
    ensures Pow(a, 1) == a
  {
    hide Mul;
    MulOne(a);
  }

  /** The addition chain raises its argument to the power 254. */
  lemma InvIsPow254(x: bv8)
    ensures Inv(x) == Pow(x, 254)
  {
    hide Mul, Pow;
    PowOne(x);
    PowAdd(x, 1, 1);
    PowAdd(x, 2, 2);
    PowAdd(x, 4, 4);
    PowAdd(x, 8, 1);
    PowAdd(x, 8, 8);
    PowAdd(x, 16, 9);
    PowAdd(x, 25, 25);
    PowAdd(x, 50, 50);
    PowAdd(x, 100, 100);
    PowAdd(x, 50, 200);
    PowAdd(x, 250, 4);
  }

  function Square(a: bv8): bv8 {
    Mul(a, a)
  }

  lemma SquareAdd(a: bv8, b: bv8)
    ensures Square(Add(a, b)) == Add(Square(a), Square(b))
  {
    hide Mul, Add;
    MulAddLeft(a, b, Add(a, b));
    MulAddRight(a, a, b);
    MulAddRight(b, a, b);
    MulComm(a, b);
    AddComm(Mul(a, b), Mul(b, b));
    AddSwap(Mul(a, a), Mul(a, b), Mul(b, b), Mul(a, b));
    AddSelf(Mul(a, b), Mul(a, b));
    AddZero(Add(Mul(a, a), Mul(b, b)));
  }

  /** n squarings, so a^(2^n). */
  function SquareN(a: bv8, n: nat): bv8
    decreases n
  {
    if n == 0 then a else SquareN(Square(a), n - 1)
  }

  lemma {:induction false} SquareNAdd(a: bv8, b: bv8, n: nat)
    ensures SquareN(Add(a, b), n) == Add(SquareN(a, n), SquareN(b, n))
    decreases n
  {
    hide Add, Square;
    if n > 0 {
      SquareAdd(a, b);
      SquareNAdd(Square(a), Square(b), n - 1);
    }
  }

  /** Multiplication by the powers of x. */
  lemma MulBasis(b: bv8)
    ensures var b1 := Xtime(b); var b2 := Xtime(b1); var b3 := Xtime(b2); var b4 := Xtime(b3);
            var b5 := Xtime(b4); var b6 := Xtime(b5); var b7 := Xtime(b6);
            && Mul(0x01, b) == b && Mul(0x02, b) == b1 && Mul(0x04, b) == b2 && Mul(0x08, b) == b3
            && Mul(0x10, b) == b4 && Mul(0x20, b) == b5 && Mul(0x40, b) == b6 && Mul(0x80, b) == b7
  {
    hide Mul, Xtime;
    XtimeSteps();
    MulOne(b);
    MulXtime(0x01, b);
    MulXtime(0x02, b);
    MulXtime(0x04, b);
    MulXtime(0x08, b);
    MulXtime(0x10, b);
    MulXtime(0x20, b);
    MulXtime(0x40, b);
  }

  lemma SquareTable()
    ensures Square(0x01) == 0x01 && Square(0x02) == 0x04 && Square(0x04) == 0x10 && Square(0x08) == 0x40
    ensures Square(0x10) == 0x1b && Square(0x20) == 0x6c && Square(0x40) == 0xab && Square(0x80) == 0x9a
  {
    hide Mul, Xtime;
    XtimeSteps();
    MulBasis(0x01);
    MulBasis(0x02);
    MulBasis(0x04);
    MulBasis(0x08);
    MulBasis(0x10);
    MulBasis(0x20);
    MulBasis(0x40);
    MulBasis(0x80);
  }

  /** Squaring as a linear map on the bits: doubling every exponent, then reducing. */
  function SquareBits(a: bv8): bv8 {
    Select(a, 0x01, 0x04, 0x10, 0x40, 0x1b, 0x6c, 0xab, 0x9a)
  }

  lemma SquareIsLinear(a: bv8)
    ensures Square(a) == SquareBits(a)
  {
    hide Square, Add, Select;
    forall x, y ensures Square(Add(x, y)) == Add(Square(x), Square(y)) {
      SquareAdd(x, y);
    }
    SquareTable();
    AdditiveExpand(Square, a);
  }

  function SquareBitsN(a: bv8, n: nat): bv8
    decreases n
  {
    if n == 0 then a else SquareBitsN(SquareBits(a), n - 1)
  }

  lemma {:induction false} SquareNIsLinear(a: bv8, n: nat)
    ensures SquareN(a, n) == SquareBitsN(a, n)
    decreases n
  {
    hide Square, SquareBits;
    if n > 0 {
      SquareIsLinear(a);
      SquareNIsLinear(Square(a), n - 1);
    }
  }

  lemma {:induction false} SquareNMul(a: bv8, b: bv8, n: nat)
    ensures SquareN(Mul(a, b), n) == Mul(SquareN(a, n), SquareN(b, n))
    decreases n
  {
    hide Mul;
    if n > 0 {
      MulRotate(a, b, Mul(a, b));
      MulAssoc(a, b, Mul(a, b));
      MulComm(b, Mul(a, b));
      MulAssoc(a, b, b);
      MulAssoc(a, Mul(a, Mul(b, b)), 1);
      MulAssoc(a, a, Mul(b, b));
      SquareNMul(Square(a), Square(b), n - 1);
    }
  }

  lemma SquaresOfTwo()
    ensures SquareBits(0x02) == 0x04 && SquareBits(0x04) == 0x10 && SquareBits(0x10) == 0x1b
    ensures SquareBits(0x1b) == 0x5e && SquareBits(0x5e) == 0xe4 && SquareBits(0xe4) == 0x4d
    ensures SquareBits(0x4d) == 0xfa && SquareBits(0xfa) == 0x02
  {}

  /** Eight squarings. */
  function Eighth(x: bv8): bv8 {
    SquareN(x, 8)
  }

  lemma TwoFixed()
    ensures Eighth(0x02) == 0x02
  {
    hide SquareBits, Square, SquareN, Mul;
    SquaresOfTwo();
    SquareNIsLinear(0x02, 8);
    calc {
      SquareBitsN(0x02, 8);
      SquareBitsN(0x10, 6);
      SquareBitsN(0x5e, 4);
      SquareBitsN(0x4d, 2);
      0x02;
    }
  }

  lemma EighthAdditive()
    ensures Additive(Eighth)
  {
    hide SquareN, Add;
    forall x, y ensures Eighth(Add(x, y)) == Add(Eighth(x), Eighth(y)) {
      SquareNAdd(x, y, 8);
    }
  }

  /** Eight squarings are the identity on the powers of x, ... */
  lemma BasisFixed()
    ensures Eighth(0x01) == 0x01 && Eighth(0x02) == 0x02 && Eighth(0x04) == 0x04 && Eighth(0x08) == 0x08
    ensures Eighth(0x10) == 0x10 && Eighth(0x20) == 0x20 && Eighth(0x40) == 0x40 && Eighth(0x80) == 0x80
  {
    hide Eighth, Xtime;
    XtimeSteps();
    OneFixed();
    TwoFixed();
    NextFixed(0x02);
    NextFixed(0x04);
    NextFixed(0x08);
    NextFixed(0x10);
    NextFixed(0x20);
    NextFixed(0x40);
  }

  lemma FixedOnBasis(f: bv8 -> bv8, a: bv8)
    requires Additive(f)
    requires f(0x01) == 0x01 && f(0x02) == 0x02 && f(0x04) == 0x04 && f(0x08) == 0x08
    requires f(0x10) == 0x10 && f(0x20) == 0x20 && f(0x40) == 0x40 && f(0x80) == 0x80
    ensures f(a) == a
  {
    hide Add, Mask, Nth, Keep, Additive;
    AdditiveExpand(f, a);
    LowBits(a);
  }

  /** ... and so everywhere: a^256 == a. */
  lemma Frobenius(a: bv8)
    ensures Eighth(a) == a
  {
    hide Eighth;
    EighthAdditive();
    BasisFixed();
    FixedOnBasis(Eighth, a);
  }

  lemma NextFixed(a: bv8)
    requires Eighth(a) == a
    ensures Eighth(Xtime(a)) == Xtime(a)
  {
    hide SquareN, Mul, Xtime;
    MulBasis(a);
    SquareNMul(0x02, a, 8);
    TwoFixed();
  }

  lemma OneFixed()
    ensures Eighth(0x01) == 0x01
  {
    hide Mul;
    MulOne(0x01);
    assert Square(0x01) == 0x01;
    assert SquareN(0x01, 8) == SquareN(0x01, 6) == SquareN(0x01, 4) == SquareN(0x01, 2);
  }

  lemma SquarePow(a: bv8, n: nat)
    ensures Square(Pow(a, n)) == Pow(a, n + n)
  {
    PowAdd(a, n, n);
  }

  lemma Pow256(a: bv8)
    ensures Pow(a, 256) == a
  {
    hide Pow, Square;
    PowOne(a);
    SquarePow(a, 1);
    SquarePow(a, 2);
    SquarePow(a, 4);
    SquarePow(a, 8);
    SquarePow(a, 16);
    SquarePow(a, 32);
    SquarePow(a, 64);
    SquarePow(a, 128);
    calc {
      SquareN(a, 8);
      SquareN(Pow(a, 4), 6);
      SquareN(Pow(a, 16), 4);
      SquareN(Pow(a, 64), 2);
      Pow(a, 256);
    }
    Frobenius(a);
  }

  lemma IdempotentBits(e: bv8)
    requires SquareBits(e) == e
    ensures e == 0 || e == 1
  {}

  /** Inv is the multiplicative inverse of every nonzero element, and it maps 0 to 0. */
  lemma InvCorrect(x: bv8)
    ensures x != 0 ==> Mul(x, Inv(x)) == 1 && Mul(Inv(x), x) == 1
    ensures Inv(0) == 0
  {
    hide Mul, Pow, SquareBits;
    InvIsPow254(x);
    PowOne(x);
    PowAdd(x, 1, 254);
    PowAdd(x, 1, 255);
    PowAdd(x, 256, 254);
    Pow256(x);
    SquarePow(x, 255);
    var e := Pow(x, 255);
    assert Square(e) == e;
    SquareIsLinear(e);
    IdempotentBits(e);
    MulZero(x);
    MulComm(x, Inv(x));
    InvIsPow254(0);
    PowOne(0);
    PowAdd(0, 1, 253);
    MulZero(Pow(0, 253));
  }

  lemma NoZeroDivisors(a: bv8, b: bv8)
    ensures Mul(a, b) == 0 <==> a == 0 || b == 0
  {
    hide Mul, Inv;
    MulZero(a);
    MulZero(b);
    if a != 0 && Mul(a, b) == 0 {
      InvCorrect(a);
      MulAssoc(Inv(a), a, b);
      MulOne(b);
      MulZero(Inv(a));
    }
  }
}
