/**
 Products of polynomials over GF(2), and the statement that GF256.Mul is the
 remainder of such a product modulo x^8 + x^4 + x^3 + x + 1.  A polynomial of
 degree below 16 is a bv16, its coefficient of x^i being bit i.
 */
module Carryless {
  import opened GF256

  function Plus(v: bv16, w: bv16): bv16 {
    v ^ w
  }

  function Wide(a: bv8): bv16 {
    a as bv16
  }

  function Double(w: bv16): bv16 {
    w << 1
  }

  function Pick(w: bv16, c: bool): bv16 {
    if c then w else 0
  }

  /** acc plus w times the n low bits of b, by schoolbook multiplication. */
  function Accumulate(acc: bv16, w: bv16, b: bv8, n: nat): bv16
    decreases n
  {
    if n == 0 then acc else Accumulate(Plus(acc, Pick(w, Low(b))), Double(w), Half(b), n - 1)
  }

  /** The product of two polynomials of degree below 8, without any reduction. */
  function Product(a: bv8, b: bv8): bv16 {
    Accumulate(0, Wide(a), b, 8)
  }

  /** w * x^n. */
  function Shift(w: bv16, n: nat): bv16
    decreases n
  {
    if n == 0 then w else Shift(Double(w), n - 1)
  }

  /** q * (x^8 + x^4 + x^3 + x + 1). */
  function Multiple(q: bv8): bv16 {
    var w := Wide(q);
    Plus(Plus(Plus(Plus(Shift(w, 8), Shift(w, 4)), Shift(w, 3)), Shift(w, 1)), w)
  }

  /** r is the remainder of the product of a and b: they differ by a multiple of the modulus. */
  ghost predicate IsRemainder(a: bv8, b: bv8, r: bv8) {
    exists q: bv8 :: Product(a, b) == Plus(Multiple(q), Wide(r))
  }

  // ----- Addition of polynomials -----

  lemma PlusComm(v: bv16, w: bv16)
    ensures Plus(v, w) == Plus(w, v)
  {}

  lemma PlusAssoc(u: bv16, v: bv16, w: bv16)
    ensures Plus(Plus(u, v), w) == Plus(u, Plus(v, w))
  {}

  lemma PlusSwap(t: bv16, u: bv16, v: bv16, w: bv16)
    ensures Plus(Plus(t, u), Plus(v, w)) == Plus(Plus(t, v), Plus(u, w))
  {
    hide Plus;
    PlusAssoc(t, u, Plus(v, w));
    PlusAssoc(u, v, w);
    PlusComm(u, v);
    PlusAssoc(v, u, w);
    PlusAssoc(t, v, Plus(u, w));
  }

  lemma WideAdd(a: bv8, b: bv8)
    ensures Wide(Add(a, b)) == Plus(Wide(a), Wide(b))
  {}

  lemma WideMask(a: bv8, c: bool)
    ensures Wide(Mask(a, c)) == Pick(Wide(a), c)
  {}

  lemma DoubleAdd(v: bv16, w: bv16)
    ensures Double(Plus(v, w)) == Plus(Double(v), Double(w))
  {}

  lemma {:induction false} ShiftAdd(v: bv16, w: bv16, n: nat)
    ensures Shift(Plus(v, w), n) == Plus(Shift(v, n), Shift(w, n))
    decreases n
  {
    hide Plus, Double;
    if n > 0 {
      DoubleAdd(v, w);
      ShiftAdd(Double(v), Double(w), n - 1);
    }
  }

  lemma MultipleAdd(p: bv8, q: bv8)
    ensures Multiple(Add(p, q)) == Plus(Multiple(p), Multiple(q))
  {
    hide Plus, Wide, Add, Shift;
    var v, w := Wide(p), Wide(q);
    WideAdd(p, q);
    ShiftAdd(v, w, 8);
    ShiftAdd(v, w, 4);
    ShiftAdd(v, w, 3);
    ShiftAdd(v, w, 1);
    var v4, w4 := Plus(Shift(v, 8), Shift(v, 4)), Plus(Shift(w, 8), Shift(w, 4));
    var v3, w3 := Plus(v4, Shift(v, 3)), Plus(w4, Shift(w, 3));
    var v1, w1 := Plus(v3, Shift(v, 1)), Plus(w3, Shift(w, 1));
    PlusSwap(Shift(v, 8), Shift(w, 8), Shift(v, 4), Shift(w, 4));
    PlusSwap(v4, w4, Shift(v, 3), Shift(w, 3));
    PlusSwap(v3, w3, Shift(v, 1), Shift(w, 1));
    PlusSwap(v1, w1, v, w);
  }

  lemma MultipleMask(q: bv8, c: bool)
    ensures Multiple(Mask(q, c)) == Pick(Multiple(q), c)
  {}

  // ----- Quotients stay below degree 8 for as many doublings as remain -----

  /** q can be doubled n times without losing its top bit. */
  predicate Room(q: bv8, n: nat)
    decreases n
  {
    n == 0 || (!Top(q) && Room(Shl(q), n - 1))
  }

  lemma {:induction false} RoomAdd(p: bv8, q: bv8, n: nat)
    requires Room(p, n) && Room(q, n)
    ensures Room(Add(p, q), n)
    decreases n
  {
    hide Add, Top, Shl;
    if n > 0 {
      ShlAdd(p, q);
      RoomAdd(Shl(p), Shl(q), n - 1);
    }
  }

  lemma RoomBit(c: bool, n: nat)
    requires n <= 7
    ensures Room(Mask(1, c), n)
  {
    assert Room(0, 7) && Room(1, 7);
    RoomLess(0, 7, n);
    RoomLess(1, 7, n);
  }

  lemma {:induction false} RoomLess(q: bv8, m: nat, n: nat)
    requires n <= m && Room(q, m)
    ensures Room(q, n)
    decreases n
  {
    hide Top, Shl;
    if n > 0 {
      RoomLess(Shl(q), m - 1, n - 1);
    }
  }

  // ----- The loop of the multiplication tracks a quotient -----

  lemma DoubleMultiple(q: bv8)
    requires !Top(q)
    ensures Double(Multiple(q)) == Multiple(Shl(q))
  {
    MultipleShifted(q);
    MultipleShifted(Shl(q));
  }

  /** Multiple with its shifts evaluated. */
  lemma MultipleShifted(q: bv8)
    ensures var w := q as bv16; Multiple(q) == (w << 8) ^ (w << 4) ^ (w << 3) ^ (w << 1) ^ w
  {}

  lemma DoubleWide(a: bv8)
    ensures Double(Wide(a)) == Plus(Multiple(Mask(1, Top(a))), Wide(Xtime(a)))
  {
    hide Multiple;
    MultipleOne();
    ZeroMultiple();
  }

  lemma MultipleOne()
    ensures Multiple(1) == 0x11b
  {}

  lemma DoubleStep(w: bv16, q: bv8, a: bv8)
    requires w == Plus(Multiple(q), Wide(a))
    requires !Top(q)
    ensures Double(w) == Plus(Multiple(Add(Shl(q), Mask(1, Top(a)))), Wide(Xtime(a)))
  {
    hide Add, Mask, Xtime, Shl, Top, Plus, Double, Wide, Multiple;
    DoubleAdd(Multiple(q), Wide(a));
    DoubleMultiple(q);
    DoubleWide(a);
    MultipleAdd(Shl(q), Mask(1, Top(a)));
    PlusAssoc(Multiple(Shl(q)), Multiple(Mask(1, Top(a))), Wide(Xtime(a)));
  }

  lemma AccumulateStep(acc: bv16, p: bv8, s: bv8, w: bv16, q: bv8, a: bv8, c: bool)
    requires acc == Plus(Multiple(p), Wide(s))
    requires w == Plus(Multiple(q), Wide(a))
    ensures Plus(acc, Pick(w, c)) == Plus(Multiple(Add(p, Mask(q, c))), Wide(Add(s, Mask(a, c))))
  {
    assert Pick(w, c) == Plus(Pick(Multiple(q), c), Pick(Wide(a), c));
    hide *;
    MultipleMask(q, c);
    MultipleAdd(p, Mask(q, c));
    WideMask(a, c);
    WideAdd(s, Mask(a, c));
    PlusSwap(Multiple(p), Wide(s), Multiple(Mask(q, c)), Wide(Mask(a, c)));
  }

  lemma {:induction false} PeasantQuotient(acc: bv16, p: bv8, s: bv8, w: bv16, q: bv8, a: bv8, b: bv8, n: nat)
    returns (quotient: bv8)
    requires n <= 8
    requires acc == Plus(Multiple(p), Wide(s))
    requires w == Plus(Multiple(q), Wide(a))
    requires Room(q, n)
    ensures Accumulate(acc, w, b, n) == Plus(Multiple(quotient), Wide(Peasant(s, a, b, n)))
    decreases n
  {
    hide Add, Mask, Xtime, Low, Half, Shl, Top, Plus, Pick, Double, Wide, Multiple;
    quotient := p;
    if n > 0 {
      AccumulateStep(acc, p, s, w, q, a, Low(b));
      DoubleStep(w, q, a);
      RoomBit(Top(a), n - 1);
      RoomAdd(Shl(q), Mask(1, Top(a)), n - 1);
      quotient := PeasantQuotient(Plus(acc, Pick(w, Low(b))), Add(p, Mask(q, Low(b))), Add(s, Mask(a, Low(b))),
                                  Double(w), Add(Shl(q), Mask(1, Top(a))), Xtime(a), Half(b), n - 1);
    }
  }

  lemma SmallMultiple(q: bv8)
    requires Multiple(q) < 256
    ensures q == 0
  {}

  /** Remainders are unique: a multiple of the modulus of degree below 8 is 0. */
  lemma RemainderUnique(p: bv8, r: bv8, q: bv8, s: bv8)
    requires Plus(Multiple(p), Wide(r)) == Plus(Multiple(q), Wide(s))
    ensures r == s
  {
    MultipleAdd(p, q);
    assert Multiple(Add(p, q)) == Wide(Add(r, s)) by {
      hide *;
      WideAdd(r, s);
      PlusSwap(Multiple(p), Wide(r), Multiple(q), Wide(s));
      SelfPlus(Plus(Multiple(p), Wide(r)), Plus(Multiple(q), Wide(s)));
      SelfPlus(Plus(Multiple(p), Multiple(q)), Plus(Wide(r), Wide(s)));
    }
    hide Multiple;
    SmallMultiple(Add(p, q));
    ZeroMultiple();
    AddSelf(r, s);
  }

  lemma SelfPlus(v: bv16, w: bv16)
    ensures Plus(v, w) == 0 <==> v == w
  {}

  lemma ZeroMultiple()
    ensures Multiple(0) == 0 && Room(0, 8)
  {}

  lemma ZeroPlus(a: bv8)
    ensures Plus(0, Wide(a)) == Wide(a) && Plus(0, Wide(0)) == 0
  {}

  /** GF256.Mul is exactly the product modulo x^8 + x^4 + x^3 + x + 1. */
  lemma MulIsRemainder(a: bv8, b: bv8, r: bv8)
    ensures IsRemainder(a, b, r) <==> r == Mul(a, b)
  {
    hide Multiple, Plus, Wide, Peasant, Accumulate, Room;
    ZeroMultiple();
    ZeroPlus(a);
    var q := PeasantQuotient(0, 0, 0, Wide(a), 0, a, b, 8);
    if IsRemainder(a, b, r) {
      var p: bv8 :| Product(a, b) == Plus(Multiple(p), Wide(r));
      RemainderUnique(p, r, q, Mul(a, b));
    }
  }
}
