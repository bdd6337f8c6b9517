/**
 Bitsliced arithmetic: eight 32-bit words hold 32 bytes, bit l of word b being
 bit b of byte l.  Each routine works on all 32 lanes at once; the lemmas say
 that every lane sees exactly the byte operation of GF256.

 The routines overwrite arrays of eight words.  A Slice is the value of such an array.
 */
module Bitslice {
  import opened GF256

  datatype Slice = Slice(w0: bv32, w1: bv32, w2: bv32, w3: bv32, w4: bv32, w5: bv32, w6: bv32, w7: bv32)

  const LANES: nat := 32
  const ZERO: Slice := Slice(0, 0, 0, 0, 0, 0, 0, 0)
  const ONE: Slice := Slice(0xffff_ffff, 0, 0, 0, 0, 0, 0, 0)

  function Load(a: array<bv32>): Slice
    requires a.Length == 8
    reads a
  {
    Slice(a[0], a[1], a[2], a[3], a[4], a[5], a[6], a[7])
  }

  function Word(s: Slice, b: nat): bv32
    requires b < 8
  {
    if b == 0 then s.w0 else if b == 1 then s.w1 else if b == 2 then s.w2 else if b == 3 then s.w3
    else if b == 4 then s.w4 else if b == 5 then s.w5 else if b == 6 then s.w6 else s.w7
  }

  // ----- Lanes -----

  function Bit(w: bv32, l: nat): bool
    requires l < LANES
  {
    (w >> l) & 1 == 1
  }

  /** Bit, with the lane as a machine word: the form that bit-level proofs use. */
  function BitAt(w: bv32, i: bv32): bool
    requires i < 32
  {
    (w >> i) & 1 == 1
  }

  /** a when bit l of w is set, and 0 otherwise. */
  function MaskBit(a: bv8, w: bv32, l: nat): bv8
    requires l < LANES
  {
    Mask(a, Bit(w, l))
  }

  /** The byte in lane l. */
  function Lane(s: Slice, l: nat): bv8
    requires l < LANES
  {
    Add(Add(Add(Add(Add(Add(Add(MaskBit(0x01, s.w0, l), MaskBit(0x02, s.w1, l)), MaskBit(0x04, s.w2, l)),
                        MaskBit(0x08, s.w3, l)), MaskBit(0x10, s.w4, l)), MaskBit(0x20, s.w5, l)),
            MaskBit(0x40, s.w6, l)), MaskBit(0x80, s.w7, l))
  }

  function Lanes(s: Slice): (x: seq<bv8>)
    ensures |x| == LANES && forall l :: 0 <= l < LANES ==> x[l] == Lane(s, l)
  {
    seq(LANES, l requires 0 <= l < LANES => Lane(s, l))
  }

  lemma NthAdd(a: bv8, b: bv8)
    ensures Nth(Add(a, b), 0) == (Nth(a, 0) != Nth(b, 0)) && Nth(Add(a, b), 1) == (Nth(a, 1) != Nth(b, 1))
    ensures Nth(Add(a, b), 2) == (Nth(a, 2) != Nth(b, 2)) && Nth(Add(a, b), 3) == (Nth(a, 3) != Nth(b, 3))
    ensures Nth(Add(a, b), 4) == (Nth(a, 4) != Nth(b, 4)) && Nth(Add(a, b), 5) == (Nth(a, 5) != Nth(b, 5))
    ensures Nth(Add(a, b), 6) == (Nth(a, 6) != Nth(b, 6)) && Nth(Add(a, b), 7) == (Nth(a, 7) != Nth(b, 7))
  {}

  /** The bits of 0, and of the powers of x. */
  lemma NthPowers()
    ensures forall i :: 0 <= i < 8 ==> !Nth(0, i)
    ensures forall i :: 0 <= i < 8 ==> Nth(0x01, i) == (i == 0)
    ensures forall i :: 0 <= i < 8 ==> Nth(0x02, i) == (i == 1)
    ensures forall i :: 0 <= i < 8 ==> Nth(0x04, i) == (i == 2)
    ensures forall i :: 0 <= i < 8 ==> Nth(0x08, i) == (i == 3)
    ensures forall i :: 0 <= i < 8 ==> Nth(0x10, i) == (i == 4)
    ensures forall i :: 0 <= i < 8 ==> Nth(0x20, i) == (i == 5)
    ensures forall i :: 0 <= i < 8 ==> Nth(0x40, i) == (i == 6)
    ensures forall i :: 0 <= i < 8 ==> Nth(0x80, i) == (i == 7)
  {}

  lemma NthMaskBit(a: bv8, w: bv32, l: nat)
    requires l < LANES
    ensures forall i :: 0 <= i < 8 ==> Nth(MaskBit(a, w, l), i) == (Bit(w, l) && Nth(a, i))
  {
    hide Bit, Nth;
    NthPowers();
  }

  lemma LaneLow(s: Slice, l: nat)
    requires l < LANES
    ensures var p := Lane(s, l);
            && Nth(p, 0) == Bit(s.w0, l) && Nth(p, 1) == Bit(s.w1, l) && Nth(p, 2) == Bit(s.w2, l)
            && Nth(p, 3) == Bit(s.w3, l) && Nth(p, 4) == Bit(s.w4, l) && Nth(p, 5) == Bit(s.w5, l)
            && Nth(p, 6) == Bit(s.w6, l) && Nth(p, 7) == Bit(s.w7, l)
  {
    hide Bit, Nth, MaskBit, Add;
    NthPowers();
    NthMaskBit(0x01, s.w0, l);
    NthMaskBit(0x02, s.w1, l);
    NthMaskBit(0x04, s.w2, l);
    NthMaskBit(0x08, s.w3, l);
    NthMaskBit(0x10, s.w4, l);
    NthMaskBit(0x20, s.w5, l);
    NthMaskBit(0x40, s.w6, l);
    NthMaskBit(0x80, s.w7, l);
    var p1 := MaskBit(0x01, s.w0, l);
    var p2 := Add(p1, MaskBit(0x02, s.w1, l));
    var p3 := Add(p2, MaskBit(0x04, s.w2, l));
    var p4 := Add(p3, MaskBit(0x08, s.w3, l));
    var p5 := Add(p4, MaskBit(0x10, s.w4, l));
    var p6 := Add(p5, MaskBit(0x20, s.w5, l));
    var p7 := Add(p6, MaskBit(0x40, s.w6, l));
    NthAdd(p1, MaskBit(0x02, s.w1, l));
    NthAdd(p2, MaskBit(0x04, s.w2, l));
    NthAdd(p3, MaskBit(0x08, s.w3, l));
    NthAdd(p4, MaskBit(0x10, s.w4, l));
    NthAdd(p5, MaskBit(0x20, s.w5, l));
    NthAdd(p6, MaskBit(0x40, s.w6, l));
    NthAdd(p7, MaskBit(0x80, s.w7, l));
  }

  lemma LaneBits(s: Slice, l: nat, b: nat)
    requires l < LANES && b < 8
    ensures Nth(Lane(s, l), b) == Bit(Word(s, b), l)
  {
    hide Lane, Bit, Nth;
    LaneLow(s, l);
  }

  lemma MaskNth(a: bv8, x: bv8, y: bv8, i: nat)
    requires i < 8 && Nth(x, i) == Nth(y, i)
    ensures Mask(a, Nth(x, i)) == Mask(a, Nth(y, i))
  {
    hide Nth;
  }

  /** Bytes that agree on every bit are equal. */
  lemma ByteExtensional(x: bv8, y: bv8)
    requires forall i :: 0 <= i < 8 ==> Nth(x, i) == Nth(y, i)
    ensures x == y
  {
    hide Add, Mask, Nth, Keep;
    LowBits(x);
    LowBits(y);
    MaskNth(0x01, x, y, 0);
    MaskNth(0x02, x, y, 1);
    MaskNth(0x04, x, y, 2);
    MaskNth(0x08, x, y, 3);
    MaskNth(0x10, x, y, 4);
    MaskNth(0x20, x, y, 5);
    MaskNth(0x40, x, y, 6);
    MaskNth(0x80, x, y, 7);
  }

  lemma BitIsBitAt(w: bv32, l: nat)
    requires l < LANES
    ensures (l as bv32) < 32 && Bit(w, l) == BitAt(w, l as bv32)
  {}

  lemma NoBits(d: bv32)
    requires forall l :: 0 <= l < LANES ==> !Bit(d, l)
    ensures d == 0
  {
    assert !Bit(d, 0) && !Bit(d, 1) && !Bit(d, 2) && !Bit(d, 3) && !Bit(d, 4) && !Bit(d, 5) && !Bit(d, 6) && !Bit(d, 7) &&
           !Bit(d, 8) && !Bit(d, 9) && !Bit(d, 10) && !Bit(d, 11) && !Bit(d, 12) && !Bit(d, 13) && !Bit(d, 14) && !Bit(d, 15) &&
           !Bit(d, 16) && !Bit(d, 17) && !Bit(d, 18) && !Bit(d, 19) && !Bit(d, 20) && !Bit(d, 21) && !Bit(d, 22) && !Bit(d, 23) &&
           !Bit(d, 24) && !Bit(d, 25) && !Bit(d, 26) && !Bit(d, 27) && !Bit(d, 28) && !Bit(d, 29) && !Bit(d, 30) && !Bit(d, 31);
  }

  /** Words that agree on every bit are equal. */
  lemma WordExtensional(v: bv32, w: bv32)
    requires forall l :: 0 <= l < LANES ==> Bit(v, l) == Bit(w, l)
    ensures v == w
  {
    assert Xor(v, w) == 0 ==> v == w;
    hide Bit, Xor;
    forall l | 0 <= l < LANES ensures !Bit(Xor(v, w), l) {
      BitXor(v, w, l);
    }
    NoBits(Xor(v, w));
  }

  lemma LaneWordExtensional(s: Slice, t: Slice)
    requires Lanes(s) == Lanes(t)
    ensures s == t
  {
    hide Lane, Bit, Nth;
    forall b | 0 <= b < 8 ensures Word(s, b) == Word(t, b) {
      forall l | 0 <= l < LANES ensures Bit(Word(s, b), l) == Bit(Word(t, b), l) {
        assert Lanes(s)[l] == Lanes(t)[l];
        LaneBits(s, l, b);
        LaneBits(t, l, b);
      }
      WordExtensional(Word(s, b), Word(t, b));
    }
    assert Word(s, 0) == Word(t, 0) && Word(s, 1) == Word(t, 1) && Word(s, 2) == Word(t, 2) && Word(s, 3) == Word(t, 3) && Word(s, 4) == Word(t, 4) && Word(s, 5) == Word(t, 5) && Word(s, 6) == Word(t, 6) && Word(s, 7) == Word(t, 7);
  }

  // ----- Operations on all lanes at once -----

  function Xor(v: bv32, w: bv32): bv32 {
    v ^ w
  }

  function And(v: bv32, w: bv32): bv32 {
    v & w
  }

  function AddW(s: Slice, t: Slice): Slice {
    Slice(Xor(s.w0, t.w0), Xor(s.w1, t.w1), Xor(s.w2, t.w2), Xor(s.w3, t.w3),
          Xor(s.w4, t.w4), Xor(s.w5, t.w5), Xor(s.w6, t.w6), Xor(s.w7, t.w7))
  }

  function MaskW(s: Slice, w: bv32): Slice {
    Slice(And(s.w0, w), And(s.w1, w), And(s.w2, w), And(s.w3, w),
          And(s.w4, w), And(s.w5, w), And(s.w6, w), And(s.w7, w))
  }

  function XtimeW(s: Slice): Slice {
    Slice(s.w7, Xor(s.w0, s.w7), s.w1, Xor(s.w2, s.w7), Xor(s.w3, s.w7), s.w4, s.w5, s.w6)
  }

  function SelectW(b: Slice, v0: Slice, v1: Slice, v2: Slice, v3: Slice,
                   v4: Slice, v5: Slice, v6: Slice, v7: Slice): Slice {
    AddW(AddW(AddW(AddW(AddW(AddW(AddW(MaskW(v0, b.w0), MaskW(v1, b.w1)), MaskW(v2, b.w2)), MaskW(v3, b.w3)),
                        MaskW(v4, b.w4)), MaskW(v5, b.w5)), MaskW(v6, b.w6)), MaskW(v7, b.w7))
  }

  function MulW(a: Slice, b: Slice): Slice {
    var a1 := XtimeW(a);
    var a2 := XtimeW(a1);
    var a3 := XtimeW(a2);
    var a4 := XtimeW(a3);
    var a5 := XtimeW(a4);
    var a6 := XtimeW(a5);
    var a7 := XtimeW(a6);
    SelectW(b, a, a1, a2, a3, a4, a5, a6, a7)
  }

  /** Each word is the sum of the input words whose doubled exponent reduces onto it. */
  function SquareW(x: Slice): Slice {
    var r10 := Xor(x.w5, x.w7);
    var r8 := Xor(x.w4, x.w6);
    Slice(Xor(x.w0, r8), Xor(x.w7, r8), Xor(Xor(x.w1, r10), x.w7), Xor(r10, r8),
          Xor(Xor(Xor(x.w2, x.w6), x.w7), r8), Xor(Xor(x.w6, r10), x.w7), Xor(Xor(x.w3, x.w7), r10), Xor(x.w7, x.w6))
  }

  function InvW(x: Slice): Slice {
    var y := SquareW(SquareW(x));
    var r8 := SquareW(y);
    var z9 := MulW(r8, x);
    var r50 := SquareW(MulW(SquareW(r8), z9));
    var z200 := SquareW(SquareW(r50));
    MulW(MulW(r50, z200), y)
  }

  lemma BitAtXor(v: bv32, w: bv32, i: bv32)
    requires i < 32
    ensures BitAt(v ^ w, i) == (BitAt(v, i) != BitAt(w, i))
  {}

  lemma BitAtAnd(v: bv32, w: bv32, i: bv32)
    requires i < 32
    ensures BitAt(v & w, i) == (BitAt(v, i) && BitAt(w, i))
  {}

  lemma BitXor(v: bv32, w: bv32, l: nat)
    requires l < LANES
    ensures Bit(Xor(v, w), l) == (Bit(v, l) != Bit(w, l))
  {
    hide Bit, BitAt;
    BitIsBitAt(v, l);
    BitIsBitAt(w, l);
    BitIsBitAt(v ^ w, l);
    BitAtXor(v, w, l as bv32);
  }

  lemma BitAnd(v: bv32, w: bv32, l: nat)
    requires l < LANES
    ensures Bit(And(v, w), l) == (Bit(v, l) && Bit(w, l))
  {
    hide Bit, BitAt;
    BitIsBitAt(v, l);
    BitIsBitAt(w, l);
    BitIsBitAt(v & w, l);
    BitAtAnd(v, w, l as bv32);
  }

  lemma MaskBitXor(a: bv8, v: bv32, w: bv32, l: nat)
    requires l < LANES
    ensures MaskBit(a, Xor(v, w), l) == Add(MaskBit(a, v, l), MaskBit(a, w, l))
  {
    hide Bit, Xor;
    BitXor(v, w, l);
  }

  lemma MaskBitAnd(a: bv8, v: bv32, w: bv32, l: nat)
    requires l < LANES
    ensures MaskBit(a, And(v, w), l) == MaskBit(MaskBit(a, v, l), w, l)
  {
    hide Bit, And;
    BitAnd(v, w, l);
  }

  lemma MaskBitAdd(a: bv8, b: bv8, w: bv32, l: nat)
    requires l < LANES
    ensures MaskBit(Add(a, b), w, l) == Add(MaskBit(a, w, l), MaskBit(b, w, l))
  {
    hide Bit;
  }

  lemma LaneAdd(s: Slice, t: Slice, l: nat)
    requires l < LANES
    ensures Lane(AddW(s, t), l) == Add(Lane(s, l), Lane(t, l))
  {
    hide Add, MaskBit, Xor;
    var p1, q1 := MaskBit(0x01, s.w0, l), MaskBit(0x01, t.w0, l);
    var p2, q2 := Add(p1, MaskBit(0x02, s.w1, l)), Add(q1, MaskBit(0x02, t.w1, l));
    var p3, q3 := Add(p2, MaskBit(0x04, s.w2, l)), Add(q2, MaskBit(0x04, t.w2, l));
    var p4, q4 := Add(p3, MaskBit(0x08, s.w3, l)), Add(q3, MaskBit(0x08, t.w3, l));
    var p5, q5 := Add(p4, MaskBit(0x10, s.w4, l)), Add(q4, MaskBit(0x10, t.w4, l));
    var p6, q6 := Add(p5, MaskBit(0x20, s.w5, l)), Add(q5, MaskBit(0x20, t.w5, l));
    var p7, q7 := Add(p6, MaskBit(0x40, s.w6, l)), Add(q6, MaskBit(0x40, t.w6, l));
    MaskBitXor(0x01, s.w0, t.w0, l);
    MaskBitXor(0x02, s.w1, t.w1, l);
    MaskBitXor(0x04, s.w2, t.w2, l);
    MaskBitXor(0x08, s.w3, t.w3, l);
    MaskBitXor(0x10, s.w4, t.w4, l);
    MaskBitXor(0x20, s.w5, t.w5, l);
    MaskBitXor(0x40, s.w6, t.w6, l);
    MaskBitXor(0x80, s.w7, t.w7, l);
    AddSwap(p1, q1, MaskBit(0x02, s.w1, l), MaskBit(0x02, t.w1, l));
    AddSwap(p2, q2, MaskBit(0x04, s.w2, l), MaskBit(0x04, t.w2, l));
    AddSwap(p3, q3, MaskBit(0x08, s.w3, l), MaskBit(0x08, t.w3, l));
    AddSwap(p4, q4, MaskBit(0x10, s.w4, l), MaskBit(0x10, t.w4, l));
    AddSwap(p5, q5, MaskBit(0x20, s.w5, l), MaskBit(0x20, t.w5, l));
    AddSwap(p6, q6, MaskBit(0x40, s.w6, l), MaskBit(0x40, t.w6, l));
    AddSwap(p7, q7, MaskBit(0x80, s.w7, l), MaskBit(0x80, t.w7, l));
  }

  lemma LaneMask(s: Slice, w: bv32, l: nat)
    requires l < LANES
    ensures Lane(MaskW(s, w), l) == MaskBit(Lane(s, l), w, l)
  {
    hide Add, MaskBit, And;
    var p1 := MaskBit(0x01, s.w0, l);
    var p2 := Add(p1, MaskBit(0x02, s.w1, l));
    var p3 := Add(p2, MaskBit(0x04, s.w2, l));
    var p4 := Add(p3, MaskBit(0x08, s.w3, l));
    var p5 := Add(p4, MaskBit(0x10, s.w4, l));
    var p6 := Add(p5, MaskBit(0x20, s.w5, l));
    var p7 := Add(p6, MaskBit(0x40, s.w6, l));
    MaskBitAnd(0x01, s.w0, w, l);
    MaskBitAnd(0x02, s.w1, w, l);
    MaskBitAnd(0x04, s.w2, w, l);
    MaskBitAnd(0x08, s.w3, w, l);
    MaskBitAnd(0x10, s.w4, w, l);
    MaskBitAnd(0x20, s.w5, w, l);
    MaskBitAnd(0x40, s.w6, w, l);
    MaskBitAnd(0x80, s.w7, w, l);
    MaskBitAdd(p1, MaskBit(0x02, s.w1, l), w, l);
    MaskBitAdd(p2, MaskBit(0x04, s.w2, l), w, l);
    MaskBitAdd(p3, MaskBit(0x08, s.w3, l), w, l);
    MaskBitAdd(p4, MaskBit(0x10, s.w4, l), w, l);
    MaskBitAdd(p5, MaskBit(0x20, s.w5, l), w, l);
    MaskBitAdd(p6, MaskBit(0x40, s.w6, l), w, l);
    MaskBitAdd(p7, MaskBit(0x80, s.w7, l), w, l);
  }

  lemma BitZero(l: nat)
    requires l < LANES
    ensures !Bit(0, l)
  {}

  lemma BitOnes(l: nat)
    requires l < LANES
    ensures Bit(0xffff_ffff, l)
  {
    BitIsBitAt(0xffff_ffff, l);
    assert BitAt(0xffff_ffff, l as bv32);
  }

  lemma XorZero(w: bv32)
    ensures Xor(w, 0) == w && Xor(0, w) == w
  {}

  lemma XorAssoc(u: bv32, v: bv32, w: bv32)
    ensures Xor(Xor(u, v), w) == Xor(u, Xor(v, w))
  {}

  lemma LaneConstants(l: nat)
    requires l < LANES
    ensures Lane(ZERO, l) == 0 && Lane(ONE, l) == 1
  {
    hide Bit;
    BitZero(l);
    BitOnes(l);
  }

  lemma ShlMaskBit(a: bv8, w: bv32, l: nat)
    requires l < LANES
    ensures Shl(MaskBit(a, w, l)) == MaskBit(Shl(a), w, l)
    ensures MaskBit(a, 0, l) == 0 && MaskBit(0, w, l) == 0
  {
    hide Bit;
    BitZero(l);
  }

  lemma ShlSteps()
    ensures Shl(0x01) == 0x02 && Shl(0x02) == 0x04 && Shl(0x04) == 0x08 && Shl(0x08) == 0x10
    ensures Shl(0x10) == 0x20 && Shl(0x20) == 0x40 && Shl(0x40) == 0x80 && Shl(0x80) == 0x00
  {}

  lemma LaneShift(s: Slice, l: nat)
    requires l < LANES
    ensures Lane(Slice(0, s.w0, s.w1, s.w2, s.w3, s.w4, s.w5, s.w6), l) == Shl(Lane(s, l))
  {
    hide Add, MaskBit, Shl;
    var p1 := MaskBit(0x01, s.w0, l);
    var p2 := Add(p1, MaskBit(0x02, s.w1, l));
    var p3 := Add(p2, MaskBit(0x04, s.w2, l));
    var p4 := Add(p3, MaskBit(0x08, s.w3, l));
    var p5 := Add(p4, MaskBit(0x10, s.w4, l));
    var p6 := Add(p5, MaskBit(0x20, s.w5, l));
    var p7 := Add(p6, MaskBit(0x40, s.w6, l));
    ShlSteps();
    ShlAdd(p1, MaskBit(0x02, s.w1, l));
    ShlAdd(p2, MaskBit(0x04, s.w2, l));
    ShlAdd(p3, MaskBit(0x08, s.w3, l));
    ShlAdd(p4, MaskBit(0x10, s.w4, l));
    ShlAdd(p5, MaskBit(0x20, s.w5, l));
    ShlAdd(p6, MaskBit(0x40, s.w6, l));
    ShlAdd(p7, MaskBit(0x80, s.w7, l));
    ShlMaskBit(0x01, s.w0, l);
    ShlMaskBit(0x02, s.w1, l);
    ShlMaskBit(0x04, s.w2, l);
    ShlMaskBit(0x08, s.w3, l);
    ShlMaskBit(0x10, s.w4, l);
    ShlMaskBit(0x20, s.w5, l);
    ShlMaskBit(0x40, s.w6, l);
    ShlMaskBit(0x80, s.w7, l);
    AddZero(MaskBit(0x02, s.w0, l));
    AddZero(Shl(p7));
  }

  lemma LaneReduction(w: bv32, l: nat)
    requires l < LANES
    ensures Lane(Slice(w, w, 0, w, w, 0, 0, 0), l) == MaskBit(0x1b, w, l)
  {
    hide Bit;
    BitZero(l);
  }

  lemma TopIsNth(a: bv8)
    ensures Top(a) == Nth(a, 7)
  {}

  lemma LaneXtime(s: Slice, l: nat)
    requires l < LANES
    ensures Lane(XtimeW(s), l) == Xtime(Lane(s, l))
  {
    hide Add, Lane, Shl, Top, Nth, Bit, Mask, Xor;
    TopIsNth(Lane(s, l));
    LaneLow(s, l);
    LaneShift(s, l);
    LaneReduction(s.w7, l);
    XorZero(s.w1);
    XorZero(s.w4);
    XorZero(s.w5);
    XorZero(s.w6);
    XorZero(s.w7);
    LaneAdd(Slice(0, s.w0, s.w1, s.w2, s.w3, s.w4, s.w5, s.w6), Slice(s.w7, s.w7, 0, s.w7, s.w7, 0, 0, 0), l);
  }

  /** A step of the multiplication: add v where the bits of word i of b say so. */
  lemma LaneSelected(v: Slice, b: Slice, i: nat, l: nat)
    requires l < LANES && i < 8
    ensures Lane(MaskW(v, Word(b, i)), l) == Mask(Lane(v, l), Nth(Lane(b, l), i))
  {
    hide Lane, Bit, Nth, Word, MaskW;
    LaneMask(v, Word(b, i), l);
    LaneBits(b, l, i);
  }

  lemma LaneSelect(b: Slice, v0: Slice, v1: Slice, v2: Slice, v3: Slice,
                   v4: Slice, v5: Slice, v6: Slice, v7: Slice, l: nat)
    requires l < LANES
    ensures Lane(SelectW(b, v0, v1, v2, v3, v4, v5, v6, v7), l)
         == Select(Lane(b, l), Lane(v0, l), Lane(v1, l), Lane(v2, l), Lane(v3, l),
                   Lane(v4, l), Lane(v5, l), Lane(v6, l), Lane(v7, l))
  {
    hide Add, Lane, Nth, Mask, MaskW, AddW;
    var s1 := MaskW(v0, b.w0);
    var s2 := AddW(s1, MaskW(v1, b.w1));
    var s3 := AddW(s2, MaskW(v2, b.w2));
    var s4 := AddW(s3, MaskW(v3, b.w3));
    var s5 := AddW(s4, MaskW(v4, b.w4));
    var s6 := AddW(s5, MaskW(v5, b.w5));
    var s7 := AddW(s6, MaskW(v6, b.w6));
    LaneSelected(v0, b, 0, l);
    LaneSelected(v1, b, 1, l);
    LaneSelected(v2, b, 2, l);
    LaneSelected(v3, b, 3, l);
    LaneSelected(v4, b, 4, l);
    LaneSelected(v5, b, 5, l);
    LaneSelected(v6, b, 6, l);
    LaneSelected(v7, b, 7, l);
    LaneAdd(s1, MaskW(v1, b.w1), l);
    LaneAdd(s2, MaskW(v2, b.w2), l);
    LaneAdd(s3, MaskW(v3, b.w3), l);
    LaneAdd(s4, MaskW(v4, b.w4), l);
    LaneAdd(s5, MaskW(v5, b.w5), l);
    LaneAdd(s6, MaskW(v6, b.w6), l);
    LaneAdd(s7, MaskW(v7, b.w7), l);
  }

  /** In every lane the bitsliced product is the field product. */
  lemma LaneMul(a: Slice, b: Slice, l: nat)
    requires l < LANES
    ensures Lane(MulW(a, b), l) == Mul(Lane(a, l), Lane(b, l))
  {
    hide Lane, Select, SelectW, XtimeW, Xtime, Mul;
    var a1 := XtimeW(a);
    var a2 := XtimeW(a1);
    var a3 := XtimeW(a2);
    var a4 := XtimeW(a3);
    var a5 := XtimeW(a4);
    var a6 := XtimeW(a5);
    var a7 := XtimeW(a6);
    LaneXtime(a, l);
    LaneXtime(a1, l);
    LaneXtime(a2, l);
    LaneXtime(a3, l);
    LaneXtime(a4, l);
    LaneXtime(a5, l);
    LaneXtime(a6, l);
    LaneSelect(b, a, a1, a2, a3, a4, a5, a6, a7, l);
    MulUnrolled(Lane(a, l), Lane(b, l));
  }

  // ----- Squaring: the low and the high four words separately -----

  function LowHalf(x: Slice): Slice {
    Slice(x.w0, x.w1, x.w2, x.w3, 0, 0, 0, 0)
  }

  function HighHalf(x: Slice): Slice {
    Slice(0, 0, 0, 0, x.w4, x.w5, x.w6, x.w7)
  }

  function SquareLow(x: Slice): Slice {
    Slice(x.w0, 0, x.w1, 0, x.w2, 0, x.w3, 0)
  }

  function SquareHigh(x: Slice): Slice {
    var r10 := Xor(x.w5, x.w7);
    var r8 := Xor(x.w4, x.w6);
    Slice(r8, Xor(x.w7, r8), Xor(r10, x.w7), Xor(r10, r8),
          Xor(Xor(x.w6, x.w7), r8), Xor(Xor(x.w6, r10), x.w7), Xor(x.w7, r10), Xor(x.w7, x.w6))
  }

  lemma SquareSplit(x: Slice)
    ensures x == AddW(LowHalf(x), HighHalf(x))
    ensures SquareW(x) == AddW(SquareLow(x), SquareHigh(x))
  {
    hide Xor;
    var r10 := Xor(x.w5, x.w7);
    var r8 := Xor(x.w4, x.w6);
    XorZero(x.w0);
    XorZero(x.w1);
    XorZero(x.w2);
    XorZero(x.w3);
    XorZero(x.w4);
    XorZero(x.w5);
    XorZero(x.w6);
    XorZero(x.w7);
    XorZero(Xor(x.w7, r8));
    XorZero(Xor(r10, r8));
    XorZero(Xor(Xor(x.w6, r10), x.w7));
    XorZero(Xor(x.w7, x.w6));
    XorAssoc(x.w1, r10, x.w7);
    XorAssoc(x.w2, x.w6, x.w7);
    XorAssoc(x.w2, Xor(x.w6, x.w7), r8);
    XorAssoc(x.w3, x.w7, r10);
  }

  lemma LaneSquareLow(x: Slice, l: nat)
    requires l < LANES
    ensures Lane(SquareLow(x), l) == SquareBits(Lane(LowHalf(x), l))
  {
    hide Bit, Lane, Nth;
    LaneLow(LowHalf(x), l);
    BitZero(l);
    LaneUnfold(SquareLow(x), l);
  }

  lemma LaneUnfold(s: Slice, l: nat)
    requires l < LANES
    ensures Lane(s, l) == Add(Add(Add(Add(Add(Add(Add(MaskBit(0x01, s.w0, l), MaskBit(0x02, s.w1, l)), MaskBit(0x04, s.w2, l)),
                        MaskBit(0x08, s.w3, l)), MaskBit(0x10, s.w4, l)), MaskBit(0x20, s.w5, l)),
            MaskBit(0x40, s.w6, l)), MaskBit(0x80, s.w7, l))
  {}

  lemma LaneSquareHigh(x: Slice, l: nat)
    requires l < LANES
    ensures Lane(SquareHigh(x), l) == SquareBits(Lane(HighHalf(x), l))
  {
    hide Bit, Xor, Lane, Nth;
    LaneLow(HighHalf(x), l);
    BitZero(l);
    var r10 := Xor(x.w5, x.w7);
    var r8 := Xor(x.w4, x.w6);
    BitXor(x.w5, x.w7, l);
    BitXor(x.w4, x.w6, l);
    BitXor(x.w7, r8, l);
    BitXor(r10, x.w7, l);
    BitXor(r10, r8, l);
    BitXor(Xor(x.w6, x.w7), r8, l);
    BitXor(x.w6, x.w7, l);
    BitXor(Xor(x.w6, r10), x.w7, l);
    BitXor(x.w6, r10, l);
    BitXor(x.w7, r10, l);
    BitXor(x.w7, x.w6, l);
    LaneUnfold(SquareHigh(x), l);
  }

  /** In every lane the bitsliced square is the field square. */
  lemma LaneSquare(x: Slice, l: nat)
    requires l < LANES
    ensures Lane(SquareW(x), l) == Square(Lane(x, l))
  {
    hide Lane, Square, SquareBits, SquareW, SquareLow, SquareHigh, LowHalf, HighHalf, AddW, Add;
    SquareSplit(x);
    LaneAdd(LowHalf(x), HighHalf(x), l);
    LaneAdd(SquareLow(x), SquareHigh(x), l);
    LaneSquareLow(x, l);
    LaneSquareHigh(x, l);
    SquareIsLinear(Lane(LowHalf(x), l));
    SquareIsLinear(Lane(HighHalf(x), l));
    SquareAdd(Lane(LowHalf(x), l), Lane(HighHalf(x), l));
  }

  /** In every lane the bitsliced inversion is the field inversion. */
  lemma LaneInv(x: Slice, l: nat)
    requires l < LANES
    ensures Lane(InvW(x), l) == Inv(Lane(x, l))
  {
    hide Lane, SquareW, MulW, Mul;
    var x2 := SquareW(x);
    var y := SquareW(x2);
    var r8 := SquareW(y);
    var z9 := MulW(r8, x);
    var r16 := SquareW(r8);
    var r25 := MulW(r16, z9);
    var r50 := SquareW(r25);
    var z100 := SquareW(r50);
    var z200 := SquareW(z100);
    LaneSquare(x, l);
    LaneSquare(x2, l);
    LaneSquare(y, l);
    LaneMul(r8, x, l);
    LaneSquare(r8, l);
    LaneMul(r16, z9, l);
    LaneSquare(r25, l);
    LaneSquare(r50, l);
    LaneSquare(z100, l);
    LaneMul(r50, z200, l);
    LaneMul(MulW(r50, z200), y, l);
  }
}
