/**
 The routines of hazmat.c over arrays: conversion to and from the bitsliced form,
 the in-place field arithmetic, and the creation and combination of key shares.
 */
module Hazmat {
  import opened GF256
  import opened Bitslice
  import opened Transpose

  // ----- Conversion -----

  /** Writes the 32 bytes of x into the lanes of r. */
  method BitsliceBytes(r: array<bv32>, x: seq<bv8>)
    requires r.Length == 8 && |x| == LANES
    modifies r
    ensures Lanes(Load(r)) == x
  {
    hide Bit, Nth, ByteBit, OrLane, Lane, WordHolds;
    for i := 0 to 8
      invariant forall b :: 0 <= b < i ==> WordHolds(r[b], x, b, 0)
    {
      r[i] := 0;
      WordHoldsNone(x, i);
    }
    for arr := 0 to LANES
      invariant forall b :: 0 <= b < 8 ==> WordHolds(r[b], x, b, arr)
    {
      for bit := 0 to 8
        invariant forall b :: 0 <= b < 8 ==> WordHolds(r[b], x, b, if b < bit then arr + 1 else arr)
      {
        WordHoldsNext(r[bit], x, bit, arr);
        r[bit] := OrLane(r[bit], ByteBit(x[arr], bit), arr);
      }
    }
    forall l | 0 <= l < LANES ensures Lane(Load(r), l) == x[l] {
      LaneOfWords(Load(r), x, l);
    }
  }

  /** Writes the 32 lanes of x to the 32 bytes of r from offset on. */
  method UnbitsliceBytes(r: array<bv8>, offset: nat, x: array<bv32>)
    requires x.Length == 8 && offset + LANES <= r.Length
    modifies r
    ensures r[offset..offset + LANES] == Lanes(Load(x))
    ensures r[..offset] == old(r[..offset]) && r[offset + LANES..] == old(r[offset + LANES..])
  {
    hide Bit, Nth, WordBit, ShiftByte, OrByte, Lane, ByteHolds, Word;
    ghost var s := Load(x);
    for l := 0 to LANES
      invariant forall i :: offset <= i < offset + l ==> ByteHolds(r[i], s, i - offset, 0)
      invariant forall i :: 0 <= i < offset || offset + LANES <= i < r.Length ==> r[i] == old(r[i])
    {
      r[offset + l] := 0;
      ByteHoldsNone(s, l);
    }
    for bit := 0 to 8
      invariant forall i :: offset <= i < offset + LANES ==> ByteHolds(r[i], s, i - offset, bit)
      invariant forall i :: 0 <= i < offset || offset + LANES <= i < r.Length ==> r[i] == old(r[i])
    {
      WordLoad(x, bit);
      for arr := 0 to LANES
        invariant forall i :: offset <= i < offset + LANES ==>
          ByteHolds(r[i], s, i - offset, if i - offset < arr then bit + 1 else bit)
        invariant forall i :: 0 <= i < offset || offset + LANES <= i < r.Length ==> r[i] == old(r[i])
      {
        ByteHoldsNext(r[offset + arr], s, arr, bit);
        r[offset + arr] := OrByte(r[offset + arr], ShiftByte(WordBit(x[bit], arr), bit));
      }
    }
    forall i | offset <= i < offset + LANES ensures r[i] == Lane(s, i - offset) {
      ByteHoldsAll(r[i], s, i - offset);
    }
    assert r[..offset] == old(r[..offset]);
    assert r[offset + LANES..] == old(r[offset + LANES..]);
  }

  /** Puts the same byte x in all 32 lanes. */
  method SetAll(r: array<bv32>, x: bv8)
    requires r.Length == 8
    modifies r
    ensures forall l :: 0 <= l < LANES ==> Lane(Load(r), l) == x
  {
    hide SignFill, Nth, Lane, Bit;
    for idx := 0 to 8
      invariant forall b :: 0 <= b < idx ==> r[b] == if Nth(x, b) then 0xffff_ffff else 0
    {
      r[idx] := SignFill(x, idx);
      SignFillIs(x, idx);
    }
    forall l | 0 <= l < LANES ensures Lane(Load(r), l) == x {
      BitZero(l);
      BitOnes(l);
      forall b | 0 <= b < 8 ensures Nth(Lane(Load(r), l), b) == Nth(x, b) {
        LaneBits(Load(r), l, b);
        assert Word(Load(r), b) == r[b];
      }
      ByteExtensional(Lane(Load(r), l), x);
    }
  }

  // ----- Field arithmetic in place -----

  method AddInto(r: array<bv32>, x: array<bv32>)
    requires r.Length == x.Length == 8 && r != x
    modifies r
    ensures Load(r) == AddW(old(Load(r)), Load(x))
  {
    hide Xor;
    for idx := 0 to 8
      invariant forall b :: 0 <= b < idx ==> r[b] == Xor(old(r[b]), x[b])
      invariant forall b :: idx <= b < 8 ==> r[b] == old(r[b])
    {
      r[idx] := Xor(r[idx], x[idx]);
    }
  }

  function View(a2: array<bv32>, i0: nat, i1: nat, i2: nat, i3: nat, i4: nat, i5: nat, i6: nat, i7: nat): Slice
    requires a2.Length == 8
    requires i0 < 8 && i1 < 8 && i2 < 8 && i3 < 8 && i4 < 8 && i5 < 8 && i6 < 8 && i7 < 8
    reads a2
  {
    Slice(a2[i0], a2[i1], a2[i2], a2[i3], a2[i4], a2[i5], a2[i6], a2[i7])
  }

  method SetRow(r: array<bv32>, a2: array<bv32>, w: bv32)
    requires r.Length == a2.Length == 8 && r != a2
    modifies r
    ensures Load(r) == MaskW(Load(a2), w)
  {
    hide And;
    r[0] := And(a2[0], w);
    r[1] := And(a2[1], w);
    r[2] := And(a2[2], w);
    r[3] := And(a2[3], w);
    r[4] := And(a2[4], w);
    r[5] := And(a2[5], w);
    r[6] := And(a2[6], w);
    r[7] := And(a2[7], w);
  }

  /** Adds four masked words to r from at on. */
  method AddWords(r: array<bv32>, at: nat, x0: bv32, x1: bv32, x2: bv32, x3: bv32, w: bv32)
    requires at + 4 <= r.Length
    modifies r
    ensures r[at] == Xor(old(r[at]), And(x0, w)) && r[at + 1] == Xor(old(r[at + 1]), And(x1, w))
    ensures r[at + 2] == Xor(old(r[at + 2]), And(x2, w)) && r[at + 3] == Xor(old(r[at + 3]), And(x3, w))
    ensures forall b :: 0 <= b < r.Length && !(at <= b < at + 4) ==> r[b] == old(r[b])
  {
    hide Xor, And;
    r[at] := Xor(r[at], And(x0, w));
    r[at + 1] := Xor(r[at + 1], And(x1, w));
    r[at + 2] := Xor(r[at + 2], And(x2, w));
    r[at + 3] := Xor(r[at + 3], And(x3, w));
  }

  method AddRow(r: array<bv32>, a2: array<bv32>, w: bv32,
                i0: nat, i1: nat, i2: nat, i3: nat, i4: nat, i5: nat, i6: nat, i7: nat)
    requires r.Length == a2.Length == 8 && r != a2
    requires i0 < 8 && i1 < 8 && i2 < 8 && i3 < 8 && i4 < 8 && i5 < 8 && i6 < 8 && i7 < 8
    modifies r
    ensures Load(r) == AddW(old(Load(r)), MaskW(View(a2, i0, i1, i2, i3, i4, i5, i6, i7), w))
  {
    hide Xor, And;
    AddWords(r, 0, a2[i0], a2[i1], a2[i2], a2[i3], w);
    AddWords(r, 4, a2[i4], a2[i5], a2[i6], a2[i7], w);
  }

  /** Multiplies by x in place: the word that was the highest becomes the lowest. */
  method Reduce(a2: array<bv32>, i0: nat, i1: nat, i2: nat, i3: nat, i4: nat, i5: nat, i6: nat, i7: nat)
    requires a2.Length == 8
    requires i0 < 8 && i1 < 8 && i2 < 8 && i3 < 8 && i4 < 8 && i5 < 8 && i6 < 8 && i7 < 8
    requires i0 !in {i1, i2, i3, i4, i5, i6, i7}
    requires i2 !in {i1, i3, i4, i5, i6, i7}
    requires i3 !in {i1, i4, i5, i6, i7}
    modifies a2
    ensures View(a2, i7, i0, i1, i2, i3, i4, i5, i6) == XtimeW(old(View(a2, i0, i1, i2, i3, i4, i5, i6, i7)))
  {
    hide Xor;
    a2[i0] := Xor(a2[i0], a2[i7]);
    a2[i2] := Xor(a2[i2], a2[i7]);
    a2[i3] := Xor(a2[i3], a2[i7]);
  }

  lemma LoadIsView(a: array<bv32>)
    requires a.Length == 8
    ensures Load(a) == View(a, 0, 1, 2, 3, 4, 5, 6, 7)
  {}

  /** The four rows for the low half of b; leaves x^3 times a2, rotated by three words. */
  method MulLowRows(r: array<bv32>, a2: array<bv32>, b: array<bv32>)
    requires r.Length == a2.Length == b.Length == 8 && r != a2 && r != b && a2 != b
    modifies r, a2
    ensures var a0 := old(Load(a2)); var a1 := XtimeW(a0); var a3 := XtimeW(XtimeW(a1));
            && View(a2, 5, 6, 7, 0, 1, 2, 3, 4) == a3
            && Load(r) == AddW(AddW(AddW(MaskW(a0, b[0]), MaskW(a1, b[1])), MaskW(XtimeW(a1), b[2])), MaskW(a3, b[3]))
  {
    hide AddW, MaskW, XtimeW, Load, View;
    LoadIsView(a2);
    SetRow(r, a2, b[0]);
    Reduce(a2, 0, 1, 2, 3, 4, 5, 6, 7);
    AddRow(r, a2, b[1], 7, 0, 1, 2, 3, 4, 5, 6);
    Reduce(a2, 7, 0, 1, 2, 3, 4, 5, 6);
    AddRow(r, a2, b[2], 6, 7, 0, 1, 2, 3, 4, 5);
    Reduce(a2, 6, 7, 0, 1, 2, 3, 4, 5);
    AddRow(r, a2, b[3], 5, 6, 7, 0, 1, 2, 3, 4);
  }

  /** The four rows for the high half. */
  method MulHighRows(r: array<bv32>, a2: array<bv32>, b: array<bv32>)
    requires r.Length == a2.Length == b.Length == 8 && r != a2 && r != b && a2 != b
    modifies r, a2
    ensures var a4 := XtimeW(old(View(a2, 5, 6, 7, 0, 1, 2, 3, 4))); var a5 := XtimeW(a4); var a6 := XtimeW(a5);
            Load(r) == AddW(AddW(AddW(AddW(old(Load(r)), MaskW(a4, b[4])), MaskW(a5, b[5])), MaskW(a6, b[6])),
                            MaskW(XtimeW(a6), b[7]))
  {
    hide AddW, MaskW, XtimeW, Load, View;
    Reduce(a2, 5, 6, 7, 0, 1, 2, 3, 4);
    AddRow(r, a2, b[4], 4, 5, 6, 7, 0, 1, 2, 3);
    Reduce(a2, 4, 5, 6, 7, 0, 1, 2, 3);
    AddRow(r, a2, b[5], 3, 4, 5, 6, 7, 0, 1, 2);
    Reduce(a2, 3, 4, 5, 6, 7, 0, 1, 2);
    AddRow(r, a2, b[6], 2, 3, 4, 5, 6, 7, 0, 1);
    Reduce(a2, 2, 3, 4, 5, 6, 7, 0, 1);
    AddRow(r, a2, b[7], 1, 2, 3, 4, 5, 6, 7, 0);
  }

  /** r := a * b in every lane; r may be the array a, but not the array b. */
  method MulInto(r: array<bv32>, a: array<bv32>, b: array<bv32>)
    requires r.Length == a.Length == b.Length == 8 && r != b
    modifies r
    ensures Load(r) == MulW(old(Load(a)), Load(b))
  {
    hide AddW, MaskW, XtimeW;
    var a2 := new bv32[8];
    Copy(a2, a);
    MulLowRows(r, a2, b);
    MulHighRows(r, a2, b);
  }

  method Copy(r: array<bv32>, x: array<bv32>)
    requires r.Length == x.Length == 8
    modifies r
    ensures Load(r) == old(Load(x))
  {
    for i := 0 to 8
      invariant forall b :: 0 <= b < i ==> r[b] == old(x[b])
      invariant forall b :: i <= b < 8 ==> r[b] == old(r[b])
    {
      r[i] := x[i];
    }
  }

  /** Folds x^14 and x^12 onto the low words. */
  method FoldFourteen(r: array<bv32>, r14: bv32, r12: bv32)
    requires r.Length == 8
    modifies r
    ensures Load(r) == old(Slice(r[0], r[1], r[2], r[3], Xor(r[4], r12), r12, Xor(r[6], r14), Xor(r14, r12)))
  {
    hide Xor;
    r[7] := r14;
    r[6] := Xor(r[6], r14);
    r[4] := Xor(r[4], r12);
    r[5] := r12;
    r[7] := Xor(r[7], r12);
  }

  /** Folds x^10, and x^9, which always equals x^14. */
  method FoldTen(r: array<bv32>, r14: bv32, r10: bv32)
    requires r.Length == 8
    modifies r
    ensures Load(r) == old(Slice(r[0], r14, Xor(Xor(r[2], r10), r14), r10, Xor(r[4], r14), Xor(Xor(r[5], r10), r14),
                                 Xor(r[6], r10), r[7]))
  {
    hide Xor;
    r[2] := Xor(r[2], r10);
    r[3] := r10;
    r[5] := Xor(r[5], r10);
    r[6] := Xor(r[6], r10);
    r[1] := r14;
    r[2] := Xor(r[2], r14);
    r[4] := Xor(r[4], r14);
    r[5] := Xor(r[5], r14);
  }

  /** Folds x^8. */
  method FoldEight(r: array<bv32>, r8: bv32)
    requires r.Length == 8
    modifies r
    ensures Load(r) == old(Slice(Xor(r[0], r8), Xor(r[1], r8), r[2], Xor(r[3], r8), Xor(r[4], r8), r[5], r[6], r[7]))
  {
    hide Xor;
    r[0] := Xor(r[0], r8);
    r[1] := Xor(r[1], r8);
    r[3] := Xor(r[3], r8);
    r[4] := Xor(r[4], r8);
  }

  /** r := x * x in every lane; r may be the array x. */
  method SquareInto(r: array<bv32>, x: array<bv32>)
    requires r.Length == x.Length == 8
    modifies r
    ensures Load(r) == SquareW(old(Load(x)))
  {
    hide Xor;
    var r14 := x[7];
    var r12 := x[6];
    var r10 := x[5];
    var r8 := x[4];
    r[6] := x[3];
    r[4] := x[2];
    r[2] := x[1];
    r[0] := x[0];
    r10 := Xor(r10, r14);
    r8 := Xor(r8, r12);
    FoldFourteen(r, r14, r12);
    FoldTen(r, r14, r10);
    FoldEight(r, r8);
  }

  /** The first half of the inversion: y := x^4 and r := x^25 in every lane. */
  method InvStart(r: array<bv32>, y: array<bv32>, z: array<bv32>, x: array<bv32>)
    requires r.Length == y.Length == z.Length == x.Length == 8
    requires r != y && r != z && r != x && y != z && y != x && z != x
    modifies r, y, z
    ensures Load(y) == SquareW(SquareW(Load(x)))
    ensures Load(r) == MulW(SquareW(SquareW(Load(y))), MulW(SquareW(Load(y)), Load(x)))
  {
    hide MulW, SquareW, Load;
    SquareInto(y, x);
    SquareInto(y, y);
    SquareInto(r, y);
    MulInto(z, r, x);
    SquareInto(r, r);
    MulInto(r, r, z);
  }

  /** r := x^254 in every lane, which inverts every nonzero lane. */
  method InvInto(r: array<bv32>, x: array<bv32>)
    requires r.Length == x.Length == 8 && r != x
    modifies r
    ensures Load(r) == InvW(Load(x))
  {
    hide MulW, SquareW, Load;
    var y, z := new bv32[8], new bv32[8];
    InvStart(r, y, z, x);
    SquareInto(r, r);
    SquareInto(z, r);
    SquareInto(z, z);
    MulInto(r, r, z);
    MulInto(r, r, y);
  }
}
