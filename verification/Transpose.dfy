/**
 The bit matrix transposition behind bitslicing: which bit of which word holds
 which bit of which byte, one bit at a time, and that the two directions of the
 conversion are inverse to each other.
 */
module Transpose {
  import opened GF256
  import opened Bitslice

  // ----- Moving single bits between bytes and words -----

  /** Bit b of x, as a word. */
  function ByteBit(x: bv8, b: nat): bv32
    requires b < 8
  {
    ((x as bv32) >> b) & 1
  }

  /** Lane l of w, as a word. */
  function WordBit(w: bv32, l: nat): bv32
    requires l < LANES
  {
    (w >> l) & 1
  }

  function Or(v: bv32, w: bv32): bv32 {
    v | w
  }

  function ShiftLane(c: bv32, l: nat): bv32
    requires l < LANES
  {
    c << l
  }

  function OrLane(w: bv32, c: bv32, l: nat): bv32
    requires l < LANES
  {
    Or(w, ShiftLane(c, l))
  }

  function ShiftByte(c: bv32, b: nat): bv8
    requires b < 8
  {
    ((c << b) & 0xff) as bv8
  }

  function OrByte(y: bv8, z: bv8): bv8 {
    y | z
  }

  /** Bit b of x moved to the sign bit, and the arithmetic right shift by 31 of that. */
  function SignFill(x: bv8, b: nat): bv32
    requires b < 8
  {
    var moved := ((x as bv32) & (1 << b)) << (31 - b);
    if moved & 0x8000_0000 != 0 then 0xffff_ffff else moved >> 31
  }

  lemma SignFillIs(x: bv8, b: nat)
    requires b < 8
    ensures SignFill(x, b) == if Nth(x, b) then 0xffff_ffff else 0
  {}

  lemma ByteBitIs(x: bv8, b: nat)
    requires b < 8
    ensures ByteBit(x, b) == if Nth(x, b) then 1 else 0
  {}

  lemma WordBitIs(w: bv32, l: nat)
    requires l < LANES
    ensures WordBit(w, l) == if Bit(w, l) then 1 else 0
  {}

  /** ShiftLane, with the lane as a machine word. */
  function ShiftAt(c: bv32, i: bv32): bv32
    requires i < 32
  {
    c << i
  }

  lemma OrAtBits(w: bv32, c: bv32, i: bv32, j: bv32)
    requires i < 32 && j < 32 && c <= 1
    ensures BitAt(Or(w, ShiftAt(c, i)), j) == (BitAt(w, j) || (i == j && c == 1))
  {}

  lemma ShiftLaneIsShiftAt(c: bv32, l: nat)
    requires l < LANES && c <= 1
    ensures (l as bv32) < 32 && ShiftLane(c, l) == ShiftAt(c, l as bv32)
  {}

  lemma LaneInjective(i: nat, j: nat)
    requires i < LANES && j < LANES && i as bv32 == j as bv32
    ensures i == j
  {
    assert ((1 as bv32 << i) >> j) & 1 == 1 <==> i == j;
  }

  lemma OrLaneBits(w: bv32, c: bv32, l: nat, m: nat)
    requires l < LANES && m < LANES && c <= 1
    ensures Bit(OrLane(w, c, l), m) == (Bit(w, m) || (l == m && c == 1))
  {
    hide Bit, BitAt, Or, ShiftLane, ShiftAt;
    BitIsBitAt(w, m);
    BitIsBitAt(OrLane(w, c, l), m);
    ShiftLaneIsShiftAt(c, l);
    OrAtBits(w, c, l as bv32, m as bv32);
    if l as bv32 == m as bv32 {
      LaneInjective(l, m);
    }
  }

  lemma NthOrAll(y: bv8, z: bv8)
    ensures Nth(OrByte(y, z), 0) == (Nth(y, 0) || Nth(z, 0)) && Nth(OrByte(y, z), 1) == (Nth(y, 1) || Nth(z, 1))
    ensures Nth(OrByte(y, z), 2) == (Nth(y, 2) || Nth(z, 2)) && Nth(OrByte(y, z), 3) == (Nth(y, 3) || Nth(z, 3))
    ensures Nth(OrByte(y, z), 4) == (Nth(y, 4) || Nth(z, 4)) && Nth(OrByte(y, z), 5) == (Nth(y, 5) || Nth(z, 5))
    ensures Nth(OrByte(y, z), 6) == (Nth(y, 6) || Nth(z, 6)) && Nth(OrByte(y, z), 7) == (Nth(y, 7) || Nth(z, 7))
  {}

  lemma NthOr(y: bv8, z: bv8, i: nat)
    requires i < 8
    ensures Nth(OrByte(y, z), i) == (Nth(y, i) || Nth(z, i))
  {
    hide Nth, OrByte;
    NthOrAll(y, z);
  }

  lemma ShiftByteBits(c: bv32, b: nat, i: nat)
    requires b < 8 && i < 8 && c <= 1
    ensures Nth(ShiftByte(c, b), i) == (i == b && c == 1)
  {}

  // ----- Words filled lane by lane, bytes filled bit by bit -----

  /** The first n lanes of w hold bit b of the first n bytes of x; the others are empty. */
  ghost predicate WordHolds(w: bv32, x: seq<bv8>, b: nat, n: nat)
    requires |x| == LANES && b < 8
  {
    forall l :: 0 <= l < LANES ==> Bit(w, l) == (l < n && Nth(x[l], b))
  }

  lemma WordHoldsNext(w: bv32, x: seq<bv8>, b: nat, n: nat)
    requires |x| == LANES && b < 8 && n < LANES && WordHolds(w, x, b, n)
    ensures WordHolds(OrLane(w, ByteBit(x[n], b), n), x, b, n + 1)
  {
    hide Bit, Nth, ByteBit, OrLane;
    ByteBitIs(x[n], b);
    forall l | 0 <= l < LANES
      ensures Bit(OrLane(w, ByteBit(x[n], b), n), l) == (l < n + 1 && Nth(x[l], b))
    {
      OrLaneBits(w, ByteBit(x[n], b), n, l);
    }
  }

  lemma WordHoldsNone(x: seq<bv8>, b: nat)
    requires |x| == LANES && b < 8
    ensures WordHolds(0, x, b, 0)
  {
    hide Bit, Nth;
    forall l | 0 <= l < LANES ensures !Bit(0, l) {
      BitZero(l);
    }
  }

  lemma LaneOfWords(s: Slice, x: seq<bv8>, l: nat)
    requires |x| == LANES && l < LANES
    requires WordHolds(s.w0, x, 0, LANES) && WordHolds(s.w1, x, 1, LANES) && WordHolds(s.w2, x, 2, LANES)
    requires WordHolds(s.w3, x, 3, LANES) && WordHolds(s.w4, x, 4, LANES) && WordHolds(s.w5, x, 5, LANES)
    requires WordHolds(s.w6, x, 6, LANES) && WordHolds(s.w7, x, 7, LANES)
    ensures Lane(s, l) == x[l]
  {
    hide Bit, Nth, Lane;
    forall b | 0 <= b < 8 ensures Nth(Lane(s, l), b) == Nth(x[l], b) {
      LaneBits(s, l, b);
    }
    ByteExtensional(Lane(s, l), x[l]);
  }

  /** The first n bits of y are those of lane l of s; the others are empty. */
  ghost predicate ByteHolds(y: bv8, s: Slice, l: nat, n: nat)
    requires l < LANES
  {
    forall i :: 0 <= i < 8 ==> Nth(y, i) == (i < n && Bit(Word(s, i), l))
  }

  lemma ByteHoldsNext(y: bv8, s: Slice, l: nat, n: nat)
    requires l < LANES && n < 8 && ByteHolds(y, s, l, n)
    ensures ByteHolds(OrByte(y, ShiftByte(WordBit(Word(s, n), l), n)), s, l, n + 1)
  {
    hide Bit, Nth, WordBit, OrByte, ShiftByte, Word;
    var c := WordBit(Word(s, n), l);
    WordBitIs(Word(s, n), l);
    forall i | 0 <= i < 8
      ensures Nth(OrByte(y, ShiftByte(c, n)), i) == (i < n + 1 && Bit(Word(s, i), l))
    {
      NthOr(y, ShiftByte(c, n), i);
      ShiftByteBits(c, n, i);
    }
  }

  lemma ByteHoldsNone(s: Slice, l: nat)
    requires l < LANES
    ensures ByteHolds(0, s, l, 0)
  {
    hide Bit, Nth;
    NthPowers();
  }

  lemma ByteHoldsAll(y: bv8, s: Slice, l: nat)
    requires l < LANES && ByteHolds(y, s, l, 8)
    ensures y == Lane(s, l)
  {
    hide Bit, Nth, Lane, Word;
    forall b | 0 <= b < 8 ensures Nth(y, b) == Nth(Lane(s, l), b) {
      LaneBits(s, l, b);
    }
    ByteExtensional(y, Lane(s, l));
  }

  lemma WordLoad(x: array<bv32>, b: nat)
    requires x.Length == 8 && b < 8
    ensures Word(Load(x), b) == x[b]
  {}

  // ----- The bitsliced form as a function -----

  /** Bit b of the first n bytes of x, in the first n lanes of a word. */
  function WordOf(x: seq<bv8>, b: nat, n: nat): bv32
    requires |x| == LANES && b < 8 && n <= LANES
  {
    if n == 0 then 0 else OrLane(WordOf(x, b, n - 1), ByteBit(x[n - 1], b), n - 1)
  }

  function SliceOf(x: seq<bv8>): Slice
    requires |x| == LANES
  {
    Slice(WordOf(x, 0, LANES), WordOf(x, 1, LANES), WordOf(x, 2, LANES), WordOf(x, 3, LANES),
          WordOf(x, 4, LANES), WordOf(x, 5, LANES), WordOf(x, 6, LANES), WordOf(x, 7, LANES))
  }

  lemma {:induction false} WordOfHolds(x: seq<bv8>, b: nat, n: nat)
    requires |x| == LANES && b < 8 && n <= LANES
    ensures WordHolds(WordOf(x, b, n), x, b, n)
  {
    hide WordHolds, OrLane, ByteBit;
    if n == 0 {
      WordHoldsNone(x, b);
    } else {
      WordOfHolds(x, b, n - 1);
      WordHoldsNext(WordOf(x, b, n - 1), x, b, n - 1);
    }
  }

  /** Reading the lanes back undoes bitslicing ... */
  lemma LanesOfSlice(x: seq<bv8>)
    requires |x| == LANES
    ensures Lanes(SliceOf(x)) == x
  {
    hide WordHolds, WordOf, Lane;
    WordOfHolds(x, 0, LANES);
    WordOfHolds(x, 1, LANES);
    WordOfHolds(x, 2, LANES);
    WordOfHolds(x, 3, LANES);
    WordOfHolds(x, 4, LANES);
    WordOfHolds(x, 5, LANES);
    WordOfHolds(x, 6, LANES);
    WordOfHolds(x, 7, LANES);
    forall l | 0 <= l < LANES ensures Lane(SliceOf(x), l) == x[l] {
      LaneOfWords(SliceOf(x), x, l);
    }
  }

  /** ... and bitslicing undoes reading the lanes back. */
  lemma SliceOfLanes(s: Slice)
    ensures SliceOf(Lanes(s)) == s
  {
    hide SliceOf, Lanes;
    LanesOfSlice(Lanes(s));
    LaneWordExtensional(SliceOf(Lanes(s)), s);
  }
}
