/**
 The characters of an encoding, and the bytes of a decoding, as the bits they stand for.
 */
module Base64Bits {
  import opened Base64

  const UPPER: string := "ABCDEFGHIJKLMNOPQRSTUVWXYZ"
  const LOWER: string := "abcdefghijklmnopqrstuvwxyz"
  const REST: string := "0123456789+/"

  /** "ABCDEFGHIJKLMNOPQRSTUVWXYZabcdefghijklmnopqrstuvwxyz0123456789+/" */
  function Alphabet(): (s: string)
    ensures |s| == 64
  {
    UPPER + LOWER + REST
  }

  /** The character number v of the alphabet. */
  predicate IsLetter(c: bv8, v: bv8) {
    0 <= v as int < 64 && c as int == Alphabet()[v as int] as int
  }

  predicate IsPad(c: bv8) {
    c as int == '=' as int
  }

  // ----- The alphabet -----

  lemma Upper(i: nat)
    requires i < 26
    ensures UPPER[i] as int == 0x41 + i
  {}

  lemma Lower(i: nat)
    requires i < 26
    ensures LOWER[i] as int == 0x61 + i
  {}

  lemma Rest(i: nat)
    requires i < 12
    ensures REST[i] as int == if i < 10 then 0x30 + i else if i == 10 then 0x2b else 0x2f
  {}

  lemma CharCode(v: bv8)
    requires v < 64
    ensures v as int < 64 && (v < 26 <==> v as int < 26) && (v < 52 <==> v as int < 52) && (v < 62 <==> v as int < 62)
    ensures v == 62 <==> v as int == 62
    ensures CharAt(v) as int
         == var i := v as int;
            if i < 26 then 0x41 + i else if i < 52 then 0x47 + i else if i < 62 then i - 4 else if i == 62 then 0x2b else 0x2f
  {}

  lemma LetterAt(v: bv8)
    requires v < 64
    ensures IsLetter(CharAt(v), v)
  {
    CharCode(v);
    var i := v as int;
    hide CharAt, UPPER, LOWER, REST;
    assert |UPPER| == 26 && |LOWER| == 26 && |REST| == 12 by { Sizes(); }
    if i < 26 {
      Upper(i);
    } else if i < 52 {
      Lower(i - 26);
    } else {
      Rest(i - 52);
    }
  }

  lemma Sizes()
    ensures |UPPER| == 26 && |LOWER| == 26 && |REST| == 12
  {}

  // ----- Encoding -----

  lemma QuadLetters(a: bv8, b: bv8, c: bv8)
    ensures var q := Quad(a, b, c);
            && IsLetter(q[0], Sextet0(a)) && IsLetter(q[1], Sextet1(a, b))
            && IsLetter(q[2], Sextet2(b, c)) && IsLetter(q[3], Sextet3(c))
  {
    SextetsSmall(a, b, c);
    hide CharAt, IsLetter, Sextet0, Sextet1, Sextet2, Sextet3;
    LetterAt(Sextet0(a));
    LetterAt(Sextet1(a, b));
    LetterAt(Sextet2(b, c));
    LetterAt(Sextet3(c));
  }

  /** Sextet number j of 24 bits, the first one highest. */
  function SextetOf(bits: bv24, j: nat): bv8
    requires j < 4
  {
    ((bits >> (18 - 6 * j)) & 0x3f) as bv8
  }

  /** Byte number j of 24 bits, the first one highest. */
  function ByteOf(bits: bv24, j: nat): bv8
    requires j < 3
  {
    ((bits >> (16 - 8 * j)) & 0xff) as bv8
  }

  function Bits(a: bv8, b: bv8, c: bv8): bv24 {
    ((a as bv24) << 16) | ((b as bv24) << 8) | (c as bv24)
  }

  lemma SextetBits(a: bv8, b: bv8, c: bv8)
    ensures Sextet0(a) == SextetOf(Bits(a, b, c), 0) && Sextet1(a, b) == SextetOf(Bits(a, b, c), 1)
    ensures Sextet2(b, c) == SextetOf(Bits(a, b, c), 2) && Sextet3(c) == SextetOf(Bits(a, b, c), 3)
  {}

  /** The first n characters are those of the first n sextets. */
  ghost predicate AreSextets(r: seq<bv8>, bits: bv24, n: nat) {
    n <= |r| && n <= 4 && forall j :: 0 <= j < n ==> IsLetter(r[j], SextetOf(bits, j))
  }

  lemma QuadSextets(a: bv8, b: bv8, c: bv8)
    ensures AreSextets(Quad(a, b, c), Bits(a, b, c), 4)
  {
    hide IsLetter, SextetOf, Bits, Quad, Sextet0, Sextet1, Sextet2, Sextet3;
    QuadLetters(a, b, c);
    SextetBits(a, b, c);
  }

  /** One byte: two characters, and two times '='. */
  lemma EncodedOne(a: bv8)
    ensures var r := Encode([a]);
            |r| == 4 && AreSextets(r, Bits(a, 0, 0), 2) && IsPad(r[2]) && IsPad(r[3])
  {
    hide IsLetter, SextetOf, Bits, Quad;
    PadIs();
    QuadSextets(a, 0, 0);
  }

  /** Two bytes: three characters, and '='. */
  lemma EncodedTwo(a: bv8, b: bv8)
    ensures var r := Encode([a, b]);
            |r| == 4 && AreSextets(r, Bits(a, b, 0), 3) && IsPad(r[3])
  {
    hide IsLetter, SextetOf, Bits, Quad;
    PadIs();
    QuadSextets(a, b, 0);
  }

  /** Three bytes: four characters, and the encoding of what follows. */
  lemma EncodedGroup(a: bv8, b: bv8, c: bv8, rest: seq<bv8>)
    ensures var r := Encode([a, b, c] + rest);
            4 <= |r| && AreSextets(r, Bits(a, b, c), 4) && r[4..] == Encode(rest)
  {
    hide IsLetter, SextetOf, Bits, Quad;
    QuadSextets(a, b, c);
    assert ([a, b, c] + rest)[3..] == rest;
  }

  lemma PadIs()
    ensures IsPad(PAD)
  {}

  // ----- Decoding -----

  lemma LetterFound(c: bv8, v: bv8)
    requires IsLetter(c, v)
    ensures IsBase64(c) && Find(c) == v && v < 64
  {
    LetterSmall(v);
    LetterAt(v);
    CharRoundTrip(v);
    SameCode(c, CharAt(v));
  }

  lemma LetterSmall(v: bv8)
    requires v as int < 64
    ensures v < 64
  {}

  lemma SameCode(b: bv8, c: bv8)
    requires b as int == c as int
    ensures b == c
  {}

  /** A byte that is no character of the alphabet ends the input. */
  lemma NoLetterStops(c: bv8)
    requires forall v :: !IsLetter(c, v)
    ensures !IsBase64(c)
  {
    if IsBase64(c) {
      FoundLetter(c);
      LetterAt(Find(c));
    }
  }

  lemma FoundLetter(c: bv8)
    requires IsBase64(c)
    ensures Find(c) < 64 && CharAt(Find(c)) == c
  {}

  lemma TripleBits(p: bv8, q: bv8, r: bv8, s: bv8)
    requires p < 64 && q < 64 && r < 64 && s < 64
    ensures var bits := ((p as bv24) << 18) | ((q as bv24) << 12) | ((r as bv24) << 6) | (s as bv24);
            Triple(p, q, r, s) == [ByteOf(bits, 0), ByteOf(bits, 1), ByteOf(bits, 2)]
  {}

  /** The characters stand for these values. */
  ghost predicate AreLetters(p: seq<bv8>, values: seq<bv8>) {
    |p| == |values| && forall j :: 0 <= j < |p| ==> IsLetter(p[j], values[j])
  }

  /** Up to four values in 24 bits, the first one highest, with zero bits behind them. */
  function ValueBits(values: seq<bv8>): bv24
    requires |values| <= 4
  {
    var v := values + [0, 0, 0, 0];
    ((v[0] as bv24) << 18) | ((v[1] as bv24) << 12) | ((v[2] as bv24) << 6) | (v[3] as bv24)
  }

  lemma LettersFound(p: seq<bv8>, values: seq<bv8>)
    requires AreLetters(p, values)
    ensures forall j :: 0 <= j < |p| ==> IsBase64(p[j]) && Find(p[j]) == values[j] && values[j] < 64
  {
    hide IsLetter;
    forall j | 0 <= j < |p| ensures IsBase64(p[j]) && Find(p[j]) == values[j] && values[j] < 64 {
      LetterFound(p[j], values[j]);
    }
  }

  /** Four characters of the alphabet become the three bytes of their 24 bits, and decoding goes on behind them. */
  lemma DecodedBits(p: seq<bv8>, values: seq<bv8>, rest: seq<bv8>)
    requires |p| == 4 && AreLetters(p, values)
    ensures var bits := ValueBits(values);
            Decode(p + rest) == [ByteOf(bits, 0), ByteOf(bits, 1), ByteOf(bits, 2)] + Decode(rest)
  {
    hide IsLetter, IsBase64, Find, Triple, ByteOf, ValueBits, DecodeAll;
    LettersFound(p, values);
    PrefixAppend(p, rest);
    DecodeAppend(p, Prefix(rest), 255);
    OneGroup(p, 255);
    assert Decode(p + rest) == Triple(values[0], values[1], values[2], values[3]) + Decode(rest);
    GroupBits(values);
  }

  lemma OneGroup(p: seq<bv8>, fill: bv8)
    requires |p| == 4
    ensures DecodeAll(p, fill) == Triple(Find(p[0]), Find(p[1]), Find(p[2]), Find(p[3]))
  {
    hide Triple, Find;
    assert p[4..] == [];
    assert DecodeAll(p[4..], fill) == [];
  }

  lemma GroupBits(values: seq<bv8>)
    requires |values| == 4 && forall j :: 0 <= j < 4 ==> values[j] < 64
    ensures Triple(values[0], values[1], values[2], values[3])
         == [ByteOf(ValueBits(values), 0), ByteOf(ValueBits(values), 1), ByteOf(ValueBits(values), 2)]
  {
    hide Triple, ByteOf;
    TripleBits(values[0], values[1], values[2], values[3]);
  }

  /** Of fewer characters before the end, as many bytes come out as they have full ones. */
  lemma DecodedTail(p: seq<bv8>, values: seq<bv8>, rest: seq<bv8>)
    requires |p| < 4 && AreLetters(p, values)
    requires rest == [] || forall v :: !IsLetter(rest[0], v)
    ensures var bits := ValueBits(values);
            Decode(p + rest) == if |p| < 2 then [] else if |p| == 2 then [ByteOf(bits, 0)] else [ByteOf(bits, 0), ByteOf(bits, 1)]
  {
    hide IsLetter, IsBase64, Find, DecodeAll, ByteOf, ValueBits;
    LettersFound(p, values);
    if rest != [] {
      NoLetterStops(rest[0]);
    }
    PrefixAppend(p, rest);
    assert Prefix(rest) == [];
    assert p + [] == p;
    FillIsIrrelevant(p, 255, 0);
    TailBytes(p, values);
  }

  lemma TailBytes(p: seq<bv8>, values: seq<bv8>)
    requires |p| == |values| < 4 && forall j :: 0 <= j < |p| ==> Find(p[j]) == values[j] && values[j] < 64
    ensures DecodeAll(p, 0)
         == if |p| < 2 then [] else if |p| == 2 then [ByteOf(ValueBits(values), 0)]
            else [ByteOf(ValueBits(values), 0), ByteOf(ValueBits(values), 1)]
  {
    hide Find, Triple, ByteOf;
    if 2 <= |p| {
      var r := if |p| == 3 then values[2] else 0;
      TripleBits(values[0], values[1], r, 0);
    }
  }
}
