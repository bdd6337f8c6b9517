/**
 The Base64 encoder and decoder (section 4 of RFC 4648), with their carried state: up to
 three bytes or four characters wait in a small array until a group is full.
 */
module Base64 {

  const PAD: bv8 := 0x3d

  // ----- The alphabet -----

  /** base64_chars[v]: A-Z, a-z, 0-9, + and /. */
  function CharAt(v: bv8): bv8
    requires v < 64
  {
    if v < 26 then v + 0x41 else if v < 52 then v + 0x47 else if v < 62 then v - 4 else if v == 62 then 0x2b else 0x2f
  }

  predicate IsBase64(c: bv8) {
    0x41 <= c <= 0x5a || 0x61 <= c <= 0x7a || 0x30 <= c <= 0x39 || c == 0x2b || c == 0x2f
  }

  /** base64_chars.find(c), as a byte: a failed lookup is npos, which becomes 255. */
  function Find(c: bv8): bv8 {
    if 0x41 <= c <= 0x5a then c - 0x41
    else if 0x61 <= c <= 0x7a then c - 0x47
    else if 0x30 <= c <= 0x39 then c + 4
    else if c == 0x2b then 62
    else if c == 0x2f then 63
    else 255
  }

  // ----- Groups -----

  function Sextet0(a: bv8): bv8 { (a & 0xfc) >> 2 }
  function Sextet1(a: bv8, b: bv8): bv8 { ((a & 0x03) << 4) + ((b & 0xf0) >> 4) }
  function Sextet2(b: bv8, c: bv8): bv8 { ((b & 0x0f) << 2) + ((c & 0xc0) >> 6) }
  function Sextet3(c: bv8): bv8 { c & 0x3f }

  function Byte0(p: bv8, q: bv8): bv8 { (p << 2) + ((q & 0x30) >> 4) }
  function Byte1(q: bv8, r: bv8): bv8 { ((q & 0x0f) << 4) + ((r & 0x3c) >> 2) }
  function Byte2(r: bv8, s: bv8): bv8 { ((r & 0x03) << 6) + s }

  lemma SextetsSmall(a: bv8, b: bv8, c: bv8)
    ensures Sextet0(a) < 64 && Sextet1(a, b) < 64 && Sextet2(b, c) < 64 && Sextet3(c) < 64
  {}

  /** The four sextets are the 24 bits of the three bytes, in order. */
  lemma GroupIsBits(a: bv8, b: bv8, c: bv8)
    ensures ((a as bv24) << 16) | ((b as bv24) << 8) | (c as bv24)
         == ((Sextet0(a) as bv24) << 18) | ((Sextet1(a, b) as bv24) << 12) | ((Sextet2(b, c) as bv24) << 6) | (Sextet3(c) as bv24)
  {}

  function Quad(a: bv8, b: bv8, c: bv8): (q: seq<bv8>)
    ensures |q| == 4
  {
    SextetsSmall(a, b, c);
    [CharAt(Sextet0(a)), CharAt(Sextet1(a, b)), CharAt(Sextet2(b, c)), CharAt(Sextet3(c))]
  }

  function Triple(p: bv8, q: bv8, r: bv8, s: bv8): (t: seq<bv8>)
    ensures |t| == 3
  {
    [Byte0(p, q), Byte1(q, r), Byte2(r, s)]
  }

  // ----- Specification -----

  function Encode(s: seq<bv8>): seq<bv8> {
    if s == [] then []
    else if |s| == 1 then Quad(s[0], 0, 0)[..2] + [PAD, PAD]
    else if |s| == 2 then Quad(s[0], s[1], 0)[..3] + [PAD]
    else Quad(s[0], s[1], s[2]) + Encode(s[3..])
  }

  /** The characters before the first one outside the alphabet. */
  function Prefix(s: seq<bv8>): seq<bv8> {
    if s == [] || !IsBase64(s[0]) then [] else [s[0]] + Prefix(s[1..])
  }

  /** Decodes characters of the alphabet; fill stands for the positions missing from the last group. */
  function DecodeAll(p: seq<bv8>, fill: bv8): seq<bv8> {
    if p == [] then []
    else if 4 <= |p| then Triple(Find(p[0]), Find(p[1]), Find(p[2]), Find(p[3])) + DecodeAll(p[4..], fill)
    else
      var q := if 2 <= |p| then Find(p[1]) else fill;
      var r := if 3 <= |p| then Find(p[2]) else fill;
      Triple(Find(p[0]), q, r, fill)[..|p| - 1]
  }

  function Decode(s: seq<bv8>): seq<bv8> {
    DecodeAll(Prefix(s), 255)
  }

  // ----- The round trip -----

  lemma CharRoundTrip(v: bv8)
    requires v < 64
    ensures IsBase64(CharAt(v)) && Find(CharAt(v)) == v && CharAt(v) != PAD
  {}

  lemma GroupRoundTrip(a: bv8, b: bv8, c: bv8)
    ensures Byte0(Sextet0(a), Sextet1(a, b)) == a
    ensures Byte1(Sextet1(a, b), Sextet2(b, c)) == b
    ensures Byte2(Sextet2(b, c), Sextet3(c)) == c
  {}

  lemma QuadFinds(a: bv8, b: bv8, c: bv8)
    ensures var q := Quad(a, b, c);
            && (forall i :: 0 <= i < 4 ==> IsBase64(q[i]))
            && Find(q[0]) == Sextet0(a) && Find(q[1]) == Sextet1(a, b)
            && Find(q[2]) == Sextet2(b, c) && Find(q[3]) == Sextet3(c)
  {
    hide CharAt, Find, IsBase64, Sextet0, Sextet1, Sextet2, Sextet3;
    SextetsSmall(a, b, c);
    CharRoundTrip(Sextet0(a));
    CharRoundTrip(Sextet1(a, b));
    CharRoundTrip(Sextet2(b, c));
    CharRoundTrip(Sextet3(c));
  }

  lemma {:induction false} PrefixAppend(p: seq<bv8>, s: seq<bv8>)
    requires forall i :: 0 <= i < |p| ==> IsBase64(p[i])
    ensures Prefix(p + s) == p + Prefix(s)
  {
    hide IsBase64;
    if p == [] {
      assert p + s == s;
    } else {
      assert (p + s)[1..] == p[1..] + s;
      PrefixAppend(p[1..], s);
    }
  }

  lemma PadStops(s: seq<bv8>)
    requires s != [] && s[0] == PAD
    ensures Prefix(s) == []
  {}

  /** Decoding undoes encoding, for every byte string. */
  lemma {:induction false} RoundTrip(s: seq<bv8>)
    ensures Decode(Encode(s)) == s
  {
    hide IsBase64, Find, Byte0, Byte1, Byte2, Sextet0, Sextet1, Sextet2, Sextet3, Quad;
    if s == [] {
    } else {
      var a := s[0];
      var b := if |s| >= 2 then s[1] else 0;
      var c := if |s| >= 3 then s[2] else 0;
      var q := Quad(a, b, c);
      QuadFinds(a, b, c);
      GroupRoundTrip(a, b, c);
      if |s| == 1 {
        PrefixAppend(q[..2], [PAD, PAD]);
        PadStops([PAD, PAD]);
        assert Prefix(Encode(s)) == q[..2];
      } else if |s| == 2 {
        PrefixAppend(q[..3], [PAD]);
        PadStops([PAD]);
        assert Prefix(Encode(s)) == q[..3];
      } else {
        RoundTrip(s[3..]);
        PrefixAppend(q, Encode(s[3..]));
        assert (q + Prefix(Encode(s[3..])))[4..] == Prefix(Encode(s[3..]));
        assert [a, b, c] + s[3..] == s;
      }
    }
  }

  /** Four characters for every group of three bytes, the last one padded. */
  lemma {:induction false} EncodedLength(s: seq<bv8>)
    ensures |Encode(s)| == 4 * ((|s| + 2) / 3)
  {
    hide Quad;
    if |s| >= 3 {
      EncodedLength(s[3..]);
    }
  }

  /** The decoder's result has floor(3p/4) bytes for p characters. */
  lemma {:induction false} DecodedLength(p: seq<bv8>, fill: bv8)
    ensures |DecodeAll(p, fill)| == 3 * |p| / 4
  {
    hide Triple, Find;
    if |p| >= 4 {
      DecodedLength(p[4..], fill);
    }
  }

  /** What failed lookups leave in the missing positions never reaches the result. */
  lemma {:induction false} FillIsIrrelevant(p: seq<bv8>, fill: bv8, other: bv8)
    ensures DecodeAll(p, fill) == DecodeAll(p, other)
  {
    hide Find, Byte0, Byte1, Byte2;
    if |p| >= 4 {
      FillIsIrrelevant(p[4..], fill, other);
    }
  }

  /** The longest prefix over the alphabet, and nothing behind it, decides the result. */
  lemma {:induction false} PrefixMaximal(s: seq<bv8>)
    ensures var p := Prefix(s);
            && p <= s && (forall i :: 0 <= i < |p| ==> IsBase64(p[i]))
            && (|p| < |s| ==> !IsBase64(s[|p|]))
  {
    hide IsBase64;
    if s != [] && IsBase64(s[0]) {
      PrefixMaximal(s[1..]);
    }
  }

  lemma DecodeByPrefix(s: seq<bv8>, t: seq<bv8>)
    requires Prefix(s) == Prefix(t)
    ensures Decode(s) == Decode(t) && |Decode(s)| == 3 * |Prefix(s)| / 4
  {
    DecodedLength(Prefix(s), 255);
  }

  // ----- The loops -----

  lemma {:induction false} EncodeAppend(s: seq<bv8>, t: seq<bv8>)
    requires |s| % 3 == 0
    ensures Encode(s + t) == Encode(s) + Encode(t)
  {
    hide Quad;
    if s == [] {
      assert s + t == t;
    } else {
      EncodeAppend(s[3..], t);
      assert (s + t)[3..] == s[3..] + t;
    }
  }

  lemma {:induction false} DecodeAppend(s: seq<bv8>, t: seq<bv8>, fill: bv8)
    requires |s| % 4 == 0
    ensures DecodeAll(s + t, fill) == DecodeAll(s, fill) + DecodeAll(t, fill)
  {
    hide Triple, Find;
    if s == [] {
      assert s + t == t;
    } else {
      DecodeAppend(s[4..], t, fill);
      assert (s + t)[4..] == s[4..] + t;
    }
  }

  /** char_array_4 from char_array_3. */
  method FillSextets(a4: array<bv8>, a3: array<bv8>)
    requires a4.Length == 4 && a3.Length == 3 && a4 != a3
    modifies a4
    ensures forall i :: 0 <= i < 4 ==> a4[i] < 64
    ensures [a4[0], a4[1], a4[2], a4[3]] == [Sextet0(a3[0]), Sextet1(a3[0], a3[1]), Sextet2(a3[1], a3[2]), Sextet3(a3[2])]
  {
    hide Sextet0, Sextet1, Sextet2, Sextet3;
    SextetsSmall(a3[0], a3[1], a3[2]);
    a4[0] := Sextet0(a3[0]);
    a4[1] := Sextet1(a3[0], a3[1]);
    a4[2] := Sextet2(a3[1], a3[2]);
    a4[3] := Sextet3(a3[2]);
  }

  /** The characters of the first n sextets of the group in a3. */
  method EncodeGroup(a3: array<bv8>, n: nat) returns (chars: seq<bv8>)
    requires a3.Length == 3 && n <= 4
    ensures chars == Quad(a3[0], a3[1], a3[2])[..n]
  {
    hide CharAt, Sextet0, Sextet1, Sextet2, Sextet3;
    var a4 := new bv8[4];
    FillSextets(a4, a3);
    ghost var q := Quad(a3[0], a3[1], a3[2]);
    chars := [];
    for j := 0 to n
      invariant chars == q[..j]
      invariant forall i :: 0 <= i < 4 ==> a4[i] < 64
      invariant [a4[0], a4[1], a4[2], a4[3]] == [Sextet0(a3[0]), Sextet1(a3[0], a3[1]), Sextet2(a3[1], a3[2]), Sextet3(a3[2])]
    {
      assert q[j] == CharAt(a4[j]);
      chars := chars + [CharAt(a4[j])];
    }
  }

  /** One more full group. */
  lemma {:induction false} EncodeMore(s: seq<bv8>, pos: nat)
    requires pos + 3 <= |s| && pos % 3 == 0
    ensures Encode(s[..pos + 3]) == Encode(s[..pos]) + Quad(s[pos], s[pos + 1], s[pos + 2])
  {
    hide Quad;
    var group := s[pos..pos + 3];
    assert s[..pos] + group == s[..pos + 3];
    EncodeAppend(s[..pos], group);
    assert group[3..] == [];
  }

  /** Pads the i bytes that wait in a3 with zero bytes, and their characters with '='. */
  method EncodeTail(a3: array<bv8>, count: nat) returns (chars: seq<bv8>)
    requires a3.Length == 3 && 1 <= count <= 2
    modifies a3
    ensures chars == Encode(old(a3[..count]))
  {
    hide Quad;
    ghost var tail := a3[..count];
    for j := count to 3
      invariant a3[..count] == tail
      invariant forall l :: count <= l < j ==> a3[l] == 0
    {
      a3[j] := 0;
    }
    assert forall l :: 0 <= l < count ==> a3[l] == tail[l];
    chars := EncodeGroup(a3, count + 1);
    var i := count;
    while i < 3
      invariant count <= i <= 3
      invariant chars == Quad(a3[0], a3[1], a3[2])[..count + 1] + [PAD, PAD][..i - count]
      decreases 3 - i
    {
      chars := chars + [PAD];
      i := i + 1;
    }
  }

  /** The state of the encoder after pos bytes, of which the last i still wait in a3. */
  ghost predicate Encoding(buf: seq<bv8>, pos: nat, i: nat, a3: seq<bv8>, ret: seq<bv8>) {
    && i <= pos <= |buf| && i < 3 <= |a3| && (pos - i) % 3 == 0
    && ret == Encode(buf[..pos - i])
    && a3[..i] == buf[pos - i..pos]
  }

  method EncodeBytes(buf: seq<bv8>) returns (ret: seq<bv8>)
    ensures ret == Encode(buf)
  {
    hide Encode;
    var a3 := new bv8[3];
    var i := 0;
    ret := [];
    EncodeNothing();
    for pos := 0 to |buf|
      invariant 0 <= i && Encoding(buf, pos, i, a3[..], ret)
    {
      i, ret := EncodeOne(buf, pos, a3, i, ret);
    }
    if i > 0 {
      EncodeLast(buf, i);
      assert a3[..i] == buf[|buf| - i..];
      var chars := EncodeTail(a3, i);
      ret := ret + chars;
    } else {
      assert buf[..|buf|] == buf;
    }
  }

  /** The body of the loop: takes one byte, and encodes the group when it is full. */
  method EncodeOne(buf: seq<bv8>, pos: nat, a3: array<bv8>, waiting: nat, encoded: seq<bv8>) returns (i: nat, ret: seq<bv8>)
    requires a3.Length == 3 && Encoding(buf, pos, waiting, a3[..], encoded) && pos < |buf|
    modifies a3
    ensures Encoding(buf, pos + 1, i, a3[..], ret)
  {
    hide Quad, Encode;
    i, ret := waiting, encoded;
    a3[i] := buf[pos];
    i := i + 1;
    assert a3[..i] == buf[pos + 1 - i..pos + 1];
    if i == 3 {
      assert forall l :: 0 <= l < 3 ==> a3[l] == buf[pos - 2..pos + 1][l];
      var chars := EncodeGroup(a3, 4);
      EncodeMore(buf, pos - 2);
      ret := ret + chars;
      i := 0;
    }
  }

  lemma {:induction false} EncodeLast(s: seq<bv8>, i: nat)
    requires i <= |s| && (|s| - i) % 3 == 0
    ensures Encode(s) == Encode(s[..|s| - i]) + Encode(s[|s| - i..])
  {
    hide Encode;
    assert s[..|s| - i] + s[|s| - i..] == s;
    EncodeAppend(s[..|s| - i], s[|s| - i..]);
  }

  lemma EncodeNothing()
    ensures Encode([]) == []
  {}

  /** Looks the four characters up in place, and gives the three bytes they stand for. */
  method DecodeGroup(a4: array<bv8>) returns (bytes: seq<bv8>)
    requires a4.Length == 4
    modifies a4
    ensures bytes == Triple(Find(old(a4[0])), Find(old(a4[1])), Find(old(a4[2])), Find(old(a4[3])))
  {
    hide Find, Byte0, Byte1, Byte2;
    for i := 0 to 4
      invariant forall j :: 0 <= j < i ==> a4[j] == Find(old(a4[j]))
      invariant forall j :: i <= j < 4 ==> a4[j] == old(a4[j])
    {
      a4[i] := Find(a4[i]);
    }
    bytes := [Byte0(a4[0], a4[1]), Byte1(a4[1], a4[2]), Byte2(a4[2], a4[3])];
  }

  /** One more full group. */
  lemma {:induction false} DecodeMore(s: seq<bv8>, pos: nat)
    requires pos + 4 <= |s| && pos % 4 == 0
    ensures DecodeAll(s[..pos + 4], 255)
         == DecodeAll(s[..pos], 255) + Triple(Find(s[pos]), Find(s[pos + 1]), Find(s[pos + 2]), Find(s[pos + 3]))
  {
    hide Triple, Find;
    var group := s[pos..pos + 4];
    assert s[..pos] + group == s[..pos + 4];
    DecodeAppend(s[..pos], group, 255);
    assert group[4..] == [];
  }

  /** Fills up the group in a4 with characters that no lookup finds, and keeps one byte less than characters. */
  method DecodeTail(a4: array<bv8>, count: nat) returns (bytes: seq<bv8>)
    requires a4.Length == 4 && 1 <= count <= 3
    modifies a4
    ensures bytes == DecodeAll(old(a4[..count]), 255)
  {
    hide Triple, Find;
    ghost var tail := a4[..count];
    for j := count to 4
      invariant a4[..count] == tail
      invariant forall l :: count <= l < j ==> a4[l] == 0
    {
      a4[j] := 0;
    }
    assert forall l :: 0 <= l < count ==> a4[l] == tail[l];
    FindNothing();
    var triple := DecodeGroup(a4);
    bytes := triple[..count - 1];
  }

  /** The loop stops at the end of the longest prefix over the alphabet. */
  lemma StopsAtPrefix(s: seq<bv8>, pos: nat)
    requires pos <= |s| && (forall j :: 0 <= j < pos ==> IsBase64(s[j]))
    requires pos == |s| || s[pos] == PAD || !IsBase64(s[pos])
    ensures Prefix(s) == s[..pos]
  {
    PadIsNoBase64();
    hide IsBase64;
    PrefixAppend(s[..pos], s[pos..]);
    assert s[..pos] + s[pos..] == s;
    assert Prefix(s[pos..]) == [];
  }

  /** The state of the decoder after pos characters, of which the last i still wait in a4. */
  ghost predicate Decoding(s: seq<bv8>, pos: nat, i: nat, a4: seq<bv8>, ret: seq<bv8>) {
    && i <= pos <= |s| && i < 4 <= |a4| && (pos - i) % 4 == 0
    && (forall j :: 0 <= j < pos ==> IsBase64(s[j]))
    && ret == DecodeAll(s[..pos - i], 255)
    && a4[..i] == s[pos - i..pos]
  }

  method DecodeString(s: seq<bv8>) returns (ret: seq<bv8>)
    ensures ret == Decode(s)
  {
    hide Find, IsBase64, DecodeAll, Prefix;
    var a4 := new bv8[4];
    var i := 0;
    var pos := 0;
    ret := [];
    DecodeNothing();
    while pos < |s| && s[pos] != PAD && IsBase64(s[pos])
      invariant 0 <= pos && 0 <= i && Decoding(s, pos, i, a4[..], ret)
      decreases |s| - pos
    {
      i, ret := DecodeOne(s, pos, a4, i, ret);
      pos := pos + 1;
    }
    StopsAtPrefix(s, pos);
    if i > 0 {
      DecodeLast(s[..pos], i);
      assert s[..pos][..pos - i] == s[..pos - i];
      assert a4[..i] == s[..pos][pos - i..];
      var bytes := DecodeTail(a4, i);
      ret := ret + bytes;
    }
  }

  /** The body of the loop: takes one character, and decodes the group when it is full. */
  method DecodeOne(s: seq<bv8>, pos: nat, a4: array<bv8>, waiting: nat, decoded: seq<bv8>) returns (i: nat, ret: seq<bv8>)
    requires a4.Length == 4 && Decoding(s, pos, waiting, a4[..], decoded)
    requires pos < |s| && IsBase64(s[pos])
    modifies a4
    ensures Decoding(s, pos + 1, i, a4[..], ret)
  {
    hide Triple, Find, IsBase64, DecodeAll;
    i, ret := waiting, decoded;
    a4[i] := s[pos];
    i := i + 1;
    assert a4[..i] == s[pos + 1 - i..pos + 1];
    if i == 4 {
      assert forall l :: 0 <= l < 4 ==> a4[l] == s[pos - 3..pos + 1][l];
      DecodeMore(s, pos - 3);
      var bytes := DecodeGroup(a4);
      ret := ret + bytes;
      i := 0;
    }
  }

  lemma {:induction false} DecodeLast(p: seq<bv8>, i: nat)
    requires i <= |p| && (|p| - i) % 4 == 0
    ensures DecodeAll(p, 255) == DecodeAll(p[..|p| - i], 255) + DecodeAll(p[|p| - i..], 255)
  {
    hide DecodeAll;
    assert p[..|p| - i] + p[|p| - i..] == p;
    DecodeAppend(p[..|p| - i], p[|p| - i..], 255);
  }

  lemma DecodeNothing()
    ensures DecodeAll([], 255) == []
  {}

  lemma PadIsNoBase64()
    ensures !IsBase64(PAD)
  {}

  lemma FindNothing()
    ensures Find(0) == 255
  {}
}
