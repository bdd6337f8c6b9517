/**
 The metadata header: eight integers printed in decimal, padded with NUL bytes to
 1024, and scanned back.
 */
module Metadata {
  import opened Bytes

  datatype Option<+T> = None | Some(value: T)

  const META_SIZE: nat := 1024
  const FIELDS: nat := 8
  const SPACE: bv8 := 0x20
  const NEWLINE: bv8 := 0x0a
  const MINUS: bv8 := 0x2d
  const PLUS: bv8 := 0x2b

  /** What follows each field in the three lines that are printed. */
  const SEPARATORS: seq<bv8> := [SPACE, SPACE, NEWLINE, SPACE, SPACE, SPACE, NEWLINE, NEWLINE]

  // ----- Printing -----

  function Digit(d: nat): bv8
    requires d < 10
  {
    ToByte(0x30 + d)
  }

  function PrintNat(n: nat): (s: seq<bv8>)
    ensures s != []
  {
    if n < 10 then [Digit(n)] else PrintNat(n / 10) + [Digit(n % 10)]
  }

  /** %d */
  function PrintInt(n: int): seq<bv8> {
    if n < 0 then [MINUS] + PrintNat(-n) else PrintNat(n)
  }

  function PrintFields(fields: seq<int>, separators: seq<bv8>): seq<bv8>
    requires |fields| == |separators|
  {
    if fields == [] then []
    else PrintInt(fields[0]) + [separators[0]] + PrintFields(fields[1..], separators[1..])
  }

  function PrintMeta(fields: seq<int>): seq<bv8>
    requires |fields| == FIELDS
  {
    PrintFields(fields, SEPARATORS)
  }

  // ----- Scanning -----

  predicate IsSpace(b: bv8) {
    Value(b) == 0x20 || 0x09 <= Value(b) <= 0x0d
  }

  predicate IsDigit(b: bv8) {
    0x30 <= Value(b) <= 0x39
  }

  function DigitValue(b: bv8): nat
    requires IsDigit(b)
  {
    Value(b) - 0x30
  }

  function SkipSpaces(s: seq<bv8>): (t: seq<bv8>)
    ensures |t| <= |s|
  {
    if s != [] && IsSpace(s[0]) then SkipSpaces(s[1..]) else s
  }

  /** Reads the longest run of digits, and returns the value and what follows. */
  function ScanDigits(s: seq<bv8>, acc: nat): (nat, seq<bv8>) {
    if s != [] && IsDigit(s[0]) then ScanDigits(s[1..], 10 * acc + DigitValue(s[0])) else (acc, s)
  }

  function ScanNat(s: seq<bv8>): Option<(nat, seq<bv8>)> {
    if s != [] && IsDigit(s[0]) then Some(ScanDigits(s, 0)) else None
  }

  /** %d: optional white space, an optional sign, at least one digit. */
  function ScanInt(s: seq<bv8>): Option<(int, seq<bv8>)> {
    var t := SkipSpaces(s);
    if t != [] && t[0] == MINUS then
      match ScanNat(t[1..])
      case None => None
      case Some((n, rest)) => Some((-(n as int), rest))
    else
      match ScanNat(if t != [] && t[0] == PLUS then t[1..] else t)
      case None => None
      case Some((n, rest)) => Some((n, rest))
  }

  /** count conversions in a row; white space in the format only skips white space. */
  function ScanFields(s: seq<bv8>, count: nat): Option<seq<int>>
    decreases count
  {
    if count == 0 then Some([])
    else
      match ScanInt(s)
      case None => None
      case Some((n, rest)) =>
        match ScanFields(rest, count - 1)
        case None => None
        case Some(fields) => Some([n] + fields)
  }

  function ScanMeta(s: seq<bv8>): (fields: Option<seq<int>>) {
    ScanFields(s, FIELDS)
  }

  // ----- Scanning undoes printing -----

  /** Characters of a number's sign and of the separators, as numbers. */
  lemma CharacterCodes()
    ensures Value(MINUS) == 0x2d && Value(PLUS) == 0x2b && Value(SPACE) == 0x20 && Value(NEWLINE) == 0x0a
    ensures Value(0) == 0
  {}

  lemma DigitBack(d: nat)
    requires d < 10
    ensures IsDigit(Digit(d)) && DigitValue(Digit(d)) == d
  {
    hide ToByte, Value;
    ByteRoundTrip(0x30 + d);
  }

  lemma DigitIsNoOther(b: bv8)
    requires IsDigit(b)
    ensures !IsSpace(b) && b != MINUS && b != PLUS
  {
    hide Value;
    CharacterCodes();
  }

  /** acc with the decimal digits of n behind it. */
  function WithDigits(acc: nat, n: nat): nat {
    if n < 10 then 10 * acc + n else 10 * WithDigits(acc, n / 10) + n % 10
  }

  lemma {:induction false} WithDigitsOfNothing(n: nat)
    ensures WithDigits(0, n) == n
    decreases n
  {
    if n >= 10 {
      WithDigitsOfNothing(n / 10);
    }
  }

  /** Scanning a printed number continues after it, with its digits behind those already read. */
  lemma {:induction false} ScanPrintedNat(n: nat, tail: seq<bv8>, acc: nat)
    ensures ScanDigits(PrintNat(n) + tail, acc) == ScanDigits(tail, WithDigits(acc, n))
    decreases n
  {
    hide Digit, IsDigit, DigitValue;
    var r := n % 10;
    DigitBack(r);
    var rest := [Digit(r)] + tail;
    assert rest[1..] == tail;
    if n < 10 {
      assert PrintNat(n) + tail == rest;
    } else {
      assert PrintNat(n) + tail == PrintNat(n / 10) + rest;
      ScanPrintedNat(n / 10, rest, acc);
    }
  }

  lemma {:induction false} PrintedStart(n: nat, tail: seq<bv8>)
    ensures (PrintNat(n) + tail)[0] == PrintNat(n)[0] && IsDigit(PrintNat(n)[0])
    decreases n
  {
    hide Digit, IsDigit;
    DigitBack(n % 10);
    if n >= 10 {
      PrintedStart(n / 10, tail);
    }
  }

  lemma ScanPrintedInt(n: int, tail: seq<bv8>)
    requires tail != [] && !IsDigit(tail[0])
    ensures ScanInt(PrintInt(n) + tail) == Some((n, tail))
  {
    hide IsDigit, IsSpace, PrintNat, ScanDigits, WithDigits;
    var m: nat := if n < 0 then -n else n;
    var s := PrintNat(m) + tail;
    PrintedStart(m, tail);
    DigitIsNoOther(s[0]);
    ScanPrintedNat(m, tail, 0);
    WithDigitsOfNothing(m);
    ScanStops(tail, m);
    assert ScanNat(s) == Some((m, tail));
    if n < 0 {
      MinusIsNoSpace();
      assert (PrintInt(n) + tail)[1..] == s;
    }
  }

  lemma ScanStops(tail: seq<bv8>, m: nat)
    requires tail != [] && !IsDigit(tail[0])
    ensures ScanDigits(tail, m) == (m, tail)
  {}

  lemma MinusIsNoSpace()
    ensures !IsSpace(MINUS)
  {
    hide Value;
    CharacterCodes();
  }

  /** Leading white space makes no difference to a conversion. */
  lemma ScanIntSkips(separator: bv8, s: seq<bv8>)
    requires IsSpace(separator)
    ensures ScanInt([separator] + s) == ScanInt(s)
  {
    hide IsSpace;
    assert ([separator] + s)[1..] == s;
  }

  ghost predicate AllSpaces(separators: seq<bv8>) {
    forall i :: 0 <= i < |separators| ==> IsSpace(separators[i]) && !IsDigit(separators[i])
  }

  lemma {:induction false} ScanPrintedFields(fields: seq<int>, separators: seq<bv8>, tail: seq<bv8>, before: seq<bv8>)
    requires |fields| == |separators| && AllSpaces(separators)
    requires |before| <= 1 && AllSpaces(before)
    ensures ScanFields(before + (PrintFields(fields, separators) + tail), |fields|) == Some(fields)
    decreases |fields|
  {
    hide IsDigit, IsSpace, ScanInt, PrintInt;
    if fields != [] {
      var s := PrintFields(fields[1..], separators[1..]) + tail;
      var rest := [separators[0]] + s;
      var text := PrintFields(fields, separators) + tail;
      assert text == PrintInt(fields[0]) + rest;
      ScanPrintedInt(fields[0], rest);
      if before != [] {
        assert before == [before[0]];
        ScanIntSkips(before[0], text);
      } else {
        assert before + text == text;
      }
      ScanPrintedFields(fields[1..], separators[1..], tail, [separators[0]]);
      assert fields == [fields[0]] + fields[1..];
    }
  }

  lemma SeparatorsAreSpaces()
    ensures AllSpaces(SEPARATORS)
  {
    hide Value;
    CharacterCodes();
  }

  /** Scanning the printed metadata gives the eight integers back, whatever follows. */
  lemma ScanPrinted(fields: seq<int>, tail: seq<bv8>)
    requires |fields| == FIELDS
    ensures ScanMeta(PrintMeta(fields) + tail) == Some(fields)
  {
    hide AllSpaces, PrintFields, ScanFields;
    SeparatorsAreSpaces();
    assert AllSpaces([]) by { NoSpaces(); }
    ScanPrintedFields(fields, SEPARATORS, tail, []);
    assert [] + (PrintMeta(fields) + tail) == PrintMeta(fields) + tail;
  }

  lemma NoSpaces()
    ensures AllSpaces([])
  {}

  // ----- The characters -----

  /** The value of decimal digits. */
  function Decimal(digits: seq<bv8>): int {
    if digits == [] then 0 else 10 * Decimal(digits[..|digits| - 1]) + (digits[|digits| - 1] as int - 0x30)
  }

  ghost predicate AllDigits(digits: seq<bv8>) {
    forall i :: 0 <= i < |digits| ==> 0x30 <= digits[i] <= 0x39
  }

  ghost predicate AllBlank(s: seq<bv8>) {
    forall i :: 0 <= i < |s| ==> s[i] == 0x20 || 0x09 <= s[i] <= 0x0d
  }

  /** A number is printed as the decimal digits of its value, without a leading zero. */
  lemma {:induction false} PrintedDecimal(n: nat)
    ensures var s := PrintNat(n);
            AllDigits(s) && Decimal(s) == n && (|s| == 1 || s[0] != 0x30)
    decreases n
  {
    hide Digit;
    DigitCode(n % 10);
    assert PrintNat(n)[..|PrintNat(n)| - 1] == if n < 10 then [] else PrintNat(n / 10);
    if n >= 10 {
      PrintedDecimal(n / 10);
      DigitCode(n / 10 % 10);
      assert PrintNat(n)[0] == PrintNat(n / 10)[0];
    }
  }

  lemma DigitCode(d: nat)
    requires d < 10
    ensures Digit(d) as int == 0x30 + d && 0x30 <= Digit(d) <= 0x39
    ensures Digit(d) == 0x30 <==> d == 0
  {
    CastRoundTrip(0x30 + d);
    CodeOrder(Digit(d));
  }

  lemma CodeOrder(b: bv8)
    requires 0x30 <= b as int <= 0x39
    ensures 0x30 <= b <= 0x39 && (b == 0x30 <==> b as int == 0x30)
  {}

  /** 10 is printed as the characters 1 and 0. */
  lemma PrintedTen()
    ensures PrintInt(10) == [0x31, 0x30] && PrintInt(-10) == [0x2d, 0x31, 0x30]
  {
    hide Digit, PrintNat;
    DigitCode(0);
    DigitCode(1);
    assert Digit(0) == 0x30 && Digit(1) == 0x31 by {
      CodeIs(Digit(1));
    }
    assert PrintNat(1) == [Digit(1)] && PrintNat(10) == PrintNat(1) + [Digit(0)] by {
      PrintedSteps();
    }
  }

  lemma CodeIs(b: bv8)
    requires b as int == 0x31
    ensures b == 0x31
  {}

  lemma PrintedSteps()
    ensures PrintNat(1) == [Digit(1)] && PrintNat(10) == PrintNat(1) + [Digit(0)]
  {
    hide Digit;
  }

  lemma PrintStep(x: int, separator: bv8, fields: seq<int>, separators: seq<bv8>)
    requires |fields| == |separators|
    ensures PrintFields([x] + fields, [separator] + separators) == PrintInt(x) + [separator] + PrintFields(fields, separators)
  {
    assert ([x] + fields)[1..] == fields && ([separator] + separators)[1..] == separators;
  }

  /** The three lines: single blanks between the numbers, and a newline behind each line. */
  lemma MetaLines(a: int, b: int, c: int, k: int, m: int, w: int, buffersize: int, readins: int)
    ensures PrintMeta([a, b, c, k, m, w, buffersize, readins])
         == PrintInt(a) + [0x20] + (PrintInt(b) + [0x20] + (PrintInt(c) + [0x0a]
            + (PrintInt(k) + [0x20] + (PrintInt(m) + [0x20] + (PrintInt(w) + [0x20] + (PrintInt(buffersize) + [0x0a]
            + (PrintInt(readins) + [0x0a])))))))
  {
    hide PrintInt, PrintFields;
    var n8: seq<int>, s8: seq<bv8> := [], [];
    PrintStep(readins, 0x0a, n8, s8);
    var n7, s7 := [readins] + n8, [0x0a] + s8;
    PrintStep(buffersize, 0x0a, n7, s7);
    var n6, s6 := [buffersize] + n7, [0x0a] + s7;
    PrintStep(w, 0x20, n6, s6);
    var n5, s5 := [w] + n6, [0x20] + s6;
    PrintStep(m, 0x20, n5, s5);
    var n4, s4 := [m] + n5, [0x20] + s5;
    PrintStep(k, 0x20, n4, s4);
    var n3, s3 := [k] + n4, [0x20] + s4;
    PrintStep(c, 0x0a, n3, s3);
    var n2, s2 := [c] + n3, [0x0a] + s3;
    PrintStep(b, 0x20, n2, s2);
    var n1, s1 := [b] + n2, [0x20] + s2;
    PrintStep(a, 0x20, n1, s1);
    var n0, s0 := [a] + n1, [0x20] + s1;
    assert n0 == [a, b, c, k, m, w, buffersize, readins] && s0 == SEPARATORS;
    NothingPrinted();
    assert PrintInt(readins) + [0x0a] + [] == PrintInt(readins) + [0x0a];
  }

  lemma NothingPrinted()
    ensures PrintFields([], []) == []
  {}

  // ----- Scanning any text -----

  lemma CharacterClasses(b: bv8)
    ensures IsDigit(b) <==> 0x30 <= b <= 0x39
    ensures IsSpace(b) <==> b == 0x20 || 0x09 <= b <= 0x0d
  {}

  lemma {:induction false} ScanRun(before: seq<bv8>, digits: seq<bv8>, tail: seq<bv8>, acc: nat)
    requires AllDigits(digits) && (tail == [] || !(0x30 <= tail[0] <= 0x39)) && acc == Decimal(before)
    ensures ScanDigits(digits + tail, acc) == (Decimal(before + digits), tail)
    decreases |digits|
  {
    hide IsDigit, DigitValue;
    if digits == [] {
      assert digits + tail == tail && before + digits == before;
      if tail != [] {
        CharacterClasses(tail[0]);
      }
    } else {
      var d := digits[0];
      CharacterClasses(d);
      DigitIs(d);
      assert (digits + tail)[1..] == digits[1..] + tail;
      assert (before + [d])[..|before|] == before;
      assert before + digits == (before + [d]) + digits[1..];
      ScanRun(before + [d], digits[1..], tail, 10 * acc + DigitValue(d));
    }
  }

  lemma DigitIs(d: bv8)
    requires IsDigit(d)
    ensures DigitValue(d) == d as int - 0x30
  {}

  lemma {:induction false} SkipBlank(blank: seq<bv8>, s: seq<bv8>)
    requires AllBlank(blank) && (s == [] || !(s[0] == 0x20 || 0x09 <= s[0] <= 0x0d))
    ensures SkipSpaces(blank + s) == s
  {
    hide IsSpace;
    if blank == [] {
      assert blank + s == s;
      if s != [] {
        CharacterClasses(s[0]);
      }
    } else {
      CharacterClasses(blank[0]);
      assert (blank + s)[1..] == blank[1..] + s;
      SkipBlank(blank[1..], s);
    }
  }

  /** White space, a sign or none, and all the digits that follow. */
  lemma ScanNumber(blank: seq<bv8>, sign: seq<bv8>, digits: seq<bv8>, tail: seq<bv8>)
    requires AllBlank(blank) && (sign == [] || sign == [0x2b] || sign == [0x2d])
    requires AllDigits(digits) && digits != [] && (tail == [] || !(0x30 <= tail[0] <= 0x39))
    ensures ScanInt(blank + (sign + (digits + tail)))
         == Some((if sign == [0x2d] then -Decimal(digits) else Decimal(digits), tail))
  {
    hide ScanDigits, SkipSpaces, IsDigit, IsSpace;
    var s := sign + (digits + tail);
    SkipBlank(blank, s);
    CharacterClasses(digits[0]);
    ScanRun([], digits, tail, 0);
    assert [] + digits == digits;
    if sign != [] {
      assert s[1..] == digits + tail;
    } else {
      assert s == digits + tail;
    }
  }

  /** Without a digit behind white space and sign there is no number. */
  lemma ScanNoNumber(blank: seq<bv8>, sign: seq<bv8>, tail: seq<bv8>)
    requires AllBlank(blank) && (sign == [] || sign == [0x2b] || sign == [0x2d])
    requires tail == [] || !(0x30 <= tail[0] <= 0x39 || tail[0] == 0x20 || 0x09 <= tail[0] <= 0x0d)
    requires sign == [] && tail != [] ==> tail[0] != 0x2b && tail[0] != 0x2d
    ensures ScanInt(blank + (sign + tail)) == None
  {
    hide ScanDigits, SkipSpaces, IsDigit, IsSpace;
    var s := sign + tail;
    SkipBlank(blank, s);
    if tail != [] {
      CharacterClasses(tail[0]);
    }
    if sign != [] {
      assert s[1..] == tail;
    } else {
      assert s == tail;
    }
  }

  // ----- Size -----

  function Power10(n: nat): nat {
    if n == 0 then 1 else 10 * Power10(n - 1)
  }

  lemma {:induction false} PrintedLength(n: nat, digits: nat)
    requires 1 <= digits && n < Power10(digits)
    ensures |PrintNat(n)| <= digits
    decreases digits
  {
    if n >= 10 {
      assert Power10(1) == 10;
      PrintedLength(n / 10, digits - 1);
    }
  }

  lemma {:induction false} FieldsLength(fields: seq<int>, separators: seq<bv8>)
    requires |fields| == |separators|
    requires forall i :: 0 <= i < |fields| ==> 0 <= fields[i] < 0x8000_0000
    ensures |PrintFields(fields, separators)| <= 11 * |fields|
    decreases |fields|
  {
    if fields != [] {
      TenDigits();
      PrintedLength(fields[0], 10);
      FieldsLength(fields[1..], separators[1..]);
    }
  }

  lemma TenDigits()
    ensures Power10(10) == 10_000_000_000
  {
    assert Power10(3) == 1000;
    assert Power10(6) == 1_000_000;
    assert Power10(9) == 1_000_000_000;
  }

  /** Eight nonnegative 32-bit integers print to at most 88 bytes. */
  lemma MetaLength(fields: seq<int>)
    requires |fields| == FIELDS
    requires forall i :: 0 <= i < |fields| ==> 0 <= fields[i] < 0x8000_0000
    ensures |PrintMeta(fields)| <= 88
  {
    FieldsLength(fields, SEPARATORS);
  }

  /** The text and NUL bytes up to 1024. */
  method BuildMeta(fields: seq<int>) returns (buf: seq<bv8>)
    requires |fields| == FIELDS
    requires forall i :: 0 <= i < |fields| ==> 0 <= fields[i] < 0x8000_0000
    ensures |buf| == META_SIZE && |PrintMeta(fields)| <= 88
    ensures buf == PrintMeta(fields) + Zeros(META_SIZE - |PrintMeta(fields)|)
  {
    MetaLength(fields);
    buf := PrintMeta(fields);
    ghost var text := buf;
    while |buf| != META_SIZE
      invariant |text| <= |buf| <= META_SIZE && buf == text + Zeros(|buf| - |text|)
      decreases META_SIZE - |buf|
    {
      buf := buf + [0];
    }
  }
}
