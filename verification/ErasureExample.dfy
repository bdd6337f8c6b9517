/**
 The hypotheses of ErasureCode are satisfiable, for every k <= m <= 255: the code over
 GF(2^8) whose coding block i is the data polynomial's value at i + 1 meets them.
 */
module ErasureExample {
  import opened Bytes
  import opened GF256
  import opened Lists
  import opened Polynomials
  import opened ErasureCode

  function Coefficient(f: bv32): bv8 {
    (f & 0xff) as bv8
  }

  function Multiply(f: bv32, b: Block): (c: Block)
    ensures |c| == |b| && forall t :: 0 <= t < |c| ==> c[t] == Mul(Coefficient(f), b[t])
  {
    seq(|b|, t requires 0 <= t < |b| => Mul(Coefficient(f), b[t]))
  }

  /** The point of coding block i. */
  function Point(i: nat): bv8 {
    ToByte(i + 1)
  }

  function Vandermonde(k: nat, m: nat, i: nat, j: nat): bv32 {
    Pow(Point(i), j) as bv32
  }

  const FieldCode: Coding := Coding(Multiply, Vandermonde)

  ghost function ChooseDecoding(k: nat, m: nat, erasures: seq<int>, coding: seq<Block>, size: nat): (int, seq<Block>) {
    FieldTimes();
    if |erasures| <= m && Blocks(coding, m, size) && Decodable(FieldCode, k, m, erasures, coding, size) then
      var data :| Blocks(data, k, size) && Survivors(FieldCode, k, m, erasures, coding, data, size);
      (0, data)
    else
      (-1, seq(k, i => Zeros(size)))
  }

  lemma CoefficientOfByte(x: bv8)
    ensures Coefficient(x as bv32) == x
  {}

  lemma FieldTimes()
    ensures TimesContract(FieldCode)
  {
    hide Mul;
    forall b ensures Times(FieldCode, 1, b) == b {
      assert Coefficient(1) == 1;
      forall t | 0 <= t < |b| ensures Mul(1, b[t]) == b[t] {
        MulOne(b[t]);
      }
    }
    forall f, n: nat ensures Times(FieldCode, f, Zeros(n)) == Zeros(n) {
      MulZero(Coefficient(f));
    }
  }

  /** The bytes at position t of all data blocks. */
  function Column(data: seq<Block>, t: nat): (p: Poly)
    requires forall j :: 0 <= j < |data| ==> t < |data[j]|
    ensures |p| == |data| && forall j :: 0 <= j < |p| ==> p[j] == data[j][t]
  {
    seq(|data|, j requires 0 <= j < |data| => data[j][t])
  }

  lemma CodingStep(acc: Block, k: nat, m: nat, i: nat, j: nat, b: Block, t: nat)
    requires |acc| == |b| && t < |b|
    ensures XorBlock(acc, Multiply(Vandermonde(k, m, i, j), b))[t] == Add(acc[t], Mul(Pow(Point(i), j), b[t]))
  {
    hide Mul, Pow, Point;
    CoefficientOfByte(Pow(Point(i), j));
  }

  lemma {:induction false} CodingIsEvaluation(k: nat, m: nat, i: nat, data: seq<Block>, size: nat, n: nat, t: nat)
    requires TimesContract(FieldCode) && Blocks(data, k, size) && n <= k && t < size
    ensures PartialCoding(FieldCode, k, m, i, data, size, n)[t] == Eval(Column(data, t)[..n], Point(i))
  {
    hide Mul, Add, Pow, Eval, Point, XorBlock, Multiply, Vandermonde, TimesContract;
    if n == 0 {
      EvalZeros(0, Point(i));
      assert Column(data, t)[..0] == Zeros(0);
    } else {
      CodingIsEvaluation(k, m, i, data, size, n - 1, t);
      CodingStep(PartialCoding(FieldCode, k, m, i, data, size, n - 1), k, m, i, n - 1, data[n - 1], t);
      EvalAppend(Column(data, t)[..n - 1], data[n - 1][t], Point(i));
      assert Column(data, t)[..n] == Column(data, t)[..n - 1] + [data[n - 1][t]];
    }
  }

  lemma PointsDistinct(i: nat, j: nat)
    requires i < 255 && j < 255 && Point(i) == Point(j)
    ensures i == j
  {
    ToByteInjective(i + 1, j + 1);
  }

  lemma SameValue(k: nat, m: nat, i: nat, data: seq<Block>, other: seq<Block>, size: nat, t: nat)
    requires TimesContract(FieldCode) && t < size
    requires Blocks(data, k, size) && Blocks(other, k, size)
    requires CodingBlock(FieldCode, k, m, i, data, size) == CodingBlock(FieldCode, k, m, i, other, size)
    ensures Eval(Column(data, t), Point(i)) == Eval(Column(other, t), Point(i))
  {
    hide Eval, Point, PartialCoding, TimesContract;
    CodingIsEvaluation(k, m, i, data, size, k, t);
    CodingIsEvaluation(k, m, i, other, size, k, t);
    assert Column(data, t)[..k] == Column(data, t) && Column(other, t)[..k] == Column(other, t);
  }

  lemma FieldRowsDetermine(k: nat, m: nat, rows: seq<nat>, data: seq<Block>, other: seq<Block>, size: nat)
    requires TimesContract(FieldCode) && m <= 255
    requires |rows| == k && Distinct(rows) && (forall i :: 0 <= i < k ==> rows[i] < m)
    requires Blocks(data, k, size) && Blocks(other, k, size)
    requires AgreeOn(FieldCode, k, m, rows, data, other, size)
    ensures data == other
  {
    hide Eval, Point, CodingBlock, TimesContract;
    var xs := seq(k, i requires 0 <= i < k => Point(rows[i]));
    forall i, j | 0 <= i < j < k ensures xs[i] != xs[j] {
      if xs[i] == xs[j] {
        PointsDistinct(rows[i], rows[j]);
      }
    }
    forall t | 0 <= t < size ensures Column(data, t) == Column(other, t) {
      forall i | 0 <= i < k ensures Eval(Column(data, t), xs[i]) == Eval(Column(other, t), xs[i]) {
        SameValue(k, m, rows[i], data, other, size, t);
      }
      AgreeEqual(Column(data, t), Column(other, t), xs);
    }
    ColumnsExtensional(data, other, k, size);
  }

  lemma ColumnsExtensional(data: seq<Block>, other: seq<Block>, k: nat, size: nat)
    requires Blocks(data, k, size) && Blocks(other, k, size)
    requires forall t :: 0 <= t < size ==> Column(data, t) == Column(other, t)
    ensures data == other
  {
    forall j | 0 <= j < k ensures data[j] == other[j] {
      forall t | 0 <= t < size ensures data[j][t] == other[j][t] {
        assert Column(data, t)[j] == Column(other, t)[j];
      }
    }
  }

  /** The code over the field, which fails when nothing explains the surviving blocks. */
  ghost function FieldCodec(): Codec {
    Codec(FieldCode, ChooseDecoding)
  }

  lemma FieldCodecIs()
    ensures FieldCodec().coding == FieldCode
  {}

  lemma Unexplained(k: nat, m: nat, erasures: seq<int>, coding: seq<Block>, size: nat)
    requires Blocks(coding, m, size) && TimesContract(FieldCode) && !Decodable(FieldCode, k, m, erasures, coding, size)
    ensures FieldCodec().decode(k, m, erasures, coding, size).0 == -1
  {}

  /** This library meets the contract, whatever the numbers of data and coding blocks. */
  lemma ContractSatisfiable(k: nat, m: nat)
    requires k <= m <= 255
    ensures CodecContract(FieldCodec(), k, m)
  {
    FieldTimes();
    var codec := FieldCodec();
    assert FirstColumnOnes(FieldCode, k, m);
    assert AnyRowsDetermine(FieldCode, k, m) by {
      forall rows: seq<nat>, data, other, size: nat |
        && |rows| == k && Distinct(rows) && (forall i :: 0 <= i < k ==> rows[i] < m)
        && size % WORD == 0 && Blocks(data, k, size) && Blocks(other, k, size)
        && AgreeOn(FieldCode, k, m, rows, data, other, size)
        ensures data == other
      {
        FieldRowsDetermine(k, m, rows, data, other, size);
      }
    }
    assert DecodeContract(codec, k, m);
    assert CodecContract(codec, k, m);
  }
}
