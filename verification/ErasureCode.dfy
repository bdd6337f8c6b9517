/**
 What the erasure-coding library promises, as explicit hypotheses about its three
 entry points: region multiplication, the coding matrix, and decoding.
 */
module ErasureCode {
  import opened Bytes
  import opened Lists

  /**
   times multiplies a block by a matrix coefficient, and matrix(k, m, i, j) is the
   coefficient of data block j in coding block i.
   */
  datatype Coding = Coding(
    times: (bv32, Block) -> Block,
    matrix: (nat, nat, nat, nat) -> bv32)

  /**
   decode(k, m, erasures, coding blocks, size) returns the return code and the data
   blocks; all k data blocks are among the erasures.
   */
  datatype Codec = Codec(
    coding: Coding,
    decode: (nat, nat, seq<int>, seq<Block>, nat) -> (int, seq<Block>))

  function Times(c: Coding, f: bv32, b: Block): Block {
    c.times(f, b)
  }

  /** Multiplication keeps sizes, 1 is neutral, and zero blocks stay zero. */
  ghost predicate TimesContract(c: Coding) {
    && (forall f, b :: |Times(c, f, b)| == |b|)
    && (forall b :: Times(c, 1, b) == b)
    && (forall f, n :: Times(c, f, Zeros(n)) == Zeros(n))
  }

  /** The sum of the first n products of row i of the matrix with the data blocks. */
  function PartialCoding(c: Coding, k: nat, m: nat, i: nat, data: seq<Block>, size: nat, n: nat): (b: Block)
    requires TimesContract(c) && Blocks(data, k, size) && n <= k
    ensures |b| == size
  {
    if n == 0 then Zeros(size)
    else XorBlock(PartialCoding(c, k, m, i, data, size, n - 1),
                  Times(c, c.matrix(k, m, i, n - 1), data[n - 1]))
  }

  /** Coding block i, as jerasure_matrix_encode computes it. */
  function CodingBlock(c: Coding, k: nat, m: nat, i: nat, data: seq<Block>, size: nat): (b: Block)
    requires TimesContract(c) && Blocks(data, k, size)
    ensures |b| == size
  {
    PartialCoding(c, k, m, i, data, size, k)
  }

  function Encode(c: Coding, k: nat, m: nat, data: seq<Block>, size: nat): (coding: seq<Block>)
    requires TimesContract(c) && Blocks(data, k, size)
    ensures Blocks(coding, m, size)
    ensures forall i :: 0 <= i < m ==> coding[i] == CodingBlock(c, k, m, i, data, size)
  {
    seq(m, i requires 0 <= i < m => CodingBlock(c, k, m, i, data, size))
  }

  /** The first column of the coding matrix is all ones. */
  ghost predicate FirstColumnOnes(c: Coding, k: nat, m: nat) {
    forall i :: 0 <= i < m ==> c.matrix(k, m, i, 0) == 1
  }

  /** Regions must be whole machine words. */
  const WORD: nat := 8

  ghost predicate AgreeOn(c: Coding, k: nat, m: nat, rows: seq<nat>, data: seq<Block>, other: seq<Block>, size: nat)
    requires TimesContract(c) && Blocks(data, k, size) && Blocks(other, k, size)
  {
    forall i :: 0 <= i < |rows| ==>
      CodingBlock(c, k, m, rows[i], data, size) == CodingBlock(c, k, m, rows[i], other, size)
  }

  /** Any k rows of the matrix determine the data. */
  ghost predicate AnyRowsDetermine(c: Coding, k: nat, m: nat)
    requires TimesContract(c)
  {
    forall rows: seq<nat>, data, other, size: nat {:trigger AgreeOn(c, k, m, rows, data, other, size)} ::
      && |rows| == k && Distinct(rows) && (forall i :: 0 <= i < k ==> rows[i] < m)
      && size % WORD == 0 && Blocks(data, k, size) && Blocks(other, k, size)
      && AgreeOn(c, k, m, rows, data, other, size)
      ==> data == other
  }

  /** The surviving coding blocks are those of data. */
  ghost predicate Survivors(c: Coding, k: nat, m: nat, erasures: seq<int>, coding: seq<Block>, data: seq<Block>, size: nat)
    requires TimesContract(c) && Blocks(data, k, size) && Blocks(coding, m, size)
  {
    forall i :: 0 <= i < m && k + i !in erasures ==> coding[i] == CodingBlock(c, k, m, i, data, size)
  }

  /** The ids of all data blocks, then ids of coding blocks, increasing. */
  ghost predicate WellFormedErasures(erasures: seq<int>, k: nat, m: nat) {
    && k <= |erasures|
    && (forall i :: 0 <= i < k ==> erasures[i] == i)
    && (forall i, j :: 0 <= i < j < |erasures| ==> erasures[i] < erasures[j])
    && (forall i :: 0 <= i < |erasures| ==> 0 <= erasures[i] < k + m)
  }

  /**
   Decoding with at most m erasures succeeds with data whose coding blocks are the
   surviving ones, if there is such data; with more than m erasures it returns -1.
   The buffers of the data blocks are the caller's, so their sizes never change.
   */
  ghost predicate DecodeContract(codec: Codec, k: nat, m: nat)
    requires TimesContract(codec.coding)
  {
    forall erasures, coding, size: nat {:trigger codec.decode(k, m, erasures, coding, size)} ::
      WellFormedErasures(erasures, k, m) && Blocks(coding, m, size) ==>
        var result := codec.decode(k, m, erasures, coding, size);
        && Blocks(result.1, k, size)
        && (size % WORD == 0 ==> DecodesTo(codec.coding, k, m, erasures, coding, size, result))
  }

  ghost predicate DecodesTo(c: Coding, k: nat, m: nat, erasures: seq<int>, coding: seq<Block>, size: nat,
                            result: (int, seq<Block>))
    requires TimesContract(c) && Blocks(coding, m, size)
  {
    && (m < |erasures| ==> result.0 == -1)
    && (|erasures| <= m && Decodable(c, k, m, erasures, coding, size) ==>
          Blocks(result.1, k, size) && result.0 == 0 && Survivors(c, k, m, erasures, coding, result.1, size))
  }

  ghost predicate Decodable(c: Coding, k: nat, m: nat, erasures: seq<int>, coding: seq<Block>, size: nat)
    requires TimesContract(c) && Blocks(coding, m, size)
  {
    exists data :: Blocks(data, k, size) && Survivors(c, k, m, erasures, coding, data, size)
  }

  ghost predicate CodecContract(codec: Codec, k: nat, m: nat) {
    && TimesContract(codec.coding)
    && FirstColumnOnes(codec.coding, k, m)
    && AnyRowsDetermine(codec.coding, k, m)
    && DecodeContract(codec, k, m)
  }

  // ----- Consequences -----

  lemma XorZeros(b: Block)
    ensures XorBlock(Zeros(|b|), b) == b && XorBlock(b, Zeros(|b|)) == b
  {}

  lemma {:induction false} PartialTextCoding(c: Coding, k: nat, m: nat, i: nat, data: seq<Block>, size: nat, n: nat)
    requires TimesContract(c) && FirstColumnOnes(c, k, m) && i < m
    requires Blocks(data, k, size) && 1 <= n <= k
    requires forall j :: 1 <= j < k ==> data[j] == Zeros(size)
    ensures PartialCoding(c, k, m, i, data, size, n) == data[0]
  {
    if n == 1 {
      assert PartialCoding(c, k, m, i, data, size, 0) == Zeros(size);
      XorZeros(data[0]);
    } else {
      PartialTextCoding(c, k, m, i, data, size, n - 1);
      assert data[n - 1] == Zeros(size);
      XorZeros(data[0]);
    }
  }

  /** When only the first data block is nonzero, every coding block is a copy of it. */
  lemma TextInEveryCodingBlock(c: Coding, k: nat, m: nat, i: nat, data: seq<Block>, size: nat)
    requires TimesContract(c) && FirstColumnOnes(c, k, m) && i < m
    requires Blocks(data, k, size) && 1 <= k
    requires forall j :: 1 <= j < k ==> data[j] == Zeros(size)
    ensures CodingBlock(c, k, m, i, data, size) == data[0]
  {
    PartialTextCoding(c, k, m, i, data, size, k);
  }

  /** Decoding recovers the data from any k distinct surviving coding blocks. */
  lemma DecodeRecovers(codec: Codec, k: nat, m: nat, erasures: seq<int>, coding: seq<Block>,
                       data: seq<Block>, size: nat, rows: seq<nat>)
    requires CodecContract(codec, k, m)
    requires WellFormedErasures(erasures, k, m) && size % WORD == 0
    requires Blocks(data, k, size) && Blocks(coding, m, size)
    requires Survivors(codec.coding, k, m, erasures, coding, data, size)
    requires |erasures| <= m
    requires |rows| == k && Distinct(rows)
    requires forall i :: 0 <= i < k ==> rows[i] < m && k + rows[i] !in erasures
    ensures codec.decode(k, m, erasures, coding, size) == (0, data)
  {
    var (ret, decoded) := codec.decode(k, m, erasures, coding, size);
    assert ret == 0 && Blocks(decoded, k, size) && Survivors(codec.coding, k, m, erasures, coding, decoded, size);
    assert AgreeOn(codec.coding, k, m, rows, data, decoded, size);
  }
}
