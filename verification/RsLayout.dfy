/**
 The layout of a Reed-Solomon shard, as functions of the file: two index bytes, the
 coded metadata block, the coded body block, and the digests of all body blocks.
 And what reading such shards back gives.
 */
module RsLayout {
  import opened Bytes
  import opened Metadata
  import opened ErasureCode

  const K: nat := 8
  const WORD_SIZE: int := 32
  const MD5_LEN: nat := 16
  const INDEX_LEN: nat := 2
  const META_BLOCK: nat := 128
  const BODY_START: nat := INDEX_LEN + META_BLOCK
  const INT_LIMIT: nat := 0x8000_0000

  type Md5 = seq<bv8> -> seq<bv8>

  ghost predicate DigestSize(md5: Md5) {
    forall s {:trigger md5(s)} :: |md5(s)| == MD5_LEN
  }

  // ----- Writing -----

  /** The size after padding to a multiple of 128. */
  function PaddedSize(n: nat): nat {
    if n % 128 == 0 then n else n + (128 - n % 128)
  }

  /** Padding is less than a block, and leaves k blocks of whole machine words. */
  lemma PaddedSizeFits(n: nat)
    ensures n <= PaddedSize(n) < n + 128 && PaddedSize(n) % 128 == 0
    ensures PaddedSize(n) == K * (PaddedSize(n) / K) && PaddedSize(n) / K % WORD == 0
  {
    var b := if n % 128 == 0 then n / 128 else n / 128 + 1;
    assert PaddedSize(n) == 128 * b;
    EighthOf(b);
  }

  /** The least multiple of 128 that is not below n, in which blocks have an eighth of the bytes. */
  lemma PaddedSizeIs(n: nat)
    ensures PaddedSize(n) == 128 * ((n + 127) / 128) && PaddedSize(n) / K == 16 * ((n + 127) / 128)
  {
    var b := if n % 128 == 0 then n / 128 else n / 128 + 1;
    assert PaddedSize(n) == 128 * b && b == (n + 127) / 128;
    EighthOf(b);
  }

  lemma EighthOf(b: nat)
    ensures 128 * b / K == 16 * b && 16 * b % WORD == 0
  {
    assert 128 * b == K * (16 * b);
    assert 16 * b == WORD * (2 * b);
  }

  /** size, blocksize, pre_padded; k, m, w, buffersize; readins. */
  function MetaFields(n: nat, m: nat): (fields: seq<int>)
    ensures |fields| == FIELDS
  {
    [PaddedSize(n), PaddedSize(n) / K, n, K, m, WORD_SIZE, PaddedSize(n), 1]
  }

  ghost predicate SizesFit(n: nat, m: nat) {
    PaddedSize(n) < INT_LIMIT && m < INT_LIMIT
  }

  function MetaText(n: nat, m: nat): (s: seq<bv8>)
    requires |PrintMeta(MetaFields(n, m))| <= META_SIZE
    ensures |s| == META_SIZE
  {
    var text := PrintMeta(MetaFields(n, m));
    text + Zeros(META_SIZE - |text|)
  }

  lemma MetaFits(n: nat, m: nat)
    requires SizesFit(n, m)
    ensures |PrintMeta(MetaFields(n, m))| <= 88
  {
    PaddedSizeFits(n);
    hide PrintMeta, PaddedSize;
    MetaLength(MetaFields(n, m));
  }

  function MetaData(n: nat, m: nat): (data: seq<Block>)
    requires |PrintMeta(MetaFields(n, m))| <= META_SIZE
    ensures Blocks(data, K, META_BLOCK)
  {
    Chop(MetaText(n, m), K, META_BLOCK)
  }

  /** The body: the file, then whatever the rest of the buffer holds. */
  function BodyData(file: seq<bv8>, junk: seq<bv8>): (data: seq<Block>)
    requires |file| + |junk| == PaddedSize(|file|)
    ensures Blocks(data, K, PaddedSize(|file|) / K)
  {
    PaddedSizeFits(|file|);
    Chop(file + junk, K, PaddedSize(|file|) / K)
  }

  /** The index of coding block i in two bytes, the high one first; indices start at 1. */
  function IndexBytes(i: nat): (s: seq<bv8>)
    ensures |s| == INDEX_LEN
  {
    [ToByte((i + 1) / 256), ToByte(i + 1)]
  }

  function Digests(md5: Md5, coding: seq<Block>): (d: seq<Block>)
    requires DigestSize(md5)
    ensures Blocks(d, |coding|, MD5_LEN) && forall i :: 0 <= i < |d| ==> d[i] == md5(coding[i])
  {
    seq(|coding|, i requires 0 <= i < |coding| => md5(coding[i]))
  }

  function HashTable(md5: Md5, coding: seq<Block>): seq<bv8>
    requires DigestSize(md5)
  {
    Join(Digests(md5, coding))
  }

  ghost predicate Shardable(codec: Codec, md5: Md5, file: seq<bv8>, junk: seq<bv8>, m: nat) {
    && TimesContract(codec.coding) && DigestSize(md5)
    && SizesFit(|file|, m)
    && |file| + |junk| == PaddedSize(|file|)
  }

  function MetaCoding(codec: Codec, n: nat, m: nat): (coding: seq<Block>)
    requires TimesContract(codec.coding) && SizesFit(n, m)
    ensures Blocks(coding, m, META_BLOCK)
  {
    MetaFits(n, m);
    Encode(codec.coding, K, m, MetaData(n, m), META_BLOCK)
  }

  function BodyCoding(codec: Codec, file: seq<bv8>, junk: seq<bv8>, m: nat): (coding: seq<Block>)
    requires TimesContract(codec.coding) && |file| + |junk| == PaddedSize(|file|)
    ensures Blocks(coding, m, PaddedSize(|file|) / K)
  {
    Encode(codec.coding, K, m, BodyData(file, junk), PaddedSize(|file|) / K)
  }

  /** The bytes of shard i. */
  function Shard(codec: Codec, md5: Md5, file: seq<bv8>, junk: seq<bv8>, m: nat, i: nat): seq<bv8>
    requires Shardable(codec, md5, file, junk, m) && i < m
  {
    var body := BodyCoding(codec, file, junk, m);
    IndexBytes(i) + MetaCoding(codec, |file|, m)[i] + body[i] + HashTable(md5, body)
  }

  // ----- Reading -----

  function ShardIndex(c: seq<bv8>): nat
    requires INDEX_LEN <= |c|
  {
    256 * Value(c[0]) + Value(c[1])
  }

  /** fread of n bytes at an offset into a zeroed buffer. */
  function ReadAt(c: seq<bv8>, offset: nat, n: nat): (b: Block)
    ensures |b| == n && forall l :: 0 <= l < n ==> b[l] == if offset + l < |c| then c[offset + l] else 0
  {
    if offset + n <= |c| then c[offset..offset + n]
    else if offset <= |c| then c[offset..] + Zeros(offset + n - |c|)
    else Zeros(n)
  }

  /** The direct scan of the coded metadata block. */
  function ScannedMeta(c: seq<bv8>): Option<seq<int>>
    requires INDEX_LEN <= |c|
  {
    ScanMeta(if INDEX_LEN + META_SIZE <= |c| then c[INDEX_LEN..INDEX_LEN + META_SIZE] else c[INDEX_LEN..])
  }

  /** What is digested: readins reads of the block buffer, where a short read leaves the rest as it was. */
  function BodyStream(c: seq<bv8>, offset: nat, size: nat, readins: nat, buffer: Block): seq<bv8>
    requires |buffer| == size
    decreases readins
  {
    if readins == 0 then []
    else
      var left := if offset <= |c| then |c| - offset else 0;
      var got := if left < size then left else size;
      var buffer' := if got == 0 then buffer else c[offset..offset + got] + buffer[got..];
      buffer' + BodyStream(c, offset + got, size, readins - 1, buffer')
  }

  /**
   Byte t of block j of what is digested: the one in the file, or, where the file is too
   short, that of the last block before it that reaches so far, or else of the buffer.
   */
  function StreamByte(c: seq<bv8>, offset: nat, size: nat, j: nat, t: nat, buffer: Block): bv8
    requires t < size == |buffer|
  {
    if offset + j * size + t < |c| then c[offset + j * size + t]
    else if j == 0 then buffer[t]
    else StreamByte(c, offset, size, j - 1, t, buffer)
  }

  /** The whole of what is digested, byte by byte. */
  lemma {:induction false} StreamBytes(c: seq<bv8>, offset: nat, size: nat, readins: nat, buffer: Block, j: nat, t: nat)
    requires |buffer| == size && j < readins && t < size
    ensures j * size + t < readins * size == |BodyStream(c, offset, size, readins, buffer)|
    ensures BodyStream(c, offset, size, readins, buffer)[j * size + t] == StreamByte(c, offset, size, j, t, buffer)
    decreases readins
  {
    hide BodyStream, StreamByte;
    var got, next := FirstRead(c, offset, size, readins, buffer, t);
    var rest := BodyStream(c, offset + got, size, readins - 1, next);
    StreamLength(c, offset + got, size, readins - 1, next);
    StreamLength(c, offset, size, readins, buffer);
    Position(j, readins, size, t);
    if j > 0 {
      StreamBytes(c, offset + got, size, readins - 1, next, j - 1, t);
      StreamShift(c, offset, got, size, j, t, buffer, next);
      OneMoreTimes(j - 1, size);
      Behind(next, rest, (j - 1) * size + t);
    }
  }

  lemma Behind(s: seq<bv8>, t: seq<bv8>, at: nat)
    requires at < |t|
    ensures (s + t)[|s| + at] == t[at]
  {}

  lemma {:induction false} Position(j: nat, n: nat, size: nat, t: nat)
    requires j < n && t < size
    ensures j * size + t < n * size
  {
    OneMoreTimes(n - 1, size);
    if j < n - 1 {
      Position(j, n - 1, size, t);
    }
  }

  lemma OneMoreTimes(n: nat, size: nat)
    ensures (n + 1) * size == size + n * size
  {}

  lemma FirstRead(c: seq<bv8>, offset: nat, size: nat, readins: nat, buffer: Block, t: nat) returns (got: nat, next: Block)
    requires |buffer| == size && 0 < readins && t < size
    ensures got <= size == |next| && (got == size || |c| <= offset + got)
    ensures next[t] == StreamByte(c, offset, size, 0, t, buffer)
    ensures BodyStream(c, offset, size, readins, buffer) == next + BodyStream(c, offset + got, size, readins - 1, next)
  {
    var left := if offset <= |c| then |c| - offset else 0;
    got := if left < size then left else size;
    next := if got == 0 then buffer else c[offset..offset + got] + buffer[got..];
    assert 0 * size == 0;
    hide StreamByte, BodyStream;
    assert next[t] == StreamByte(c, offset, size, 0, t, buffer) by {
      FirstByte(c, offset, size, t, buffer);
    }
    StreamStep(c, offset, size, readins, buffer);
  }

  lemma FirstByte(c: seq<bv8>, offset: nat, size: nat, t: nat, buffer: Block)
    requires t < size == |buffer|
    ensures StreamByte(c, offset, size, 0, t, buffer) == if offset + t < |c| then c[offset + t] else buffer[t]
  {}

  lemma StreamStep(c: seq<bv8>, offset: nat, size: nat, readins: nat, buffer: Block)
    requires |buffer| == size && 0 < readins
    ensures var left := if offset <= |c| then |c| - offset else 0;
            var got := if left < size then left else size;
            var next := if got == 0 then buffer else c[offset..offset + got] + buffer[got..];
            BodyStream(c, offset, size, readins, buffer) == next + BodyStream(c, offset + got, size, readins - 1, next)
  {}

  lemma {:induction false} StreamLength(c: seq<bv8>, offset: nat, size: nat, readins: nat, buffer: Block)
    requires |buffer| == size
    ensures |BodyStream(c, offset, size, readins, buffer)| == readins * size
    decreases readins
  {
    if readins > 0 {
      var left := if offset <= |c| then |c| - offset else 0;
      var got := if left < size then left else size;
      var next := if got == 0 then buffer else c[offset..offset + got] + buffer[got..];
      StreamLength(c, offset + got, size, readins - 1, next);
      OneMoreTimes(readins - 1, size);
    }
  }

  lemma {:induction false} StreamShift(c: seq<bv8>, offset: nat, got: nat, size: nat, j: nat, t: nat, buffer: Block, next: Block)
    requires t < size == |buffer| == |next| && 1 <= j && got <= size
    requires got == size || |c| <= offset + got
    requires next[t] == StreamByte(c, offset, size, 0, t, buffer)
    ensures StreamByte(c, offset + got, size, j - 1, t, next) == StreamByte(c, offset, size, j, t, buffer)
    decreases j
  {
    OneMoreTimes(j - 1, size);
    if j > 1 {
      StreamShift(c, offset, got, size, j - 1, t, buffer, next);
    }
  }

  /** The shard is long enough, and its body has the digest that the table holds for its index. */
  predicate GoodShard(md5: Md5, c: seq<bv8>, table: seq<bv8>, m: nat) {
    && MD5_LEN * m <= |c| && INDEX_LEN <= |c|
    && |table| == MD5_LEN * m
    && 1 <= ShardIndex(c) <= m
    && ScannedMeta(c).Some?
    && var fields := ScannedMeta(c).value;
    && |fields| == FIELDS && 0 <= fields[1] && 0 <= fields[7]
    && var slot := MD5_LEN * (ShardIndex(c) - 1);
    && md5(BodyStream(c, BODY_START, fields[1], fields[7], Zeros(fields[1]))) == table[slot..slot + MD5_LEN]
  }
}
