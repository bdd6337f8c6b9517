/**
 The bytes of a shard file, position by position.
 */
module ShardFormat {
  import opened Bytes
  import opened Metadata
  import opened ErasureCode
  import opened RsLayout

  /** An eighth of the least multiple of 128 that is not below n. */
  function BlockBytes(n: nat): nat {
    16 * ((n + 127) / 128)
  }

  /** The metadata text of a file of n bytes, sharded into m, and NUL bytes up to 1024. */
  predicate IsMetaText(buf: seq<bv8>, n: nat, m: nat) {
    var text :=
      PrintInt(8 * BlockBytes(n)) + [0x20] + (PrintInt(BlockBytes(n)) + [0x20] + (PrintInt(n) + [0x0a]
      + (PrintInt(8) + [0x20] + (PrintInt(m) + [0x20] + (PrintInt(32) + [0x20] + (PrintInt(8 * BlockBytes(n)) + [0x0a]
      + (PrintInt(1) + [0x0a])))))));
    && |text| <= |buf| == 1024
    && buf[..|text|] == text
    && forall l :: |text| <= l < 1024 ==> buf[l] == 0
  }

  /** The blocks are eight consecutive parts of s, of size bytes each. */
  predicate PartsOf(blocks: seq<Block>, s: seq<bv8>, size: nat) {
    && |blocks| == 8 && |s| == 8 * size
    && forall j :: 0 <= j < 8 ==> 0 <= j * size && j * size + size <= |s| && blocks[j] == s[j * size..j * size + size]
  }

  lemma {:induction false} ChopParts(s: seq<bv8>, k: nat, size: nat, j: nat)
    requires |s| == k * size && j < k
    ensures 0 <= j * size && j * size + size <= |s|
    ensures Chop(s, k, size)[j] == s[j * size..j * size + size]
  {
    OneMoreTimes(k - 1, size);
    if j > 0 {
      ChopParts(s[size..], k - 1, size, j - 1);
      OneMoreTimes(j - 1, size);
      PartBehind(s, size, (j - 1) * size);
    }
  }

  lemma PartBehind(s: seq<bv8>, size: nat, from: nat)
    requires size + from + size <= |s|
    ensures s[size..][from..from + size] == s[size + from..size + from + size]
  {}

  lemma EightParts(s: seq<bv8>, size: nat)
    requires |s| == 8 * size
    ensures PartsOf(Chop(s, 8, size), s, size)
  {
    forall j | 0 <= j < 8
      ensures 0 <= j * size && j * size + size <= |s| && Chop(s, 8, size)[j] == s[j * size..j * size + size]
    {
      ChopParts(s, 8, size, j);
    }
  }

  /** Block i coded from the eight parts of the metadata text. */
  ghost predicate IsCodedMeta(c: Block, coding: Coding, n: nat, m: nat, i: nat)
    requires TimesContract(coding)
  {
    exists buf, blocks :: Blocks(blocks, 8, 128) && IsMetaText(buf, n, m) && PartsOf(blocks, buf, 128)
                          && c == CodingBlock(coding, 8, m, i, blocks, 128)
  }

  /** Block i coded from the eight parts of s, and the digests of all blocks. */
  ghost predicate IsCodedBody(c: Block, table: seq<bv8>, coding: Coding, md5: Md5, s: seq<bv8>, size: nat, m: nat, i: nat)
    requires TimesContract(coding)
  {
    exists blocks :: Blocks(blocks, 8, size) && PartsOf(blocks, s, size)
                     && c == CodingBlock(coding, 8, m, i, blocks, size)
                     && IsDigests(table, coding, md5, blocks, size, m)
  }

  /** 16 bytes of digest for each coded block. */
  ghost predicate IsDigests(table: seq<bv8>, coding: Coding, md5: Md5, blocks: seq<Block>, size: nat, m: nat)
    requires TimesContract(coding) && Blocks(blocks, 8, size)
  {
    && |table| == 16 * m
    && forall j: nat :: j < m ==> table[16 * j..16 * j + 16] == md5(CodingBlock(coding, 8, m, j, blocks, size))
  }

  /**
   c is shard file i of m: the index i + 1 in two bytes, the high one first; 128 bytes
   coded from the metadata text; a block coded from the file and the padding; and 16 bytes
   of digest for each of the m coded blocks.
   */
  ghost predicate IsShardFile(c: seq<bv8>, codec: Codec, md5: Md5, file: seq<bv8>, junk: seq<bv8>, m: nat, i: nat)
    requires TimesContract(codec.coding)
  {
    var size := BlockBytes(|file|);
    && |c| == 130 + size + 16 * m
    && (i + 1 < 0x1_0000 ==> 256 * (c[0] as int) + (c[1] as int) == i + 1)
    && IsCodedMeta(c[2..130], codec.coding, |file|, m, i)
    && IsCodedBody(c[130..130 + size], c[130 + size..], codec.coding, md5, file + junk, size, m, i)
  }

  lemma IndexSpelled(i: nat)
    requires i + 1 < 0x1_0000
    ensures 256 * (IndexBytes(i)[0] as int) + (IndexBytes(i)[1] as int) == i + 1
  {
    CastRoundTrip((i + 1) / 256 % 256);
    CastRoundTrip((i + 1) % 256);
    assert (i + 1) / 256 < 256;
  }

  lemma MetaSpelled(n: nat, m: nat)
    requires SizesFit(n, m)
    ensures |PrintMeta(MetaFields(n, m))| <= 88 && IsMetaText(MetaText(n, m), n, m)
  {
    MetaFits(n, m);
    PaddedSizeIs(n);
    hide PrintInt, PaddedSize, PrintMeta;
    var fields := MetaFields(n, m);
    assert fields == [8 * BlockBytes(n), BlockBytes(n), n, 8, m, 32, 8 * BlockBytes(n), 1];
    MetaLines(8 * BlockBytes(n), BlockBytes(n), n, 8, m, 32, 8 * BlockBytes(n), 1);
  }

  lemma TableSpelled(codec: Codec, md5: Md5, file: seq<bv8>, junk: seq<bv8>, m: nat)
    requires Shardable(codec, md5, file, junk, m)
    requires Blocks(BodyData(file, junk), 8, BlockBytes(|file|))
    ensures IsDigests(HashTable(md5, BodyCoding(codec, file, junk, m)), codec.coding, md5, BodyData(file, junk), BlockBytes(|file|), m)
  {
    PaddedSizeIs(|file|);
    hide PaddedSize, TimesContract, CodingBlock, BodyData;
    var coding := BodyCoding(codec, file, junk, m);
    JoinLength(Digests(md5, coding), m, MD5_LEN);
    forall j: nat | j < m
      ensures HashTable(md5, coding)[16 * j..16 * j + 16] == md5(CodingBlock(codec.coding, 8, m, j, BodyData(file, junk), BlockBytes(|file|)))
    {
      JoinSlot(Digests(md5, coding), m, MD5_LEN, j);
    }
  }

  lemma FourParts(index: seq<bv8>, meta: Block, body: Block, table: seq<bv8>)
    requires |index| == 2 && |meta| == 128
    ensures var c := index + meta + body + table;
            && |c| == 130 + |body| + |table| && c[0] == index[0] && c[1] == index[1]
            && c[2..130] == meta && c[130..130 + |body|] == body && c[130 + |body|..] == table
  {}

  lemma BodySpelled(codec: Codec, md5: Md5, file: seq<bv8>, junk: seq<bv8>, m: nat, i: nat)
    requires Shardable(codec, md5, file, junk, m) && i < m
    ensures |BodyCoding(codec, file, junk, m)[i]| == BlockBytes(|file|) && |HashTable(md5, BodyCoding(codec, file, junk, m))| == 16 * m
    ensures IsCodedBody(BodyCoding(codec, file, junk, m)[i], HashTable(md5, BodyCoding(codec, file, junk, m)),
                        codec.coding, md5, file + junk, BlockBytes(|file|), m, i)
  {
    PaddedSizeIs(|file|);
    EightParts(file + junk, BlockBytes(|file|));
    TableSpelled(codec, md5, file, junk, m);
    hide PaddedSize, HashTable, Chop, CodingBlock, TimesContract, PartsOf;
    assert BodyData(file, junk) == Chop(file + junk, 8, BlockBytes(|file|));
  }

  lemma MetaCoded(codec: Codec, n: nat, m: nat, i: nat)
    requires TimesContract(codec.coding) && SizesFit(n, m) && i < m
    ensures IsCodedMeta(MetaCoding(codec, n, m)[i], codec.coding, n, m, i)
  {
    MetaSpelled(n, m);
    EightParts(MetaText(n, m), 128);
    hide PaddedSize, IsMetaText, Chop, CodingBlock, TimesContract, PartsOf;
    assert MetaCoding(codec, n, m)[i] == CodingBlock(codec.coding, 8, m, i, MetaData(n, m), 128);
  }

  /** Every shard of a file is written in this format. */
  lemma ShardSpelled(codec: Codec, md5: Md5, file: seq<bv8>, junk: seq<bv8>, m: nat, i: nat)
    requires Shardable(codec, md5, file, junk, m) && i < m
    ensures IsShardFile(Shard(codec, md5, file, junk, m, i), codec, md5, file, junk, m, i)
  {
    if i + 1 < 0x1_0000 {
      IndexSpelled(i);
    }
    MetaCoded(codec, |file|, m, i);
    BodySpelled(codec, md5, file, junk, m, i);
    hide IsCodedMeta, IsCodedBody, HashTable, TimesContract, IndexBytes, MetaCoding, BodyCoding, PaddedSize;
    var body := BodyCoding(codec, file, junk, m);
    FourParts(IndexBytes(i), MetaCoding(codec, |file|, m)[i], body[i], HashTable(md5, body));
  }
}
