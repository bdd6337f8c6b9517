/**
 Reading shards back, as functions of their bytes: the erasure list, the two decoding
 passes, and the theorem that undamaged shards give back exactly the file.
 */
module RsRecovery {
  import opened Bytes
  import opened Metadata
  import opened Lists
  import opened ErasureCode
  import opened RsLayout

  // ----- The erasure list -----

  /** 0 .. k-1: all data blocks are gone, because they are never written. */
  function DataIds(k: nat): (ids: seq<int>)
    ensures |ids| == k && forall i :: 0 <= i < k ==> ids[i] == i
  {
    if k == 0 then [] else DataIds(k - 1) + [k - 1]
  }

  /** k + i - 1 for every coding index i in 1..m that is not among the indices. */
  function Missing(k: nat, m: nat, indices: seq<nat>): seq<int> {
    if m == 0 then []
    else Missing(k, m - 1, indices) + (if m in indices then [] else [k + m - 1])
  }

  function ErasureList(k: nat, m: nat, indices: seq<nat>): seq<int> {
    DataIds(k) + Missing(k, m, indices)
  }

  /** The coding indices that survive, each counted once. */
  function Present(m: nat, indices: seq<nat>): set<nat> {
    set i | i in indices && 1 <= i <= m
  }

  ghost predicate Increasing(s: seq<int>) {
    forall i, j :: 0 <= i < j < |s| ==> s[i] < s[j]
  }

  lemma {:induction false} MissingExact(k: nat, m: nat, indices: seq<nat>)
    ensures forall id :: id in Missing(k, m, indices) <==> k <= id < k + m && id - k + 1 !in indices
  {
    if m > 0 {
      MissingExact(k, m - 1, indices);
    }
  }

  lemma {:induction false} MissingIncreasing(k: nat, m: nat, indices: seq<nat>)
    ensures Increasing(Missing(k, m, indices))
  {
    if m > 0 {
      var before := Missing(k, m - 1, indices);
      MissingIncreasing(k, m - 1, indices);
      MissingExact(k, m - 1, indices);
      assert forall i :: 0 <= i < |before| ==> before[i] in before;
    }
  }

  /** Missing and surviving indices together are all of 1..m. */
  lemma {:induction false} MissingCount(k: nat, m: nat, indices: seq<nat>)
    ensures |Missing(k, m, indices)| + |Present(m, indices)| == m
  {
    if m == 0 {
      assert Present(0, indices) == {};
    } else {
      MissingCount(k, m - 1, indices);
      if m in indices {
        assert Present(m, indices) == Present(m - 1, indices) + {m};
      } else {
        assert Present(m, indices) == Present(m - 1, indices);
      }
    }
  }

  /** The list is what decoding expects, and names exactly the missing coding blocks. */
  lemma ErasureListExact(k: nat, m: nat, indices: seq<nat>)
    ensures WellFormedErasures(ErasureList(k, m, indices), k, m)
    ensures forall id :: k <= id < k + m ==> (id in ErasureList(k, m, indices) <==> id - k + 1 !in indices)
  {
    hide Missing;
    MissingExact(k, m, indices);
    MissingIncreasing(k, m, indices);
    var missing := Missing(k, m, indices);
    assert forall i :: 0 <= i < |missing| ==> missing[i] in missing;
    forall id | k <= id < k + m
      ensures id in ErasureList(k, m, indices) <==> id in missing
    {
      assert id !in DataIds(k);
    }
  }

  /** There are few enough erasures exactly when k distinct indices survive, however many duplicates there are. */
  lemma ErasureBound(k: nat, m: nat, indices: seq<nat>)
    ensures |ErasureList(k, m, indices)| <= m <==> k <= |Present(m, indices)|
    ensures Present(m, indices) != {} ==> |ErasureList(k, m, indices)| < k + m
  {
    MissingCount(k, m, indices);
  }

  // ----- Reading the coding blocks -----

  /** The first position that holds i, or the length. */
  function FirstWith(indices: seq<nat>, i: nat): (j: nat)
    ensures j <= |indices|
    ensures forall l :: 0 <= l < j ==> indices[l] != i
    ensures j < |indices| ==> indices[j] == i
    ensures j < |indices| <==> i in indices
  {
    if indices == [] then 0
    else if indices[0] == i then 0
    else 1 + FirstWith(indices[1..], i)
  }

  ghost predicate Indexed(shards: seq<seq<bv8>>) {
    forall j :: 0 <= j < |shards| ==> INDEX_LEN <= |shards[j]|
  }

  function Indices(shards: seq<seq<bv8>>): (indices: seq<nat>)
    requires Indexed(shards)
    ensures |indices| == |shards| && forall j :: 0 <= j < |shards| ==> indices[j] == ShardIndex(shards[j])
  {
    seq(|shards|, j requires 0 <= j < |shards| => ShardIndex(shards[j]))
  }

  /** The coding block of index i + 1 from the first shard that has it; zeroes if none has. */
  function CodingRead(shards: seq<seq<bv8>>, offset: nat, size: nat, i: nat): (b: Block)
    requires Indexed(shards)
    ensures |b| == size
  {
    var j := FirstWith(Indices(shards), i + 1);
    if j < |shards| then ReadAt(shards[j], offset, size) else Zeros(size)
  }

  function AllCodingRead(shards: seq<seq<bv8>>, offset: nat, size: nat, m: nat): (coding: seq<Block>)
    requires Indexed(shards)
    ensures Blocks(coding, m, size)
    ensures forall i :: 0 <= i < m ==> coding[i] == CodingRead(shards, offset, size, i)
  {
    seq(m, i requires 0 <= i < m => CodingRead(shards, offset, size, i))
  }

  function DecodePass(codec: Codec, shards: seq<seq<bv8>>, offset: nat, size: nat, m: nat): (int, seq<Block>)
    requires Indexed(shards)
  {
    codec.decode(K, m, ErasureList(K, m, Indices(shards)), AllCodingRead(shards, offset, size, m), size)
  }

  /** ftruncate */
  function Truncate(s: seq<bv8>, n: nat): (t: seq<bv8>)
    ensures |t| == n && forall l :: 0 <= l < n ==> t[l] == if l < |s| then s[l] else 0
  {
    if n <= |s| then s[..n] else s + Zeros(n - |s|)
  }

  /** The scanned parameters are those of one read-in with the arguments' k and m. */
  predicate Plausible(fields: seq<int>, m: nat) {
    && |fields| == FIELDS
    && 0 <= fields[0] && 0 <= fields[1] && 0 <= fields[2]
    && fields[3] == K && fields[4] == m && fields[6] == fields[0] && fields[7] == 1
  }

  /** Return code and output of unsharding the good shards. */
  function RsUnshard(codec: Codec, shards: seq<seq<bv8>>, m: nat): (int, seq<bv8>)
    requires Indexed(shards)
  {
    if |shards| < K then (-1, [])
    else
      var (ret1, metaData) := DecodePass(codec, shards, INDEX_LEN, META_BLOCK, m);
      if ret1 == -1 then (-1, [])
      else
        match ScanMeta(Take(Join(metaData), META_SIZE))
        case None => (-1, [])
        case Some(fields) =>
          if !Plausible(fields, m) then (-1, [])
          else
            var (ret2, bodyData) := DecodePass(codec, shards, BODY_START, fields[1], m);
            if ret2 == -1 then (-1, [])
            else (1, Truncate(Take(Join(bodyData), fields[0]), fields[2]))
  }

  /** A failure of either pass is one of the whole, and nothing is written. */
  lemma PassFails(codec: Codec, shards: seq<seq<bv8>>, m: nat)
    requires Indexed(shards)
    requires DecodePass(codec, shards, INDEX_LEN, META_BLOCK, m).0 == -1
             || forall size: nat :: DecodePass(codec, shards, BODY_START, size, m).0 == -1
    ensures RsUnshard(codec, shards, m) == (-1, [])
  {
    hide DecodePass, ScanMeta, Join;
  }

  // ----- Validation, as a function of the contents -----

  /** The hash table at the end of the last long enough shard among the first n. */
  function TableOf(shards: seq<seq<bv8>>, n: nat, m: nat): seq<bv8>
    requires n <= |shards|
  {
    if n == 0 then []
    else if MD5_LEN * m <= |shards[n - 1]| then shards[n - 1][|shards[n - 1]| - MD5_LEN * m..]
    else TableOf(shards, n - 1, m)
  }

  /** The shards among the first n that pass validation, in their order. */
  function GoodOf(shards: seq<seq<bv8>>, n: nat, md5: Md5, table: seq<bv8>, m: nat): (good: seq<seq<bv8>>)
    requires n <= |shards|
    ensures Indexed(good)
  {
    if n == 0 then []
    else GoodOf(shards, n - 1, md5, table, m) + (if GoodShard(md5, shards[n - 1], table, m) then [shards[n - 1]] else [])
  }

  function Validated(shards: seq<seq<bv8>>, md5: Md5, m: nat): (good: seq<seq<bv8>>)
    ensures Indexed(good)
  {
    GoodOf(shards, |shards|, md5, TableOf(shards, |shards|, m), m)
  }

  // ----- One undamaged shard -----

  lemma IndexBack(i: nat)
    requires i < 255
    ensures ShardIndex(IndexBytes(i)) == i + 1
  {
    hide ToByte, Value;
    ByteRoundTrip(0);
    ByteRoundTrip(i + 1);
  }

  lemma ShardParts(codec: Codec, md5: Md5, file: seq<bv8>, junk: seq<bv8>, m: nat, i: nat)
    requires Shardable(codec, md5, file, junk, m) && i < m <= 255
    ensures var s := Shard(codec, md5, file, junk, m, i);
            var size := PaddedSize(|file|) / K;
            && INDEX_LEN <= |s| && ShardIndex(s) == i + 1
            && ReadAt(s, INDEX_LEN, META_BLOCK) == MetaCoding(codec, |file|, m)[i]
            && ReadAt(s, BODY_START, size) == BodyCoding(codec, file, junk, m)[i]
            && |s| == BODY_START + size + MD5_LEN * m
            && s[BODY_START + size..] == HashTable(md5, BodyCoding(codec, file, junk, m))
  {
    hide MetaCoding, BodyCoding, PaddedSize, ToByte, Value;
    var s := Shard(codec, md5, file, junk, m, i);
    var body := BodyCoding(codec, file, junk, m);
    IndexBack(i);
    JoinLength(Digests(md5, body), m, MD5_LEN);
    assert s[0] == IndexBytes(i)[0] && s[1] == IndexBytes(i)[1];
    assert s[INDEX_LEN..BODY_START] == MetaCoding(codec, |file|, m)[i];
    assert s[BODY_START..BODY_START + PaddedSize(|file|) / K] == body[i];
  }

  /** c is long enough, has the index of shard i, and its body block; its hash table may be any. */
  predicate BodyRight(codec: Codec, md5: Md5, file: seq<bv8>, junk: seq<bv8>, m: nat, c: seq<bv8>, i: nat)
    requires Shardable(codec, md5, file, junk, m)
  {
    var size := PaddedSize(|file|) / K;
    && i < m && MD5_LEN * m <= |c| && BODY_START + size <= |c|
    && ShardIndex(c) == i + 1
    && c[BODY_START..BODY_START + size] == BodyCoding(codec, file, junk, m)[i]
  }

  /** c has the coded metadata block of shard i. */
  predicate MetaRight(codec: Codec, md5: Md5, file: seq<bv8>, junk: seq<bv8>, m: nat, c: seq<bv8>, i: nat)
    requires Shardable(codec, md5, file, junk, m)
  {
    i < m && BODY_START <= |c| && c[INDEX_LEN..BODY_START] == MetaCoding(codec, |file|, m)[i]
  }

  /** Everything in front of the hash table is that of shard i. */
  predicate FrontOf(codec: Codec, md5: Md5, file: seq<bv8>, junk: seq<bv8>, m: nat, c: seq<bv8>, i: nat)
    requires Shardable(codec, md5, file, junk, m)
  {
    BodyRight(codec, md5, file, junk, m, c, i) && MetaRight(codec, md5, file, junk, m, c, i)
  }

  lemma FrontReads(codec: Codec, md5: Md5, file: seq<bv8>, junk: seq<bv8>, m: nat, c: seq<bv8>, i: nat)
    requires Shardable(codec, md5, file, junk, m) && FrontOf(codec, md5, file, junk, m, c, i)
    ensures i < m && INDEX_LEN <= |c| && ShardIndex(c) == i + 1
    ensures ReadAt(c, INDEX_LEN, META_BLOCK) == MetaCoding(codec, |file|, m)[i]
    ensures ReadAt(c, BODY_START, PaddedSize(|file|) / K) == BodyCoding(codec, file, junk, m)[i]
  {
    hide MetaCoding, BodyCoding, PaddedSize, ShardIndex;
  }

  lemma ShardIsFront(codec: Codec, md5: Md5, file: seq<bv8>, junk: seq<bv8>, m: nat, i: nat)
    requires Shardable(codec, md5, file, junk, m) && i < m <= 255
    ensures FrontOf(codec, md5, file, junk, m, Shard(codec, md5, file, junk, m, i), i)
  {
    hide MetaCoding, BodyCoding, PaddedSize, ShardIndex, HashTable, Shard, TimesContract;
    ShardParts(codec, md5, file, junk, m, i);
  }

  /** The file's metadata block is the text block: blocks after the first are zero. */
  lemma MetaDataIsText(n: nat, m: nat)
    requires SizesFit(n, m)
    ensures |PrintMeta(MetaFields(n, m))| <= 88
    ensures MetaData(n, m)[0] == PrintMeta(MetaFields(n, m)) + Zeros(META_BLOCK - |PrintMeta(MetaFields(n, m))|)
    ensures forall j :: 1 <= j < K ==> MetaData(n, m)[j] == Zeros(META_BLOCK)
  {
    hide PrintMeta;
    MetaFits(n, m);
    var text := PrintMeta(MetaFields(n, m));
    var all := MetaText(n, m);
    assert all[..META_BLOCK] == text + Zeros(META_BLOCK - |text|);
    assert all[META_BLOCK..] == Zeros(META_SIZE - META_BLOCK);
    forall j | 1 <= j < K ensures MetaData(n, m)[j] == Zeros(META_BLOCK) {
      assert MetaData(n, m)[j] == Chop(all[META_BLOCK..], K - 1, META_BLOCK)[j - 1];
      ChopZeros(META_SIZE - META_BLOCK, K - 1, META_BLOCK, j - 1);
    }
  }

  /** With the library's matrix, every shard's coded metadata block is the text itself. */
  lemma MetaCodingIsText(codec: Codec, n: nat, m: nat, i: nat)
    requires TimesContract(codec.coding) && FirstColumnOnes(codec.coding, K, m)
    requires SizesFit(n, m) && i < m
    ensures |PrintMeta(MetaFields(n, m))| <= 88
    ensures MetaCoding(codec, n, m)[i] == PrintMeta(MetaFields(n, m)) + Zeros(META_BLOCK - |PrintMeta(MetaFields(n, m))|)
  {
    hide PrintMeta, MetaData, CodingBlock, TimesContract;
    MetaFits(n, m);
    MetaDataIsText(n, m);
    TextInEveryCodingBlock(codec.coding, K, m, i, MetaData(n, m), META_BLOCK);
  }

  /** A metadata block that holds the text of some integers, and NUL bytes. */
  predicate HoldsText(c: seq<bv8>, fields: seq<int>)
    requires |fields| == FIELDS
  {
    && BODY_START <= |c| && |PrintMeta(fields)| <= META_BLOCK
    && c[INDEX_LEN..BODY_START] == PrintMeta(fields) + Zeros(META_BLOCK - |PrintMeta(fields)|)
  }

  /** Scanning from the start of such a block reads the integers, whatever comes behind. */
  lemma ScanTextBlock(c: seq<bv8>, fields: seq<int>)
    requires |fields| == FIELDS && HoldsText(c, fields)
    ensures ScannedMeta(c) == Some(fields)
  {
    hide PrintMeta, ScanMeta;
    var text := PrintMeta(fields);
    var scanned := if INDEX_LEN + META_SIZE <= |c| then c[INDEX_LEN..INDEX_LEN + META_SIZE] else c[INDEX_LEN..];
    var tail := Zeros(META_BLOCK - |text|) + scanned[META_BLOCK..];
    assert scanned == c[INDEX_LEN..BODY_START] + scanned[META_BLOCK..];
    assert scanned == text + tail;
    ScanPrinted(fields, tail);
  }

  /** The direct scan of a shard's front reads the numbers that were printed. */
  lemma FrontScans(codec: Codec, md5: Md5, file: seq<bv8>, junk: seq<bv8>, m: nat, c: seq<bv8>, i: nat)
    requires Shardable(codec, md5, file, junk, m) && FirstColumnOnes(codec.coding, K, m)
    requires MetaRight(codec, md5, file, junk, m, c, i)
    ensures INDEX_LEN <= |c| && ScannedMeta(c) == Some(MetaFields(|file|, m))
  {
    hide PrintMeta, MetaCoding, ScannedMeta, MetaFields, TimesContract, PaddedSize, FirstColumnOnes;
    MetaCodingIsText(codec, |file|, m, i);
    ScanTextBlock(c, MetaFields(|file|, m));
  }

  /** The direct scan of a shard reads the numbers that were printed. */
  lemma ShardScans(codec: Codec, md5: Md5, file: seq<bv8>, junk: seq<bv8>, m: nat, i: nat)
    requires Shardable(codec, md5, file, junk, m) && i < m <= 255
    requires FirstColumnOnes(codec.coding, K, m)
    ensures INDEX_LEN <= |Shard(codec, md5, file, junk, m, i)|
    ensures ScannedMeta(Shard(codec, md5, file, junk, m, i)) == Some(MetaFields(|file|, m))
  {
    hide ScannedMeta, MetaFields, Shard, FirstColumnOnes, BodyRight, MetaRight;
    ShardIsFront(codec, md5, file, junk, m, i);
    FrontScans(codec, md5, file, junk, m, Shard(codec, md5, file, junk, m, i), i);
  }

  /** The table holds the right digest for shard i. */
  predicate SlotRight(md5: Md5, table: seq<bv8>, m: nat, i: nat, body: Block) {
    |table| == MD5_LEN * m && i < m && table[MD5_LEN * i..MD5_LEN * i + MD5_LEN] == md5(body)
  }

  /**
   A long enough shard of index i + 1, whose metadata scans as one read-in, passes validation
   against a table exactly when the slot of i holds the digest of its body; the rest of its
   metadata is not looked at.
   */
  lemma GoodBySlot(md5: Md5, m: nat, c: seq<bv8>, i: nat, size: nat, fields: seq<int>, table: seq<bv8>)
    requires i < m && MD5_LEN * m <= |c| && BODY_START + size <= |c| && ShardIndex(c) == i + 1
    requires ScannedMeta(c) == Some(fields) && |fields| == FIELDS && fields[1] == size && fields[7] == 1
    ensures GoodShard(md5, c, table, m) <==> SlotRight(md5, table, m, i, c[BODY_START..BODY_START + size])
  {
    hide ScannedMeta, ShardIndex, BodyStream, ReadAt;
    OneRead(c, size);
    ReadInside(c, BODY_START, size);
  }

  /** Validation, position by position: the index, the scanned numbers, the digest and where it is looked up. */
  lemma GoodSpelled(md5: Md5, c: seq<bv8>, table: seq<bv8>, m: nat, fields: seq<int>)
    requires 2 <= |c| && ScanMeta(c[2..if 1026 <= |c| then 1026 else |c|]) == Some(fields)
    requires |fields| == 8 && 0 <= fields[1] && 0 <= fields[7]
    ensures var index := ShardIndex(c);
            GoodShard(md5, c, table, m) <==>
              && 16 * m <= |c| && |table| == 16 * m && 1 <= index <= m
              && md5(BodyStream(c, 130, fields[1], fields[7], Zeros(fields[1]))) == table[16 * index - 16..16 * index]
  {
    hide BodyStream, ScanMeta, ShardIndex, ScannedMeta, GoodShard;
    ScannedIs(c);
    GoodUnfolded(md5, c, table, m, fields, BodyStream(c, 130, fields[1], fields[7], Zeros(fields[1])));
  }

  lemma GoodUnfolded(md5: Md5, c: seq<bv8>, table: seq<bv8>, m: nat, fields: seq<int>, stream: seq<bv8>)
    requires INDEX_LEN <= |c| && ScannedMeta(c) == Some(fields)
    requires |fields| == FIELDS && 0 <= fields[1] && 0 <= fields[7]
    requires stream == BodyStream(c, BODY_START, fields[1], fields[7], Zeros(fields[1]))
    ensures GoodShard(md5, c, table, m) <==>
              && MD5_LEN * m <= |c| && |table| == MD5_LEN * m && 1 <= ShardIndex(c) <= m
              && md5(stream) == table[MD5_LEN * ShardIndex(c) - MD5_LEN..MD5_LEN * ShardIndex(c)]
  {
    hide BodyStream, ShardIndex, ScannedMeta;
  }

  /** The index in the two first bytes, the high one first. */
  lemma IndexRead(c: seq<bv8>)
    requires 2 <= |c|
    ensures ShardIndex(c) == 256 * (c[0] as int) + (c[1] as int)
  {}

  lemma ScannedIs(c: seq<bv8>)
    requires 2 <= |c|
    ensures ScannedMeta(c) == ScanMeta(c[2..if 1026 <= |c| then 1026 else |c|])
  {
    hide ScanMeta;
    assert c[2..|c|] == c[2..];
  }

  /** The same, if the index and the body are those of shard i of the file. */
  lemma GoodByBody(codec: Codec, md5: Md5, file: seq<bv8>, junk: seq<bv8>, m: nat, c: seq<bv8>, i: nat,
                   fields: seq<int>, table: seq<bv8>)
    requires Shardable(codec, md5, file, junk, m) && BodyRight(codec, md5, file, junk, m, c, i)
    requires INDEX_LEN <= |c| && ScannedMeta(c) == Some(fields)
    requires |fields| == FIELDS && fields[1] == PaddedSize(|file|) / K && fields[7] == 1
    ensures GoodShard(md5, c, table, m) <==> SlotRight(md5, table, m, i, BodyCoding(codec, file, junk, m)[i])
  {
    hide BodyCoding, ScannedMeta, PaddedSize, TimesContract, ShardIndex, GoodShard, SlotRight;
    GoodBySlot(md5, m, c, i, PaddedSize(|file|) / K, fields, table);
  }

  lemma ReadInside(c: seq<bv8>, offset: nat, n: nat)
    requires offset + n <= |c|
    ensures ReadAt(c, offset, n) == c[offset..offset + n]
  {}

  /** An undamaged front passes validation against a table exactly when its own slot is right there. */
  lemma GoodIffSlotRight(codec: Codec, md5: Md5, file: seq<bv8>, junk: seq<bv8>, m: nat, c: seq<bv8>, i: nat, table: seq<bv8>)
    requires Shardable(codec, md5, file, junk, m) && FirstColumnOnes(codec.coding, K, m)
    requires FrontOf(codec, md5, file, junk, m, c, i)
    ensures GoodShard(md5, c, table, m) <==> SlotRight(md5, table, m, i, BodyCoding(codec, file, junk, m)[i])
  {
    hide BodyCoding, GoodShard, ScannedMeta, PaddedSize, TimesContract, FirstColumnOnes, ShardIndex;
    FrontScans(codec, md5, file, junk, m, c, i);
    GoodByBody(codec, md5, file, junk, m, c, i, MetaFields(|file|, m), table);
  }

  /** In the table written with the shards, every slot is right. */
  lemma OwnTableRight(codec: Codec, md5: Md5, file: seq<bv8>, junk: seq<bv8>, m: nat, i: nat)
    requires Shardable(codec, md5, file, junk, m) && i < m
    ensures SlotRight(md5, HashTable(md5, BodyCoding(codec, file, junk, m)), m, i, BodyCoding(codec, file, junk, m)[i])
  {
    hide BodyCoding;
    var body := BodyCoding(codec, file, junk, m);
    JoinLength(Digests(md5, body), m, MD5_LEN);
    JoinSlot(Digests(md5, body), m, MD5_LEN, i);
  }

  /** An undamaged shard passes validation against the table written with it. */
  lemma ShardIsGood(codec: Codec, md5: Md5, file: seq<bv8>, junk: seq<bv8>, m: nat, i: nat)
    requires Shardable(codec, md5, file, junk, m) && i < m <= 255
    requires FirstColumnOnes(codec.coding, K, m)
    ensures GoodShard(md5, Shard(codec, md5, file, junk, m, i), HashTable(md5, BodyCoding(codec, file, junk, m)), m)
  {
    hide GoodShard, Shard, BodyCoding, HashTable, SlotRight, FirstColumnOnes, FrontOf;
    OwnTableRight(codec, md5, file, junk, m, i);
    ShardIsFront(codec, md5, file, junk, m, i);
    GoodIffSlotRight(codec, md5, file, junk, m, Shard(codec, md5, file, junk, m, i), i,
                     HashTable(md5, BodyCoding(codec, file, junk, m)));
  }

  lemma OneRead(c: seq<bv8>, size: nat)
    requires BODY_START + size <= |c|
    ensures BodyStream(c, BODY_START, size, 1, Zeros(size)) == ReadAt(c, BODY_START, size)
  {
    var got := c[BODY_START..BODY_START + size];
    if size > 0 {
      assert got + Zeros(size)[size..] == got;
      assert BodyStream(c, BODY_START + size, size, 0, got) == [];
      assert got + [] == got;
    } else {
      assert Zeros(0) == got;
    }
  }

  // ----- All shards -----

  ghost predicate ShardsOf(shards: seq<seq<bv8>>, sel: seq<nat>, codec: Codec, md5: Md5, file: seq<bv8>, junk: seq<bv8>, m: nat)
    requires Shardable(codec, md5, file, junk, m)
  {
    && |sel| == |shards|
    && forall j :: 0 <= j < |shards| ==> sel[j] < m && shards[j] == Shard(codec, md5, file, junk, m, sel[j])
  }

  /** The same, but whatever hash tables the shards carry. */
  ghost predicate FrontsOf(shards: seq<seq<bv8>>, sel: seq<nat>, codec: Codec, md5: Md5, file: seq<bv8>, junk: seq<bv8>, m: nat)
    requires Shardable(codec, md5, file, junk, m)
  {
    && |sel| == |shards|
    && forall j :: 0 <= j < |shards| ==> FrontOf(codec, md5, file, junk, m, shards[j], sel[j])
  }

  lemma ShardsAreFronts(shards: seq<seq<bv8>>, sel: seq<nat>, codec: Codec, md5: Md5, file: seq<bv8>, junk: seq<bv8>, m: nat)
    requires Shardable(codec, md5, file, junk, m) && m <= 255
    requires ShardsOf(shards, sel, codec, md5, file, junk, m)
    ensures FrontsOf(shards, sel, codec, md5, file, junk, m)
  {
    hide FrontOf, Shard, Shardable;
    forall j | 0 <= j < |shards| ensures FrontOf(codec, md5, file, junk, m, shards[j], sel[j]) {
      ShardIsFront(codec, md5, file, junk, m, sel[j]);
    }
  }

  lemma ShardsIndexed(shards: seq<seq<bv8>>, sel: seq<nat>, codec: Codec, md5: Md5, file: seq<bv8>, junk: seq<bv8>, m: nat)
    requires Shardable(codec, md5, file, junk, m) && m <= 255
    requires FrontsOf(shards, sel, codec, md5, file, junk, m)
    ensures Indexed(shards)
    ensures forall j :: 0 <= j < |shards| ==> Indices(shards)[j] == sel[j] + 1
  {
    hide FrontOf;
    forall j | 0 <= j < |shards| ensures INDEX_LEN <= |shards[j]| && ShardIndex(shards[j]) == sel[j] + 1 {
      FrontReads(codec, md5, file, junk, m, shards[j], sel[j]);
    }
  }

  lemma ReadSurvives(shards: seq<seq<bv8>>, sel: seq<nat>, codec: Codec, md5: Md5, file: seq<bv8>, junk: seq<bv8>, m: nat, i: nat)
    requires Shardable(codec, md5, file, junk, m) && i < m <= 255
    requires FrontsOf(shards, sel, codec, md5, file, junk, m)
    requires Indexed(shards) && i + 1 in Indices(shards)
    ensures CodingRead(shards, INDEX_LEN, META_BLOCK, i) == MetaCoding(codec, |file|, m)[i]
    ensures CodingRead(shards, BODY_START, PaddedSize(|file|) / K, i) == BodyCoding(codec, file, junk, m)[i]
  {
    ShardsIndexed(shards, sel, codec, md5, file, junk, m);
    var j := FirstWith(Indices(shards), i + 1);
    assert sel[j] == i && FrontOf(codec, md5, file, junk, m, shards[j], i);
    hide FrontOf, MetaCoding, BodyCoding, ReadAt, PaddedSize, FrontsOf, Shardable;
    FrontReads(codec, md5, file, junk, m, shards[j], i);
  }

  /** What survives of the metadata and of the body are blocks of their codings. */
  lemma ReadsSurvive(shards: seq<seq<bv8>>, sel: seq<nat>, codec: Codec, md5: Md5, file: seq<bv8>, junk: seq<bv8>, m: nat)
    requires Shardable(codec, md5, file, junk, m) && m <= 255
    requires FrontsOf(shards, sel, codec, md5, file, junk, m)
    ensures Indexed(shards)
    ensures var size := PaddedSize(|file|) / K;
            forall i :: 0 <= i < m && i + 1 in Indices(shards) ==>
              && CodingRead(shards, INDEX_LEN, META_BLOCK, i) == MetaCoding(codec, |file|, m)[i]
              && CodingRead(shards, BODY_START, size, i) == BodyCoding(codec, file, junk, m)[i]
  {
    hide FrontOf, MetaCoding, BodyCoding, CodingRead, PaddedSize, FrontsOf;
    ShardsIndexed(shards, sel, codec, md5, file, junk, m);
    forall i | 0 <= i < m && i + 1 in Indices(shards)
      ensures CodingRead(shards, INDEX_LEN, META_BLOCK, i) == MetaCoding(codec, |file|, m)[i]
      ensures CodingRead(shards, BODY_START, PaddedSize(|file|) / K, i) == BodyCoding(codec, file, junk, m)[i]
    {
      ReadSurvives(shards, sel, codec, md5, file, junk, m, i);
    }
  }

  lemma {:induction false} PickRows(s: set<nat>, n: nat) returns (rows: seq<nat>)
    requires n <= |s|
    ensures |rows| == n && Distinct(rows) && forall i :: 0 <= i < n ==> rows[i] in s
    decreases n
  {
    if n == 0 {
      rows := [];
    } else {
      var x :| x in s;
      rows := PickRows(s - {x}, n - 1);
      rows := rows + [x];
    }
  }

  /** A decoding pass over coding blocks of data, k of them surviving, gives back the data. */
  lemma PassRecovers(codec: Codec, m: nat, indices: seq<nat>, coding: seq<Block>, data: seq<Block>, size: nat)
    requires CodecContract(codec, K, m) && size % WORD == 0
    requires Blocks(data, K, size) && Blocks(coding, m, size)
    requires forall i :: 0 <= i < m && i + 1 in indices ==> coding[i] == CodingBlock(codec.coding, K, m, i, data, size)
    requires K <= |Present(m, indices)|
    ensures codec.decode(K, m, ErasureList(K, m, indices), coding, size) == (0, data)
  {
    hide ErasureList, CodingBlock, TimesContract, AnyRowsDetermine, DecodeContract, FirstColumnOnes;
    ErasureListExact(K, m, indices);
    ErasureBound(K, m, indices);
    var picked := PickRows(Present(m, indices), K);
    var rows := seq(K, i requires 0 <= i < K => if picked[i] > 0 then picked[i] - 1 else 0);
    assert Distinct(rows) by {
      forall i, j | 0 <= i < j < K ensures rows[i] != rows[j] {
        assert picked[i] in Present(m, indices) && picked[j] in Present(m, indices);
      }
    }
    forall i | 0 <= i < K ensures rows[i] < m && K + rows[i] !in ErasureList(K, m, indices) {
      assert picked[i] in Present(m, indices);
    }
    assert Survivors(codec.coding, K, m, ErasureList(K, m, indices), coding, data, size);
    DecodeRecovers(codec, K, m, ErasureList(K, m, indices), coding, data, size, rows);
  }

  lemma JoinMeta(n: nat, m: nat)
    requires SizesFit(n, m)
    ensures |PrintMeta(MetaFields(n, m))| <= META_SIZE
    ensures ScanMeta(Take(Join(MetaData(n, m)), META_SIZE)) == Some(MetaFields(n, m))
  {
    hide PrintMeta, ScanMeta;
    MetaFits(n, m);
    var text := PrintMeta(MetaFields(n, m));
    JoinChop(MetaText(n, m), K, META_BLOCK);
    assert Take(MetaText(n, m), META_SIZE) == MetaText(n, m);
    ScanPrinted(MetaFields(n, m), Zeros(META_SIZE - |text|));
  }

  lemma JoinBody(file: seq<bv8>, junk: seq<bv8>)
    requires |file| + |junk| == PaddedSize(|file|)
    ensures Truncate(Take(Join(BodyData(file, junk)), PaddedSize(|file|)), |file|) == file
  {
    PaddedSizeFits(|file|);
    JoinChop(file + junk, K, PaddedSize(|file|) / K);
    assert (file + junk)[..PaddedSize(|file|)][..|file|] == file;
  }

  function Successors(s: set<nat>): set<nat> {
    set x | x in s :: x + 1
  }

  lemma {:induction false} SuccessorsCount(s: set<nat>)
    ensures |Successors(s)| == |s|
    decreases |s|
  {
    if s == {} {
      assert Successors(s) == {};
    } else {
      var x :| x in s;
      SuccessorsCount(s - {x});
      forall y | y in Successors(s) ensures y in Successors(s - {x}) + {x + 1} {
        var z :| z in s && z + 1 == y;
        assert z == x || z in s - {x};
      }
      assert Successors(s) == Successors(s - {x}) + {x + 1};
      assert x + 1 !in Successors(s - {x});
    }
  }

  lemma PresentCount(m: nat, sel: seq<nat>, indices: seq<nat>)
    requires |sel| == |indices|
    requires forall j :: 0 <= j < |sel| ==> sel[j] < m && indices[j] == sel[j] + 1
    ensures |Present(m, indices)| == |Elements(sel)|
  {
    var shifted := Successors(Elements(sel));
    forall i | i in Present(m, indices) ensures i in shifted {
      var j :| 0 <= j < |indices| && indices[j] == i;
      assert sel[j] in Elements(sel);
    }
    forall i | i in shifted ensures i in Present(m, indices) {
      var j :| 0 <= j < |sel| && sel[j] + 1 == i;
      assert indices[j] == i;
    }
    assert Present(m, indices) == shifted;
    SuccessorsCount(Elements(sel));
  }

  /** Both decoding passes give back what was encoded. */
  lemma PassesRecover(shards: seq<seq<bv8>>, sel: seq<nat>, codec: Codec, md5: Md5, file: seq<bv8>, junk: seq<bv8>, m: nat)
    requires Shardable(codec, md5, file, junk, m) && m <= 255 && CodecContract(codec, K, m)
    requires FrontsOf(shards, sel, codec, md5, file, junk, m)
    requires K <= |Elements(sel)|
    ensures Indexed(shards)
    ensures |PrintMeta(MetaFields(|file|, m))| <= META_SIZE
    ensures DecodePass(codec, shards, INDEX_LEN, META_BLOCK, m) == (0, MetaData(|file|, m))
    ensures DecodePass(codec, shards, BODY_START, PaddedSize(|file|) / K, m) == (0, BodyData(file, junk))
  {
    hide PrintMeta, Present, Elements, ErasureList, CodingRead, PaddedSize, CodingBlock, MetaData, BodyData;
    hide CodecContract, FrontsOf;
    MetaFits(|file|, m);
    PaddedSizeFits(|file|);
    ShardsIndexed(shards, sel, codec, md5, file, junk, m);
    ReadsSurvive(shards, sel, codec, md5, file, junk, m);
    var indices := Indices(shards);
    assert |sel| == |shards| && forall j :: 0 <= j < |sel| ==> sel[j] < m by {
      SelectionFits(shards, sel, codec, md5, file, junk, m);
    }
    PresentCount(m, sel, indices);
    PassRecovers(codec, m, indices, AllCodingRead(shards, INDEX_LEN, META_BLOCK, m), MetaData(|file|, m), META_BLOCK);
    var size := PaddedSize(|file|) / K;
    PassRecovers(codec, m, indices, AllCodingRead(shards, BODY_START, size, m), BodyData(file, junk), size);
  }

  lemma SelectionFits(shards: seq<seq<bv8>>, sel: seq<nat>, codec: Codec, md5: Md5, file: seq<bv8>, junk: seq<bv8>, m: nat)
    requires Shardable(codec, md5, file, junk, m)
    requires FrontsOf(shards, sel, codec, md5, file, junk, m)
    ensures |sel| == |shards| && forall j :: 0 <= j < |sel| ==> sel[j] < m
  {}

  /**
   The round trip: shards of one file, in any order and with duplicates, of which at
   least eight are distinct, give back exactly the file, whatever the padding held and
   whatever hash tables the shards carry.
   */
  lemma RsRoundTrip(shards: seq<seq<bv8>>, sel: seq<nat>, codec: Codec, md5: Md5, file: seq<bv8>, junk: seq<bv8>, m: nat)
    requires Shardable(codec, md5, file, junk, m) && m <= 255 && CodecContract(codec, K, m)
    requires FrontsOf(shards, sel, codec, md5, file, junk, m)
    requires K <= |Elements(sel)|
    ensures Indexed(shards) && RsUnshard(codec, shards, m) == (1, file)
  {
    hide PrintMeta, ScanMeta, DecodePass, Elements, MetaData, BodyData, Join, PaddedSize, CodecContract, FrontsOf, Take, Truncate;
    SelectionFits(shards, sel, codec, md5, file, junk, m);
    ElementsBound(sel);
    PassesRecover(shards, sel, codec, md5, file, junk, m);
    JoinMeta(|file|, m);
    JoinBody(file, junk);
  }

  lemma {:induction false} AllGood(shards: seq<seq<bv8>>, n: nat, md5: Md5, table: seq<bv8>, m: nat)
    requires n <= |shards|
    requires forall j :: 0 <= j < |shards| ==> GoodShard(md5, shards[j], table, m)
    ensures GoodOf(shards, n, md5, table, m) == shards[..n]
  {
    hide GoodShard;
    if n > 0 {
      AllGood(shards, n - 1, md5, table, m);
      assert shards[..n] == shards[..n - 1] + [shards[n - 1]];
    }
  }

  /** Validation keeps all shards of one file, in their order. */
  lemma ShardsValidate(shards: seq<seq<bv8>>, sel: seq<nat>, codec: Codec, md5: Md5, file: seq<bv8>, junk: seq<bv8>, m: nat)
    requires Shardable(codec, md5, file, junk, m) && m <= 255 && FirstColumnOnes(codec.coding, K, m)
    requires ShardsOf(shards, sel, codec, md5, file, junk, m)
    ensures Validated(shards, md5, m) == shards
  {
    hide GoodShard, Shard, BodyCoding, TimesContract, FirstColumnOnes;
    var n := |shards|;
    if n > 0 {
      var table := HashTable(md5, BodyCoding(codec, file, junk, m));
      var last := shards[n - 1];
      ShardParts(codec, md5, file, junk, m, sel[n - 1]);
      assert TableOf(shards, n, m) == table;
      forall j | 0 <= j < n ensures GoodShard(md5, shards[j], table, m) {
        ShardIsGood(codec, md5, file, junk, m, sel[j]);
      }
      AllGood(shards, n, md5, table, m);
      assert shards[..n] == shards;
    }
  }
}
