/**
 A concrete damage that validation lets through: one changed number in the metadata of a
 ninth shard stops a library that keeps all its promises, although eight shards are intact.
 */
module DamageExample {
  import opened Bytes
  import opened Metadata
  import opened ErasureCode
  import opened RsLayout
  import opened RsRecovery
  import opened RsDamage
  import ErasureExample

  /** The metadata with another size before padding. */
  function ChangedFields(n: nat, m: nat): (fields: seq<int>)
    ensures |fields| == FIELDS
  {
    MetaFields(n, m)[2 := if n == 0 then 1 else 0]
  }

  lemma ChangedFieldsFit(n: nat, m: nat)
    requires SizesFit(n, m)
    ensures |PrintMeta(ChangedFields(n, m))| <= 88
    ensures ChangedFields(n, m) != MetaFields(n, m)
    ensures ChangedFields(n, m)[1] == PaddedSize(n) / K && ChangedFields(n, m)[7] == 1
  {
    PaddedSizeFits(n);
    hide PrintMeta, PaddedSize;
    MetaLength(ChangedFields(n, m));
    assert ChangedFields(n, m)[2] != MetaFields(n, m)[2];
  }

  /** Shard i with this metadata instead of its own. */
  function Changed(codec: Codec, md5: Md5, file: seq<bv8>, junk: seq<bv8>, m: nat, i: nat): seq<bv8>
    requires Shardable(codec, md5, file, junk, m) && i < m
  {
    ChangedFieldsFit(|file|, m);
    var text := PrintMeta(ChangedFields(|file|, m));
    var body := BodyCoding(codec, file, junk, m);
    IndexBytes(i) + (text + Zeros(META_BLOCK - |text|)) + body[i] + HashTable(md5, body)
  }

  lemma FourParts(index: seq<bv8>, meta: seq<bv8>, body: seq<bv8>, table: seq<bv8>)
    requires |index| == INDEX_LEN && |meta| == META_BLOCK
    ensures var c := index + meta + body + table;
            && |c| == BODY_START + |body| + |table|
            && c[0] == index[0] && c[1] == index[1]
            && c[INDEX_LEN..BODY_START] == meta
            && c[BODY_START..BODY_START + |body|] == body
            && c[|c| - |table|..] == table
  {}

  lemma ChangedParts(codec: Codec, md5: Md5, file: seq<bv8>, junk: seq<bv8>, m: nat, i: nat)
    requires Shardable(codec, md5, file, junk, m) && i < m <= 255
    ensures var c := Changed(codec, md5, file, junk, m, i);
            && BodyRight(codec, md5, file, junk, m, c, i)
            && HoldsText(c, ChangedFields(|file|, m))
            && MD5_LEN * m <= |c| && c[|c| - MD5_LEN * m..] == HashTable(md5, BodyCoding(codec, file, junk, m))
  {
    ChangedFieldsFit(|file|, m);
    hide BodyCoding, PaddedSize, ToByte, Value, PrintMeta, ChangedFields, TimesContract, IndexBytes;
    var body := BodyCoding(codec, file, junk, m);
    var text := PrintMeta(ChangedFields(|file|, m));
    IndexBack(i);
    JoinLength(Digests(md5, body), m, MD5_LEN);
    FourParts(IndexBytes(i), text + Zeros(META_BLOCK - |text|), body[i], HashTable(md5, body));
  }

  /** Eight undamaged shards, and the ninth with the changed metadata. */
  function NineShards(codec: Codec, md5: Md5, file: seq<bv8>, junk: seq<bv8>, m: nat): (shards: seq<seq<bv8>>)
    requires Shardable(codec, md5, file, junk, m) && K < m
    ensures |shards| == K + 1
    ensures forall j :: 0 <= j < K ==> shards[j] == Shard(codec, md5, file, junk, m, j)
    ensures shards[K] == Changed(codec, md5, file, junk, m, K)
  {
    seq(K, j requires 0 <= j < K => Shard(codec, md5, file, junk, m, j)) + [Changed(codec, md5, file, junk, m, K)]
  }

  /** All nine are accepted, and all but the ninth are undamaged. */
  lemma NineAccepted(codec: Codec, md5: Md5, file: seq<bv8>, junk: seq<bv8>, m: nat)
    requires Shardable(codec, md5, file, junk, m) && K < m <= 255 && FirstColumnOnes(codec.coding, K, m)
    ensures var shards := NineShards(codec, md5, file, junk, m);
            var table := HashTable(md5, BodyCoding(codec, file, junk, m));
            && TableOf(shards, K + 1, m) == table
            && (forall j :: 0 <= j <= K ==> GoodShard(md5, shards[j], table, m))
            && (forall j :: 0 <= j <= K ==> BodyRight(codec, md5, file, junk, m, shards[j], j))
            && (forall j :: 0 <= j <= K ==> (MetaRight(codec, md5, file, junk, m, shards[j], j) <==> j < K))
  {
    var shards := NineShards(codec, md5, file, junk, m);
    var table := HashTable(md5, BodyCoding(codec, file, junk, m));
    ChangedParts(codec, md5, file, junk, m, K);
    ChangedFieldsFit(|file|, m);
    hide GoodShard, Shard, Changed, BodyCoding, BodyRight, MetaRight, HoldsText, SlotRight, HashTable, ChangedFields, MetaFields,
         FirstColumnOnes, PaddedSize, PrintMeta, TimesContract;
    forall j | 0 <= j <= K
      ensures GoodShard(md5, shards[j], table, m)
      ensures BodyRight(codec, md5, file, junk, m, shards[j], j)
      ensures MetaRight(codec, md5, file, junk, m, shards[j], j) <==> j < K
    {
      if j < K {
        ShardIsGood(codec, md5, file, junk, m, j);
        ShardIsFront(codec, md5, file, junk, m, j);
      } else {
        OwnTableRight(codec, md5, file, junk, m, K);
        MetadataUnchecked(codec, md5, file, junk, m, shards[K], K, ChangedFields(|file|, m), table);
      }
    }
  }

  function Numbers(n: nat): (ns: seq<nat>)
    ensures |ns| == n && forall i :: 0 <= i < n ==> ns[i] == i
  {
    seq(n, i requires 0 <= i < n => i)
  }

  /** With one shard per index, in order, a coding block is read from its own shard. */
  lemma ReadOf(shards: seq<seq<bv8>>, offset: nat, size: nat, j: nat)
    requires Indexed(shards) && j < |shards|
    requires forall l :: 0 <= l < |shards| ==> ShardIndex(shards[l]) == l + 1
    ensures CodingRead(shards, offset, size, j) == ReadAt(shards[j], offset, size)
  {
    hide ShardIndex, ReadAt;
    assert Indices(shards)[j] == j + 1;
    assert FirstWith(Indices(shards), j + 1) == j;
  }

  lemma NineIndexed(codec: Codec, md5: Md5, file: seq<bv8>, junk: seq<bv8>, m: nat)
    requires Shardable(codec, md5, file, junk, m) && K < m <= 255 && FirstColumnOnes(codec.coding, K, m)
    ensures var shards := NineShards(codec, md5, file, junk, m);
            && Indexed(shards)
            && (forall l :: 0 <= l < |shards| ==> ShardIndex(shards[l]) == l + 1)
            && forall j :: 0 <= j <= K ==>
                 (ReadAt(shards[j], INDEX_LEN, META_BLOCK) == MetaCoding(codec, |file|, m)[j] <==> j < K)
  {
    NineAccepted(codec, md5, file, junk, m);
    var shards := NineShards(codec, md5, file, junk, m);
    hide GoodShard, NineShards, MetaCoding, BodyCoding, HashTable, TimesContract, FirstColumnOnes, PaddedSize, ShardIndex, TableOf, ReadAt;
    forall j | 0 <= j <= K
      ensures INDEX_LEN <= |shards[j]| && ShardIndex(shards[j]) == j + 1
      ensures ReadAt(shards[j], INDEX_LEN, META_BLOCK) == MetaCoding(codec, |file|, m)[j] <==> j < K
    {
      assert BodyRight(codec, md5, file, junk, m, shards[j], j);
      assert MetaRight(codec, md5, file, junk, m, shards[j], j) <==> j < K;
      ReadInside(shards[j], INDEX_LEN, META_BLOCK);
    }
  }

  /**
   The second way to fail: with the field code, which keeps every promise that is made of
   the library, one changed number in the metadata of a ninth shard makes unsharding fail,
   although eight shards are intact and no digest collides.
   */
  lemma MetadataCanStop(md5: Md5, file: seq<bv8>, junk: seq<bv8>, m: nat)
    requires Shardable(ErasureExample.FieldCodec(), md5, file, junk, m) && K < m <= 255
    ensures var codec := ErasureExample.FieldCodec();
            var shards := NineShards(codec, md5, file, junk, m);
            && CodecContract(codec, K, m)
            && DigestsTell(shards, Numbers(K + 1), codec, md5, file, junk, m)
            && EnoughIntact(shards, Numbers(K + 1), codec, md5, file, junk, m)
            && !MetadataIntact(shards, Numbers(K + 1), codec, md5, file, junk, m)
            && RsUnshard(codec, Validated(shards, md5, m), m) == (-1, [])
  {
    hide *;
    var codec := ErasureExample.FieldCodec();
    FieldCodecFits(codec, md5, file, junk, m);
    NineCount(codec, md5, file, junk, m);
    var shards := NineShards(codec, md5, file, junk, m);
    NineAccepted(codec, md5, file, junk, m);
    NineIntact(codec, md5, file, junk, m);
    NineFail(md5, file, junk, m);
    ShardableParts(codec, md5, file, junk, m);
    AllGood(shards, K + 1, md5, HashTable(md5, BodyCoding(codec, file, junk, m)), m);
    ValidatedIs(shards, md5, m);
    assert shards[..K + 1] == shards;
  }

  lemma ShardableParts(codec: Codec, md5: Md5, file: seq<bv8>, junk: seq<bv8>, m: nat)
    requires Shardable(codec, md5, file, junk, m)
    ensures DigestSize(md5) && TimesContract(codec.coding) && |file| + |junk| == PaddedSize(|file|)
  {}

  lemma NineIntact(codec: Codec, md5: Md5, file: seq<bv8>, junk: seq<bv8>, m: nat)
    requires Shardable(codec, md5, file, junk, m) && K < m <= 255 && FirstColumnOnes(codec.coding, K, m)
    ensures var shards := NineShards(codec, md5, file, junk, m);
            && DigestsTell(shards, Numbers(K + 1), codec, md5, file, junk, m)
            && EnoughIntact(shards, Numbers(K + 1), codec, md5, file, junk, m)
            && !MetadataIntact(shards, Numbers(K + 1), codec, md5, file, junk, m)
  {
    hide GoodShard, Shard, Changed, NineShards, BodyRight, MetaRight, BodyCoding, HashTable, SlotRight, FirstColumnOnes, TableOf,
         TimesContract, PaddedSize;
    NineCount(codec, md5, file, junk, m);
    var shards, sel := NineShards(codec, md5, file, junk, m), Numbers(K + 1);
    NineAccepted(codec, md5, file, junk, m);
    forall l | 0 <= l < K ensures Intact(shards, sel, Numbers(K)[l], codec, md5, file, junk, m) {
      OwnTableRight(codec, md5, file, junk, m, l);
    }
    assert IntactAt(shards, sel, Numbers(K), codec, md5, file, junk, m);
    assert GoodShard(md5, shards[K], TableOf(shards, K + 1, m), m) && sel[K] == K;
  }

  lemma NineFail(md5: Md5, file: seq<bv8>, junk: seq<bv8>, m: nat)
    requires Shardable(ErasureExample.FieldCodec(), md5, file, junk, m) && K < m <= 255
    ensures var codec := ErasureExample.FieldCodec();
            var shards := NineShards(codec, md5, file, junk, m);
            Indexed(shards) && RsUnshard(codec, shards, m) == (-1, [])
  {
    hide *;
    var codec := ErasureExample.FieldCodec();
    FieldCodecFits(codec, md5, file, junk, m);
    NineIndexed(codec, md5, file, junk, m);
    NineCount(codec, md5, file, junk, m);
    NinePass(NineShards(codec, md5, file, junk, m), codec, |file|, m);
    FirstPassFails(codec, NineShards(codec, md5, file, junk, m), m);
  }

  lemma FieldCodecFits(codec: Codec, md5: Md5, file: seq<bv8>, junk: seq<bv8>, m: nat)
    requires codec == ErasureExample.FieldCodec() && Shardable(codec, md5, file, junk, m) && K < m <= 255
    ensures CodecContract(codec, K, m) && FirstColumnOnes(codec.coding, K, m) && SizesFit(|file|, m)
  {
    ErasureExample.ContractSatisfiable(K, m);
    hide AnyRowsDetermine, DecodeContract, ErasureExample.FieldCodec, TimesContract;
  }

  lemma NineCount(codec: Codec, md5: Md5, file: seq<bv8>, junk: seq<bv8>, m: nat)
    requires Shardable(codec, md5, file, junk, m) && K < m
    ensures |NineShards(codec, md5, file, junk, m)| == K + 1
  {
    hide NineShards;
  }

  lemma FirstPassFails(codec: Codec, shards: seq<seq<bv8>>, m: nat)
    requires Indexed(shards) && DecodePass(codec, shards, INDEX_LEN, META_BLOCK, m).0 == -1
    ensures RsUnshard(codec, shards, m) == (-1, [])
  {
    hide DecodePass, ScanMeta, Plausible, Join, Take, Truncate;
  }

  /** What one of the nine contributes to the first pass. */
  lemma NineRead(shards: seq<seq<bv8>>, m: nat, j: nat)
    requires |shards| == K + 1 && Indexed(shards) && j <= K < m
    requires forall l :: 0 <= l < |shards| ==> ShardIndex(shards[l]) == l + 1
    ensures K + j !in ErasureList(K, m, Indices(shards))
    ensures AllCodingRead(shards, INDEX_LEN, META_BLOCK, m)[j] == ReadAt(shards[j], INDEX_LEN, META_BLOCK)
  {
    hide ErasureList, ShardIndex, ReadAt, CodingRead;
    ErasureListExact(K, m, Indices(shards));
    assert Indices(shards)[j] == j + 1;
    ReadOf(shards, INDEX_LEN, META_BLOCK, j);
  }

  /** The first pass fails. */
  lemma NinePass(shards: seq<seq<bv8>>, codec: Codec, n: nat, m: nat)
    requires codec == ErasureExample.FieldCodec() && CodecContract(codec, K, m) && SizesFit(n, m) && K < m
    requires |shards| == K + 1 && Indexed(shards)
    requires forall l :: 0 <= l < |shards| ==> ShardIndex(shards[l]) == l + 1
    requires forall j :: 0 <= j <= K ==>
      (ReadAt(shards[j], INDEX_LEN, META_BLOCK) == MetaCoding(codec, n, m)[j] <==> j < K)
    ensures DecodePass(codec, shards, INDEX_LEN, META_BLOCK, m).0 == -1
  {
    hide PrintMeta, ErasureList, AllCodingRead, MetaData, MetaCoding, PaddedSize, ShardIndex, ReadAt, TimesContract,
         AnyRowsDetermine, DecodeContract, FirstColumnOnes, Indices, CodingBlock, SizesFit, Decodable, ErasureExample.FieldCodec;
    assert TimesContract(codec.coding);
    MetaFits(n, m);
    var erasures, coding := ErasureList(K, m, Indices(shards)), AllCodingRead(shards, INDEX_LEN, META_BLOCK, m);
    var data := MetaData(n, m);
    forall l | 0 <= l < K
      ensures K + Numbers(K)[l] !in erasures
      ensures coding[Numbers(K)[l]] == CodingBlock(codec.coding, K, m, Numbers(K)[l], data, META_BLOCK)
    {
      NineRead(shards, m, l);
      CodedMeta(codec, n, m, l);
    }
    NineRead(shards, m, K);
    CodedMeta(codec, n, m, K);
    NothingExplains(codec, m, erasures, coding, data, META_BLOCK, Numbers(K), K);
    assert codec.coding == ErasureExample.FieldCode by { ErasureExample.FieldCodecIs(); }
    ErasureExample.Unexplained(K, m, erasures, coding, META_BLOCK);
  }

  lemma CodedMeta(codec: Codec, n: nat, m: nat, i: nat)
    requires TimesContract(codec.coding) && SizesFit(n, m) && i < m
    ensures |PrintMeta(MetaFields(n, m))| <= META_SIZE
    ensures MetaCoding(codec, n, m)[i] == CodingBlock(codec.coding, K, m, i, MetaData(n, m), META_BLOCK)
  {
    MetaFits(n, m);
    hide PrintMeta, MetaData, CodingBlock;
  }
}
