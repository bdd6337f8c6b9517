/**
 One flipped byte in an erasure-coded shard, among shards of one file that are all
 different: what it does in the coded body, and what in the hash table.
 */
module RsFlips {
  import opened Lists
  import opened ErasureCode
  import opened RsLayout
  import opened RsRecovery
  import opened RsDamage

  function Flip(s: seq<bv8>, at: nat, d: bv8): (t: seq<bv8>)
    requires at < |s|
    ensures |t| == |s|
  {
    s[at := s[at] ^ d]
  }

  lemma FlipBits(x: bv8, d: bv8, p: bv8)
    ensures (x ^ d) ^ p == (x ^ p) ^ d
    ensures d != 0 ==> x ^ d != x
  {}

  /** A slice that holds the flipped byte changes, another one does not. */
  lemma FlippedSlice(s: seq<bv8>, at: nat, d: bv8, lo: nat, hi: nat)
    requires at < |s| && lo <= hi <= |s| && d != 0
    ensures Flip(s, at, d)[lo..hi] == s[lo..hi] <==> !(lo <= at < hi)
  {
    FlipBits(s[at], d, 0);
    if lo <= at < hi {
      assert Flip(s, at, d)[lo..hi][at - lo] != s[lo..hi][at - lo];
    }
  }

  /** The shards of one file, but one with a flipped byte behind its metadata. */
  ghost predicate FlippedOf(shards: seq<seq<bv8>>, sel: seq<nat>, i: nat, at: nat, d: bv8,
                            codec: Codec, md5: Md5, file: seq<bv8>, junk: seq<bv8>, m: nat)
    requires Shardable(codec, md5, file, junk, m)
  {
    && m <= 255 && |sel| == |shards| && i < |shards| && d != 0
    && (forall j :: 0 <= j < |shards| ==> sel[j] < m)
    && (forall j :: 0 <= j < |shards| && j != i ==> shards[j] == Shard(codec, md5, file, junk, m, sel[j]))
    && var whole := Shard(codec, md5, file, junk, m, sel[i]);
       BODY_START <= at < |whole| && shards[i] == Flip(whole, at, d)
  }

  /** A flip behind the metadata leaves index and metadata alone, and changes either the body or the table. */
  lemma FlippedShardParts(codec: Codec, md5: Md5, file: seq<bv8>, junk: seq<bv8>, m: nat, i: nat, at: nat, d: bv8)
    requires Shardable(codec, md5, file, junk, m) && i < m <= 255 && d != 0
    requires BODY_START <= at < |Shard(codec, md5, file, junk, m, i)|
    ensures var c := Flip(Shard(codec, md5, file, junk, m, i), at, d);
            var table := BODY_START + PaddedSize(|file|) / K;
            && |c| == table + MD5_LEN * m && ShardIndex(c) == i + 1
            && MetaRight(codec, md5, file, junk, m, c, i)
            && (c[BODY_START..table] == BodyCoding(codec, file, junk, m)[i] <==> table <= at)
            && (c[table..] == HashTable(md5, BodyCoding(codec, file, junk, m)) <==> at < table)
  {
    hide MetaCoding, BodyCoding, PaddedSize, HashTable, Shard, TimesContract, Flip;
    var s := Shard(codec, md5, file, junk, m, i);
    ShardParts(codec, md5, file, junk, m, i);
    var table := BODY_START + PaddedSize(|file|) / K;
    ReadInside(s, INDEX_LEN, META_BLOCK);
    ReadInside(s, BODY_START, PaddedSize(|file|) / K);
    FlippedSlice(s, at, d, 0, INDEX_LEN);
    FlippedSlice(s, at, d, INDEX_LEN, BODY_START);
    FlippedSlice(s, at, d, BODY_START, table);
    FlippedSlice(s, at, d, table, |s|);
    SameIndex(s, Flip(s, at, d));
    SliceToEnd(s);
    SliceToEnd(Flip(s, at, d));
  }

  lemma SameIndex(s: seq<bv8>, t: seq<bv8>)
    requires INDEX_LEN <= |s| == |t| && s[0..INDEX_LEN] == t[0..INDEX_LEN]
    ensures ShardIndex(s) == ShardIndex(t)
  {
    assert s[0] == s[0..INDEX_LEN][0] && s[1] == s[0..INDEX_LEN][1];
    assert t[0] == t[0..INDEX_LEN][0] && t[1] == t[0..INDEX_LEN][1];
  }

  lemma SliceToEnd(s: seq<bv8>)
    ensures forall lo :: 0 <= lo <= |s| ==> s[lo..|s|] == s[lo..]
  {}

  /** The shard that was not flipped. */
  lemma OtherFront(shards: seq<seq<bv8>>, sel: seq<nat>, i: nat, at: nat, d: bv8, j: nat,
                   codec: Codec, md5: Md5, file: seq<bv8>, junk: seq<bv8>, m: nat)
    requires Shardable(codec, md5, file, junk, m) && FlippedOf(shards, sel, i, at, d, codec, md5, file, junk, m)
    requires j < |shards| && j != i
    ensures Undamaged(shards, sel, j, codec, md5, file, junk, m)
  {
    hide Shard, FrontOf, Shardable;
    ShardIsFront(codec, md5, file, junk, m, sel[j]);
  }

  lemma FlippedEnd(s: seq<bv8>, at: nat, d: bv8, start: nat)
    requires start <= |s| && at < |s|
    ensures Flip(s, at, d)[start..] == if start <= at then Flip(s[start..], at - start, d) else s[start..]
  {}

  lemma WholeShardEnd(codec: Codec, md5: Md5, file: seq<bv8>, junk: seq<bv8>, m: nat, i: nat)
    requires Shardable(codec, md5, file, junk, m) && i < m <= 255
    ensures var s := Shard(codec, md5, file, junk, m, i);
            var start := BODY_START + PaddedSize(|file|) / K;
            && |s| == start + MD5_LEN * m
            && s[start..] == HashTable(md5, BodyCoding(codec, file, junk, m))
  {
    hide *;
    ShardParts(codec, md5, file, junk, m, i);
  }

  /** The table at the end of the last shard, which may be the flipped one. */
  lemma TrustedAfterFlip(shards: seq<seq<bv8>>, sel: seq<nat>, i: nat, at: nat, d: bv8,
                         codec: Codec, md5: Md5, file: seq<bv8>, junk: seq<bv8>, m: nat)
    requires Shardable(codec, md5, file, junk, m) && FlippedOf(shards, sel, i, at, d, codec, md5, file, junk, m)
    ensures var start := BODY_START + PaddedSize(|file|) / K;
            var table := HashTable(md5, BodyCoding(codec, file, junk, m));
            && start <= |shards[i]| && |shards[i]| - start == |table|
            && TableOf(shards, |shards|, m)
               == if i == |shards| - 1 && start <= at then Flip(table, at - start, d) else table
  {
    hide Shard, BodyCoding, HashTable, PaddedSize, TableOf, TimesContract, Flip, DigestSize;
    var last := |shards| - 1;
    WholeShardEnd(codec, md5, file, junk, m, sel[i]);
    WholeShardEnd(codec, md5, file, junk, m, sel[last]);
    FlippedEnd(Shard(codec, md5, file, junk, m, sel[i]), at, d, BODY_START + PaddedSize(|file|) / K);
    LastTable(shards, m);
  }

  /** Where shard i has its body, c holds something with another digest. */
  ghost predicate DigestDiffers(codec: Codec, md5: Md5, file: seq<bv8>, junk: seq<bv8>, m: nat, c: seq<bv8>, i: nat)
    requires Shardable(codec, md5, file, junk, m) && i < m
  {
    var end := BODY_START + PaddedSize(|file|) / K;
    end <= |c| && md5(c[BODY_START..end]) != md5(BodyCoding(codec, file, junk, m)[i])
  }

  /** A changed body with another digest is rejected. */
  lemma FlippedBodyRejected(codec: Codec, md5: Md5, file: seq<bv8>, junk: seq<bv8>, m: nat, i: nat, at: nat, d: bv8)
    requires Shardable(codec, md5, file, junk, m) && i < m <= 255 && d != 0 && FirstColumnOnes(codec.coding, K, m)
    requires BODY_START <= at < |Shard(codec, md5, file, junk, m, i)| && at < BODY_START + PaddedSize(|file|) / K
    requires DigestDiffers(codec, md5, file, junk, m, Flip(Shard(codec, md5, file, junk, m, i), at, d), i)
    ensures !GoodShard(md5, Flip(Shard(codec, md5, file, junk, m, i), at, d), HashTable(md5, BodyCoding(codec, file, junk, m)), m)
  {
    hide Shard, MetaCoding, BodyCoding, HashTable, PaddedSize, MetaRight, TimesContract, ShardIndex, GoodShard, ScannedMeta, FirstColumnOnes, Flip;
    var c := Flip(Shard(codec, md5, file, junk, m, i), at, d);
    FlippedShardParts(codec, md5, file, junk, m, i, at, d);
    FrontScans(codec, md5, file, junk, m, c, i);
    GoodBySlot(md5, m, c, i, PaddedSize(|file|) / K, MetaFields(|file|, m), HashTable(md5, BodyCoding(codec, file, junk, m)));
    OwnTableRight(codec, md5, file, junk, m, i);
  }

  /** A flipped byte in a coded body, whose digest changes with it: this shard is lost, and no other. */
  lemma FlippedBody(shards: seq<seq<bv8>>, sel: seq<nat>, i: nat, at: nat, d: bv8,
                    codec: Codec, md5: Md5, file: seq<bv8>, junk: seq<bv8>, m: nat)
    requires Shardable(codec, md5, file, junk, m) && FlippedOf(shards, sel, i, at, d, codec, md5, file, junk, m)
    requires FirstColumnOnes(codec.coding, K, m) && Distinct(sel)
    requires at < BODY_START + PaddedSize(|file|) / K
    requires DigestDiffers(codec, md5, file, junk, m, shards[i], sel[i])
    ensures AcceptedUndamaged(shards, sel, codec, md5, file, junk, m)
    ensures EnoughIntact(shards, sel, codec, md5, file, junk, m) <==> K < |sel|
  {
    hide Shard, FrontOf, BodyRight, MetaRight, BodyCoding, HashTable, PaddedSize, TimesContract, GoodShard, FirstColumnOnes,
         SlotRight, TableOf, EnoughIntact, Flip, DigestDiffers;
    FlippedBodyRejected(codec, md5, file, junk, m, sel[i], at, d);
    TrustedAfterFlip(shards, sel, i, at, d, codec, md5, file, junk, m);
    forall j | 0 <= j < |shards| && j != i
      ensures Undamaged(shards, sel, j, codec, md5, file, junk, m) && Intact(shards, sel, j, codec, md5, file, junk, m)
    {
      OtherFront(shards, sel, i, at, d, j, codec, md5, file, junk, m);
      OwnTableRight(codec, md5, file, junk, m, sel[j]);
    }
    assert AcceptedUndamaged(shards, sel, codec, md5, file, junk, m) by {
      FrontHalves(shards, sel, i, codec, md5, file, junk, m);
    }
    GoodIffIntact(shards, sel, i, codec, md5, file, junk, m);
    EnoughButOne(shards, sel, i, codec, md5, file, junk, m);
  }

  lemma FrontHalves(shards: seq<seq<bv8>>, sel: seq<nat>, i: nat,
                    codec: Codec, md5: Md5, file: seq<bv8>, junk: seq<bv8>, m: nat)
    requires Shardable(codec, md5, file, junk, m) && |sel| == |shards|
    requires forall j :: 0 <= j < |shards| && j != i ==> Undamaged(shards, sel, j, codec, md5, file, junk, m)
    requires i < |shards|
    requires GoodShard(md5, shards[i], TableOf(shards, |shards|, m), m) ==> Undamaged(shards, sel, i, codec, md5, file, junk, m)
    ensures AcceptedUndamaged(shards, sel, codec, md5, file, junk, m)
  {
    hide BodyRight, MetaRight, TimesContract, GoodShard, TableOf;
    assert forall j :: 0 <= j < |shards| && GoodShard(md5, shards[j], TableOf(shards, |shards|, m), m) ==>
             Undamaged(shards, sel, j, codec, md5, file, junk, m);
  }

  /** In the flipped table all slots but one are right. */
  lemma FlippedSlots(codec: Codec, md5: Md5, file: seq<bv8>, junk: seq<bv8>, m: nat, at: nat, d: bv8, i: nat)
    requires Shardable(codec, md5, file, junk, m) && i < m && d != 0
    requires at < |HashTable(md5, BodyCoding(codec, file, junk, m))|
    ensures SlotRight(md5, Flip(HashTable(md5, BodyCoding(codec, file, junk, m)), at, d), m, i, BodyCoding(codec, file, junk, m)[i])
       <==> i != at / MD5_LEN
  {
    hide BodyCoding, HashTable, TimesContract, Flip;
    OwnTableRight(codec, md5, file, junk, m, i);
    FlippedSlice(HashTable(md5, BodyCoding(codec, file, junk, m)), at, d, MD5_LEN * i, MD5_LEN * i + MD5_LEN);
  }

  /**
   A flipped byte in a hash table is harmless unless it is the last shard's, which is the
   trusted one: then the shard whose digest it was in is lost, if it is among them.
   */
  lemma FlippedTable(shards: seq<seq<bv8>>, sel: seq<nat>, i: nat, at: nat, d: bv8,
                     codec: Codec, md5: Md5, file: seq<bv8>, junk: seq<bv8>, m: nat)
    requires Shardable(codec, md5, file, junk, m) && FlippedOf(shards, sel, i, at, d, codec, md5, file, junk, m)
    requires FirstColumnOnes(codec.coding, K, m) && Distinct(sel)
    requires BODY_START + PaddedSize(|file|) / K <= at
    ensures AcceptedUndamaged(shards, sel, codec, md5, file, junk, m)
    ensures var slot := (at - BODY_START - PaddedSize(|file|) / K) / MD5_LEN;
            (EnoughIntact(shards, sel, codec, md5, file, junk, m)
             <==> if i == |sel| - 1 && slot in sel then K < |sel| else K <= |sel|)
  {
    hide Shard, FrontOf, BodyRight, MetaRight, BodyCoding, HashTable, PaddedSize, TimesContract, GoodShard, FirstColumnOnes,
         SlotRight, TableOf, EnoughIntact, Flip, AcceptedUndamaged, Elements;
    TrustedAfterFlip(shards, sel, i, at, d, codec, md5, file, junk, m);
    FlippedFront(shards, sel, i, at, d, codec, md5, file, junk, m);
    var start := BODY_START + PaddedSize(|file|) / K;
    var slot := (at - start) / MD5_LEN;
    forall j | 0 <= j < |shards|
      ensures Undamaged(shards, sel, j, codec, md5, file, junk, m)
      ensures Intact(shards, sel, j, codec, md5, file, junk, m) <==> !(i == |sel| - 1 && sel[j] == slot)
    {
      if j != i {
        OtherFront(shards, sel, i, at, d, j, codec, md5, file, junk, m);
      }
      OwnTableRight(codec, md5, file, junk, m, sel[j]);
      FlippedSlots(codec, md5, file, junk, m, at - start, d, sel[j]);
    }
    FrontHalves(shards, sel, i, codec, md5, file, junk, m);
    DistinctElements(sel);
    if i == |sel| - 1 && slot in sel {
      var skip: nat :| skip < |sel| && sel[skip] == slot;
      EnoughButOne(shards, sel, skip, codec, md5, file, junk, m);
    } else {
      EnoughIfAll(shards, sel, codec, md5, file, junk, m);
    }
  }

  lemma FlippedFront(shards: seq<seq<bv8>>, sel: seq<nat>, i: nat, at: nat, d: bv8,
                     codec: Codec, md5: Md5, file: seq<bv8>, junk: seq<bv8>, m: nat)
    requires Shardable(codec, md5, file, junk, m) && FlippedOf(shards, sel, i, at, d, codec, md5, file, junk, m)
    requires BODY_START + PaddedSize(|file|) / K <= at
    ensures Undamaged(shards, sel, i, codec, md5, file, junk, m)
  {
    hide Shard, MetaRight, BodyCoding, HashTable, PaddedSize, TimesContract, ShardIndex, Flip;
    FlippedShardParts(codec, md5, file, junk, m, sel[i], at, d);
  }
}
