/**
 Unsharding with damaged shards among the others: what validation catches, what it does
 not, and exactly when the file still comes back.
 */
module RsDamage {
  import opened Bytes
  import opened Metadata
  import opened Lists
  import opened ErasureCode
  import opened RsLayout
  import opened RsRecovery

  /** The shard at j is undamaged, up to its hash table: it is shard sel[j] of the file. */
  ghost predicate Undamaged(shards: seq<seq<bv8>>, sel: seq<nat>, j: nat, codec: Codec, md5: Md5, file: seq<bv8>, junk: seq<bv8>, m: nat)
    requires Shardable(codec, md5, file, junk, m) && |sel| == |shards| && j < |shards|
  {
    FrontOf(codec, md5, file, junk, m, shards[j], sel[j])
  }

  /** Which shards the accepted ones are. */
  function GoodSelection(shards: seq<seq<bv8>>, sel: seq<nat>, n: nat, md5: Md5, table: seq<bv8>, m: nat): (good: seq<nat>)
    requires n <= |shards| == |sel|
    ensures |good| == |GoodOf(shards, n, md5, table, m)|
  {
    if n == 0 then []
    else GoodSelection(shards, sel, n - 1, md5, table, m) + (if GoodShard(md5, shards[n - 1], table, m) then [sel[n - 1]] else [])
  }

  lemma {:induction false} GoodAreUndamaged(shards: seq<seq<bv8>>, sel: seq<nat>, n: nat, table: seq<bv8>,
                                            codec: Codec, md5: Md5, file: seq<bv8>, junk: seq<bv8>, m: nat)
    requires Shardable(codec, md5, file, junk, m) && n <= |shards| == |sel|
    requires forall j :: 0 <= j < |shards| && GoodShard(md5, shards[j], table, m) ==>
               Undamaged(shards, sel, j, codec, md5, file, junk, m)
    ensures FrontsOf(GoodOf(shards, n, md5, table, m), GoodSelection(shards, sel, n, md5, table, m), codec, md5, file, junk, m)
    ensures forall j :: 0 <= j < n && GoodShard(md5, shards[j], table, m) ==> sel[j] in GoodSelection(shards, sel, n, md5, table, m)
  {
    hide GoodShard, FrontOf, Shardable;
    if n > 0 {
      GoodAreUndamaged(shards, sel, n - 1, table, codec, md5, file, junk, m);
    }
  }

  /** The digests of the trusted table accept no shard with a wrong index or body. */
  ghost predicate DigestsTell(shards: seq<seq<bv8>>, sel: seq<nat>, codec: Codec, md5: Md5, file: seq<bv8>, junk: seq<bv8>, m: nat)
    requires Shardable(codec, md5, file, junk, m)
  {
    && |sel| == |shards|
    && forall j :: 0 <= j < |shards| && GoodShard(md5, shards[j], TableOf(shards, |shards|, m), m) ==>
         BodyRight(codec, md5, file, junk, m, shards[j], sel[j])
  }

  /** No accepted shard has a wrong metadata block, which no digest covers. */
  ghost predicate MetadataIntact(shards: seq<seq<bv8>>, sel: seq<nat>, codec: Codec, md5: Md5, file: seq<bv8>, junk: seq<bv8>, m: nat)
    requires Shardable(codec, md5, file, junk, m)
  {
    && |sel| == |shards|
    && forall j :: 0 <= j < |shards| && GoodShard(md5, shards[j], TableOf(shards, |shards|, m), m) ==>
         MetaRight(codec, md5, file, junk, m, shards[j], sel[j])
  }

  /** No accepted shard is damaged in front of its hash table. */
  ghost predicate AcceptedUndamaged(shards: seq<seq<bv8>>, sel: seq<nat>, codec: Codec, md5: Md5, file: seq<bv8>, junk: seq<bv8>, m: nat)
    requires Shardable(codec, md5, file, junk, m)
  {
    && DigestsTell(shards, sel, codec, md5, file, junk, m)
    && MetadataIntact(shards, sel, codec, md5, file, junk, m)
  }

  /** The shard at j is undamaged, and its slot in the trusted table is right. */
  ghost predicate Intact(shards: seq<seq<bv8>>, sel: seq<nat>, j: nat, codec: Codec, md5: Md5, file: seq<bv8>, junk: seq<bv8>, m: nat)
    requires Shardable(codec, md5, file, junk, m) && |sel| == |shards| && j < |shards|
  {
    && Undamaged(shards, sel, j, codec, md5, file, junk, m)
    && SlotRight(md5, TableOf(shards, |shards|, m), m, sel[j], BodyCoding(codec, file, junk, m)[sel[j]])
  }

  ghost predicate IntactAt(shards: seq<seq<bv8>>, sel: seq<nat>, positions: seq<nat>,
                           codec: Codec, md5: Md5, file: seq<bv8>, junk: seq<bv8>, m: nat)
    requires Shardable(codec, md5, file, junk, m) && |sel| == |shards|
  {
    && (forall l :: 0 <= l < |positions| ==>
          positions[l] < |shards| && Intact(shards, sel, positions[l], codec, md5, file, junk, m))
    && (forall l, r :: 0 <= l < r < |positions| ==> sel[positions[l]] != sel[positions[r]])
  }

  /** Eight different shards are intact. */
  ghost predicate EnoughIntact(shards: seq<seq<bv8>>, sel: seq<nat>, codec: Codec, md5: Md5, file: seq<bv8>, junk: seq<bv8>, m: nat)
    requires Shardable(codec, md5, file, junk, m) && |sel| == |shards|
  {
    exists positions: seq<nat> :: |positions| == K && IntactAt(shards, sel, positions, codec, md5, file, junk, m)
  }

  /** Accepted and intact is the same. */
  lemma GoodIffIntact(shards: seq<seq<bv8>>, sel: seq<nat>, j: nat, codec: Codec, md5: Md5, file: seq<bv8>, junk: seq<bv8>, m: nat)
    requires Shardable(codec, md5, file, junk, m) && m <= 255 && FirstColumnOnes(codec.coding, K, m)
    requires AcceptedUndamaged(shards, sel, codec, md5, file, junk, m) && j < |shards|
    ensures GoodShard(md5, shards[j], TableOf(shards, |shards|, m), m) <==> Intact(shards, sel, j, codec, md5, file, junk, m)
  {
    hide GoodShard, BodyCoding, TableOf, SlotRight, FirstColumnOnes, Shardable, BodyRight, MetaRight;
    if Undamaged(shards, sel, j, codec, md5, file, junk, m) {
      GoodIffSlotRight(codec, md5, file, junk, m, shards[j], sel[j], TableOf(shards, |shards|, m));
    }
  }

  lemma {:induction false} SelectedGood(shards: seq<seq<bv8>>, sel: seq<nat>, n: nat, md5: Md5, table: seq<bv8>, m: nat, l: nat)
    returns (j: nat)
    requires n <= |shards| == |sel| && l < |GoodSelection(shards, sel, n, md5, table, m)|
    ensures j < n && GoodShard(md5, shards[j], table, m) && sel[j] == GoodSelection(shards, sel, n, md5, table, m)[l]
  {
    hide GoodShard;
    if l < |GoodSelection(shards, sel, n - 1, md5, table, m)| {
      j := SelectedGood(shards, sel, n - 1, md5, table, m, l);
    } else {
      j := n - 1;
    }
  }

  lemma GoodAreIntact(shards: seq<seq<bv8>>, sel: seq<nat>, codec: Codec, md5: Md5, file: seq<bv8>, junk: seq<bv8>, m: nat)
    requires Shardable(codec, md5, file, junk, m) && m <= 255 && FirstColumnOnes(codec.coding, K, m)
    requires AcceptedUndamaged(shards, sel, codec, md5, file, junk, m)
    requires K <= |Elements(GoodSelection(shards, sel, |shards|, md5, TableOf(shards, |shards|, m), m))|
    ensures EnoughIntact(shards, sel, codec, md5, file, junk, m)
  {
    hide GoodShard, Intact, FirstColumnOnes, Shardable, TableOf, GoodSelection, Elements, AcceptedUndamaged;
    assert |sel| == |shards| by { AsMany(shards, sel, codec, md5, file, junk, m); }
    var n, table := |shards|, TableOf(shards, |shards|, m);
    var good := GoodSelection(shards, sel, n, md5, table, m);
    var picked := PickPositions(good, K);
    var positions: seq<nat> := [];
    for l := 0 to K
      invariant |positions| == l
      invariant forall r :: 0 <= r < l ==> positions[r] < n && sel[positions[r]] == good[picked[r]]
      invariant forall r :: 0 <= r < l ==> Intact(shards, sel, positions[r], codec, md5, file, junk, m)
    {
      var j := SelectedGood(shards, sel, n, md5, table, m, picked[l]);
      GoodIffIntact(shards, sel, j, codec, md5, file, junk, m);
      positions := positions + [j];
    }
    assert IntactAt(shards, sel, positions, codec, md5, file, junk, m);
  }

  lemma AsMany(shards: seq<seq<bv8>>, sel: seq<nat>, codec: Codec, md5: Md5, file: seq<bv8>, junk: seq<bv8>, m: nat)
    requires Shardable(codec, md5, file, junk, m) && AcceptedUndamaged(shards, sel, codec, md5, file, junk, m)
    ensures |sel| == |shards|
  {}

  /** Eight different shards are accepted exactly when eight different ones are intact. */
  lemma EnoughGood(shards: seq<seq<bv8>>, sel: seq<nat>, codec: Codec, md5: Md5, file: seq<bv8>, junk: seq<bv8>, m: nat)
    requires Shardable(codec, md5, file, junk, m) && m <= 255 && FirstColumnOnes(codec.coding, K, m)
    requires AcceptedUndamaged(shards, sel, codec, md5, file, junk, m)
    ensures K <= |Elements(GoodSelection(shards, sel, |shards|, md5, TableOf(shards, |shards|, m), m))|
       <==> EnoughIntact(shards, sel, codec, md5, file, junk, m)
  {
    hide GoodShard, Intact, FirstColumnOnes, Shardable, TableOf, GoodSelection, Elements;
    var n, table := |shards|, TableOf(shards, |shards|, m);
    var good := GoodSelection(shards, sel, n, md5, table, m);
    if K <= |Elements(good)| {
      GoodAreIntact(shards, sel, codec, md5, file, junk, m);
    }
    if EnoughIntact(shards, sel, codec, md5, file, junk, m) {
      var positions: seq<nat> :| |positions| == K && IntactAt(shards, sel, positions, codec, md5, file, junk, m);
      GoodAreUndamaged(shards, sel, n, table, codec, md5, file, junk, m);
      forall l | 0 <= l < K ensures sel[positions[l]] in Elements(good) {
        GoodIffIntact(shards, sel, positions[l], codec, md5, file, junk, m);
        ElementIn(good, sel[positions[l]]);
      }
      CountPositions(sel, positions, Elements(good));
    }
  }

  /** Whole shards, table included, are all intact. */
  lemma WholeShards(shards: seq<seq<bv8>>, sel: seq<nat>, codec: Codec, md5: Md5, file: seq<bv8>, junk: seq<bv8>, m: nat)
    requires Shardable(codec, md5, file, junk, m) && m <= 255
    requires ShardsOf(shards, sel, codec, md5, file, junk, m)
    ensures AcceptedUndamaged(shards, sel, codec, md5, file, junk, m)
    ensures forall j :: 0 <= j < |shards| ==> Intact(shards, sel, j, codec, md5, file, junk, m)
  {
    hide GoodShard, Shard, BodyRight, MetaRight, TableOf, SlotRight, BodyCoding, HashTable;
    ShardsAreFronts(shards, sel, codec, md5, file, junk, m);
    if shards != [] {
      WholeTable(shards, sel, codec, md5, file, junk, m);
      forall j | 0 <= j < |shards| ensures Intact(shards, sel, j, codec, md5, file, junk, m) {
        OwnTableRight(codec, md5, file, junk, m, sel[j]);
      }
    }
  }

  /** The trusted table is that of the last shard, if that one is long enough. */
  lemma LastTable(shards: seq<seq<bv8>>, m: nat)
    requires shards != [] && MD5_LEN * m <= |shards[|shards| - 1]|
    ensures var last := shards[|shards| - 1];
            TableOf(shards, |shards|, m) == last[|last| - MD5_LEN * m..]
  {}

  lemma WholeTable(shards: seq<seq<bv8>>, sel: seq<nat>, codec: Codec, md5: Md5, file: seq<bv8>, junk: seq<bv8>, m: nat)
    requires Shardable(codec, md5, file, junk, m) && m <= 255
    requires ShardsOf(shards, sel, codec, md5, file, junk, m) && shards != []
    ensures TableOf(shards, |shards|, m) == HashTable(md5, BodyCoding(codec, file, junk, m))
  {
    hide Shard, BodyCoding, HashTable, MetaCoding, ShardIndex, TableOf, PaddedSize, TimesContract;
    ShardParts(codec, md5, file, junk, m, sel[|sel| - 1]);
    LastTable(shards, m);
  }

  /** If all are intact, enough are when enough are different. */
  lemma EnoughIfAll(shards: seq<seq<bv8>>, sel: seq<nat>, codec: Codec, md5: Md5, file: seq<bv8>, junk: seq<bv8>, m: nat)
    requires Shardable(codec, md5, file, junk, m) && |sel| == |shards|
    requires forall j :: 0 <= j < |shards| ==> Intact(shards, sel, j, codec, md5, file, junk, m)
    ensures EnoughIntact(shards, sel, codec, md5, file, junk, m) <==> K <= |Elements(sel)|
  {
    hide Intact, Elements, Shardable;
    if EnoughIntact(shards, sel, codec, md5, file, junk, m) {
      var positions: seq<nat> :| |positions| == K && IntactAt(shards, sel, positions, codec, md5, file, junk, m);
      forall l | 0 <= l < K ensures sel[positions[l]] in Elements(sel) {
        ElementIn(sel, sel[positions[l]]);
      }
      CountPositions(sel, positions, Elements(sel));
    }
    if K <= |Elements(sel)| {
      var positions := PickPositions(sel, K);
      assert IntactAt(shards, sel, positions, codec, md5, file, junk, m);
    }
  }

  /** If all shards are different and all but one are intact, it takes nine. */
  lemma EnoughButOne(shards: seq<seq<bv8>>, sel: seq<nat>, skip: nat,
                     codec: Codec, md5: Md5, file: seq<bv8>, junk: seq<bv8>, m: nat)
    requires Shardable(codec, md5, file, junk, m) && |sel| == |shards| && Distinct(sel) && skip < |sel|
    requires forall j :: 0 <= j < |shards| ==> (Intact(shards, sel, j, codec, md5, file, junk, m) <==> j != skip)
    ensures EnoughIntact(shards, sel, codec, md5, file, junk, m) <==> K < |sel|
  {
    hide Intact, Elements, Shardable;
    if EnoughIntact(shards, sel, codec, md5, file, junk, m) {
      var positions: seq<nat> :| |positions| == K && IntactAt(shards, sel, positions, codec, md5, file, junk, m);
      forall l | 0 <= l < K ensures sel[positions[l]] in Elements(sel) - {sel[skip]} {
        ElementIn(sel, sel[positions[l]]);
      }
      CountPositions(sel, positions, Elements(sel) - {sel[skip]});
      ElementIn(sel, sel[skip]);
      DistinctElements(sel);
    }
    if K < |sel| {
      var positions: seq<nat> := seq(K, l => if l < skip then l else l + 1);
      assert IntactAt(shards, sel, positions, codec, md5, file, junk, m);
    }
  }

  lemma ElementIn(xs: seq<nat>, x: nat)
    requires x in xs
    ensures x in Elements(xs)
  {}

  /** With fewer than eight different shards the first decoding pass fails. */
  lemma TooFewFail(shards: seq<seq<bv8>>, sel: seq<nat>, codec: Codec, md5: Md5, file: seq<bv8>, junk: seq<bv8>, m: nat)
    requires Shardable(codec, md5, file, junk, m) && m <= 255 && CodecContract(codec, K, m)
    requires FrontsOf(shards, sel, codec, md5, file, junk, m)
    requires |Elements(sel)| < K
    ensures Indexed(shards) && RsUnshard(codec, shards, m) == (-1, [])
  {
    hide PrintMeta, Present, Elements, ErasureList, PaddedSize, ScanMeta, FrontsOf, Plausible, Join, Truncate, Take;
    ShardsIndexed(shards, sel, codec, md5, file, junk, m);
    SelectionFits(shards, sel, codec, md5, file, junk, m);
    var indices := Indices(shards);
    PresentCount(m, sel, indices);
    ErasureBound(K, m, indices);
    ErasureListExact(K, m, indices);
    DecodeFails(codec, m, ErasureList(K, m, indices), AllCodingRead(shards, INDEX_LEN, META_BLOCK, m), META_BLOCK);
  }

  lemma DecodeFails(codec: Codec, m: nat, erasures: seq<int>, coding: seq<Block>, size: nat)
    requires CodecContract(codec, K, m) && size % WORD == 0
    requires WellFormedErasures(erasures, K, m) && Blocks(coding, m, size) && m < |erasures|
    ensures codec.decode(K, m, erasures, coding, size).0 == -1
  {
    hide WellFormedErasures, TimesContract, AnyRowsDetermine, FirstColumnOnes;
    var result := codec.decode(K, m, erasures, coding, size);
    assert DecodesTo(codec.coding, K, m, erasures, coding, size, result);
  }

  /**
   Exactly when damaged shards do no harm: among any shards, of which validation accepts
   none that is damaged in front of its hash table, unsharding gives the file if eight
   different ones are undamaged there and have the right slot in the last readable table,
   and fails otherwise.
   */
  lemma RecoveryExact(shards: seq<seq<bv8>>, sel: seq<nat>, codec: Codec, md5: Md5, file: seq<bv8>, junk: seq<bv8>, m: nat)
    requires Shardable(codec, md5, file, junk, m) && m <= 255 && CodecContract(codec, K, m)
    requires AcceptedUndamaged(shards, sel, codec, md5, file, junk, m)
    ensures RsUnshard(codec, Validated(shards, md5, m), m)
         == if EnoughIntact(shards, sel, codec, md5, file, junk, m) then (1, file) else (-1, [])
  {
    var n, table := |shards|, TableOf(shards, |shards|, m);
    var good := GoodSelection(shards, sel, n, md5, table, m);
    GoodAreUndamaged(shards, sel, n, table, codec, md5, file, junk, m);
    EnoughGood(shards, sel, codec, md5, file, junk, m);
    hide *;
    if K <= |Elements(good)| {
      RsRoundTrip(GoodOf(shards, n, md5, table, m), good, codec, md5, file, junk, m);
    } else {
      TooFewFail(GoodOf(shards, n, md5, table, m), good, codec, md5, file, junk, m);
    }
    assert Validated(shards, md5, m) == GoodOf(shards, n, md5, table, m) by {
      ValidatedIs(shards, md5, m);
    }
  }

  /**
   What the missing vote costs: when the table of the last readable shard has fewer than
   eight right slots, unsharding fails, however many other shards agree on the right table.
   */
  lemma WrongTableStops(shards: seq<seq<bv8>>, sel: seq<nat>, right: set<nat>,
                        codec: Codec, md5: Md5, file: seq<bv8>, junk: seq<bv8>, m: nat)
    requires Shardable(codec, md5, file, junk, m) && m <= 255 && CodecContract(codec, K, m)
    requires AcceptedUndamaged(shards, sel, codec, md5, file, junk, m)
    requires |right| < K
    requires forall i :: 0 <= i < m && SlotRight(md5, TableOf(shards, |shards|, m), m, i, BodyCoding(codec, file, junk, m)[i]) ==>
               i in right
    ensures RsUnshard(codec, Validated(shards, md5, m), m) == (-1, [])
  {
    RecoveryExact(shards, sel, codec, md5, file, junk, m);
    hide GoodShard, CodecContract, Shard, BodyCoding, TableOf, SlotRight, RsUnshard, Validated;
    if EnoughIntact(shards, sel, codec, md5, file, junk, m) {
      var positions: seq<nat> :| |positions| == K && IntactAt(shards, sel, positions, codec, md5, file, junk, m);
      CountPositions(sel, positions, right);
    }
  }

  lemma ValidatedIs(shards: seq<seq<bv8>>, md5: Md5, m: nat)
    ensures Validated(shards, md5, m) == GoodOf(shards, |shards|, md5, TableOf(shards, |shards|, m), m)
  {}

  /**
   In particular, damage is tolerated as long as the last readable shard holds the file's
   table and eight different shards are undamaged.
   */
  lemma DamageTolerated(shards: seq<seq<bv8>>, sel: seq<nat>, positions: seq<nat>,
                        codec: Codec, md5: Md5, file: seq<bv8>, junk: seq<bv8>, m: nat)
    requires Shardable(codec, md5, file, junk, m) && m <= 255 && CodecContract(codec, K, m)
    requires AcceptedUndamaged(shards, sel, codec, md5, file, junk, m)
    requires TableOf(shards, |shards|, m) == HashTable(md5, BodyCoding(codec, file, junk, m))
    requires |positions| == K
    requires forall l :: 0 <= l < K ==>
      positions[l] < |shards| && Undamaged(shards, sel, positions[l], codec, md5, file, junk, m)
    requires forall l, r :: 0 <= l < r < K ==> sel[positions[l]] != sel[positions[r]]
    ensures RsUnshard(codec, Validated(shards, md5, m), m) == (1, file)
  {
    hide GoodShard, CodecContract, Shard, HashTable, BodyCoding, RsUnshard, TableOf, SlotRight, Validated;
    forall l | 0 <= l < K ensures Intact(shards, sel, positions[l], codec, md5, file, junk, m) {
      OwnTableRight(codec, md5, file, junk, m, sel[positions[l]]);
    }
    assert IntactAt(shards, sel, positions, codec, md5, file, junk, m);
    RecoveryExact(shards, sel, codec, md5, file, junk, m);
  }

  // ----- Damaged metadata -----

  /**
   Validation does not check the metadata: a shard whose index and body are right passes
   with any eight integers of the same block size and one read-in, and no digest collides.
   */
  lemma MetadataUnchecked(codec: Codec, md5: Md5, file: seq<bv8>, junk: seq<bv8>, m: nat, c: seq<bv8>, i: nat,
                          fields: seq<int>, table: seq<bv8>)
    requires Shardable(codec, md5, file, junk, m) && FirstColumnOnes(codec.coding, K, m)
    requires BodyRight(codec, md5, file, junk, m, c, i)
    requires |fields| == FIELDS && HoldsText(c, fields)
    requires fields[1] == PaddedSize(|file|) / K && fields[7] == 1
    ensures GoodShard(md5, c, table, m) <==> SlotRight(md5, table, m, i, BodyCoding(codec, file, junk, m)[i])
    ensures fields != MetaFields(|file|, m) ==> !MetaRight(codec, md5, file, junk, m, c, i)
  {
    hide GoodShard, BodyRight, HoldsText, SlotRight, BodyCoding, PaddedSize, FirstColumnOnes, ScannedMeta, MetaFields;
    assert INDEX_LEN <= |c| by { TextFits(c, fields); }
    ScanTextBlock(c, fields);
    GoodByBody(codec, md5, file, junk, m, c, i, fields, table);
    if MetaRight(codec, md5, file, junk, m, c, i) {
      FrontScans(codec, md5, file, junk, m, c, i);
    }
  }

  lemma TextFits(c: seq<bv8>, fields: seq<int>)
    requires |fields| == FIELDS && HoldsText(c, fields)
    ensures INDEX_LEN <= |c|
  {}

  /**
   And such a shard reaches the decoding: when eight different coded blocks are right and
   one more is wrong, there is no data that explains them all, and decoding promises nothing.
   */
  lemma NothingExplains(codec: Codec, m: nat, erasures: seq<int>, coding: seq<Block>, data: seq<Block>, size: nat,
                        rows: seq<nat>, wrong: nat)
    requires CodecContract(codec, K, m) && size % WORD == 0
    requires Blocks(data, K, size) && Blocks(coding, m, size)
    requires |rows| == K && Distinct(rows)
    requires forall l :: 0 <= l < K ==> rows[l] < m && K + rows[l] !in erasures
                                        && coding[rows[l]] == CodingBlock(codec.coding, K, m, rows[l], data, size)
    requires wrong < m && K + wrong !in erasures
    requires coding[wrong] != CodingBlock(codec.coding, K, m, wrong, data, size)
    ensures !Decodable(codec.coding, K, m, erasures, coding, size)
  {
    hide CodingBlock, TimesContract, DecodeContract, FirstColumnOnes;
    forall other | Blocks(other, K, size) && Survivors(codec.coding, K, m, erasures, coding, other, size)
      ensures other == data
    {
      assert AgreeOn(codec.coding, K, m, rows, data, other, size);
    }
    assert !Survivors(codec.coding, K, m, erasures, coding, data, size);
  }
}
