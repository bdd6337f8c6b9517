/**
 One flipped byte in one of the stored shards, by where it is.
 */
module PipelineFlips {
  import opened Bytes
  import opened Metadata
  import opened Lists
  import opened Bitslice
  import opened Shamir
  import opened SecretShares
  import opened ErasureCode
  import opened RsLayout
  import opened RsRecovery
  import opened RsDamage
  import opened RsFlips
  import opened Pipeline
  import opened PipelineRecovery
  import Randomize

  /** A byte that is flipped behind the pre-image is flipped in the plain shard, and no other is. */
  lemma FlipPassesThrough<C(!new)>(sha: Randomize.Sha<C>, stored: seq<bv8>, at: nat, d: bv8)
    requires Randomize.DigestSize(sha) && Randomize.DIGEST_LEN + SHARE_LEN <= |stored|
    requires Randomize.DIGEST_LEN <= at < |stored|
    ensures Plain(sha, Flip(stored, at, d)) == Flip(Plain(sha, stored), at - Randomize.DIGEST_LEN, d)
  {
    hide Randomize.Pad;
    var flipped := Flip(stored, at, d);
    assert flipped[..Randomize.DIGEST_LEN] == stored[..Randomize.DIGEST_LEN];
    var pad := Randomize.Pad(sha, stored[..Randomize.DIGEST_LEN], |stored| - Randomize.DIGEST_LEN);
    Randomize.PadLength(sha, stored[..Randomize.DIGEST_LEN], |stored| - Randomize.DIGEST_LEN);
    FlipBits(stored[at], d, pad[at - Randomize.DIGEST_LEN]);
  }

  /**
   The erasure-coded layer alone would drop a damaged shard; the shares are all combined,
   so one whose sealed part is damaged stops the whole recovery, however many are intact.
   */
  lemma DamagedShareStops<C(!new)>(stored: seq<seq<bv8>>, i: nat, j: nat, libs: Libraries<C>, n: nat)
    requires Contracts(libs, n) && LongEnough(stored)
    requires i < |stored| < 256 && j < |stored|
    requires Plain(libs.sha, stored[i])[KEYSHARE_LEN..SHARE_LEN] != Plain(libs.sha, stored[j])[KEYSHARE_LEN..SHARE_LEN]
    ensures Unsharded(libs, stored, n) == None
  {
    hide Plain, CodecContract, RsUnshard, Validated, Bodies, OpenUndoesSeal, Opened;
    var shares := Shares(libs.sha, stored);
    AllUsed(libs.sha, stored);
    assert shares[i][KEYSHARE_LEN..] == Plain(libs.sha, stored[i])[KEYSHARE_LEN..SHARE_LEN];
    assert shares[j][KEYSHARE_LEN..] == Plain(libs.sha, stored[j])[KEYSHARE_LEN..SHARE_LEN];
    assert !CiphertextsAgree(shares);
  }

  /** The parts of a plain shard: a key share of the shared key, and the sealed part. */
  lemma StoredShareParts<C(!new)>(libs: Libraries<C>, draw: Draw, file: seq<bv8>, n: nat, i: nat)
    requires Pipeline.Shardable(libs, draw, file, n) && i < n
    ensures Randomize.DigestSize(libs.sha) && |draw.shareKey| == LANES
    ensures BOX_ZERO_BYTES <= |Ciphertext(libs.box, Secret(draw), draw.shareKey)|
    ensures var s := StoredShard(libs, draw, file, n, i);
            && Randomize.DIGEST_LEN + SHARE_LEN <= |s|
            && Plain(libs.sha, s)[..KEYSHARE_LEN] == Keyshare(draw.shareKey, draw.coeffs, ToByte(i + 1))
            && Plain(libs.sha, s)[KEYSHARE_LEN..SHARE_LEN] == Ciphertext(libs.box, Secret(draw), draw.shareKey)[BOX_ZERO_BYTES..]
  {
    hide Plain, PlainShard, StoredShard, Pipeline.Shardable, Ciphertext, Keyshare, ToByte, OpenUndoesSeal, RsLayout.Shardable, Contracts;
    ShardableParts(libs, draw, file, n);
    StoredParts(libs, draw, file, n, i);
    PlainParts(libs, draw, file, n, i);
    CiphertextSize(libs.box, Secret(draw), draw.shareKey);
    var p := PlainShard(libs, draw, file, n, i);
    assert p[..SHARE_LEN][..KEYSHARE_LEN] == p[..KEYSHARE_LEN];
    assert p[..SHARE_LEN][KEYSHARE_LEN..] == p[KEYSHARE_LEN..SHARE_LEN];
  }

  /** All stored shards have parts of this kind. */
  lemma StoredShares<C(!new)>(stored: seq<seq<bv8>>, sel: seq<nat>, libs: Libraries<C>, draw: Draw, file: seq<bv8>, n: nat)
    requires Pipeline.Shardable(libs, draw, file, n) && StoredFrom(stored, sel, libs, draw, file, n)
    ensures LongEnough(stored) && Contracts(libs, n) && |draw.shareKey| == LANES
    ensures BOX_ZERO_BYTES <= |Ciphertext(libs.box, Secret(draw), draw.shareKey)|
    ensures forall j :: 0 <= j < |stored| ==>
              Plain(libs.sha, stored[j])[..KEYSHARE_LEN] == Keyshare(draw.shareKey, draw.coeffs, ToByte(sel[j] + 1))
    ensures var sealed := Ciphertext(libs.box, Secret(draw), draw.shareKey)[BOX_ZERO_BYTES..];
            forall j :: 0 <= j < |stored| ==> Plain(libs.sha, stored[j])[KEYSHARE_LEN..SHARE_LEN] == sealed
  {
    hide Plain, StoredShard, Pipeline.Shardable, Ciphertext, Keyshare, ToByte, Contracts, OpenUndoesSeal, Randomize.DigestSize;
    ShardableParts(libs, draw, file, n);
    forall j | 0 <= j < |stored|
      ensures Randomize.DIGEST_LEN + SHARE_LEN <= |stored[j]|
      ensures Plain(libs.sha, stored[j])[..KEYSHARE_LEN] == Keyshare(draw.shareKey, draw.coeffs, ToByte(sel[j] + 1))
      ensures Plain(libs.sha, stored[j])[KEYSHARE_LEN..SHARE_LEN]
           == Ciphertext(libs.box, Secret(draw), draw.shareKey)[BOX_ZERO_BYTES..]
    {
      StoredShareParts(libs, draw, file, n, sel[j]);
    }
  }

  /** One flipped byte in the sealed part of one shard is enough. */
  lemma FlippedSealedByteStops<C(!new)>(stored: seq<seq<bv8>>, sel: seq<nat>, i: nat, at: nat, d: bv8,
                                        libs: Libraries<C>, draw: Draw, file: seq<bv8>, n: nat)
    requires Pipeline.Shardable(libs, draw, file, n) && StoredFrom(stored, sel, libs, draw, file, n)
    requires 2 <= |stored| < 256 && i < |stored| && d != 0
    requires Randomize.DIGEST_LEN + KEYSHARE_LEN <= at < Randomize.DIGEST_LEN + SHARE_LEN
    ensures LongEnough(stored) && Contracts(libs, n)
    ensures var damaged := stored[i := Flip(stored[i], at, d)];
            LongEnough(damaged) && Unsharded(libs, damaged, n) == None
  {
    hide Plain, Pipeline.Shardable, Contracts, Unsharded, StoredShard, Ciphertext, Keyshare, Flip, ToByte, Randomize.DigestSize;
    ShardableParts(libs, draw, file, n);
    StoredShares(stored, sel, libs, draw, file, n);
    var damaged := stored[i := Flip(stored[i], at, d)];
    FlipPassesThrough(libs.sha, stored[i], at, d);
    FlippedSlice(Plain(libs.sha, stored[i]), at - Randomize.DIGEST_LEN, d, KEYSHARE_LEN, SHARE_LEN);
    DamagedShareStops(damaged, i, if i == 0 then 1 else 0, libs, n);
  }

  /** A flipped value byte changes the key part, but neither its x nor the sealed part. */
  lemma FlippedFront(plain: seq<bv8>, at: nat, d: bv8)
    requires SHARE_LEN <= |plain| && 0 < at < KEYSHARE_LEN && d != 0
    ensures var flipped := Flip(plain, at, d);
            && flipped[..KEYSHARE_LEN] != plain[..KEYSHARE_LEN]
            && flipped[..KEYSHARE_LEN][0] == plain[0]
            && flipped[KEYSHARE_LEN..SHARE_LEN] == plain[KEYSHARE_LEN..SHARE_LEN]
  {
    FlipBits(plain[at], d, 0);
    assert Flip(plain, at, d)[..KEYSHARE_LEN][at] != plain[..KEYSHARE_LEN][at];
  }

  /** The two parts of the shares, from the plain shards. */
  lemma ShareParts<C(!new)>(sha: Randomize.Sha<C>, stored: seq<seq<bv8>>, j: nat)
    requires Randomize.DigestSize(sha) && LongEnough(stored) && j < |stored|
    ensures KeyParts(Shares(sha, stored))[j] == Plain(sha, stored[j])[..KEYSHARE_LEN]
    ensures Shares(sha, stored)[j][KEYSHARE_LEN..] == Plain(sha, stored[j])[KEYSHARE_LEN..SHARE_LEN]
  {
    hide Plain;
  }

  /** The shares after a value byte of the key part of shard i was flipped. */
  lemma FlippedKeyParts<C(!new)>(stored: seq<seq<bv8>>, sel: seq<nat>, i: nat, at: nat, d: bv8,
                                 libs: Libraries<C>, draw: Draw, file: seq<bv8>, n: nat)
    requires Pipeline.Shardable(libs, draw, file, n) && StoredFrom(stored, sel, libs, draw, file, n)
    requires |stored| < 256 && i < |stored| && d != 0
    requires Randomize.DIGEST_LEN < at < Randomize.DIGEST_LEN + KEYSHARE_LEN
    ensures LongEnough(stored) && |draw.shareKey| == LANES
    ensures var damaged := stored[i := Flip(stored[i], at, d)];
            && LongEnough(damaged) && SharesSealed(damaged, libs, draw, file, n)
            && var parts := KeyParts(Shares(libs.sha, damaged));
            && (forall j :: 0 <= j < |stored| ==> parts[j][0] == ToByte(sel[j] + 1))
            && (forall j :: 0 <= j < |stored| ==>
                  (parts[j] == Keyshare(draw.shareKey, draw.coeffs, ToByte(sel[j] + 1)) <==> j != i))
  {
    hide Plain, Pipeline.Shardable, Contracts, StoredShard, Ciphertext, ToByte, Shares, Keyshare, Flip, SharesSealed, Randomize.DigestSize;
    ShardableParts(libs, draw, file, n);
    StoredShares(stored, sel, libs, draw, file, n);
    var damaged := stored[i := Flip(stored[i], at, d)];
    FlipPassesThrough(libs.sha, stored[i], at, d);
    FlippedFront(Plain(libs.sha, stored[i]), at - Randomize.DIGEST_LEN, d);
    var sealed := Ciphertext(libs.box, Secret(draw), draw.shareKey)[BOX_ZERO_BYTES..];
    hide *;
    var parts := KeyParts(Shares(libs.sha, damaged));
    forall j | 0 <= j < |stored|
      ensures Shares(libs.sha, damaged)[j][KEYSHARE_LEN..] == sealed
      ensures parts[j][0] == ToByte(sel[j] + 1)
      ensures parts[j] == Keyshare(draw.shareKey, draw.coeffs, ToByte(sel[j] + 1)) <==> j != i
    {
      ShareParts(libs.sha, damaged, j);
      assert Plain(libs.sha, stored[j])[..KEYSHARE_LEN][0] == Plain(libs.sha, stored[j])[0];
    }
    assert SharesSealed(damaged, libs, draw, file, n) by {
      SealedAgain(damaged, libs, draw, file, n);
    }
  }

  lemma SealedAgain<C(!new)>(stored: seq<seq<bv8>>, libs: Libraries<C>, draw: Draw, file: seq<bv8>, n: nat)
    requires Pipeline.Shardable(libs, draw, file, n) && LongEnough(stored)
    requires |stored| < 256 && BOX_ZERO_BYTES <= |Ciphertext(libs.box, Secret(draw), draw.shareKey)|
    requires forall j :: 0 <= j < |stored| ==>
      Shares(libs.sha, stored)[j][KEYSHARE_LEN..] == Ciphertext(libs.box, Secret(draw), draw.shareKey)[BOX_ZERO_BYTES..]
    ensures SharesSealed(stored, libs, draw, file, n)
  {
    hide Plain, Ciphertext;
    AllUsed(libs.sha, stored);
  }

  /**
   One flipped byte among the 32 values of one key part changes the combined key; the secret
   stays sealed if opening rejects that one.
   */
  lemma FlippedKeyByteStops<C(!new)>(stored: seq<seq<bv8>>, sel: seq<nat>, i: nat, at: nat, d: bv8,
                                     libs: Libraries<C>, draw: Draw, file: seq<bv8>, n: nat)
    requires Pipeline.Shardable(libs, draw, file, n) && StoredFrom(stored, sel, libs, draw, file, n)
    requires Distinct(sel) && K <= |stored| && i < |stored| && d != 0
    requires Randomize.DIGEST_LEN < at < Randomize.DIGEST_LEN + KEYSHARE_LEN
    requires LongEnough(stored) && WrongKeyRejected(stored[i := Flip(stored[i], at, d)], libs, draw, file, n)
    ensures Contracts(libs, n)
    ensures var damaged := stored[i := Flip(stored[i], at, d)];
            LongEnough(damaged) && Unsharded(libs, damaged, n) == None
  {
    hide Plain, Pipeline.Shardable, Contracts, Unsharded, StoredShard, Ciphertext, Keyshare, ToByte, Flip, Shares,
         SharesSealed, WrongKeyRejected, CombinedKey, Elements, ShareCount, Randomize.DigestSize, OpenUndoesSeal;
    ShardableParts(libs, draw, file, n);
    DistinctBound(sel, n);
    PointsDiffer(sel, n);
    FlippedKeyParts(stored, sel, i, at, d, libs, draw, file, n);
    var damaged := stored[i := Flip(stored[i], at, d)];
    AllUsed(libs.sha, damaged);
    OneDamagedShare(KeyParts(Shares(libs.sha, damaged)), i, draw.shareKey, draw.coeffs);
    WrongCombination(damaged, libs, draw, file, n);
  }

  // ----- Behind the share -----

  /** A flip behind the share changes one body at one place, and no share. */
  lemma FlipBehindShare<C(!new)>(sha: Randomize.Sha<C>, stored: seq<seq<bv8>>, i: nat, at: nat, d: bv8)
    requires Randomize.DigestSize(sha) && LongEnough(stored) && i < |stored|
    requires Randomize.DIGEST_LEN + SHARE_LEN <= at < |stored[i]|
    ensures var damaged := stored[i := Flip(stored[i], at, d)];
            && LongEnough(damaged) && Shares(sha, damaged) == Shares(sha, stored)
            && at - Randomize.DIGEST_LEN - SHARE_LEN < |Bodies(sha, stored)[i]|
            && Bodies(sha, damaged)
               == Bodies(sha, stored)[i := Flip(Bodies(sha, stored)[i], at - Randomize.DIGEST_LEN - SHARE_LEN, d)]
  {
    hide Plain, Flip;
    var damaged := stored[i := Flip(stored[i], at, d)];
    FlipPassesThrough(sha, stored[i], at, d);
    FlippedTail(Plain(sha, stored[i]), at - Randomize.DIGEST_LEN, d, SHARE_LEN);
    assert Shares(sha, damaged) == Shares(sha, stored);
  }

  lemma FlippedTail(s: seq<bv8>, at: nat, d: bv8, lo: nat)
    requires lo <= at < |s|
    ensures Flip(s, at, d)[..lo] == s[..lo]
    ensures Flip(s, at, d)[lo..] == Flip(s[lo..], at - lo, d)
  {}

  /** Where the coded body starts in a stored shard, and where it ends. */
  const STORED_BODY: nat := Randomize.DIGEST_LEN + SHARE_LEN + BODY_START

  function BodyEnd(file: seq<bv8>): nat {
    STORED_BODY + PaddedSize(|file| + ZERO_BYTES) / K
  }

  /** Then the bodies are those of the file but for the flip, and the shares are intact. */
  lemma FlippedBodies<C(!new)>(stored: seq<seq<bv8>>, sel: seq<nat>, i: nat, at: nat, d: bv8,
                               libs: Libraries<C>, draw: Draw, file: seq<bv8>, n: nat)
    requires Pipeline.Shardable(libs, draw, file, n) && StoredFrom(stored, sel, libs, draw, file, n)
    requires Distinct(sel) && i < |stored| && d != 0
    requires STORED_BODY <= at < |stored[i]|
    ensures var enc := Encrypted(libs.box, file, draw.key, draw.nonce);
            var damaged := stored[i := Flip(stored[i], at, d)];
            && |enc| == |file| + ZERO_BYTES && RsLayout.Shardable(libs.codec, libs.md5, enc, draw.padding, n)
            && LongEnough(damaged) && SharesIntact(damaged, libs, draw, file, n)
            && FlippedOf(Bodies(libs.sha, damaged), sel, i, at - Randomize.DIGEST_LEN - SHARE_LEN, d,
                         libs.codec, libs.md5, enc, draw.padding, n)
  {
    hide Plain, Shares, Bodies, StoredShard, Contracts, ToByte, RsLayout.Shardable, Shard, Flip, ValidShares, Encrypted, PaddedSize;
    ShardableParts(libs, draw, file, n);
    CoreShardable(libs, draw, file, n);
    StoredFromParts(stored, sel, libs, draw, file, n);
    PointsDiffer(sel, n);
    FlipBehindShare(libs.sha, stored, i, at, d);
  }

  /** The damaged body of the shard at i has another digest than that of the shard it was. */
  ghost predicate DigestChanges<C(!new)>(damaged: seq<seq<bv8>>, i: nat, number: nat,
                                         libs: Libraries<C>, draw: Draw, file: seq<bv8>, n: nat)
    requires Pipeline.Shardable(libs, draw, file, n) && i < |damaged| && number < n
  {
    CoreShardable(libs, draw, file, n);
    && LongEnough(damaged)
    && DigestDiffers(libs.codec, libs.md5, Encrypted(libs.box, file, draw.key, draw.nonce), draw.padding, n,
                     Bodies(libs.sha, damaged)[i], number)
  }

  lemma ChangedDigest<C(!new)>(damaged: seq<seq<bv8>>, i: nat, number: nat, libs: Libraries<C>, draw: Draw, file: seq<bv8>, n: nat)
    requires Pipeline.Shardable(libs, draw, file, n) && i < |damaged| && number < n
    requires DigestChanges(damaged, i, number, libs, draw, file, n)
    ensures LongEnough(damaged) && Randomize.DigestSize(libs.sha)
    ensures var enc := Encrypted(libs.box, file, draw.key, draw.nonce);
            && RsLayout.Shardable(libs.codec, libs.md5, enc, draw.padding, n)
            && DigestDiffers(libs.codec, libs.md5, enc, draw.padding, n, Bodies(libs.sha, damaged)[i], number)
  {
    CoreShardable(libs, draw, file, n);
  }

  lemma FlippedBodyLost<C(!new)>(stored: seq<seq<bv8>>, sel: seq<nat>, i: nat, at: nat, d: bv8,
                                 libs: Libraries<C>, draw: Draw, file: seq<bv8>, n: nat)
    requires Pipeline.Shardable(libs, draw, file, n) && StoredFrom(stored, sel, libs, draw, file, n)
    requires Distinct(sel) && i < |stored| && d != 0
    requires STORED_BODY <= at < BodyEnd(file) && at < |stored[i]|
    requires DigestChanges(stored[i := Flip(stored[i], at, d)], i, sel[i], libs, draw, file, n)
    ensures var damaged := stored[i := Flip(stored[i], at, d)];
            && |sel| == |damaged| && LongEnough(damaged)
            && AcceptedIntact(damaged, sel, libs, draw, file, n)
            && (BodiesIntact(damaged, sel, libs, draw, file, n) <==> K < |sel|)
  {
    hide *;
    ShardableParts(libs, draw, file, n);
    SelectionBound(stored, sel, libs, draw, file, n);
    FlippedBodies(stored, sel, i, at, d, libs, draw, file, n);
    var damaged := stored[i := Flip(stored[i], at, d)];
    var enc := Encrypted(libs.box, file, draw.key, draw.nonce);
    BodyRange(file, at);
    IntactBodies(damaged, sel, libs, draw, file, n);
    ChangedDigest(damaged, i, sel[i], libs, draw, file, n);
    FlippedBody(Bodies(libs.sha, damaged), sel, i, at - Randomize.DIGEST_LEN - SHARE_LEN, d,
                libs.codec, libs.md5, enc, draw.padding, n);
  }

  /**
   A flipped byte in the coded body of one of the shards, whose digest changes with it,
   costs exactly this shard: the file comes back from nine or more, and not from eight.
   */
  lemma FlippedBodyByte<C(!new)>(stored: seq<seq<bv8>>, sel: seq<nat>, i: nat, at: nat, d: bv8,
                                 libs: Libraries<C>, draw: Draw, file: seq<bv8>, n: nat)
    requires Pipeline.Shardable(libs, draw, file, n) && StoredFrom(stored, sel, libs, draw, file, n)
    requires Distinct(sel) && K <= |stored| && i < |stored| && d != 0
    requires STORED_BODY <= at < BodyEnd(file) && at < |stored[i]|
    requires DigestChanges(stored[i := Flip(stored[i], at, d)], i, sel[i], libs, draw, file, n)
    ensures var damaged := stored[i := Flip(stored[i], at, d)];
            Contracts(libs, n) && LongEnough(damaged)
            && Unsharded(libs, damaged, n) == if K < |stored| then Some(file) else None
  {
    hide Bodies, Unsharded, StoredFrom, Flip, SharesIntact, AcceptedIntact, BodiesIntact, EnoughIntact, AcceptedUndamaged,
         FlippedOf, CodecContract, FirstColumnOnes, Encrypted, PaddedSize, BodyCoding, OpenUndoesSeal;
    ShardableParts(libs, draw, file, n);
    SelectionBound(stored, sel, libs, draw, file, n);
    FlippedBodies(stored, sel, i, at, d, libs, draw, file, n);
    FlippedBodyLost(stored, sel, i, at, d, libs, draw, file, n);
    var damaged := stored[i := Flip(stored[i], at, d)];
    hide *;
    IntactShares(damaged, sel, libs, draw, file, n);
  }

  lemma BodyRange(file: seq<bv8>, at: nat)
    requires STORED_BODY <= at < BodyEnd(file)
    ensures 0 <= at - Randomize.DIGEST_LEN - SHARE_LEN < BODY_START + PaddedSize(|file| + ZERO_BYTES) / K
  {
    hide PaddedSize;
  }

  lemma SelectionBound<C(!new)>(stored: seq<seq<bv8>>, sel: seq<nat>, libs: Libraries<C>, draw: Draw, file: seq<bv8>, n: nat)
    requires Pipeline.Shardable(libs, draw, file, n) && StoredFrom(stored, sel, libs, draw, file, n) && Distinct(sel)
    ensures |sel| == |stored| <= n <= 255 && forall j :: 0 <= j < |sel| ==> sel[j] < n
  {
    hide Contracts, StoredShard, PaddedSize;
    DistinctBound(sel, n);
  }

  /**
   A flipped byte in a hash table costs nothing, unless it is in the table of the last
   shard, which is the trusted one, and in the digest of a shard that is among them: then
   that one is lost, which nine or more shards survive, and eight do not.
   */
  lemma FlippedTableByte<C(!new)>(stored: seq<seq<bv8>>, sel: seq<nat>, i: nat, at: nat, d: bv8,
                                  libs: Libraries<C>, draw: Draw, file: seq<bv8>, n: nat)
    requires Pipeline.Shardable(libs, draw, file, n) && StoredFrom(stored, sel, libs, draw, file, n)
    requires Distinct(sel) && K <= |stored| && i < |stored| && d != 0
    requires BodyEnd(file) <= at < |stored[i]|
    ensures var damaged := stored[i := Flip(stored[i], at, d)];
            var slot := (at - BodyEnd(file)) / MD5_LEN;
            Contracts(libs, n) && LongEnough(damaged)
            && Unsharded(libs, damaged, n)
               == if i == |stored| - 1 && slot in sel && |stored| == K then None else Some(file)
  {
    hide Bodies, Unsharded, StoredFrom, Flip, SharesIntact, AcceptedIntact, BodiesIntact, EnoughIntact, AcceptedUndamaged,
         FlippedOf, CodecContract, FirstColumnOnes, Encrypted, PaddedSize, BodyCoding, OpenUndoesSeal;
    ShardableParts(libs, draw, file, n);
    SelectionBound(stored, sel, libs, draw, file, n);
    FlippedBodies(stored, sel, i, at, d, libs, draw, file, n);
    var damaged := stored[i := Flip(stored[i], at, d)];
    var enc := Encrypted(libs.box, file, draw.key, draw.nonce);
    FlippedTable(Bodies(libs.sha, damaged), sel, i, at - Randomize.DIGEST_LEN - SHARE_LEN, d,
                 libs.codec, libs.md5, enc, draw.padding, n);
    IntactBodies(damaged, sel, libs, draw, file, n);
    IntactShares(damaged, sel, libs, draw, file, n);
  }
}
