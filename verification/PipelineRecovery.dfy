/**
 When unsharding gives the file back: exactly when the shares combine to the key that
 was shared and eight different erasure-coded bodies are intact.
 */
module PipelineRecovery {
  import opened Bytes
  import opened Metadata
  import opened Lists
  import opened Bitslice
  import opened Shamir
  import opened SecretShares
  import opened ErasureCode
  import opened RsLayout
  import opened RsRecovery
  import opened RsDamage
  import opened Pipeline
  import Randomize

  // ----- The exact condition -----

  /** Validation accepts no body that is damaged in front of its hash table. */
  ghost predicate AcceptedIntact<C(!new)>(stored: seq<seq<bv8>>, sel: seq<nat>, libs: Libraries<C>, draw: Draw, file: seq<bv8>, n: nat)
    requires Pipeline.Shardable(libs, draw, file, n) && LongEnough(stored)
  {
    CoreShardable(libs, draw, file, n);
    AcceptedUndamaged(Bodies(libs.sha, stored), sel, libs.codec, libs.md5,
                      Encrypted(libs.box, file, draw.key, draw.nonce), draw.padding, n)
  }

  /** Eight different bodies are undamaged and have the right slot in the trusted table. */
  ghost predicate BodiesIntact<C(!new)>(stored: seq<seq<bv8>>, sel: seq<nat>, libs: Libraries<C>, draw: Draw, file: seq<bv8>, n: nat)
    requires Pipeline.Shardable(libs, draw, file, n) && LongEnough(stored) && |sel| == |stored|
  {
    CoreShardable(libs, draw, file, n);
    EnoughIntact(Bodies(libs.sha, stored), sel, libs.codec, libs.md5,
                 Encrypted(libs.box, file, draw.key, draw.nonce), draw.padding, n)
  }

  /** All shares that are combined still have their sealed part. */
  ghost predicate SharesSealed<C(!new)>(stored: seq<seq<bv8>>, libs: Libraries<C>, draw: Draw, file: seq<bv8>, n: nat)
    requires Pipeline.Shardable(libs, draw, file, n) && LongEnough(stored)
  {
    CoreShardable(libs, draw, file, n);
    SealedIntact(libs.box, Used(libs.sha, stored), Secret(draw), draw.shareKey)
  }

  /** If the combined key is not the one that was shared, opening the sealed secret with it fails. */
  ghost predicate WrongKeyRejected<C(!new)>(stored: seq<seq<bv8>>, libs: Libraries<C>, draw: Draw, file: seq<bv8>, n: nat)
    requires Pipeline.Shardable(libs, draw, file, n) && LongEnough(stored)
  {
    Rejects(libs.box, Secret(draw), draw.shareKey, CombinedKey(KeyParts(Used(libs.sha, stored))))
  }

  lemma RsOutputExact<C(!new)>(stored: seq<seq<bv8>>, sel: seq<nat>, libs: Libraries<C>, draw: Draw, file: seq<bv8>, n: nat)
    requires Pipeline.Shardable(libs, draw, file, n) && LongEnough(stored)
    requires AcceptedIntact(stored, sel, libs, draw, file, n)
    ensures |sel| == |stored|
    ensures RsOutput(libs.codec, libs.md5, Bodies(libs.sha, stored), n)
         == if BodiesIntact(stored, sel, libs, draw, file, n) then Encrypted(libs.box, file, draw.key, draw.nonce) else []
  {
    CoreShardable(libs, draw, file, n);
    var enc := Encrypted(libs.box, file, draw.key, draw.nonce);
    hide RsUnshard, Validated, Bodies, EnoughIntact, GoodShard, Encrypted, RsLayout.Shardable, Undamaged, TableOf;
    RecoveryExact(Bodies(libs.sha, stored), sel, libs.codec, libs.md5, enc, draw.padding, n);
  }

  /** The parts of Shardable that the theorems rest on. */
  lemma ShardableParts<C(!new)>(libs: Libraries<C>, draw: Draw, file: seq<bv8>, n: nat)
    requires Pipeline.Shardable(libs, draw, file, n)
    ensures Contracts(libs, n) && OpenUndoesSeal(libs.box) && K <= n <= 255
    ensures Randomize.DigestSize(libs.sha) && FirstColumnOnes(libs.codec.coding, K, n)
    ensures |draw.key| == KEY_BYTES && |draw.nonce| == NONCE_BYTES && |draw.shareKey| == LANES
    ensures |draw.coeffs| == K - 1 && |Secret(draw)| == MLEN
    ensures BOX_ZERO_BYTES <= |Ciphertext(libs.box, Secret(draw), draw.shareKey)|
  {
    hide PaddedSize;
    CoreShardable(libs, draw, file, n);
  }

  lemma NothingDecrypts(box: SecretBox, secret: seq<bv8>)
    requires OpenUndoesSeal(box) && |secret| == MLEN
    ensures Decrypted(box, [], secret) == None
  {}

  /**
   The exact condition, with damage: if the sealed parts of all combined shares are intact
   and no accepted body is damaged in front of its hash table, unsharding gives the file
   when the shares combine to the key they were made for and eight different bodies are
   intact, and gives nothing otherwise.  If they combine to another key, opening must
   reject that one.
   */
  lemma UnshardedExact<C(!new)>(stored: seq<seq<bv8>>, sel: seq<nat>, libs: Libraries<C>, draw: Draw, file: seq<bv8>, n: nat)
    requires Pipeline.Shardable(libs, draw, file, n) && LongEnough(stored) && Used(libs.sha, stored) != []
    requires SharesSealed(stored, libs, draw, file, n) && AcceptedIntact(stored, sel, libs, draw, file, n)
    requires WrongKeyRejected(stored, libs, draw, file, n)
    ensures |sel| == |stored|
    ensures Unsharded(libs, stored, n)
         == if CombinedKey(KeyParts(Used(libs.sha, stored))) == draw.shareKey && BodiesIntact(stored, sel, libs, draw, file, n)
            then Some(file) else None
  {
    ShardableParts(libs, draw, file, n);
    RsOutputExact(stored, sel, libs, draw, file, n);
    FileDecrypted(libs.box, draw, file);
    NothingDecrypts(libs.box, Secret(draw));
    OpenedExact(libs.box, Used(libs.sha, stored), Secret(draw), draw.shareKey);
    assert (Zeros(ZERO_BYTES) + Secret(draw))[ZERO_BYTES..] == Secret(draw);
    hide *;
    UnshardedSteps(libs, stored, n);
  }

  /** What unsharding does, step by step. */
  lemma UnshardedSteps<C(!new)>(libs: Libraries<C>, stored: seq<seq<bv8>>, n: nat)
    requires Contracts(libs, n) && LongEnough(stored) && OpenUndoesSeal(libs.box)
    ensures var used := Used(libs.sha, stored);
            var enc := RsOutput(libs.codec, libs.md5, Bodies(libs.sha, stored), n);
            && (used == [] || !CiphertextsAgree(used) || Opened(libs.box, used).0 != 0 ==> Unsharded(libs, stored, n) == None)
            && (used != [] && CiphertextsAgree(used) && Opened(libs.box, used).0 == 0 ==>
                  && |Opened(libs.box, used).1[ZERO_BYTES..]| == MLEN
                  && Unsharded(libs, stored, n) == Decrypted(libs.box, enc, Opened(libs.box, used).1[ZERO_BYTES..]))
  {
    hide CombinedKey, RsOutput, Bodies, Plain, CiphertextsAgree;
  }

  // ----- Intact shares, damaged bodies -----

  /** All shares are used when there are fewer than 256. */
  lemma AllUsed<C(!new)>(sha: Randomize.Sha<C>, stored: seq<seq<bv8>>)
    requires Randomize.DigestSize(sha) && LongEnough(stored) && |stored| < 256
    ensures Used(sha, stored) == Shares(sha, stored)
  {}

  /** Every share is a share of the secret, at its own x, and no x repeats. */
  ghost predicate SharesIntact<C(!new)>(stored: seq<seq<bv8>>, libs: Libraries<C>, draw: Draw, file: seq<bv8>, n: nat)
    requires Pipeline.Shardable(libs, draw, file, n) && LongEnough(stored)
  {
    CoreShardable(libs, draw, file, n);
    var shares := Shares(libs.sha, stored);
    && ValidShares(libs.box, shares, Secret(draw), draw.shareKey, draw.coeffs)
    && forall i, j :: 0 <= i < j < |shares| ==> shares[i][0] != shares[j][0]
  }

  lemma IntactSharesCombine(box: SecretBox, shares: seq<seq<bv8>>, data: seq<bv8>, key: seq<bv8>, coeffs: seq<Slice>)
    requires OpenUndoesSeal(box) && |key| == LANES && |data| == MLEN && WellSized(shares)
    requires BOX_ZERO_BYTES <= |Ciphertext(box, data, key)|
    requires ValidShares(box, shares, data, key, coeffs)
    ensures SealedIntact(box, shares, data, key)
    ensures |coeffs| + 1 <= |shares| && (forall i, j :: 0 <= i < j < |shares| ==> shares[i][0] != shares[j][0]) ==>
              CombinedKey(KeyParts(shares)) == key
  {
    hide Keyshare, CombinedKey, Ciphertext;
    forall i | 0 <= i < |shares|
      ensures shares[i][..KEYSHARE_LEN] == Keyshare(key, coeffs, shares[i][0])
      ensures shares[i][KEYSHARE_LEN..] == Ciphertext(box, data, key)[BOX_ZERO_BYTES..]
    {
      assert shares[i] == ShareAt(box, data, key, coeffs, shares[i][0]);
    }
    if |coeffs| + 1 <= |shares| && (forall i, j :: 0 <= i < j < |shares| ==> shares[i][0] != shares[j][0]) {
      Recovery(KeyParts(shares), key, coeffs);
    }
  }

  /** With intact shares, recovery succeeds exactly when eight different bodies are intact. */
  lemma IntactShares<C(!new)>(stored: seq<seq<bv8>>, sel: seq<nat>, libs: Libraries<C>, draw: Draw, file: seq<bv8>, n: nat)
    requires Pipeline.Shardable(libs, draw, file, n) && LongEnough(stored) && K <= |stored| < 256
    requires SharesIntact(stored, libs, draw, file, n) && AcceptedIntact(stored, sel, libs, draw, file, n)
    ensures |sel| == |stored|
    ensures Unsharded(libs, stored, n) == if BodiesIntact(stored, sel, libs, draw, file, n) then Some(file) else None
  {
    ShardableParts(libs, draw, file, n);
    AllUsed(libs.sha, stored);
    hide Shares, Bodies, AcceptedIntact, BodiesIntact, Unsharded, CombinedKey, ValidShares, Pipeline.Shardable, ShareCount;
    IntactSharesCombine(libs.box, Shares(libs.sha, stored), Secret(draw), draw.shareKey, draw.coeffs);
    UnshardedExact(stored, sel, libs, draw, file, n);
  }

  // ----- Shards that are all undamaged -----

  /** Undamaged bodies are all intact, so that enough are when enough are different. */
  lemma UndamagedBodies<C(!new)>(stored: seq<seq<bv8>>, sel: seq<nat>, libs: Libraries<C>, draw: Draw, file: seq<bv8>, n: nat)
    requires Pipeline.Shardable(libs, draw, file, n) && StoredFrom(stored, sel, libs, draw, file, n)
    ensures LongEnough(stored) && AcceptedIntact(stored, sel, libs, draw, file, n)
    ensures BodiesIntact(stored, sel, libs, draw, file, n) <==> K <= |Elements(sel)|
  {
    ShardableParts(libs, draw, file, n);
    StoredFromParts(stored, sel, libs, draw, file, n);
    CoreShardable(libs, draw, file, n);
    var enc := Encrypted(libs.box, file, draw.key, draw.nonce);
    hide *;
    AllIntact(Bodies(libs.sha, stored), sel, libs.codec, libs.md5, enc, draw.padding, n);
    IntactBodies(stored, sel, libs, draw, file, n);
  }

  /** The two predicates are those of the bodies. */
  lemma IntactBodies<C(!new)>(stored: seq<seq<bv8>>, sel: seq<nat>, libs: Libraries<C>, draw: Draw, file: seq<bv8>, n: nat)
    requires Pipeline.Shardable(libs, draw, file, n) && LongEnough(stored) && |sel| == |stored|
    ensures Randomize.DigestSize(libs.sha)
    ensures var enc := Encrypted(libs.box, file, draw.key, draw.nonce);
            && RsLayout.Shardable(libs.codec, libs.md5, enc, draw.padding, n)
            && (AcceptedIntact(stored, sel, libs, draw, file, n)
                <==> AcceptedUndamaged(Bodies(libs.sha, stored), sel, libs.codec, libs.md5, enc, draw.padding, n))
            && (BodiesIntact(stored, sel, libs, draw, file, n)
                <==> EnoughIntact(Bodies(libs.sha, stored), sel, libs.codec, libs.md5, enc, draw.padding, n))
  {
    hide AcceptedUndamaged, EnoughIntact, Bodies, CodecContract, OpenUndoesSeal, RsLayout.Shardable;
    CoreShardable(libs, draw, file, n);
  }

  lemma AllIntact(bodies: seq<seq<bv8>>, sel: seq<nat>, codec: Codec, md5: Md5, enc: seq<bv8>, padding: seq<bv8>, n: nat)
    requires RsLayout.Shardable(codec, md5, enc, padding, n) && n <= 255 && FirstColumnOnes(codec.coding, K, n)
    requires ShardsOf(bodies, sel, codec, md5, enc, padding, n)
    ensures AcceptedUndamaged(bodies, sel, codec, md5, enc, padding, n)
    ensures EnoughIntact(bodies, sel, codec, md5, enc, padding, n) <==> K <= |Elements(sel)|
  {
    assert |sel| == |bodies|;
    hide *;
    WholeShards(bodies, sel, codec, md5, enc, padding, n);
    EnoughIfAll(bodies, sel, codec, md5, enc, padding, n);
  }

  /** The x of the shards with these numbers. */
  function Points(sel: seq<nat>): (xs: seq<bv8>)
    ensures |xs| == |sel| && forall j :: 0 <= j < |sel| ==> xs[j] == ToByte(sel[j] + 1)
  {
    seq(|sel|, j requires 0 <= j < |sel| => ToByte(sel[j] + 1))
  }

  /** Shards of different numbers have different x, none of which is 0. */
  lemma PointsDiffer(sel: seq<nat>, n: nat)
    requires n <= 255 && forall j :: 0 <= j < |sel| ==> sel[j] < n
    ensures 0 !in Points(sel)
    ensures forall i, j :: 0 <= i < j < |sel| ==> (Points(sel)[i] == Points(sel)[j] <==> sel[i] == sel[j])
  {
    hide ToByte;
    var xs := Points(sel);
    forall j | 0 <= j < |sel| ensures xs[j] != 0 {
      ByteRoundTrip(sel[j] + 1);
      assert Value(0) == 0;
    }
    forall i, j | 0 <= i < j < |sel| ensures xs[i] == xs[j] <==> sel[i] == sel[j] {
      if xs[i] == xs[j] {
        ToByteInjective(sel[i] + 1, sel[j] + 1);
      }
    }
  }

  /**
   End to end: any eight or more distinct stored shards, in any order, unshard to the
   file they were made from, whatever was drawn at random when they were made.
   */
  lemma EndToEnd<C(!new)>(stored: seq<seq<bv8>>, sel: seq<nat>, libs: Libraries<C>, draw: Draw, file: seq<bv8>, n: nat)
    requires Pipeline.Shardable(libs, draw, file, n) && StoredFrom(stored, sel, libs, draw, file, n)
    requires Distinct(sel) && K <= |sel|
    ensures Contracts(libs, n) && LongEnough(stored)
    ensures Unsharded(libs, stored, n) == Some(file)
  {
    hide Shares, Bodies, AcceptedIntact, BodiesIntact, Unsharded, CombinedKey, ValidShares, Pipeline.Shardable, Elements,
         ToByte, StoredShard, ShardsOf, Contracts, RsLayout.Shardable, Ciphertext;
    ShardableParts(libs, draw, file, n);
    StoredFromParts(stored, sel, libs, draw, file, n);
    DistinctBound(sel, n);
    PointsDiffer(sel, n);
    UndamagedBodies(stored, sel, libs, draw, file, n);
    assert SharesIntact(stored, libs, draw, file, n);
    IntactShares(stored, sel, libs, draw, file, n);
  }

  // ----- One damaged key part -----

  /**
   One key part that may be damaged, all sealed parts intact: recovery succeeds exactly
   when that key part, too, is one of the key's, and eight different bodies are intact.
   If the parts combine to another key, opening must reject that one.
   */
  lemma OneDamagedKeyPart<C(!new)>(stored: seq<seq<bv8>>, i: nat, sel: seq<nat>,
                                   libs: Libraries<C>, draw: Draw, file: seq<bv8>, n: nat)
    requires Pipeline.Shardable(libs, draw, file, n) && LongEnough(stored) && K <= |stored| < 256 && i < |stored|
    requires SharesSealed(stored, libs, draw, file, n) && AcceptedIntact(stored, sel, libs, draw, file, n)
    requires WrongKeyRejected(stored, libs, draw, file, n)
    requires Distinct(Xs(KeyParts(Shares(libs.sha, stored))))
    requires forall j :: 0 <= j < |stored| && j != i ==>
               var part := KeyParts(Shares(libs.sha, stored))[j];
               part == Keyshare(draw.shareKey, draw.coeffs, part[0]) && part[0] != 0
    ensures |sel| == |stored|
    ensures var part := KeyParts(Shares(libs.sha, stored))[i];
            var ok := part == Keyshare(draw.shareKey, draw.coeffs, part[0]) && BodiesIntact(stored, sel, libs, draw, file, n);
            Unsharded(libs, stored, n) == if ok then Some(file) else None
  {
    ShardableParts(libs, draw, file, n);
    AllUsed(libs.sha, stored);
    hide Shares, Bodies, AcceptedIntact, BodiesIntact, Unsharded, CombinedKey, WrongKeyRejected, Pipeline.Shardable, Keyshare, ShareCount,
         SharesSealed, Distinct;
    OneDamagedShare(KeyParts(Shares(libs.sha, stored)), i, draw.shareKey, draw.coeffs);
    UnshardedExact(stored, sel, libs, draw, file, n);
  }

  // ----- Repeated shards -----

  function Rekeyed(draw: Draw, key: seq<bv8>, coeffs: seq<Slice>): Draw {
    draw.(shareKey := key, coeffs := coeffs)
  }

  function StoredShards<C(!new)>(libs: Libraries<C>, draw: Draw, file: seq<bv8>, n: nat, sel: seq<nat>): (stored: seq<seq<bv8>>)
    requires Pipeline.Shardable(libs, draw, file, n) && forall j :: 0 <= j < |sel| ==> sel[j] < n
    ensures StoredFrom(stored, sel, libs, draw, file, n)
  {
    seq(|sel|, j requires 0 <= j < |sel| => StoredShard(libs, draw, file, n, sel[j]))
  }

  lemma RekeyedShardable<C(!new)>(libs: Libraries<C>, draw: Draw, key: seq<bv8>, coeffs: seq<Slice>, file: seq<bv8>, n: nat)
    requires Pipeline.Shardable(libs, draw, file, n) && |key| == LANES && |coeffs| + 1 == K
    ensures Pipeline.Shardable(libs, Rekeyed(draw, key, coeffs), file, n)
    ensures Secret(Rekeyed(draw, key, coeffs)) == Secret(draw)
  {
    hide Contracts, PaddedSize;
  }

  /** Sharding with this key and these coefficients, and unsharding the shards sel. */
  ghost function ThereAndBack<C(!new)>(libs: Libraries<C>, draw: Draw, key: seq<bv8>, coeffs: seq<Slice>,
                                       file: seq<bv8>, n: nat, sel: seq<nat>): Option<seq<bv8>>
    requires Pipeline.Shardable(libs, draw, file, n) && forall j :: 0 <= j < |sel| ==> sel[j] < n
    requires |key| == LANES && |coeffs| + 1 == K
  {
    RekeyedShardable(libs, draw, key, coeffs, file, n);
    var stored := StoredShards(libs, Rekeyed(draw, key, coeffs), file, n, sel);
    StoredFromParts(stored, sel, libs, Rekeyed(draw, key, coeffs), file, n);
    Unsharded(libs, stored, n)
  }

  ghost predicate AlwaysUnsharded<C(!new)>(libs: Libraries<C>, draw: Draw, file: seq<bv8>, n: nat, sel: seq<nat>)
    requires Pipeline.Shardable(libs, draw, file, n) && forall j :: 0 <= j < |sel| ==> sel[j] < n
  {
    forall key: seq<bv8>, coeffs: seq<Slice> :: |key| == LANES && |coeffs| + 1 == K ==>
      ThereAndBack(libs, draw, key, coeffs, file, n, sel) == Some(file)
  }

  lemma AsManyPoints(xs: seq<bv8>, sel: seq<nat>)
    requires |xs| == |sel| && forall i, j :: 0 <= i < j < |sel| ==> (xs[i] == xs[j] <==> sel[i] == sel[j])
    ensures |Elements(xs)| <= |Elements(sel)|
    ensures Distinct(xs) <==> Distinct(sel)
  {
    var positions := PickPositions(xs, |Elements(xs)|);
    forall l, r | 0 <= l < r < |positions| ensures sel[positions[l]] != sel[positions[r]] {
      assert positions[l] != positions[r];
    }
    CountPositions(sel, positions, Elements(sel));
  }

  /** The key parts of stored shards are the key shares at their x. */
  lemma KeyPartsOf<C(!new)>(stored: seq<seq<bv8>>, sel: seq<nat>, libs: Libraries<C>, draw: Draw, file: seq<bv8>, n: nat)
    requires Pipeline.Shardable(libs, draw, file, n) && StoredFrom(stored, sel, libs, draw, file, n)
    requires |sel| < 256
    ensures LongEnough(stored) && |draw.shareKey| == LANES
    ensures KeyParts(Used(libs.sha, stored)) == KeysharesAt(draw.shareKey, draw.coeffs, Points(sel))
    ensures SharesSealed(stored, libs, draw, file, n)
  {
    ShardableParts(libs, draw, file, n);
    StoredFromParts(stored, sel, libs, draw, file, n);
    CoreShardable(libs, draw, file, n);
    AllUsed(libs.sha, stored);
    hide Shares, Keyshare, Ciphertext, ToByte, StoredShard, Pipeline.Shardable, ShareCount;
    var shares := Shares(libs.sha, stored);
    forall j | 0 <= j < |sel|
      ensures shares[j][..KEYSHARE_LEN] == Keyshare(draw.shareKey, draw.coeffs, Points(sel)[j])
      ensures shares[j][KEYSHARE_LEN..] == Ciphertext(libs.box, Secret(draw), draw.shareKey)[BOX_ZERO_BYTES..]
    {
      assert shares[j] == ShareAt(libs.box, Secret(draw), draw.shareKey, draw.coeffs, shares[j][0]);
    }
  }

  /** The key that the shares of these numbers combine to. */
  function Recombined(key: seq<bv8>, coeffs: seq<Slice>, sel: seq<nat>): seq<bv8>
    requires |key| == LANES
  {
    CombinedKey(KeysharesAt(key, coeffs, Points(sel)))
  }

  /**
   Undamaged shards in any number and with any repetitions: the file comes back exactly
   when the shares combine to their key and eight numbers are different.  If they combine
   to another key, opening must reject that one.
   */
  lemma RepeatedExact<C(!new)>(libs: Libraries<C>, draw: Draw, key: seq<bv8>, coeffs: seq<Slice>,
                               file: seq<bv8>, n: nat, sel: seq<nat>)
    requires Pipeline.Shardable(libs, draw, file, n) && forall j :: 0 <= j < |sel| ==> sel[j] < n
    requires 0 < |sel| < 256 && |key| == LANES && |coeffs| + 1 == K
    requires Rejects(libs.box, Secret(draw), key, Recombined(key, coeffs, sel))
    ensures ThereAndBack(libs, draw, key, coeffs, file, n, sel)
         == if Recombined(key, coeffs, sel) == key && K <= |Elements(sel)| then Some(file) else None
  {
    RekeyedShardable(libs, draw, key, coeffs, file, n);
    var again := Rekeyed(draw, key, coeffs);
    var stored := StoredShards(libs, again, file, n, sel);
    KeyPartsOf(stored, sel, libs, again, file, n);
    UndamagedBodies(stored, sel, libs, again, file, n);
    hide Unsharded, Used, AcceptedIntact, SharesSealed, BodiesIntact, Rejects, CombinedKey, Keyshare, Pipeline.Shardable,
         StoredShard, Elements;
    assert |KeyParts(Used(libs.sha, stored))| == |sel|;
    UnshardedExact(stored, sel, libs, again, file, n);
  }

  /** If some keys are lost, then one of them is not mistaken: opening rejects the key that its shares combine to. */
  ghost predicate LossNoticed(box: SecretBox, secret: seq<bv8>, sel: seq<nat>) {
    AlwaysRecovered(Points(sel), K)
    || exists key: seq<bv8>, coeffs: seq<Slice> ::
         && |key| == LANES && |coeffs| + 1 == K
         && Recombined(key, coeffs, sel) != key && Rejects(box, secret, key, Recombined(key, coeffs, sel))
  }

  /** The file always comes back exactly when the shares always combine to their key. */
  lemma AlwaysUnshardedIff<C(!new)>(libs: Libraries<C>, draw: Draw, file: seq<bv8>, n: nat, sel: seq<nat>)
    requires Pipeline.Shardable(libs, draw, file, n) && forall j :: 0 <= j < |sel| ==> sel[j] < n
    requires 0 < |sel| < 256 && LossNoticed(libs.box, Secret(draw), sel)
    ensures AlwaysUnsharded(libs, draw, file, n, sel) <==> AlwaysRecovered(Points(sel), K)
  {
    hide Pipeline.Shardable, ThereAndBack, Elements, CombinedKey, KeysharesAt;
    if AlwaysRecovered(Points(sel), K) {
      EnoughNumbers(libs, draw, file, n, sel);
      forall key: seq<bv8>, coeffs: seq<Slice> | |key| == LANES && |coeffs| + 1 == K
        ensures ThereAndBack(libs, draw, key, coeffs, file, n, sel) == Some(file)
      {
        assert Recombined(key, coeffs, sel) == key;
        RepeatedExact(libs, draw, key, coeffs, file, n, sel);
      }
    } else {
      var key: seq<bv8>, coeffs: seq<Slice> :|
        |key| == LANES && |coeffs| + 1 == K && Recombined(key, coeffs, sel) != key
        && Rejects(libs.box, Secret(draw), key, Recombined(key, coeffs, sel));
      RepeatedExact(libs, draw, key, coeffs, file, n, sel);
    }
  }

  /** Shares that always combine to their key have eight different numbers. */
  lemma EnoughNumbers<C(!new)>(libs: Libraries<C>, draw: Draw, file: seq<bv8>, n: nat, sel: seq<nat>)
    requires Pipeline.Shardable(libs, draw, file, n) && forall j :: 0 <= j < |sel| ==> sel[j] < n
    requires AlwaysRecovered(Points(sel), K)
    ensures K <= |Elements(sel)|
  {
    hide Contracts, AlwaysRecovered, Elements, Points;
    PointsDiffer(sel, n);
    AsManyPoints(Points(sel), sel);
    if |Elements(sel)| < K {
      AlwaysRecoveredIff(Points(sel), K);
      DistinctElements(sel);
    }
  }

  /**
   Duplicates, which the erasure-coded layer tolerates, break the share combination: of at
   most sixteen shards, or shards with at most eight different numbers, the file always
   comes back exactly when there are eight of them and none repeats.
   */
  lemma DuplicatesIff<C(!new)>(libs: Libraries<C>, draw: Draw, file: seq<bv8>, n: nat, sel: seq<nat>)
    requires Pipeline.Shardable(libs, draw, file, n) && forall j :: 0 <= j < |sel| ==> sel[j] < n
    requires 0 < |sel| < 256 && (|Elements(sel)| <= K || |sel| <= 2 * K)
    requires LossNoticed(libs.box, Secret(draw), sel)
    ensures AlwaysUnsharded(libs, draw, file, n, sel) <==> Distinct(sel) && K <= |sel|
  {
    hide Contracts, AlwaysRecovered, AlwaysUnsharded, LossNoticed, Elements, Points;
    PointsDiffer(sel, n);
    AsManyPoints(Points(sel), sel);
    AlwaysRecoveredIff(Points(sel), K);
    AlwaysUnshardedIff(libs, draw, file, n, sel);
  }

  // ----- Another key -----

  /** Whatever the bodies are, another combined key than the one that was shared stops the recovery. */
  lemma WrongCombination<C(!new)>(stored: seq<seq<bv8>>, libs: Libraries<C>, draw: Draw, file: seq<bv8>, n: nat)
    requires Pipeline.Shardable(libs, draw, file, n) && LongEnough(stored) && Used(libs.sha, stored) != []
    requires SharesSealed(stored, libs, draw, file, n)
    requires WrongKeyRejected(stored, libs, draw, file, n)
    requires CombinedKey(KeyParts(Used(libs.sha, stored))) != draw.shareKey
    ensures Contracts(libs, n) && Unsharded(libs, stored, n) == None
  {
    ShardableParts(libs, draw, file, n);
    OpenedExact(libs.box, Used(libs.sha, stored), Secret(draw), draw.shareKey);
    hide *;
    UnshardedSteps(libs, stored, n);
  }
}
