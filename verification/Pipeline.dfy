/**
 shard_file and unshard_fd: encrypt, share the key, erasure-code, prepend a share to
 every shard and randomize it; and all of that undone.
 */
module Pipeline {
  import opened Bytes
  import opened Metadata
  import opened Bitslice
  import opened Shamir
  import opened SecretShares
  import opened ErasureCode
  import opened RsLayout
  import opened RsRecovery
  import Randomize

  const KEY_BYTES: nat := 32

  datatype Libraries<!C> = Libraries(box: SecretBox, sha: Randomize.Sha<C>, codec: Codec, md5: Md5)

  ghost predicate Contracts<C(!new)>(libs: Libraries<C>, n: nat) {
    && OpenUndoesSeal(libs.box)
    && Randomize.DigestSize(libs.sha)
    && CodecContract(libs.codec, K, n)
    && DigestSize(libs.md5)
  }

  /**
   What sharding one file draws at random or finds in uninitialised memory: the file's key
   and nonce and the rest of the shared secret's buffer, the key of the shares, the
   polynomials, the padding, and a pre-image per shard.
   */
  datatype Draw = Draw(key: seq<bv8>, nonce: seq<bv8>, spare: seq<bv8>, shareKey: seq<bv8>,
                       coeffs: seq<Slice>, padding: seq<bv8>, preImages: seq<seq<bv8>>)

  ghost predicate DrawFor(draw: Draw, file: seq<bv8>, n: nat) {
    && |draw.key| == KEY_BYTES && |draw.nonce| == NONCE_BYTES
    && |draw.spare| == MLEN - KEY_BYTES - NONCE_BYTES
    && |draw.shareKey| == LANES && |draw.coeffs| == K - 1
    && |file| + ZERO_BYTES + |draw.padding| == PaddedSize(|file| + ZERO_BYTES)
    && |draw.preImages| == n && forall i :: 0 <= i < n ==> |draw.preImages[i]| == Randomize.DIGEST_LEN
  }

  /** The secret that is shared: key and nonce, and whatever follows them in the buffer. */
  function Secret(draw: Draw): seq<bv8> {
    draw.key + draw.nonce + draw.spare
  }

  function Encrypted(box: SecretBox, file: seq<bv8>, key: seq<bv8>, nonce: seq<bv8>): seq<bv8> {
    box.seal(Zeros(ZERO_BYTES) + file, nonce, key)
  }

  lemma EncryptedSize(box: SecretBox, file: seq<bv8>, key: seq<bv8>, nonce: seq<bv8>)
    requires OpenUndoesSeal(box)
    ensures |Encrypted(box, file, key, nonce)| == |file| + ZERO_BYTES
    ensures box.open(Encrypted(box, file, key, nonce), nonce, key) == (0, Zeros(ZERO_BYTES) + file)
  {
    var m := Zeros(ZERO_BYTES) + file;
    assert m[..ZERO_BYTES] == Zeros(ZERO_BYTES);
  }

  ghost predicate Shardable<C(!new)>(libs: Libraries<C>, draw: Draw, file: seq<bv8>, n: nat) {
    && Contracts(libs, n) && DrawFor(draw, file, n)
    && K <= n <= 255 && PaddedSize(|file| + ZERO_BYTES) < INT_LIMIT
  }

  lemma CoreShardable<C(!new)>(libs: Libraries<C>, draw: Draw, file: seq<bv8>, n: nat)
    requires Shardable(libs, draw, file, n)
    ensures var enc := Encrypted(libs.box, file, draw.key, draw.nonce);
            |enc| == |file| + ZERO_BYTES && RsLayout.Shardable(libs.codec, libs.md5, enc, draw.padding, n)
    ensures |Secret(draw)| == MLEN
    ensures |Ciphertext(libs.box, Secret(draw), draw.shareKey)| == ZERO_BYTES + MLEN
  {
    hide PaddedSize;
    EncryptedSize(libs.box, file, draw.key, draw.nonce);
    CiphertextSize(libs.box, Secret(draw), draw.shareKey);
  }

  /** Shard i before randomizing: a share of the secret, and the erasure-coded ciphertext. */
  function PlainShard<C(!new)>(libs: Libraries<C>, draw: Draw, file: seq<bv8>, n: nat, i: nat): seq<bv8>
    requires Shardable(libs, draw, file, n) && i < n
  {
    CoreShardable(libs, draw, file, n);
    ShareAt(libs.box, Secret(draw), draw.shareKey, draw.coeffs, ToByte(i + 1))
    + Shard(libs.codec, libs.md5, Encrypted(libs.box, file, draw.key, draw.nonce), draw.padding, n, i)
  }

  lemma PlainShardSize<C(!new)>(libs: Libraries<C>, draw: Draw, file: seq<bv8>, n: nat, i: nat)
    requires Shardable(libs, draw, file, n) && i < n
    ensures var s := PlainShard(libs, draw, file, n, i);
            && SHARE_LEN <= |s|
            && |Randomize.Pad(libs.sha, draw.preImages[i], |s|)| == |s|
  {
    hide Shard, Keyshare, Randomize.Pad;
    CoreShardable(libs, draw, file, n);
    Randomize.PadLength(libs.sha, draw.preImages[i], |PlainShard(libs, draw, file, n, i)|);
  }

  /** Shard i as it is stored. */
  function StoredShard<C(!new)>(libs: Libraries<C>, draw: Draw, file: seq<bv8>, n: nat, i: nat): seq<bv8>
    requires Shardable(libs, draw, file, n) && i < n
  {
    PlainShardSize(libs, draw, file, n, i);
    Randomize.Randomized(libs.sha, draw.preImages[i], PlainShard(libs, draw, file, n, i))
  }

  // ----- Unsharding, as a function -----

  /** Long enough to hold a pre-image and a share. */
  ghost predicate LongEnough(stored: seq<seq<bv8>>) {
    forall i :: 0 <= i < |stored| ==> Randomize.DIGEST_LEN + SHARE_LEN <= |stored[i]|
  }

  function Plain<C(!new)>(sha: Randomize.Sha<C>, stored: seq<bv8>): (s: seq<bv8>)
    requires Randomize.DigestSize(sha) && Randomize.DIGEST_LEN + SHARE_LEN <= |stored|
    ensures |s| == |stored| - Randomize.DIGEST_LEN
  {
    Randomize.Unrandomized(sha, stored)
  }

  function Shares<C(!new)>(sha: Randomize.Sha<C>, stored: seq<seq<bv8>>): (shares: seq<seq<bv8>>)
    requires Randomize.DigestSize(sha) && LongEnough(stored)
    ensures |shares| == |stored| && WellSized(shares)
    ensures forall i :: 0 <= i < |shares| ==> shares[i] == Plain(sha, stored[i])[..SHARE_LEN]
  {
    seq(|stored|, i requires 0 <= i < |stored| => Plain(sha, stored[i])[..SHARE_LEN])
  }

  function Bodies<C(!new)>(sha: Randomize.Sha<C>, stored: seq<seq<bv8>>): (bodies: seq<seq<bv8>>)
    requires Randomize.DigestSize(sha) && LongEnough(stored)
    ensures |bodies| == |stored|
    ensures forall i :: 0 <= i < |bodies| ==> bodies[i] == Plain(sha, stored[i])[SHARE_LEN..]
  {
    seq(|stored|, i requires 0 <= i < |stored| => Plain(sha, stored[i])[SHARE_LEN..])
  }

  /** The number of shards, as the eight-bit argument of the share combination. */
  function ShareCount(n: nat): nat {
    n % 256
  }

  function Decrypted(box: SecretBox, enc: seq<bv8>, secret: seq<bv8>): Option<seq<bv8>>
    requires OpenUndoesSeal(box) && |secret| == MLEN
  {
    var (ret, m) := box.open(enc, secret[KEY_BYTES..KEY_BYTES + NONCE_BYTES], secret[..KEY_BYTES]);
    if ret == 0 && ZERO_BYTES <= |m| then Some(m[ZERO_BYTES..]) else None
  }

  /** What the erasure-coded layer leaves in its output file, which starts empty. */
  function RsOutput(codec: Codec, md5: Md5, bodies: seq<seq<bv8>>, n: nat): seq<bv8> {
    var (ret, enc) := RsUnshard(codec, Validated(bodies, md5, n), n);
    if ret == 1 then enc else []
  }

  /** The shares that are combined. */
  function Used<C(!new)>(sha: Randomize.Sha<C>, stored: seq<seq<bv8>>): (used: seq<seq<bv8>>)
    requires Randomize.DigestSize(sha) && LongEnough(stored)
    ensures WellSized(used)
  {
    Shares(sha, stored)[..ShareCount(|stored|)]
  }

  /** The unsharded file, or None where the program aborts. */
  ghost function Unsharded<C(!new)>(libs: Libraries<C>, stored: seq<seq<bv8>>, n: nat): Option<seq<bv8>>
    requires Contracts(libs, n) && LongEnough(stored)
  {
    var enc := RsOutput(libs.codec, libs.md5, Bodies(libs.sha, stored), n);
    var shares := Used(libs.sha, stored);
    if shares == [] || !CiphertextsAgree(shares) || Opened(libs.box, shares).0 != 0 then None
    else Decrypted(libs.box, enc, Opened(libs.box, shares).1[ZERO_BYTES..])
  }

  // ----- The round trip -----

  /** The stored shards are shards sel[0], sel[1], ... of the file. */
  ghost predicate StoredFrom<C(!new)>(stored: seq<seq<bv8>>, sel: seq<nat>, libs: Libraries<C>, draw: Draw, file: seq<bv8>, n: nat)
    requires Shardable(libs, draw, file, n)
  {
    && |sel| == |stored|
    && forall j :: 0 <= j < |sel| ==> sel[j] < n && stored[j] == StoredShard(libs, draw, file, n, sel[j])
  }

  /** Unrandomizing a stored shard gives its share and its body back. */
  lemma StoredParts<C(!new)>(libs: Libraries<C>, draw: Draw, file: seq<bv8>, n: nat, i: nat)
    requires Shardable(libs, draw, file, n) && i < n
    ensures var s := StoredShard(libs, draw, file, n, i);
            && Randomize.DIGEST_LEN + SHARE_LEN <= |s|
            && Plain(libs.sha, s) == PlainShard(libs, draw, file, n, i)
  {
    hide Randomize.Pad, PlainShard, Contracts;
    assert Randomize.DigestSize(libs.sha) && |draw.preImages[i]| == Randomize.DIGEST_LEN by {
      DrawSizes(libs, draw, file, n, i);
    }
    PlainShardSize(libs, draw, file, n, i);
    Randomize.RandomizeRoundTrip(libs.sha, draw.preImages[i], PlainShard(libs, draw, file, n, i));
  }

  lemma DrawSizes<C(!new)>(libs: Libraries<C>, draw: Draw, file: seq<bv8>, n: nat, i: nat)
    requires Shardable(libs, draw, file, n) && i < n
    ensures Randomize.DigestSize(libs.sha) && |draw.preImages[i]| == Randomize.DIGEST_LEN
  {}

  lemma PlainParts<C(!new)>(libs: Libraries<C>, draw: Draw, file: seq<bv8>, n: nat, i: nat)
    requires Shardable(libs, draw, file, n) && i < n
    ensures OpenUndoesSeal(libs.box) && |draw.shareKey| == LANES
    ensures var enc := Encrypted(libs.box, file, draw.key, draw.nonce);
            RsLayout.Shardable(libs.codec, libs.md5, enc, draw.padding, n)
    ensures BOX_ZERO_BYTES <= |Ciphertext(libs.box, Secret(draw), draw.shareKey)|
    ensures var p := PlainShard(libs, draw, file, n, i);
            && SHARE_LEN <= |p|
            && p[..SHARE_LEN] == ShareAt(libs.box, Secret(draw), draw.shareKey, draw.coeffs, ToByte(i + 1))
            && p[SHARE_LEN..] == Shard(libs.codec, libs.md5, Encrypted(libs.box, file, draw.key, draw.nonce), draw.padding, n, i)
  {
    hide Shard, Keyshare;
    CoreShardable(libs, draw, file, n);
  }

  lemma StoredFromParts<C(!new)>(stored: seq<seq<bv8>>, sel: seq<nat>, libs: Libraries<C>, draw: Draw, file: seq<bv8>, n: nat)
    requires Shardable(libs, draw, file, n) && StoredFrom(stored, sel, libs, draw, file, n)
    ensures Contracts(libs, n) && LongEnough(stored)
    ensures |draw.shareKey| == LANES && |Secret(draw)| == MLEN
    ensures var enc := Encrypted(libs.box, file, draw.key, draw.nonce);
            && RsLayout.Shardable(libs.codec, libs.md5, enc, draw.padding, n)
            && ShardsOf(Bodies(libs.sha, stored), sel, libs.codec, libs.md5, enc, draw.padding, n)
    ensures ValidShares(libs.box, Shares(libs.sha, stored), Secret(draw), draw.shareKey, draw.coeffs)
    ensures forall j :: 0 <= j < |sel| ==> Shares(libs.sha, stored)[j][0] == ToByte(sel[j] + 1)
  {
    hide StoredShard, PlainShard, Plain, Shard, Keyshare, Ciphertext, ToByte, CodecContract;
    forall j | 0 <= j < |sel| ensures Randomize.DIGEST_LEN + SHARE_LEN <= |stored[j]| {
      StoredParts(libs, draw, file, n, sel[j]);
    }
    CoreShardable(libs, draw, file, n);
    forall j | 0 <= j < |sel|
      ensures Shares(libs.sha, stored)[j][0] == ToByte(sel[j] + 1)
      ensures BOX_ZERO_BYTES <= |Ciphertext(libs.box, Secret(draw), draw.shareKey)|
      ensures Shares(libs.sha, stored)[j]
           == ShareAt(libs.box, Secret(draw), draw.shareKey, draw.coeffs, ToByte(sel[j] + 1))
      ensures Bodies(libs.sha, stored)[j]
           == Shard(libs.codec, libs.md5, Encrypted(libs.box, file, draw.key, draw.nonce), draw.padding, n, sel[j])
    {
      StoredParts(libs, draw, file, n, sel[j]);
      PlainParts(libs, draw, file, n, sel[j]);
    }
  }

  lemma FileDecrypted(box: SecretBox, draw: Draw, file: seq<bv8>)
    requires OpenUndoesSeal(box)
    requires |draw.key| == KEY_BYTES && |draw.nonce| == NONCE_BYTES && |Secret(draw)| == MLEN
    ensures Decrypted(box, Encrypted(box, file, draw.key, draw.nonce), Secret(draw)) == Some(file)
  {
    EncryptedSize(box, file, draw.key, draw.nonce);
    assert Secret(draw)[..KEY_BYTES] == draw.key;
    assert Secret(draw)[KEY_BYTES..KEY_BYTES + NONCE_BYTES] == draw.nonce;
    assert (Zeros(ZERO_BYTES) + file)[ZERO_BYTES..] == file;
  }
}
