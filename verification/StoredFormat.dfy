/**
 The bytes of a stored shard, layer by layer, and what is taken from it again.
 */
module StoredFormat {
  import opened Bytes
  import opened Metadata
  import opened Shamir
  import opened SecretShares
  import opened ErasureCode
  import opened RsLayout
  import opened ShardFormat
  import opened Pipeline
  import Randomize

  /**
   Before randomizing: a key share at i + 1, the sealed key and nonce of the file, and
   shard file i of the encrypted file.
   */
  ghost predicate IsPlainFile<C>(plain: seq<bv8>, libs: Libraries<C>, draw: Draw, file: seq<bv8>, n: nat, i: nat)
    requires TimesContract(libs.codec.coding) && |draw.shareKey| == 32
  {
    var enc := libs.box.seal(Zeros(32) + file, draw.nonce, draw.key);
    var sealed := libs.box.seal(Zeros(32) + (draw.key + draw.nonce + draw.spare), Zeros(24), draw.shareKey);
    && |sealed| == 96 && 113 <= |plain|
    && plain[..33] == Keyshare(draw.shareKey, draw.coeffs, ToByte(i + 1))
    && plain[33..113] == sealed[16..]
    && IsShardFile(plain[113..], libs.codec, libs.md5, enc, draw.padding, n, i)
  }

  /** The pre-image, and the plain bytes XORed with the pad that it gives. */
  ghost predicate IsStoredFile<C(!new)>(s: seq<bv8>, libs: Libraries<C>, draw: Draw, file: seq<bv8>, n: nat, i: nat)
    requires TimesContract(libs.codec.coding) && |draw.shareKey| == 32 && i < |draw.preImages|
  {
    exists plain: seq<bv8> ::
      && IsPlainFile(plain, libs, draw, file, n, i)
      && s == draw.preImages[i] + XorBlock(plain, PadOf(libs.sha, draw.preImages[i], plain))
  }

  /** The pad for these bytes. */
  ghost function PadOf<C(!new)>(sha: Randomize.Sha<C>, pre: seq<bv8>, plain: seq<bv8>): (pad: seq<bv8>)
    ensures |pad| == |plain|
  {
    if 32 <= |plain| && Randomize.DigestSize(sha) then
      Randomize.PadLength(sha, pre, |plain|);
      Randomize.Pad(sha, pre, |plain|)
    else Zeros(|plain|)
  }

  lemma PlainSpelled<C(!new)>(libs: Libraries<C>, draw: Draw, file: seq<bv8>, n: nat, i: nat)
    requires Pipeline.Shardable(libs, draw, file, n) && i < n
    ensures TimesContract(libs.codec.coding) && |draw.shareKey| == 32
    ensures IsPlainFile(PlainShard(libs, draw, file, n, i), libs, draw, file, n, i)
  {
    hide Shard, Keyshare, IsShardFile;
    CoreShardable(libs, draw, file, n);
    PlainParts(libs, draw, file, n, i);
    var enc := Encrypted(libs.box, file, draw.key, draw.nonce);
    ShardSpelled(libs.codec, libs.md5, enc, draw.padding, n, i);
    assert Secret(draw) == draw.key + draw.nonce + draw.spare;
    var p := PlainShard(libs, draw, file, n, i);
    assert p[..113][..33] == p[..33] && p[..113][33..] == p[33..113];
  }

  /** Every stored shard is stored in this format. */
  lemma StoredSpelled<C(!new)>(libs: Libraries<C>, draw: Draw, file: seq<bv8>, n: nat, i: nat)
    requires Pipeline.Shardable(libs, draw, file, n) && i < n
    ensures TimesContract(libs.codec.coding) && |draw.shareKey| == 32 && i < |draw.preImages|
    ensures IsStoredFile(StoredShard(libs, draw, file, n, i), libs, draw, file, n, i)
  {
    PlainSpelled(libs, draw, file, n, i);
    PlainShardSize(libs, draw, file, n, i);
    hide PlainShard, IsPlainFile, Randomize.Pad, CodecContract;
  }

  // ----- And back -----

  /** The plain bytes behind the pre-image, whatever they are. */
  lemma PlainIs<C(!new)>(sha: Randomize.Sha<C>, stored: seq<bv8>)
    requires Randomize.DigestSize(sha) && Randomize.DIGEST_LEN + SHARE_LEN <= |stored|
    ensures Plain(sha, stored) == XorBlock(stored[32..], PadOf(sha, stored[..32], stored[32..]))
  {
    hide Randomize.Pad, XorBlock;
  }

  /** As many shares are combined as the eight-bit argument says, from the front. */
  lemma UsedSpelled<C(!new)>(sha: Randomize.Sha<C>, stored: seq<seq<bv8>>)
    requires Randomize.DigestSize(sha) && LongEnough(stored)
    ensures |Used(sha, stored)| == |stored| % 256
    ensures forall j :: 0 <= j < |stored| % 256 ==> Used(sha, stored)[j] == Plain(sha, stored[j])[..113]
  {
    hide Plain;
  }

  /** With 256 shards, or a multiple, there is none to combine. */
  lemma TooManyStop<C(!new)>(libs: Libraries<C>, stored: seq<seq<bv8>>, n: nat)
    requires Contracts(libs, n) && LongEnough(stored) && |stored| % 256 == 0
    ensures Unsharded(libs, stored, n) == None
  {
    hide Plain, CodecContract, OpenUndoesSeal;
    UsedSpelled(libs.sha, stored);
  }
}
