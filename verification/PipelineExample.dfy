/**
 The hypotheses of the pipeline can be met together, for every file of a size that fits;
 and there is a concrete damage that stops it.
 */
module PipelineExample {
  import opened Bytes
  import opened Bitslice
  import opened Metadata
  import opened SecretShares
  import opened ErasureCode
  import opened RsLayout
  import opened Pipeline
  import opened PipelineRecovery
  import opened RsFlips
  import opened PipelineFlips
  import ErasureExample
  import Randomize
  import Shamir

  /** A tag that only the sealed zero message carries, and the key it was sealed with. */
  function Tagged(key: seq<bv8>): (c: seq<bv8>)
    ensures |c| == BOX_ZERO_BYTES + 16 + |key| + 32
    ensures c[..BOX_ZERO_BYTES] == Zeros(BOX_ZERO_BYTES) && c[BOX_ZERO_BYTES] == 1
  {
    Zeros(BOX_ZERO_BYTES) + [1] + Zeros(15) + key + Zeros(32)
  }

  function StrictSeal(m: seq<bv8>, nonce: seq<bv8>, key: seq<bv8>): seq<bv8> {
    if m == Zeros(ZERO_BYTES + MLEN) && |key| == LANES then Tagged(key) else m
  }

  function StrictOpen(c: seq<bv8>, nonce: seq<bv8>, key: seq<bv8>): (int, seq<bv8>) {
    if |key| == LANES && c == Tagged(key) then (0, Zeros(ZERO_BYTES + MLEN))
    else if ZERO_BYTES <= |c| && c[..ZERO_BYTES] == Zeros(ZERO_BYTES) then (0, c)
    else (-1, c)
  }

  function StrictBox(): SecretBox {
    SecretBox(StrictSeal, StrictOpen)
  }

  lemma TaggedInjective(key: seq<bv8>, other: seq<bv8>)
    requires |key| == |other| && Tagged(key) == Tagged(other)
    ensures key == other
  {
    var from := BOX_ZERO_BYTES + 16;
    assert Tagged(key)[from..from + |key|] == key;
    assert Tagged(other)[from..from + |other|] == other;
  }

  lemma StrictOpens()
    ensures OpenUndoesSeal(StrictBox())
  {
    var box := StrictBox();
    forall m: seq<bv8>, n, k | ZERO_BYTES <= |m| && m[..ZERO_BYTES] == Zeros(ZERO_BYTES)
      ensures var c := box.seal(m, n, k);
              |c| == |m| && c[..BOX_ZERO_BYTES] == Zeros(BOX_ZERO_BYTES) && box.open(c, n, k) == (0, m)
    {
      hide Tagged;
      assert m[..BOX_ZERO_BYTES] == m[..ZERO_BYTES][..BOX_ZERO_BYTES];
      assert m[BOX_ZERO_BYTES] == m[..ZERO_BYTES][BOX_ZERO_BYTES] == 0;
    }
  }

  /** The sealed zero secret opens under its own key only. */
  lemma StrictRejects(key: seq<bv8>, other: seq<bv8>)
    requires |key| == |other| == LANES
    ensures Rejects(StrictBox(), Zeros(MLEN), key, other)
  {
    hide Tagged;
    assert Zeros(ZERO_BYTES) + Zeros(MLEN) == Zeros(ZERO_BYTES + MLEN);
    if other != key {
      if Tagged(key) == Tagged(other) {
        TaggedInjective(key, other);
      }
      assert Tagged(key)[..ZERO_BYTES][BOX_ZERO_BYTES] == 1;
    }
  }

  lemma LibrariesExist(n: nat) returns (libs: Libraries<int>)
    requires K <= n <= 255
    ensures Contracts(libs, n) && libs.box == StrictBox()
  {
    StrictOpens();
    ErasureExample.ContractSatisfiable(K, n);
    var codec := ErasureExample.FieldCodec();
    var sha: Randomize.Sha<int> := Randomize.Sha.Sha(0, (c, s) => c, c => (Zeros(Randomize.DIGEST_LEN), c));
    libs := Libraries(StrictBox(), sha, codec, s => Zeros(MD5_LEN));
    hide CodecContract, OpenUndoesSeal;
  }

  /** Every file that fits can be sharded, with a secret that no two keys open. */
  lemma ShardingPossible(file: seq<bv8>, n: nat) returns (libs: Libraries<int>, draw: Draw)
    requires K <= n <= 255 && PaddedSize(|file| + ZERO_BYTES) < INT_LIMIT
    ensures Pipeline.Shardable(libs, draw, file, n)
    ensures forall key: seq<bv8>, other: seq<bv8> :: |key| == |other| == LANES ==> Rejects(libs.box, Secret(draw), key, other)
  {
    libs := LibrariesExist(n);
    PaddedSizeFits(|file| + ZERO_BYTES);
    hide PaddedSize, Contracts, StrictBox;
    var size := |file| + ZERO_BYTES;
    var zero := Slice(0, 0, 0, 0, 0, 0, 0, 0);
    draw := Draw(Zeros(KEY_BYTES), Zeros(NONCE_BYTES), Zeros(MLEN - KEY_BYTES - NONCE_BYTES), Zeros(LANES),
                 seq(K - 1, _ => zero), Zeros(PaddedSize(size) - size), seq(n, _ => Zeros(Randomize.DIGEST_LEN)));
    assert Secret(draw) == Zeros(MLEN);
    forall key: seq<bv8>, other: seq<bv8> | |key| == |other| == LANES ensures Rejects(libs.box, Secret(draw), key, other) {
      StrictRejects(key, other);
    }
  }

  /**
   Eight stored shards of any file, of which the first sealed byte of the first one is
   flipped, give nothing back; without the flip they give the file.
   */
  lemma OneByteStops(file: seq<bv8>, n: nat) returns (libs: Libraries<int>, stored: seq<seq<bv8>>)
    requires K <= n <= 255 && PaddedSize(|file| + ZERO_BYTES) < INT_LIMIT
    ensures |stored| == K && Contracts(libs, n) && LongEnough(stored) && Unsharded(libs, stored, n) == Some(file)
    ensures var damaged := stored[0 := Flip(stored[0], Randomize.DIGEST_LEN + Shamir.KEYSHARE_LEN, 1)];
            LongEnough(damaged) && Unsharded(libs, damaged, n) == None
  {
    hide PaddedSize, Contracts, Pipeline.Shardable, StoredShard, Unsharded, Rejects, Flip;
    var draw;
    libs, draw := ShardingPossible(file, n);
    var sel := seq(K, i => i);
    stored := StoredShards(libs, draw, file, n, sel);
    EndToEnd(stored, sel, libs, draw, file, n);
    FlippedSealedByteStops(stored, sel, 0, Randomize.DIGEST_LEN + Shamir.KEYSHARE_LEN, 1, libs, draw, file, n);
  }
}
