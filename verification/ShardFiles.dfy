/**
 shard_file and unshard_fd over files: the loops that rewrite every shard in place and
 collect the shares, proved against the functions of Pipeline.
 */
module ShardFiles {
  import opened Bytes
  import opened Metadata
  import opened Bitslice
  import opened Shamir
  import opened KeyShares
  import opened SecretShares
  import opened ErasureCode
  import opened RsLayout
  import opened RsRecovery
  import opened RsShard
  import opened Pipeline
  import opened StoredFormat
  import Randomize

  // ----- Sharding -----

  method NewShares(n: nat) returns (rows: seq<array<bv8>>)
    ensures |rows| == n
    ensures forall i :: 0 <= i < n ==> fresh(rows[i]) && rows[i].Length == SHARE_LEN
    ensures forall i, j :: 0 <= i < j < n ==> rows[i] != rows[j]
  {
    rows := [];
    for i := 0 to n
      invariant |rows| == i
      invariant forall j :: 0 <= j < i ==> fresh(rows[j]) && rows[j].Length == SHARE_LEN
      invariant forall j, l :: 0 <= j < l < i ==> rows[j] != rows[l]
    {
      var row := new bv8[SHARE_LEN];
      rows := rows + [row];
    }
  }

  /** Prepends a share to the file and randomizes it. */
  method FinishShard<C(!new)>(file: File, share: seq<bv8>, sha: Randomize.Sha<C>, pre: seq<bv8>)
    requires Randomize.DigestSize(sha) && |pre| == Randomize.DIGEST_LEN && |share| == SHARE_LEN
    modifies file
    ensures file.contents == Randomize.Randomized(sha, pre, share + old(file.contents))
  {
    var data := file.contents;
    file.contents := share;
    file.contents := file.contents + data;
    var _ := Randomize.RandomizeHeader(file, sha, pre);
  }

  lemma StoredIs<C(!new)>(libs: Libraries<C>, draw: Draw, file: seq<bv8>, n: nat, i: nat, share: seq<bv8>, body: seq<bv8>)
    requires Pipeline.Shardable(libs, draw, file, n) && i < n
    requires |draw.shareKey| == LANES && BOX_ZERO_BYTES <= |Ciphertext(libs.box, Secret(draw), draw.shareKey)|
    requires RsLayout.Shardable(libs.codec, libs.md5, Encrypted(libs.box, file, draw.key, draw.nonce), draw.padding, n)
    requires share == ShareAt(libs.box, Secret(draw), draw.shareKey, draw.coeffs, ToByte(i + 1))
    requires body == Shard(libs.codec, libs.md5, Encrypted(libs.box, file, draw.key, draw.nonce), draw.padding, n, i)
    ensures |share| == SHARE_LEN
    ensures StoredShard(libs, draw, file, n, i) == Randomize.Randomized(libs.sha, draw.preImages[i], share + body)
  {
    hide Randomize.Pad;
    PlainShardSize(libs, draw, file, n, i);
    PlainParts(libs, draw, file, n, i);
  }

  /** Shards the file over n shard files; the rows of poly and draw are what was drawn at random. */
  method ShardFile<C(!new)>(libs: Libraries<C>, file: seq<bv8>, shards: seq<File>, n: nat, draw: Draw,
                            poly: seq<array<bv32>>)
    requires Pipeline.Shardable(libs, draw, file, n)
    requires |shards| == n && DistinctFiles(shards)
    requires |poly| == K - 1 && forall i :: 0 <= i < |poly| ==> poly[i].Length == 8
    requires Rows(poly, K - 1) == draw.coeffs
    modifies shards
    ensures forall i :: 0 <= i < n ==> shards[i].contents == StoredShard(libs, draw, file, n, i)
    ensures forall i :: 0 <= i < n ==> IsStoredFile(shards[i].contents, libs, draw, file, n, i)
  {
    hide IsStoredFile;
    CoreShardable(libs, draw, file, n);
    var data := draw.key + draw.nonce + draw.spare;
    var rows := NewShares(n);
    CreateShares(libs.box, rows, data, n, K, draw.shareKey, poly);
    var enc := libs.box.seal(Zeros(ZERO_BYTES) + file, draw.nonce, draw.key);
    assert enc == Encrypted(libs.box, file, draw.key, draw.nonce);
    var _ := ShardFd(libs.codec, libs.md5, enc, shards, n, draw.padding);
    FinishShards(libs, draw, file, n, shards, rows);
    forall i | 0 <= i < n ensures IsStoredFile(StoredShard(libs, draw, file, n, i), libs, draw, file, n, i) {
      StoredSpelled(libs, draw, file, n, i);
    }
  }

  method FinishShards<C(!new)>(libs: Libraries<C>, draw: Draw, file: seq<bv8>, n: nat,
                               shards: seq<File>, rows: seq<array<bv8>>)
    requires Pipeline.Shardable(libs, draw, file, n)
    requires |draw.shareKey| == LANES && BOX_ZERO_BYTES <= |Ciphertext(libs.box, Secret(draw), draw.shareKey)|
    requires RsLayout.Shardable(libs.codec, libs.md5, Encrypted(libs.box, file, draw.key, draw.nonce), draw.padding, n)
    requires |shards| == |rows| == n && DistinctFiles(shards)
    requires forall i :: 0 <= i < n ==>
      rows[i][..] == ShareAt(libs.box, Secret(draw), draw.shareKey, draw.coeffs, ToByte(i + 1))
    requires forall i :: 0 <= i < n ==>
      shards[i].contents == Shard(libs.codec, libs.md5, Encrypted(libs.box, file, draw.key, draw.nonce), draw.padding, n, i)
    modifies shards
    ensures forall i :: 0 <= i < n ==> shards[i].contents == StoredShard(libs, draw, file, n, i)
  {
    hide StoredShard, Shard, ShareAt, Randomize.Pad, Randomize.Randomized, Encrypted, Ciphertext, CodecContract;
    for i := 0 to n
      invariant forall j :: 0 <= j < i ==> shards[j].contents == StoredShard(libs, draw, file, n, j)
      invariant forall j :: i <= j < n ==> shards[j].contents == old(shards[j].contents)
    {
      StoredIs(libs, draw, file, n, i, rows[i][..], shards[i].contents);
      FinishShard(shards[i], rows[i][..], libs.sha, draw.preImages[i]);
    }
  }

  // ----- Unsharding -----

  ghost predicate Present(fds: seq<File?>) {
    && (forall i :: 0 <= i < |fds| ==> fds[i] != null)
    && (forall i, j :: 0 <= i < j < |fds| ==> fds[i] != fds[j])
  }

  ghost function AllContents(fds: seq<File?>): (c: seq<seq<bv8>>)
    requires Present(fds)
    reads fds
    ensures |c| == |fds| && forall i :: 0 <= i < |fds| ==> c[i] == fds[i].contents
  {
    seq(|fds|, i requires 0 <= i < |fds| && fds[i] != null reads fds => fds[i].contents)
  }

  /** Unrandomizes one shard, takes the share off its front, and returns it. */
  method SplitShard<C(!new)>(file: File, sha: Randomize.Sha<C>) returns (share: seq<bv8>)
    requires Randomize.DigestSize(sha) && Randomize.DIGEST_LEN + SHARE_LEN <= |file.contents|
    modifies file
    ensures share == Plain(sha, old(file.contents))[..SHARE_LEN]
    ensures file.contents == Plain(sha, old(file.contents))[SHARE_LEN..]
  {
    hide Randomize.Pad;
    var _ := Randomize.UnrandomizeHeader(file, sha);
    var data := file.contents;
    share := data[..SHARE_LEN];
    file.contents := data[SHARE_LEN..];
  }

  /** Splits all shards in place and collects their shares. */
  method SplitShards<C(!new)>(fds: array<File?>, sha: Randomize.Sha<C>) returns (shares: seq<seq<bv8>>)
    requires Present(fds[..]) && Randomize.DigestSize(sha) && LongEnough(AllContents(fds[..]))
    modifies set f: File? | f in fds[..]
    ensures fds[..] == old(fds[..])
    ensures shares == Shares(sha, old(AllContents(fds[..])))
    ensures AllContents(fds[..]) == Bodies(sha, old(AllContents(fds[..])))
  {
    hide Plain;
    ghost var stored := AllContents(fds[..]);
    shares := [];
    for i := 0 to fds.Length
      invariant fds[..] == old(fds[..])
      invariant |shares| == i
      invariant forall j :: 0 <= j < i ==> shares[j] == Plain(sha, stored[j])[..SHARE_LEN]
      invariant forall j :: 0 <= j < i ==> fds[j].contents == Plain(sha, stored[j])[SHARE_LEN..]
      invariant forall j :: i <= j < fds.Length ==> fds[j].contents == stored[j]
    {
      var share := SplitShard(fds[i], sha);
      shares := shares + [share];
    }
  }

  /**
   Unshards to the output file; false, and the output as it was, where the program aborts
   because the shares do not combine or the ciphertext does not decrypt.
   */
  method UnshardFile<C(!new)>(libs: Libraries<C>, fds: array<File?>, output: File, n: nat) returns (ok: bool)
    requires Contracts(libs, n) && Present(fds[..]) && output !in fds[..]
    requires LongEnough(AllContents(fds[..]))
    modifies fds, output, set f: File? | f in fds[..]
    ensures var result := Unsharded(libs, old(AllContents(fds[..])), n);
            ok == result.Some? && output.contents == if ok then result.value else old(output.contents)
  {
    hide RsUnshard, Validated, Decrypted, Opened, CodecContract, CiphertextsAgree, Plain, KeptContents;
    var shares := SplitShards(fds, libs.sha);
    var enc := UnshardBodies(libs.codec, libs.md5, fds, n);
    ok := Decrypt(libs, enc, shares[..ShareCount(|shares|)], output);
  }

  /** Unshards into a new file, and returns what it then holds. */
  method UnshardBodies(codec: Codec, md5: Md5, fds: array<File?>, n: nat) returns (enc: seq<bv8>)
    requires CodecContract(codec, K, n) && Present(fds[..])
    modifies fds
    ensures enc == RsOutput(codec, md5, old(AllContents(fds[..])), n)
  {
    hide RsUnshard, Validated, CodecContract, KeptContents;
    ghost var bodies := AllContents(fds[..]);
    KeptContentsIsValidated(fds[..], md5, n, bodies);
    var f := new File([]);
    var ret := UnshardFd(codec, md5, fds, f, n);
    enc := f.contents;
  }

  /** Key and nonce behind the 32 zero bytes. */
  lemma KeyAndNonce(padded: seq<bv8>)
    requires |padded| == 96
    ensures padded[32..][..32] == padded[32..64] && padded[32..][32..56] == padded[64..88]
  {}

  /** Combines the shares and decrypts with the key and nonce they hold. */
  method Decrypt<C>(libs: Libraries<C>, enc: seq<bv8>, shares: seq<seq<bv8>>, output: File) returns (ok: bool)
    requires OpenUndoesSeal(libs.box) && WellSized(shares)
    modifies output
    ensures var result := if shares == [] || !CiphertextsAgree(shares) || Opened(libs.box, shares).0 != 0 then None
                          else Decrypted(libs.box, enc, Opened(libs.box, shares).1[ZERO_BYTES..]);
            ok == result.Some? && output.contents == if ok then result.value else old(output.contents)
    ensures shares == [] || !CiphertextsAgree(shares) ==> !ok
    ensures shares != [] && CiphertextsAgree(shares) ==>
      var (ret, padded) := libs.box.open(Zeros(16) + shares[0][33..], Zeros(24), CombinedKey(KeyParts(shares)));
      && |padded| == 96
      && var (ret', m) := libs.box.open(enc, padded[64..88], padded[32..64]);
         && (ok <==> ret == 0 && ret' == 0 && 32 <= |m|)
         && (ok ==> output.contents == m[32..])
  {
    hide CombinedKey;
    var restored := new bv8[MLEN];
    var tmp := CombineShares(libs.box, restored, shares);
    if tmp != 0 {
      return false;
    }
    var key, nonce := restored[..KEY_BYTES], restored[KEY_BYTES..KEY_BYTES + NONCE_BYTES];
    assert restored[..][KEY_BYTES..KEY_BYTES + NONCE_BYTES] == nonce && restored[..][..KEY_BYTES] == key;
    ghost var padded := Opened(libs.box, shares).1;
    KeyAndNonce(padded);
    assert key == padded[32..64] && nonce == padded[64..88];
    var result := libs.box.open(enc, nonce, key);
    if result.0 != 0 || |result.1| < ZERO_BYTES {
      return false;
    }
    output.contents := result.1[ZERO_BYTES..];
    return true;
  }
}
