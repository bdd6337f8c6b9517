/**
 rs_shard_meta, rs_shard_fd, validate_shards and rs_unshard_fd: the loops that rewrite
 the shard files, the array of descriptors and the erasure list, proved against the
 functions of RsLayout and RsRecovery.
 */
module RsShard {
  import opened Bytes
  import opened Metadata
  import opened ErasureCode
  import opened RsLayout
  import opened RsRecovery
  import opened ShardFormat

  /** A file: the descriptors of one file all refer to the same object. */
  class File {
    var contents: seq<bv8>

    constructor (contents: seq<bv8>)
      ensures this.contents == contents
    {
      this.contents := contents;
    }
  }

  ghost predicate DistinctFiles(fds: seq<File>) {
    forall i, j :: 0 <= i < j < |fds| ==> fds[i] != fds[j]
  }

  // ----- Sharding -----

  /** Overwrites every file with its index and its coded metadata block. */
  method ShardMeta(codec: Codec, fds: seq<File>, buf: seq<bv8>, m: nat) returns (ret: int)
    requires TimesContract(codec.coding)
    requires |buf| == META_SIZE && |fds| == m && DistinctFiles(fds)
    modifies fds
    ensures ret == 1
    ensures forall i :: 0 <= i < m ==>
      fds[i].contents == IndexBytes(i) + CodingBlock(codec.coding, K, m, i, Chop(buf, K, META_BLOCK), META_BLOCK)
  {
    hide TimesContract, CodingBlock, Chop, IndexBytes;
    var data := Chop(buf, K, META_BLOCK);
    var coding := Encode(codec.coding, K, m, data, META_BLOCK);
    for i := 0 to m
      invariant forall j :: 0 <= j < i ==> fds[j].contents == IndexBytes(j) + coding[j]
    {
      fds[i].contents := IndexBytes(i);
      fds[i].contents := fds[i].contents + coding[i];
    }
    return 1;
  }

  /** Appends s[i] to every file i. */
  method AppendAll(fds: seq<File>, s: seq<Block>)
    requires |fds| == |s| && DistinctFiles(fds)
    modifies fds
    ensures forall i :: 0 <= i < |fds| ==> fds[i].contents == old(fds[i].contents) + s[i]
  {
    for i := 0 to |fds|
      invariant forall j :: 0 <= j < i ==> fds[j].contents == old(fds[j].contents) + s[j]
      invariant forall j :: i <= j < |fds| ==> fds[j].contents == old(fds[j].contents)
    {
      fds[i].contents := fds[i].contents + s[i];
    }
  }

  /** Digests of the blocks, one after the other. */
  method CollectDigests(md5: Md5, coding: seq<Block>) returns (table: seq<bv8>)
    requires DigestSize(md5)
    ensures table == HashTable(md5, coding)
  {
    table := [];
    for i := 0 to |coding|
      invariant table == Join(Digests(md5, coding)[..i])
    {
      var digest := md5(coding[i]);
      assert Digests(md5, coding)[..i + 1] == Digests(md5, coding)[..i] + [digest];
      JoinAppend(Digests(md5, coding)[..i], digest);
      table := table + digest;
    }
    assert Digests(md5, coding)[..|coding|] == Digests(md5, coding);
  }

  /** Shards the input over the files; junk is what the padded end of the buffer happens to hold. */
  method ShardFd(codec: Codec, md5: Md5, input: seq<bv8>, fds: seq<File>, m: nat, junk: seq<bv8>) returns (ret: int)
    requires Shardable(codec, md5, input, junk, m)
    requires |fds| == m && DistinctFiles(fds)
    modifies fds
    ensures ret == 1
    ensures forall i :: 0 <= i < m ==> fds[i].contents == Shard(codec, md5, input, junk, m, i)
    ensures forall i :: 0 <= i < m ==> IsShardFile(fds[i].contents, codec, md5, input, junk, m, i)
  {
    hide TimesContract, DigestSize, PrintMeta, Chop, HashTable, CodingBlock, IsShardFile;
    var newsize := |input|;
    var paddingSize := 0;
    if newsize % 128 != 0 {
      paddingSize := 128 - newsize % 128;
      newsize := newsize + paddingSize;
    }
    var blocksize := newsize / K;
    PaddedSizeFits(|input|);
    var fields := [newsize, blocksize, newsize - paddingSize, K, m, WORD_SIZE, newsize, 1];
    assert fields == MetaFields(|input|, m);
    var buf := BuildMeta(fields);
    var _ := ShardMeta(codec, fds, buf, m);
    assert buf == MetaText(|input|, m);
    var data := Chop(input + junk, K, blocksize);
    var coding := Encode(codec.coding, K, m, data, blocksize);
    AppendAll(fds, coding);
    var table := CollectDigests(md5, coding);
    AppendAll(fds, seq(m, _ => table));
    forall i | 0 <= i < m ensures IsShardFile(Shard(codec, md5, input, junk, m, i), codec, md5, input, junk, m, i) {
      ShardSpelled(codec, md5, input, junk, m, i);
    }
    return 1;
  }

  // ----- Validation -----

  ghost predicate Readable(f: File?, m: nat)
    reads f
  {
    f != null && MD5_LEN * m <= |f.contents|
  }

  /** The hash table at the end of the last readable file among the first n. */
  function LastTable(files: seq<File?>, n: nat, m: nat): seq<bv8>
    requires n <= |files|
    reads files
  {
    if n == 0 then []
    else
      var f := files[n - 1];
      if f != null && MD5_LEN * m <= |f.contents| then f.contents[|f.contents| - MD5_LEN * m..]
      else LastTable(files, n - 1, m)
  }

  predicate Accepted(f: File?, md5: Md5, table: seq<bv8>, m: nat)
    reads f
  {
    f != null && GoodShard(md5, f.contents, table, m)
  }

  /** The accepted files among the first n, in their order. */
  function Kept(files: seq<File?>, n: nat, md5: Md5, table: seq<bv8>, m: nat): (kept: seq<File?>)
    requires n <= |files|
    reads files
    ensures |kept| <= n
    ensures forall f :: f in kept ==> f in files && f != null && GoodShard(md5, f.contents, table, m)
  {
    if n == 0 then []
    else Kept(files, n - 1, md5, table, m) + (if Accepted(files[n - 1], md5, table, m) then [files[n - 1]] else [])
  }

  function Rejected(files: seq<File?>, n: nat, md5: Md5, table: seq<bv8>, m: nat): (bad: seq<File?>)
    requires n <= |files|
    reads files
    ensures |bad| <= n
    ensures forall f :: f in bad ==> f in files && !Accepted(f, md5, table, m)
  {
    if n == 0 then []
    else Rejected(files, n - 1, md5, table, m) + (if Accepted(files[n - 1], md5, table, m) then [] else [files[n - 1]])
  }

  function Nulls(n: nat): (s: seq<File?>)
    ensures |s| == n && forall i :: 0 <= i < n ==> s[i] == null
  {
    seq(n, _ => null)
  }

  /** Every file of the sequence is in exactly one of the two others. */
  ghost predicate SplitInto(files: seq<File?>, kept: seq<File?>, rejected: seq<File?>) {
    && multiset(kept) + multiset(rejected) == multiset(files)
    && |kept| + |rejected| == |files|
  }

  /** Every file is counted exactly once, as good or as bad. */
  lemma {:induction false} KeptOrRejected(files: seq<File?>, n: nat, md5: Md5, table: seq<bv8>, m: nat)
    requires n <= |files|
    ensures SplitInto(files[..n], Kept(files, n, md5, table, m), Rejected(files, n, md5, table, m))
  {
    hide *;
    if n == 0 {
      assert files[..0] == [];
      NothingToSplit(files, md5, table, m);
    } else {
      KeptOrRejected(files, n - 1, md5, table, m);
      SortedOut(files, n, md5, table, m);
      assert files[..n] == files[..n - 1] + [files[n - 1]];
      OneMore(files[..n - 1], Kept(files, n - 1, md5, table, m), Rejected(files, n - 1, md5, table, m), files[n - 1]);
    }
  }

  lemma NothingToSplit(files: seq<File?>, md5: Md5, table: seq<bv8>, m: nat)
    ensures SplitInto([], Kept(files, 0, md5, table, m), Rejected(files, 0, md5, table, m))
  {}

  lemma OneMore(files: seq<File?>, kept: seq<File?>, rejected: seq<File?>, f: File?)
    requires SplitInto(files, kept, rejected)
    ensures SplitInto(files + [f], kept + [f], rejected)
    ensures SplitInto(files + [f], kept, rejected + [f])
  {}

  lemma SortedOut(files: seq<File?>, n: nat, md5: Md5, table: seq<bv8>, m: nat)
    requires 0 < n <= |files|
    ensures var kept, rejected, f := Kept(files, n - 1, md5, table, m), Rejected(files, n - 1, md5, table, m), files[n - 1];
            if Accepted(f, md5, table, m)
            then Kept(files, n, md5, table, m) == kept + [f] && Rejected(files, n, md5, table, m) == rejected
            else Kept(files, n, md5, table, m) == kept && Rejected(files, n, md5, table, m) == rejected + [f]
  {
    hide Accepted, GoodShard;
  }

  /**
   The table that validation trusts: every readable file's table is read into the same
   buffer, and the tally compares that buffer's address with itself, so its one entry is
   whatever was read last.
   */
  method TrustedTable(fds: array<File?>, m: nat) returns (table: seq<bv8>)
    ensures table == LastTable(fds[..], fds.Length, m)
  {
    table := [];
    for i := 0 to fds.Length
      invariant table == LastTable(fds[..], i, m)
    {
      if fds[i] != null {
        var size := |fds[i].contents|;
        if MD5_LEN * m <= size {
          table := fds[i].contents[size - MD5_LEN * m..];
        }
      }
    }
  }

  /**
   Keeps the good files at the front of fds in their order, clears the rest, and returns
   how many there are.
   */
  method ValidateShards(md5: Md5, fds: array<File?>, m: nat) returns (good: nat)
    modifies fds
    ensures var files := old(fds[..]);
            var kept := Kept(files, |files|, md5, old(LastTable(fds[..], fds.Length, m)), m);
            good == |kept| && fds[..] == kept + Nulls(fds.Length - good)
  {
    hide GoodShard;
    ghost var files := fds[..];
    var table := TrustedTable(fds, m);
    var goodFds: seq<File?> := [];
    var bad := 0;
    for j := 0 to fds.Length
      invariant fds[..] == files
      invariant goodFds == Kept(files, j, md5, table, m)
      invariant |goodFds| + bad == j
    {
      if fds[j] != null && GoodShard(md5, fds[j].contents, table, m) {
        goodFds := goodFds + [fds[j]];
      } else {
        bad := bad + 1;
      }
    }
    good := |goodFds|;
    if bad > 0 {
      for x := 0 to fds.Length
        invariant forall i :: 0 <= i < x ==> fds[i] == if i < good then goodFds[i] else null
      {
        if x < good {
          fds[x] := goodFds[x];
        } else {
          fds[x] := null;
        }
      }
    } else {
      AllKept(files, |files|, md5, table, m);
    }
  }

  lemma {:induction false} AllKept(files: seq<File?>, n: nat, md5: Md5, table: seq<bv8>, m: nat)
    requires n <= |files| && |Kept(files, n, md5, table, m)| == n
    ensures Kept(files, n, md5, table, m) == files[..n]
  {
    hide GoodShard;
    if n > 0 {
      AllKept(files, n - 1, md5, table, m);
      assert files[..n] == files[..n - 1] + [files[n - 1]];
    }
  }

  /** When the readable files agree on their table, that is the trusted one. */
  lemma {:induction false} AgreeingTables(files: seq<File?>, n: nat, m: nat, table: seq<bv8>)
    requires n <= |files|
    requires exists i :: 0 <= i < n && Readable(files[i], m)
    requires forall i :: 0 <= i < n && Readable(files[i], m) ==>
      files[i].contents[|files[i].contents| - MD5_LEN * m..] == table
    ensures LastTable(files, n, m) == table
  {
    if !Readable(files[n - 1], m) {
      AgreeingTables(files, n - 1, m, table);
    }
  }

  // ----- Unsharding -----

  ghost predicate Headed(fds: seq<File?>, good: nat)
    reads fds
  {
    && good <= |fds|
    && forall j :: 0 <= j < good ==> fds[j] != null && INDEX_LEN <= |fds[j].contents|
  }

  function Contents(fds: seq<File?>, good: nat): (c: seq<seq<bv8>>)
    requires Headed(fds, good)
    reads fds
    ensures |c| == good && forall j :: 0 <= j < good ==> c[j] == fds[j].contents
    ensures Indexed(c)
  {
    seq(good, j requires 0 <= j < good && Headed(fds, good) reads fds => fds[j].contents)
  }

  /** The entries before the terminating -1. */
  function Terminated(s: seq<int>): seq<int> {
    if s == [] || s[0] == -1 then [] else [s[0]] + Terminated(s[1..])
  }

  lemma {:induction false} TerminatedPrefix(s: seq<int>, n: nat)
    requires n < |s| && s[n] == -1
    requires forall i :: 0 <= i < n ==> s[i] != -1
    ensures Terminated(s) == s[..n]
  {
    if n > 0 {
      TerminatedPrefix(s[1..], n - 1);
      assert s[..n] == [s[0]] + s[1..][..n - 1];
    }
  }

  /** The first of the good files with index i, or good. */
  method FindIndex(fds: array<File?>, good: nat, i: nat) returns (j: nat)
    requires Headed(fds[..], good)
    ensures j == FirstWith(Indices(Contents(fds[..], good)), i)
  {
    ghost var indices := Indices(Contents(fds[..], good));
    j := 0;
    while j < good
      invariant 0 <= j <= good
      invariant forall l :: 0 <= l < j ==> indices[l] != i
    {
      if ShardIndex(fds[j].contents) == i {
        FirstWithUnique(indices, i, j);
        return;
      }
      j := j + 1;
    }
    FirstWithUnique(indices, i, j);
  }

  lemma FirstWithUnique(indices: seq<nat>, i: nat, j: nat)
    requires j <= |indices| && (forall l :: 0 <= l < j ==> indices[l] != i)
    requires j < |indices| ==> indices[j] == i
    ensures FirstWith(indices, i) == j
  {}

  /** Looks for the coding block of index i; a missing one stays a zeroed buffer. */
  method ReadCoding(fds: array<File?>, good: nat, offset: nat, size: nat, i: nat) returns (found: bool, block: Block)
    requires Headed(fds[..], good) && 1 <= i
    ensures found == (i in Indices(Contents(fds[..], good)))
    ensures block == CodingRead(Contents(fds[..], good), offset, size, i - 1)
  {
    hide ShardIndex, ReadAt;
    var j := FindIndex(fds, good, i);
    found := j < good;
    if found {
      block := ReadAt(fds[j].contents, offset, size);
    } else {
      block := Zeros(size);
    }
  }

  /** All data blocks count as erased. */
  method EraseData(erasures: array<int>) returns (numerased: nat)
    requires K <= erasures.Length
    modifies erasures
    ensures numerased == K && erasures[..numerased] == DataIds(K)
  {
    numerased := 0;
    for i := 1 to K + 1
      invariant numerased == i - 1 && erasures[..numerased] == DataIds(i - 1)
    {
      erasures[numerased] := i - 1;
      numerased := numerased + 1;
      assert erasures[..numerased] == erasures[..numerased - 1] + [i - 1];
    }
  }

  lemma AllCodingReadNext(shards: seq<seq<bv8>>, offset: nat, size: nat, m: nat)
    requires Indexed(shards)
    ensures AllCodingRead(shards, offset, size, m + 1)
         == AllCodingRead(shards, offset, size, m) + [CodingRead(shards, offset, size, m)]
  {
    hide CodingRead;
  }

  /** The nested search: the coding blocks that survive, and the list of erasures. */
  method GatherShards(fds: array<File?>, good: nat, offset: nat, size: nat, m: nat)
    returns (erasures: array<int>, numerased: nat, coding: seq<Block>)
    requires Headed(fds[..], good)
    requires Present(m, Indices(Contents(fds[..], good))) != {}
    ensures fresh(erasures) && erasures.Length == K + m
    ensures numerased < K + m
    ensures erasures[..numerased] == ErasureList(K, m, Indices(Contents(fds[..], good)))
    ensures coding == AllCodingRead(Contents(fds[..], good), offset, size, m)
  {
    hide Present, CodingRead, Contents, Indices, Headed, AllCodingRead;
    ghost var shards := Contents(fds[..], good);
    ghost var indices := Indices(shards);
    erasures := new int[K + m];
    numerased := EraseData(erasures);
    coding := [];
    assert coding == AllCodingRead(shards, offset, size, 0);
    for i := 1 to m + 1
      invariant numerased <= K + i - 1
      invariant erasures[..numerased] == ErasureList(K, i - 1, indices)
      invariant coding == AllCodingRead(shards, offset, size, i - 1)
    {
      var found, block := ReadCoding(fds, good, offset, size, i);
      AllCodingReadNext(shards, offset, size, i - 1);
      coding := coding + [block];
      if !found {
        erasures[numerased] := K + i - 1;
        numerased := numerased + 1;
        assert erasures[..numerased] == erasures[..numerased - 1] + [K + i - 1];
      }
    }
    ErasureBound(K, m, indices);
  }

  /** One decoding pass: gather, terminate the erasure list with -1, and decode. */
  method DecodeShards(codec: Codec, fds: array<File?>, good: nat, offset: nat, size: nat, m: nat)
    returns (ret: int, data: seq<Block>)
    requires Headed(fds[..], good)
    requires Present(m, Indices(Contents(fds[..], good))) != {}
    ensures (ret, data) == DecodePass(codec, Contents(fds[..], good), offset, size, m)
  {
    hide Present, Contents, Indices, Headed, AllCodingRead, ErasureList;
    var erasures, numerased, coding := GatherShards(fds, good, offset, size, m);
    ErasureListExact(K, m, Indices(Contents(fds[..], good)));
    ghost var list := erasures[..numerased];
    erasures[numerased] := -1;
    assert erasures[..numerased] == list;
    forall i | 0 <= i < numerased ensures erasures[..][i] != -1 {
      assert erasures[..][i] == list[i];
    }
    TerminatedPrefix(erasures[..], numerased);
    var result := codec.decode(K, m, Terminated(erasures[..]), coding, size);
    return result.0, result.1;
  }

  /** Writes one block, or as many of its bytes as the limit leaves. */
  method WriteBlock(written: seq<bv8>, block: Block, limit: nat) returns (out: seq<bv8>)
    requires |written| <= limit
    ensures out == Take(written + block, limit)
  {
    out := written;
    var total := |written|;
    if total + |block| <= limit {
      out := out + block;
      total := total + |block|;
    } else {
      var j := 0;
      while j < |block| && total < limit
        invariant 0 <= j <= |block| && total == |written| + j <= limit
        invariant out == written + block[..j]
      {
        out := out + [block[j]];
        total := total + 1;
        j := j + 1;
      }
    }
  }

  lemma TakeAgain(s: seq<bv8>, t: seq<bv8>, limit: nat)
    ensures Take(Take(s, limit) + t, limit) == Take(s + t, limit)
  {}

  /** Writes the blocks one after the other, but no more than limit bytes. */
  method WriteBlocks(data: seq<Block>, size: nat, limit: nat) returns (out: seq<bv8>)
    requires Blocks(data, |data|, size)
    ensures out == Take(Join(data), limit)
  {
    out := [];
    for i := 0 to |data|
      invariant out == Take(Join(data[..i]), limit)
    {
      assert data[..i + 1] == data[..i] + [data[i]];
      JoinAppend(data[..i], data[i]);
      TakeAgain(Join(data[..i]), data[i], limit);
      out := WriteBlock(out, data[i], limit);
    }
    assert data[..|data|] == data;
  }

  /** The contents of the files that pass validation, in their order. */
  function KeptContents(files: seq<File?>, md5: Md5, m: nat): (c: seq<seq<bv8>>)
    reads files
    ensures Indexed(c)
    ensures forall j :: 0 <= j < |c| ==> 1 <= ShardIndex(c[j]) <= m
  {
    var kept := Kept(files, |files|, md5, LastTable(files, |files|, m), m);
    assert forall j :: 0 <= j < |kept| ==> kept[j] in kept;
    Contents(kept, |kept|)
  }

  lemma SomePresent(shards: seq<seq<bv8>>, m: nat)
    requires Indexed(shards) && shards != []
    requires forall j :: 0 <= j < |shards| ==> 1 <= ShardIndex(shards[j]) <= m
    ensures Present(m, Indices(shards)) != {}
  {
    hide ShardIndex;
    assert Indices(shards)[0] in Indices(shards);
    assert Indices(shards)[0] in Present(m, Indices(shards));
  }

  lemma PassBlocks(codec: Codec, shards: seq<seq<bv8>>, offset: nat, size: nat, m: nat)
    requires Indexed(shards) && CodecContract(codec, K, m)
    ensures Blocks(DecodePass(codec, shards, offset, size, m).1, K, size)
  {
    hide TimesContract, ErasureList, AllCodingRead, CodingRead;
    ErasureListExact(K, m, Indices(shards));
  }

  /** The decoding half: both passes over the validated files at the front of fds. */
  method DecodeFile(codec: Codec, fds: array<File?>, good: nat, m: nat) returns (ret: int, file: seq<bv8>)
    requires CodecContract(codec, K, m)
    requires Headed(fds[..], good)
    requires forall j :: 0 <= j < good ==> 1 <= ShardIndex(Contents(fds[..], good)[j]) <= m
    ensures (ret, file) == RsUnshard(codec, Contents(fds[..], good), m)
  {
    hide Present, Contents, Indices, Headed, DecodePass, ShardIndex, ScanMeta, Join, Take, Truncate, CodecContract;
    ghost var shards := Contents(fds[..], good);
    if good < K {
      return -1, [];
    }
    SomePresent(shards, m);
    var ret1, metaData := DecodeShards(codec, fds, good, INDEX_LEN, META_BLOCK, m);
    if ret1 == -1 {
      return -1, [];
    }
    PassBlocks(codec, shards, INDEX_LEN, META_BLOCK, m);
    var metaBuffer := WriteBlocks(metaData, META_BLOCK, META_SIZE);
    var scanned := ScanMeta(metaBuffer);
    if scanned.None? || !Plausible(scanned.value, m) {
      return -1, [];
    }
    var fields := scanned.value;
    var ret2, bodyData := DecodeShards(codec, fds, good, BODY_START, fields[1], m);
    if ret2 == -1 {
      return -1, [];
    }
    PassBlocks(codec, shards, BODY_START, fields[1], m);
    file := WriteBlocks(bodyData, fields[1], fields[0]);
    file := Truncate(file, fields[2]);
    return 1, file;
  }

  /**
   Validates the shards, decodes, and writes the file to output; -1, and output as it
   was, when there are too few good shards or they do not decode.
   */
  method UnshardFd(codec: Codec, md5: Md5, fds: array<File?>, output: File, m: nat) returns (ret: int)
    requires CodecContract(codec, K, m)
    modifies fds, output
    ensures var result := RsUnshard(codec, old(KeptContents(fds[..], md5, m)), m);
            ret == result.0 && output.contents == if ret == 1 then result.1 else old(output.contents)
  {
    hide GoodShard, RsUnshard, CodecContract, ShardIndex, LastTable;
    ghost var expected := KeptContents(fds[..], md5, m);
    var good := ValidateShards(md5, fds, m);
    KeptIsHeaded(fds[..], good, expected);
    var result, file := DecodeFile(codec, fds, good, m);
    ret := result;
    if ret == 1 {
      output.contents := file;
    }
  }

  lemma KeptIsHeaded(fds: seq<File?>, good: nat, expected: seq<seq<bv8>>)
    requires good == |expected| <= |fds| && Indexed(expected)
    requires forall j :: 0 <= j < good ==> fds[j] != null && fds[j].contents == expected[j]
    ensures Headed(fds, good) && Contents(fds, good) == expected
  {}

  // ----- Validation of files that are all there -----

  lemma {:induction false} LastTableIsTableOf(files: seq<File?>, n: nat, m: nat, c: seq<seq<bv8>>)
    requires n <= |files| == |c|
    requires forall j :: 0 <= j < |files| ==> files[j] != null && files[j].contents == c[j]
    ensures LastTable(files, n, m) == TableOf(c, n, m)
  {
    if n > 0 {
      LastTableIsTableOf(files, n - 1, m, c);
    }
  }

  lemma {:induction false} KeptIsGoodOf(files: seq<File?>, n: nat, md5: Md5, table: seq<bv8>, m: nat, c: seq<seq<bv8>>)
    requires n <= |files| == |c|
    requires forall j :: 0 <= j < |files| ==> files[j] != null && files[j].contents == c[j]
    ensures var kept := Kept(files, n, md5, table, m);
            var good := GoodOf(c, n, md5, table, m);
            |kept| == |good| && forall j :: 0 <= j < |kept| ==> kept[j] != null && kept[j].contents == good[j]
  {
    hide GoodShard;
    if n > 0 {
      KeptIsGoodOf(files, n - 1, md5, table, m, c);
    }
  }

  lemma KeptContentsIsValidated(files: seq<File?>, md5: Md5, m: nat, c: seq<seq<bv8>>)
    requires |files| == |c|
    requires forall j :: 0 <= j < |files| ==> files[j] != null && files[j].contents == c[j]
    ensures KeptContents(files, md5, m) == Validated(c, md5, m)
  {
    hide GoodShard;
    LastTableIsTableOf(files, |files|, m, c);
    KeptIsGoodOf(files, |files|, md5, LastTable(files, |files|, m), m, c);
  }
}
