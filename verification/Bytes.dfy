/** Byte strings: fill, concatenation of blocks, and copying into buffers. */
module Bytes {

  type Block = seq<bv8>

  function Zeros(n: nat): (p: seq<bv8>)
    ensures |p| == n && forall i :: 0 <= i < n ==> p[i] == 0
  {
    seq(n, i => 0)
  }

  /** The first n bytes, or all if there are fewer. */
  function Take(s: seq<bv8>, n: nat): seq<bv8> {
    if n <= |s| then s[..n] else s
  }

  function XorBlock(a: Block, b: Block): (c: Block)
    requires |a| == |b|
    ensures |c| == |a| && forall i :: 0 <= i < |c| ==> c[i] == a[i] ^ b[i]
  {
    seq(|a|, i requires 0 <= i < |a| => a[i] ^ b[i])
  }

  lemma XorTwice(x: bv8, y: bv8)
    ensures (x ^ y) ^ y == x
  {}

  lemma XorBlockTwice(a: Block, b: Block)
    requires |a| == |b|
    ensures XorBlock(XorBlock(a, b), b) == a
  {
    forall i | 0 <= i < |a| ensures XorBlock(XorBlock(a, b), b)[i] == a[i] {
      XorTwice(a[i], b[i]);
    }
  }

  // ----- Blocks -----

  ghost predicate Blocks(blocks: seq<Block>, n: nat, size: nat) {
    |blocks| == n && forall i :: 0 <= i < n ==> |blocks[i]| == size
  }

  /** s cut into k blocks of the given size. */
  function Chop(s: seq<bv8>, k: nat, size: nat): (blocks: seq<Block>)
    requires |s| == k * size
    ensures Blocks(blocks, k, size)
  {
    if k == 0 then [] else
      assert |s| == size + (k - 1) * size;
      [s[..size]] + Chop(s[size..], k - 1, size)
  }

  function Join(blocks: seq<Block>): seq<bv8> {
    if blocks == [] then [] else blocks[0] + Join(blocks[1..])
  }

  lemma {:induction false} JoinChop(s: seq<bv8>, k: nat, size: nat)
    requires |s| == k * size
    ensures Join(Chop(s, k, size)) == s
  {
    if k > 0 {
      assert |s| == size + (k - 1) * size;
      JoinChop(s[size..], k - 1, size);
      assert Chop(s, k, size)[1..] == Chop(s[size..], k - 1, size);
    }
  }

  lemma {:induction false} JoinLength(blocks: seq<Block>, n: nat, size: nat)
    requires Blocks(blocks, n, size)
    ensures |Join(blocks)| == n * size
  {
    if n > 0 {
      JoinLength(blocks[1..], n - 1, size);
      assert n * size == size + (n - 1) * size;
    }
  }

  lemma {:induction false} JoinAppend(blocks: seq<Block>, b: Block)
    ensures Join(blocks + [b]) == Join(blocks) + b
  {
    if blocks == [] {
      assert ([] + [b])[1..] == [];
    } else {
      assert (blocks + [b])[1..] == blocks[1..] + [b];
      JoinAppend(blocks[1..], b);
    }
  }

  /** Slot i of joined blocks is block i. */
  lemma {:induction false} JoinSlot(blocks: seq<Block>, n: nat, size: nat, i: nat)
    requires Blocks(blocks, n, size) && i < n
    ensures i * size + size <= |Join(blocks)|
    ensures Join(blocks)[i * size..i * size + size] == blocks[i]
  {
    JoinLength(blocks, n, size);
    JoinLength(blocks[1..], n - 1, size);
    if i > 0 {
      JoinSlot(blocks[1..], n - 1, size, i - 1);
      var from := (i - 1) * size;
      assert i * size == size + from;
      assert (blocks[0] + Join(blocks[1..]))[size + from..size + from + size] == Join(blocks[1..])[from..from + size];
    }
  }

  /** Cutting up a block and NUL bytes: all blocks but the first are zero. */
  lemma {:induction false} ChopZeros(n: nat, k: nat, size: nat, i: nat)
    requires n == k * size && i < k
    ensures Chop(Zeros(n), k, size)[i] == Zeros(size)
  {
    assert n == size + (k - 1) * size;
    assert Zeros(n)[..size] == Zeros(size);
    assert Zeros(n)[size..] == Zeros((k - 1) * size);
    if i > 0 {
      ChopZeros((k - 1) * size, k - 1, size, i - 1);
    }
  }

  // ----- Numbers in bytes -----

  /** The low byte of n. */
  function ToByte(n: nat): bv8 {
    (n % 256) as bv8
  }

  function Value(b: bv8): nat {
    b as int
  }

  lemma ByteRoundTrip(n: nat)
    requires n < 256
    ensures Value(ToByte(n)) == n
  {
    CastRoundTrip(n);
  }

  lemma CastRoundTrip(n: nat)
    requires n < 256
    ensures (n as bv8) as int == n
  {
    var b := n as bv8;
    assert 0 <= b as int < 256;
    assert (b as int - n) % 256 == 0;
  }

  lemma ToByteInjective(m: nat, n: nat)
    requires m < 256 && n < 256 && ToByte(m) == ToByte(n)
    ensures m == n
  {
    hide ToByte, Value;
    ByteRoundTrip(m);
    ByteRoundTrip(n);
  }

  /** memcpy of src to dst from offset at on. */
  method CopyInto(dst: array<bv8>, at: nat, src: seq<bv8>)
    requires at + |src| <= dst.Length
    modifies dst
    ensures dst[at..at + |src|] == src
    ensures dst[..at] == old(dst[..at]) && dst[at + |src|..] == old(dst[at + |src|..])
  {
    for i := 0 to |src|
      invariant forall j :: at <= j < at + i ==> dst[j] == src[j - at]
      invariant forall j :: 0 <= j < at || at + i <= j < dst.Length ==> dst[j] == old(dst[j])
    {
      dst[at + i] := src[i];
    }
  }
}
