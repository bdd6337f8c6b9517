/**
 randomize_header and unrandomize_header: the file is XORed with a pad that hashing a
 random pre-image gives, and the pre-image is written in front.

 SHA-256 is an opaque state machine.  Its context is initialised once and never again,
 so a digest depends on every call made before it.
 */
module Randomize {
  import opened Bytes
  import opened RsShard

  const DIGEST_LEN: nat := 32
  const NUM_HASHES: int := 100
  const COUNTER_LEN: nat := 4

  datatype Sha<!C> = Sha(init: C, update: (C, seq<bv8>) -> C, final: C -> (seq<bv8>, C))

  ghost predicate DigestSize<C(!new)>(sha: Sha<C>) {
    forall c {:trigger sha.final(c)} :: |sha.final(c).0| == DIGEST_LEN
  }

  // ----- The pad, as a function -----

  /** One update and one finalisation: the digest, and the context they leave behind. */
  function Step<C>(sha: Sha<C>, c: C, input: seq<bv8>): (seq<bv8>, C) {
    sha.final(sha.update(c, input))
  }

  /** n steps, each on the digest of the one before. */
  function Iterated<C>(sha: Sha<C>, c: C, digest: seq<bv8>, n: nat): (seq<bv8>, C)
    decreases n
  {
    if n == 0 then (digest, c)
    else
      var (d, c') := Step(sha, c, digest);
      Iterated(sha, c', d, n - 1)
  }

  /** An unsigned int in memory, the low byte first. */
  function CounterBytes(n: nat): (s: seq<bv8>)
    ensures |s| == COUNTER_LEN
  {
    [ToByte(n), ToByte(n / 0x100), ToByte(n / 0x1_0000), ToByte(n / 0x100_0000)]
  }

  /** The digests of base with the counters first, first + 1, ..., n of them. */
  function CounterDigests<C>(sha: Sha<C>, c: C, base: seq<bv8>, first: nat, n: nat): (seq<bv8>, C)
    decreases n
  {
    if n == 0 then ([], c)
    else
      var (d, c') := Step(sha, c, base + CounterBytes(first));
      var (rest, c'') := CounterDigests(sha, c', base, first + 1, n - 1);
      (d + rest, c'')
  }

  function Chunks(size: nat): nat {
    size / DIGEST_LEN
  }

  /** How often the first digest is hashed again. */
  function Rounds(size: nat): nat {
    if NUM_HASHES - Chunks(size) > 0 then NUM_HASHES - Chunks(size) else 0
  }

  /** The base digest, after all rounds. */
  function Base<C>(sha: Sha<C>, pre: seq<bv8>, size: nat): (seq<bv8>, C) {
    var (d, c) := Step(sha, sha.init, pre);
    Iterated(sha, c, d, Rounds(size))
  }

  /** The base, a digest for every further full chunk, and the front of one more digest. */
  function Pad<C>(sha: Sha<C>, pre: seq<bv8>, size: nat): seq<bv8>
    requires DIGEST_LEN <= size
  {
    var (base, c) := Base(sha, pre, size);
    var digests := CounterDigests(sha, c, base, 1, Chunks(size)).0;
    Take(base + digests, size)
  }

  lemma {:induction false} CounterDigestsLength<C(!new)>(sha: Sha<C>, c: C, base: seq<bv8>, first: nat, n: nat)
    requires DigestSize(sha)
    ensures |CounterDigests(sha, c, base, first, n).0| == DIGEST_LEN * n
    decreases n
  {
    if n > 0 {
      var (d, c') := Step(sha, c, base + CounterBytes(first));
      CounterDigestsLength(sha, c', base, first + 1, n - 1);
    }
  }

  lemma {:induction false} IteratedLength<C(!new)>(sha: Sha<C>, c: C, digest: seq<bv8>, n: nat)
    requires DigestSize(sha) && |digest| == DIGEST_LEN
    ensures |Iterated(sha, c, digest, n).0| == DIGEST_LEN
    decreases n
  {
    if n > 0 {
      var (d, c') := Step(sha, c, digest);
      IteratedLength(sha, c', d, n - 1);
    }
  }

  /** The pad covers the whole file. */
  lemma PadLength<C(!new)>(sha: Sha<C>, pre: seq<bv8>, size: nat)
    requires DigestSize(sha) && DIGEST_LEN <= size
    ensures |Pad(sha, pre, size)| == size
  {
    var (d, c0) := Step(sha, sha.init, pre);
    IteratedLength(sha, c0, d, Rounds(size));
    var (base, c) := Base(sha, pre, size);
    CounterDigestsLength(sha, c, base, 1, Chunks(size));
  }

  function Randomized<C(!new)>(sha: Sha<C>, pre: seq<bv8>, data: seq<bv8>): (s: seq<bv8>)
    requires DigestSize(sha) && DIGEST_LEN <= |data|
    ensures |s| == |pre| + |data|
  {
    PadLength(sha, pre, |data|);
    pre + XorBlock(data, Pad(sha, pre, |data|))
  }

  function Unrandomized<C(!new)>(sha: Sha<C>, s: seq<bv8>): (data: seq<bv8>)
    requires DigestSize(sha) && 2 * DIGEST_LEN <= |s|
    ensures |data| == |s| - DIGEST_LEN
  {
    PadLength(sha, s[..DIGEST_LEN], |s| - DIGEST_LEN);
    XorBlock(s[DIGEST_LEN..], Pad(sha, s[..DIGEST_LEN], |s| - DIGEST_LEN))
  }

  /** Unrandomizing recovers every file of at least 32 bytes, whatever the pre-image. */
  lemma RandomizeRoundTrip<C(!new)>(sha: Sha<C>, pre: seq<bv8>, data: seq<bv8>)
    requires DigestSize(sha) && |pre| == DIGEST_LEN <= |data|
    ensures var s := Randomized(sha, pre, data);
            && |s| == DIGEST_LEN + |data|
            && s[..DIGEST_LEN] == pre
            && Unrandomized(sha, s) == data
  {
    hide Pad;
    PadLength(sha, pre, |data|);
    var s := Randomized(sha, pre, data);
    assert s[DIGEST_LEN..] == XorBlock(data, Pad(sha, pre, |data|));
    XorBlockTwice(data, Pad(sha, pre, |data|));
  }

  // ----- Which hashing calls are made -----

  /** The inputs of the rounds. */
  function RoundInputs<C>(sha: Sha<C>, c: C, digest: seq<bv8>, n: nat): (inputs: seq<seq<bv8>>)
    ensures |inputs| == n
    decreases n
  {
    if n == 0 then []
    else
      var (d, c') := Step(sha, c, digest);
      [digest] + RoundInputs(sha, c', d, n - 1)
  }

  function CounterInputs(base: seq<bv8>, first: nat, n: nat): (inputs: seq<seq<bv8>>)
    ensures |inputs| == n && forall i :: 0 <= i < n ==> inputs[i] == base + CounterBytes(first + i)
    decreases n
  {
    if n == 0 then [] else [base + CounterBytes(first)] + CounterInputs(base, first + 1, n - 1)
  }

  /** Everything that is hashed for one pad, in order; each entry is one update and one finalisation. */
  function PadInputs<C>(sha: Sha<C>, pre: seq<bv8>, size: nat): seq<seq<bv8>> {
    var (d, c) := Step(sha, sha.init, pre);
    [pre] + RoundInputs(sha, c, d, Rounds(size)) + CounterInputs(Base(sha, pre, size).0, 1, Chunks(size))
  }

  lemma FourBytes(m: nat)
    requires m < 0x1_0000_0000
    ensures m == m % 256 + 0x100 * (m / 0x100 % 256) + 0x1_0000 * (m / 0x1_0000 % 256) + 0x100_0000 * (m / 0x100_0000 % 256)
  {
    assert m / 0x1_0000 == m / 0x100 / 256;
    assert m / 0x100_0000 == m / 0x1_0000 / 256;
  }

  lemma CounterBytesInjective(m: nat, n: nat)
    requires m < 0x1_0000_0000 && n < 0x1_0000_0000 && CounterBytes(m) == CounterBytes(n)
    ensures m == n
  {
    hide ToByte;
    assert CounterBytes(m)[0] == CounterBytes(n)[0] && CounterBytes(m)[1] == CounterBytes(n)[1];
    assert CounterBytes(m)[2] == CounterBytes(n)[2] && CounterBytes(m)[3] == CounterBytes(n)[3];
    SameByte(m, n);
    SameByte(m / 0x100, n / 0x100);
    SameByte(m / 0x1_0000, n / 0x1_0000);
    SameByte(m / 0x100_0000, n / 0x100_0000);
    FourBytes(m);
    FourBytes(n);
  }

  lemma SameByte(m: nat, n: nat)
    requires ToByte(m) == ToByte(n)
    ensures m % 256 == n % 256
  {
    ToByteInjective(m % 256, n % 256);
  }

  /**
   One pad takes exactly max(NUM_HASHES, n) + 1 finalisations for n full chunks, and its last
   n inputs are the base with the counters 1..n, every one used once.
   */
  lemma HashCount<C>(sha: Sha<C>, pre: seq<bv8>, size: nat)
    requires Chunks(size) < 0x1_0000_0000
    ensures |PadInputs(sha, pre, size)| == (if Chunks(size) > NUM_HASHES then Chunks(size) else NUM_HASHES) + 1
    ensures var inputs := PadInputs(sha, pre, size);
            var n := Chunks(size);
            var counted := inputs[|inputs| - n..];
            && (forall i :: 0 <= i < n ==> counted[i] == Base(sha, pre, size).0 + CounterBytes(i + 1))
            && (forall i, j :: 0 <= i < j < n ==> counted[i] != counted[j])
  {
    hide Base, CounterBytes, RoundInputs;
    var inputs := PadInputs(sha, pre, size);
    var n := Chunks(size);
    var base := Base(sha, pre, size).0;
    var counted := inputs[|inputs| - n..];
    assert counted == CounterInputs(base, 1, n);
    forall i, j | 0 <= i < j < n ensures counted[i] != counted[j] {
      if counted[i] == counted[j] {
        assert CounterBytes(1 + i) == (base + CounterBytes(1 + i))[|base|..];
        assert CounterBytes(1 + j) == (base + CounterBytes(1 + j))[|base|..];
        CounterBytesInjective(1 + i, 1 + j);
      }
    }
  }

  // ----- The pad, by what is hashed -----

  /** What is left in the context when these inputs have been updated and finalised, one by one. */
  function ContextAfter<C>(sha: Sha<C>, inputs: seq<seq<bv8>>): C {
    if inputs == [] then sha.init
    else sha.final(sha.update(ContextAfter(sha, inputs[..|inputs| - 1]), inputs[|inputs| - 1])).1
  }

  /** The digest of the last of these inputs, after all the others. */
  function DigestAfter<C>(sha: Sha<C>, inputs: seq<seq<bv8>>): seq<bv8>
    requires inputs != []
  {
    sha.final(sha.update(ContextAfter(sha, inputs[..|inputs| - 1]), inputs[|inputs| - 1])).0
  }

  lemma OneMoreInput<C>(sha: Sha<C>, inputs: seq<seq<bv8>>, input: seq<bv8>)
    ensures Step(sha, ContextAfter(sha, inputs), input)
         == (DigestAfter(sha, inputs + [input]), ContextAfter(sha, inputs + [input]))
  {
    assert (inputs + [input])[..|inputs|] == inputs;
  }

  /** Each round hashes the digest of everything before it. */
  lemma {:induction false} RoundDigests<C>(sha: Sha<C>, before: seq<seq<bv8>>, c: C, digest: seq<bv8>, n: nat)
    requires before != [] && c == ContextAfter(sha, before) && digest == DigestAfter(sha, before)
    ensures var inputs := before + RoundInputs(sha, c, digest, n);
            && Iterated(sha, c, digest, n) == (DigestAfter(sha, inputs), ContextAfter(sha, inputs))
            && forall i :: |before| <= i < |inputs| ==> inputs[i] == DigestAfter(sha, inputs[..i])
    decreases n
  {
    hide Step, ContextAfter, DigestAfter;
    var inputs := before + RoundInputs(sha, c, digest, n);
    if n == 0 {
      assert inputs == before;
    } else {
      var (d, c') := Step(sha, c, digest);
      OneMoreInput(sha, before, digest);
      assert inputs == (before + [digest]) + RoundInputs(sha, c', d, n - 1);
      RoundDigests(sha, before + [digest], c', d, n - 1);
      assert inputs[..|before|] == before;
    }
  }

  /** Chunk t of the counter digests is the digest of everything up to its counter. */
  lemma {:induction false} ChunkDigests<C(!new)>(sha: Sha<C>, before: seq<seq<bv8>>, c: C, base: seq<bv8>, first: nat, n: nat, t: nat)
    requires DigestSize(sha) && c == ContextAfter(sha, before) && t < n
    ensures var inputs := before + CounterInputs(base, first, n);
            var digests := CounterDigests(sha, c, base, first, n).0;
            |digests| == 32 * n && digests[32 * t..32 * t + 32] == DigestAfter(sha, inputs[..|before| + t + 1])
    decreases n
  {
    hide ContextAfter, DigestAfter, CounterBytes;
    var inputs := before + CounterInputs(base, first, n);
    var input := base + CounterBytes(first);
    var (d, c') := Step(sha, c, input);
    CounterDigestsLength(sha, c, base, first, n);
    CounterDigestsLength(sha, c', base, first + 1, n - 1);
    OneMoreInput(sha, before, input);
    assert inputs == (before + [input]) + CounterInputs(base, first + 1, n - 1);
    if t == 0 {
      assert inputs[..|before| + 1] == before + [input];
    } else {
      ChunkDigests(sha, before + [input], c', base, first + 1, n - 1, t - 1);
      ChunkBehind(d, CounterDigests(sha, c', base, first + 1, n - 1).0, t);
    }
  }

  lemma ChunkBehind(d: seq<bv8>, rest: seq<bv8>, t: nat)
    requires |d| == 32 && 1 <= t && 32 * t <= |rest|
    ensures (d + rest)[32 * t..32 * t + 32] == rest[32 * (t - 1)..32 * (t - 1) + 32]
  {}

  /** An unsigned int of four bytes, the low one first. */
  predicate IsCounter(b: seq<bv8>, t: int) {
    |b| == 4 && (b[0] as int) + 0x100 * (b[1] as int) + 0x1_0000 * (b[2] as int) + 0x100_0000 * (b[3] as int) == t
  }

  lemma CounterSpelled(t: nat)
    requires t < 0x1_0000_0000
    ensures IsCounter(CounterBytes(t), t)
  {
    CastRoundTrip(t % 256);
    CastRoundTrip(t / 0x100 % 256);
    CastRoundTrip(t / 0x1_0000 % 256);
    CastRoundTrip(t / 0x100_0000 % 256);
    FourBytes(t);
  }

  /** The number of rounds: what the chunks leave of 100. */
  lemma RoundsAre(size: nat)
    ensures Rounds(size) == if size / 32 < 100 then 100 - size / 32 else 0
  {}

  /**
   The inputs are the pre-image; 100 less the chunks times the digest of all inputs before;
   and for every full chunk the last of these digests with a counter, from 1.
   */
  ghost predicate PadHashes<C>(sha: Sha<C>, pre: seq<bv8>, size: nat, inputs: seq<seq<bv8>>) {
    var rounds := if size / 32 < 100 then 100 - size / 32 else 0;
    && |inputs| == 1 + rounds + size / 32
    && inputs[0] == pre
    && (forall i :: 1 <= i <= rounds ==> inputs[i] == DigestAfter(sha, inputs[..i]))
    && (forall i :: rounds < i < |inputs| ==>
          32 <= |inputs[i]| && inputs[i][..32] == DigestAfter(sha, inputs[..rounds + 1])
          && IsCounter(inputs[i][32..], i - rounds))
  }

  /** What is hashed for a pad. */
  lemma InputsSpelled<C(!new)>(sha: Sha<C>, pre: seq<bv8>, size: nat)
    requires DigestSize(sha) && size < 0x1_0000_0000
    ensures PadHashes(sha, pre, size, PadInputs(sha, pre, size))
  {
    hide ContextAfter, DigestAfter, CounterBytes, PadInputs, Base, IsCounter;
    InputsAre(sha, pre, size);
    BaseLength(sha, pre, size);
    RoundsAre(size);
    var inputs, rounds := PadInputs(sha, pre, size), Rounds(size);
    forall i | rounds < i < |inputs|
      ensures 32 <= |inputs[i]| && inputs[i][..32] == DigestAfter(sha, inputs[..rounds + 1])
              && IsCounter(inputs[i][32..], i - rounds)
    {
      CounterSpelled(i - rounds);
      assert inputs[i] == DigestAfter(sha, inputs[..rounds + 1]) + CounterBytes(i - rounds);
    }
  }

  lemma InputsAre<C>(sha: Sha<C>, pre: seq<bv8>, size: nat)
    ensures var inputs, rounds := PadInputs(sha, pre, size), Rounds(size);
            && |inputs| == 1 + rounds + size / 32
            && inputs[0] == pre
            && (forall i :: 1 <= i <= rounds ==> inputs[i] == DigestAfter(sha, inputs[..i]))
            && (forall i :: rounds < i < |inputs| ==>
                  inputs[i] == DigestAfter(sha, inputs[..rounds + 1]) + CounterBytes(i - rounds))
            && Base(sha, pre, size) == (DigestAfter(sha, inputs[..rounds + 1]), ContextAfter(sha, inputs[..rounds + 1]))
  {
    hide Step, ContextAfter, DigestAfter, CounterBytes, Iterated, RoundInputs;
    var inputs, rounds := PadInputs(sha, pre, size), Rounds(size);
    var (d, c) := Step(sha, sha.init, pre);
    assert ContextAfter(sha, []) == sha.init by { NothingHashed(sha); }
    OneMoreInput(sha, [], pre);
    assert [] + [pre] == [pre];
    RoundDigests(sha, [pre], c, d, rounds);
    var hashed := [pre] + RoundInputs(sha, c, d, rounds);
    assert inputs[..rounds + 1] == hashed;
    forall i | 1 <= i <= rounds ensures inputs[i] == DigestAfter(sha, inputs[..i]) {
      assert inputs[..i] == hashed[..i];
    }
    forall i | rounds < i < |inputs|
      ensures inputs[i] == DigestAfter(sha, inputs[..rounds + 1]) + CounterBytes(i - rounds)
    {
      assert inputs[i] == CounterInputs(Base(sha, pre, size).0, 1, Chunks(size))[i - rounds - 1];
    }
  }

  lemma NothingHashed<C>(sha: Sha<C>)
    ensures ContextAfter(sha, []) == sha.init
  {}

  /**
   Every byte of the pad: byte i is one of the digest of all inputs up to counter i / 32,
   or up to the last round.  So the whole pad depends on the pre-image, and each further
   chunk on the counters up to its own.
   */
  lemma PadSpelled<C(!new)>(sha: Sha<C>, pre: seq<bv8>, size: nat, inputs: seq<seq<bv8>>, i: nat)
    requires DigestSize(sha) && 32 <= size < 0x1_0000_0000 && i < size && inputs == PadInputs(sha, pre, size)
    ensures PadHashes(sha, pre, size, inputs)
    ensures |Pad(sha, pre, size)| == size
    ensures var upTo := |inputs| - size / 32 + i / 32;
            upTo <= |inputs| && |DigestAfter(sha, inputs[..upTo])| == 32
            && Pad(sha, pre, size)[i] == DigestAfter(sha, inputs[..upTo])[i % 32]
  {
    hide ContextAfter, PadInputs, CounterBytes, Base, CounterDigests, DigestAfter, IsCounter, Pad;
    InputsSpelled(sha, pre, size);
    InputsAre(sha, pre, size);
    PadByte(sha, pre, size, i);
  }

  lemma PadByte<C(!new)>(sha: Sha<C>, pre: seq<bv8>, size: nat, i: nat)
    requires DigestSize(sha) && 32 <= size && i < size
    ensures |Pad(sha, pre, size)| == size
    ensures |PadInputs(sha, pre, size)| == 1 + Rounds(size) + size / 32
    ensures var digest := DigestAfter(sha, PadInputs(sha, pre, size)[..Rounds(size) + 1 + i / 32]);
            |digest| == 32 && Pad(sha, pre, size)[i] == digest[i % 32]
  {
    hide ContextAfter, DigestAfter, CounterBytes, CounterDigests, CounterInputs, RoundInputs;
    InputsAre(sha, pre, size);
    PadLength(sha, pre, size);
    BaseLength(sha, pre, size);
    var inputs, rounds := PadInputs(sha, pre, size), Rounds(size);
    var (base, c) := Base(sha, pre, size);
    var digests := CounterDigests(sha, c, base, 1, Chunks(size)).0;
    if i >= 32 {
      var before, t := inputs[..rounds + 1], i / 32 - 1;
      ChunkDigests(sha, before, c, base, 1, Chunks(size), t);
      assert inputs == before + CounterInputs(base, 1, Chunks(size)) by {
        InputsSplit(sha, pre, size);
      }
      assert digests[32 * t..32 * t + 32][i % 32] == digests[i - 32];
    }
  }

  lemma InputsSplit<C>(sha: Sha<C>, pre: seq<bv8>, size: nat)
    ensures Rounds(size) + 1 <= |PadInputs(sha, pre, size)|
    ensures PadInputs(sha, pre, size)
         == PadInputs(sha, pre, size)[..Rounds(size) + 1] + CounterInputs(Base(sha, pre, size).0, 1, Chunks(size))
  {
    hide Base, Step, RoundInputs, CounterInputs;
  }

  // ----- The loops -----

  /** The running context, with a record of what was hashed. */
  class Hasher<C> {
    const sha: Sha<C>
    var context: C
    ghost var inputs: seq<seq<bv8>>

    constructor (sha: Sha<C>)
      ensures this.sha == sha && context == sha.init && inputs == []
    {
      this.sha := sha;
      context := sha.init;
      inputs := [];
    }

    /** SHA256_Update and SHA256_Final on the same context. */
    method Digest(input: seq<bv8>) returns (digest: seq<bv8>)
      modifies this
      ensures (digest, context) == Step(sha, old(context), input)
      ensures (digest, context) == sha.final(sha.update(old(context), input))
      ensures inputs == old(inputs) + [input]
    {
      var result := sha.final(sha.update(context, input));
      digest, context := result.0, result.1;
      inputs := inputs + [input];
    }
  }

  /** Hashes the pre-image, and then the digest again for as many rounds as the size leaves. */
  method HashRounds<C(!new)>(hasher: Hasher<C>, pre: seq<bv8>, chunks: nat, ghost size: nat) returns (hash: seq<bv8>)
    requires hasher.context == hasher.sha.init && hasher.inputs == [] && chunks == Chunks(size)
    modifies hasher
    ensures (hash, hasher.context) == Base(hasher.sha, pre, size)
    ensures var (d, c) := Step(hasher.sha, hasher.sha.init, pre);
            hasher.inputs == [pre] + RoundInputs(hasher.sha, c, d, Rounds(size))
  {
    hide Step;
    var sha := hasher.sha;
    hash := hasher.Digest(pre);
    ghost var d, c := hash, hasher.context;
    ghost var rounds := Rounds(size);
    var preHash := hash;
    var i := 1;
    while i < NUM_HASHES - chunks + 1
      invariant 1 <= i <= rounds + 1
      invariant preHash == hash
      invariant Iterated(sha, hasher.context, preHash, rounds - (i - 1)) == Iterated(sha, c, d, rounds)
      invariant hasher.inputs + RoundInputs(sha, hasher.context, preHash, rounds - (i - 1))
             == [pre] + RoundInputs(sha, c, d, rounds)
    {
      ghost var before := hasher.context;
      hash := hasher.Digest(preHash);
      assert RoundInputs(sha, before, preHash, rounds - (i - 1))
          == [preHash] + RoundInputs(sha, hasher.context, hash, rounds - i);
      preHash := hash;
      i := i + 1;
    }
    assert hasher.inputs + [] == hasher.inputs;
  }

  /** What is left to do when the counters before next are done; nothing changes about the whole. */
  ghost predicate PadProgress<C>(sha: Sha<C>, base: seq<bv8>, n: nat, all: seq<bv8>, allInputs: seq<seq<bv8>>,
                                 next: nat, written: seq<bv8>, c: C, inputs: seq<seq<bv8>>)
  {
    && 1 <= next <= n + 1
    && |written| == DIGEST_LEN * next
    && written + CounterDigests(sha, c, base, next, n + 1 - next).0 == all
    && inputs + CounterInputs(base, next, n + 1 - next) == allInputs
  }

  lemma PadStep<C(!new)>(sha: Sha<C>, base: seq<bv8>, n: nat, all: seq<bv8>, allInputs: seq<seq<bv8>>,
                         next: nat, written: seq<bv8>, c: C, inputs: seq<seq<bv8>>)
    requires DigestSize(sha) && next <= n
    requires PadProgress(sha, base, n, all, allInputs, next, written, c, inputs)
    ensures var input := base + CounterBytes(next);
            var (d, c') := Step(sha, c, input);
            |d| == DIGEST_LEN && PadProgress(sha, base, n, all, allInputs, next + 1, written + d, c', inputs + [input])
  {
    hide CounterBytes;
    var input := base + CounterBytes(next);
    var (d, c') := Step(sha, c, input);
    var left := n - next;
    var rest := CounterDigests(sha, c', base, next + 1, left).0;
    assert CounterDigests(sha, c, base, next, n + 1 - next).0 == d + rest;
    assert (written + d) + rest == written + (d + rest);
    assert CounterInputs(base, next, n + 1 - next) == [input] + CounterInputs(base, next + 1, left);
    assert (inputs + [input]) + CounterInputs(base, next + 1, left) == inputs + ([input] + CounterInputs(base, next + 1, left));
  }

  /** Fills the pad: the base, a digest per further chunk, and the front of one more. */
  method FillPad<C(!new)>(hasher: Hasher<C>, pad: array<bv8>, base: seq<bv8>)
    requires DigestSize(hasher.sha)
    requires DIGEST_LEN <= pad.Length && |base| == DIGEST_LEN
    modifies hasher, pad
    ensures pad[..] == Take(base + CounterDigests(hasher.sha, old(hasher.context), base, 1, Chunks(pad.Length)).0, pad.Length)
    ensures hasher.inputs == old(hasher.inputs) + CounterInputs(base, 1, Chunks(pad.Length))
  {
    hide Step, CounterBytes, PadProgress, CounterDigests;
    var sha := hasher.sha;
    var n := pad.Length / DIGEST_LEN;
    var chunk32s := n * DIGEST_LEN;
    var extraBytes := pad.Length - chunk32s;
    ghost var all := base + CounterDigests(sha, hasher.context, base, 1, n).0;
    ghost var allInputs := hasher.inputs + CounterInputs(base, 1, n);
    CopyInto(pad, 0, base);
    assert pad[..DIGEST_LEN] == pad[0..0 + DIGEST_LEN];
    PadStart(sha, base, n, all, allInputs, hasher.context, hasher.inputs);
    var counter := 0;
    var i := DIGEST_LEN;
    while i < chunk32s
      invariant 0 <= counter < n && i == DIGEST_LEN * (counter + 1)
      invariant PadProgress(sha, base, n, all, allInputs, counter + 1, pad[..i], hasher.context, hasher.inputs)
    {
      counter := counter + 1;
      PadStep(sha, base, n, all, allInputs, counter, pad[..i], hasher.context, hasher.inputs);
      ghost var written := pad[..i];
      var hash := hasher.Digest(base + CounterBytes(counter));
      CopyInto(pad, i, hash);
      assert pad[..i + DIGEST_LEN] == written + hash;
      i := i + DIGEST_LEN;
    }
    counter := counter + 1;
    PadStep(sha, base, n, all, allInputs, counter, pad[..i], hasher.context, hasher.inputs);
    ghost var written := pad[..chunk32s];
    var hash := hasher.Digest(base + CounterBytes(counter));
    CopyInto(pad, chunk32s, hash[..extraBytes]);
    assert pad[..] == written + hash[..extraBytes];
    PadEnd(sha, base, n, all, allInputs, written + hash, hasher.context, hasher.inputs);
    assert Take(written + hash, pad.Length) == written + hash[..extraBytes];
  }

  lemma PadStart<C>(sha: Sha<C>, base: seq<bv8>, n: nat, all: seq<bv8>, allInputs: seq<seq<bv8>>,
                    c: C, inputs: seq<seq<bv8>>)
    requires |base| == DIGEST_LEN
    requires all == base + CounterDigests(sha, c, base, 1, n).0
    requires allInputs == inputs + CounterInputs(base, 1, n)
    ensures PadProgress(sha, base, n, all, allInputs, 1, base, c, inputs)
  {}

  lemma PadEnd<C>(sha: Sha<C>, base: seq<bv8>, n: nat, all: seq<bv8>, allInputs: seq<seq<bv8>>,
                  written: seq<bv8>, c: C, inputs: seq<seq<bv8>>)
    requires PadProgress(sha, base, n, all, allInputs, n + 1, written, c, inputs)
    ensures written == all && inputs == allInputs
  {}

  /** The pad for a file of the given size, and the record of the hashing calls. */
  method BuildPad<C(!new)>(sha: Sha<C>, pre: seq<bv8>, size: nat) returns (pad: array<bv8>, ghost inputs: seq<seq<bv8>>)
    requires DigestSize(sha) && |pre| == DIGEST_LEN <= size
    ensures fresh(pad) && pad[..] == Pad(sha, pre, size)
    ensures inputs == PadInputs(sha, pre, size)
  {
    hide Step, CounterBytes, Iterated, CounterDigests;
    var hasher := new Hasher(sha);
    var chunks := size / DIGEST_LEN;
    var base := HashRounds(hasher, pre, chunks, size);
    BaseLength(sha, pre, size);
    pad := new bv8[size];
    FillPad(hasher, pad, base);
    PadLength(sha, pre, size);
    inputs := hasher.inputs;
  }

  lemma BaseLength<C(!new)>(sha: Sha<C>, pre: seq<bv8>, size: nat)
    requires DigestSize(sha)
    ensures |Base(sha, pre, size).0| == DIGEST_LEN
  {
    var (d, c) := Step(sha, sha.init, pre);
    IteratedLength(sha, c, d, Rounds(size));
  }

  /** XOR of data with the pad, byte by byte. */
  method ApplyPad(data: seq<bv8>, pad: array<bv8>) returns (out: seq<bv8>)
    requires |data| == pad.Length
    ensures out == XorBlock(data, pad[..])
  {
    var buffer := new bv8[pad.Length];
    for i := 0 to pad.Length
      invariant forall j :: 0 <= j < i ==> buffer[j] == data[j] ^ pad[j]
    {
      buffer[i] := data[i] ^ pad[i];
    }
    out := buffer[..];
  }

  /** Replaces the file by the pre-image and the padded contents. */
  method RandomizeHeader<C(!new)>(file: File, sha: Sha<C>, pre: seq<bv8>) returns (ret: int)
    requires DigestSize(sha) && |pre| == DIGEST_LEN <= |file.contents|
    modifies file
    ensures ret == 1
    ensures file.contents == Randomized(sha, pre, old(file.contents))
    ensures |file.contents| == 32 + |old(file.contents)| && file.contents[..32] == pre
    ensures |Pad(sha, pre, |old(file.contents)|)| == |old(file.contents)|
    ensures forall i :: 0 <= i < |old(file.contents)| ==>
              file.contents[32 + i] == old(file.contents)[i] ^ Pad(sha, pre, |old(file.contents)|)[i]
  {
    hide Pad, PadInputs;
    var data := file.contents;
    PadLength(sha, pre, |data|);
    var pad, _ := BuildPad(sha, pre, |data|);
    var randExt := ApplyPad(data, pad);
    file.contents := pre + randExt;
    return 1;
  }

  /** Restores the contents from the pre-image in front. */
  method UnrandomizeHeader<C(!new)>(file: File, sha: Sha<C>) returns (ret: int)
    requires DigestSize(sha) && 2 * DIGEST_LEN <= |file.contents|
    modifies file
    ensures ret == 1
    ensures file.contents == Unrandomized(sha, old(file.contents))
    ensures |file.contents| == |old(file.contents)| - 32
    ensures |Pad(sha, old(file.contents)[..32], |old(file.contents)| - 32)| == |old(file.contents)| - 32
    ensures forall i :: 0 <= i < |file.contents| ==>
              file.contents[i]
              == old(file.contents)[32 + i] ^ Pad(sha, old(file.contents)[..32], |old(file.contents)| - 32)[i]
  {
    hide Pad, PadInputs;
    var header := file.contents;
    var size := |header| - DIGEST_LEN;
    var pre := header[..DIGEST_LEN];
    PadLength(sha, pre, size);
    var pad, _ := BuildPad(sha, pre, size);
    file.contents := ApplyPad(header[DIGEST_LEN..], pad);
    return 1;
  }
}
