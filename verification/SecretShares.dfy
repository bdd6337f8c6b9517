/**
 The layer of sss.c: the secret is sealed under a fresh key, the key is shared,
 and a share is a key share followed by the ciphertext.
 */
module SecretShares {
  import opened Bytes
  import opened Bitslice
  import opened Shamir
  import opened KeyShares

  const ZERO_BYTES: nat := 32
  const BOX_ZERO_BYTES: nat := 16
  const NONCE_BYTES: nat := 24
  const MLEN: nat := 64
  const CLEN: nat := MLEN + 16
  const SHARE_LEN: nat := KEYSHARE_LEN + CLEN

  /**
   crypto_secretbox and crypto_secretbox_open: (message, nonce, key) to ciphertext,
   and (ciphertext, nonce, key) to the return code and the message buffer.
   */
  datatype SecretBox = SecretBox(
    seal: (seq<bv8>, seq<bv8>, seq<bv8>) -> seq<bv8>,
    open: (seq<bv8>, seq<bv8>, seq<bv8>) -> (int, seq<bv8>))

  /**
   What the library promises: a message of 32 zero bytes and a payload is sealed
   to as many bytes, of which the first 16 are zero, and opening undoes that.
   */
  ghost predicate OpenUndoesSeal(box: SecretBox) {
    && (forall m, n, k :: ZERO_BYTES <= |m| && m[..ZERO_BYTES] == Zeros(ZERO_BYTES) ==>
          var c := box.seal(m, n, k);
          |c| == |m| && c[..BOX_ZERO_BYTES] == Zeros(BOX_ZERO_BYTES) && box.open(c, n, k) == (0, m))
    && (forall c, n, k {:trigger box.open(c, n, k)} :: |box.open(c, n, k).1| == |c|)
  }

  /** The constant nonce: the key is ephemeral. */
  function ShareNonce(): seq<bv8> {
    Zeros(NONCE_BYTES)
  }

  function Ciphertext(box: SecretBox, data: seq<bv8>, key: seq<bv8>): seq<bv8> {
    box.seal(Zeros(ZERO_BYTES) + data, ShareNonce(), key)
  }

  /** The share at x. */
  function ShareAt(box: SecretBox, data: seq<bv8>, key: seq<bv8>, coeffs: seq<Slice>, x: bv8): seq<bv8>
    requires |key| == LANES && BOX_ZERO_BYTES <= |Ciphertext(box, data, key)|
  {
    Keyshare(key, coeffs, x) + Ciphertext(box, data, key)[BOX_ZERO_BYTES..]
  }

  ghost predicate WellSized(shares: seq<seq<bv8>>) {
    forall i :: 0 <= i < |shares| ==> |shares[i]| == SHARE_LEN
  }

  function KeyParts(shares: seq<seq<bv8>>): (parts: seq<seq<bv8>>)
    requires WellSized(shares)
    ensures |parts| == |shares| && forall i :: 0 <= i < |parts| ==> parts[i] == shares[i][..KEYSHARE_LEN]
  {
    seq(|shares|, i requires 0 <= i < |shares| => shares[i][..KEYSHARE_LEN])
  }

  /** All shares carry the same ciphertext part. */
  ghost predicate CiphertextsAgree(shares: seq<seq<bv8>>)
    requires WellSized(shares)
  {
    forall i :: 0 <= i < |shares| ==> shares[i][KEYSHARE_LEN..] == shares[0][KEYSHARE_LEN..]
  }

  /** What crypto_secretbox_open is given: the ciphertext part behind 16 zero bytes, and the combined key. */
  function Opened(box: SecretBox, shares: seq<seq<bv8>>): (int, seq<bv8>)
    requires WellSized(shares) && shares != []
  {
    box.open(Zeros(BOX_ZERO_BYTES) + shares[0][KEYSHARE_LEN..], ShareNonce(), CombinedKey(KeyParts(shares)))
  }

  /** Creates n shares of the secret data; key and the rows of poly are the random bytes drawn. */
  method CreateShares(box: SecretBox, out: seq<array<bv8>>, data: seq<bv8>, n: nat, k: nat,
                      key: seq<bv8>, poly: seq<array<bv32>>)
    requires OpenUndoesSeal(box)
    requires 1 <= k <= n <= 255
    requires |out| == n && |data| == MLEN && |key| == LANES && |poly| == k - 1
    requires forall i :: 0 <= i < |poly| ==> poly[i].Length == 8
    requires forall i :: 0 <= i < n ==> out[i].Length == SHARE_LEN
    requires forall i, j :: 0 <= i < j < n ==> out[i] != out[j]
    modifies out
    ensures |Ciphertext(box, data, key)| == ZERO_BYTES + MLEN
    ensures forall i :: 0 <= i < n ==>
      out[i][..] == ShareAt(box, data, key, Rows(poly, k - 1), ToByte(i + 1))
    ensures |box.seal(Zeros(32) + data, Zeros(24), key)| == 96
    ensures forall i :: 0 <= i < n ==>
      && out[i][..33] == Keyshare(key, Rows(poly, k - 1), ToByte(i + 1))
      && out[i][33..] == box.seal(Zeros(32) + data, Zeros(24), key)[16..]
  {
    hide Load, Keyshare, Rows, ShareAt;
    var m := Zeros(ZERO_BYTES) + data;
    var c := box.seal(m, ShareNonce(), key);
    SealedBytes(box, data, key);
    ghost var coeffs := Rows(poly, k - 1);
    var keyshares := NewRows(n);
    CreateKeyshares(keyshares, key, n, k, poly);
    for i := 0 to n
      invariant forall j :: 0 <= j < n ==> keyshares[j][..] == Keyshare(key, coeffs, ToByte(j + 1))
      invariant forall j :: 0 <= j < i ==> out[j][..] == ShareAt(box, data, key, coeffs, ToByte(j + 1))
      invariant Rows(poly, k - 1) == coeffs
    {
      ShareBytes(box, data, key, coeffs, ToByte(i + 1));
      WriteRow(out[i], keyshares[i][..], c[BOX_ZERO_BYTES..]);
    }
    forall i | 0 <= i < n
      ensures out[i][..33] == Keyshare(key, coeffs, ToByte(i + 1))
      ensures out[i][33..] == box.seal(Zeros(32) + data, Zeros(24), key)[16..]
    {
      ShareBytes(box, data, key, coeffs, ToByte(i + 1));
    }
  }

  lemma SealedBytes(box: SecretBox, data: seq<bv8>, key: seq<bv8>)
    requires OpenUndoesSeal(box) && |data| == 64
    ensures Ciphertext(box, data, key) == box.seal(Zeros(32) + data, Zeros(24), key)
    ensures |box.seal(Zeros(32) + data, Zeros(24), key)| == 96
  {
    CiphertextSize(box, data, key);
  }

  lemma ShareBytes(box: SecretBox, data: seq<bv8>, key: seq<bv8>, coeffs: seq<Slice>, x: bv8)
    requires OpenUndoesSeal(box) && |data| == 64 && |key| == LANES
    ensures |box.seal(Zeros(32) + data, Zeros(24), key)| == 96 == |Ciphertext(box, data, key)|
    ensures ShareAt(box, data, key, coeffs, x) == Keyshare(key, coeffs, x) + Ciphertext(box, data, key)[BOX_ZERO_BYTES..]
    ensures var s := ShareAt(box, data, key, coeffs, x);
            && |s| == 113 && s[..33] == Keyshare(key, coeffs, x)
            && s[33..] == box.seal(Zeros(32) + data, Zeros(24), key)[16..]
  {
    hide Keyshare, Ciphertext;
    SealedBytes(box, data, key);
  }

  method NewRows(n: nat) returns (rows: seq<array<bv8>>)
    ensures |rows| == n
    ensures forall i :: 0 <= i < n ==> fresh(rows[i]) && rows[i].Length == KEYSHARE_LEN
    ensures forall i, j :: 0 <= i < j < n ==> rows[i] != rows[j]
  {
    rows := [];
    for i := 0 to n
      invariant |rows| == i
      invariant forall j :: 0 <= j < i ==> fresh(rows[j]) && rows[j].Length == KEYSHARE_LEN
      invariant forall j, l :: 0 <= j < l < i ==> rows[j] != rows[l]
    {
      var row := new bv8[KEYSHARE_LEN];
      rows := rows + [row];
    }
  }

  method WriteRow(out: array<bv8>, keyshare: seq<bv8>, ciphertext: seq<bv8>)
    requires out.Length == SHARE_LEN && |keyshare| == KEYSHARE_LEN && |ciphertext| == CLEN
    modifies out
    ensures out[..] == keyshare + ciphertext
  {
    CopyInto(out, 0, keyshare);
    assert out[0..KEYSHARE_LEN] == out[..KEYSHARE_LEN];
    CopyInto(out, KEYSHARE_LEN, ciphertext);
    assert out[..] == out[..KEYSHARE_LEN] + out[KEYSHARE_LEN..KEYSHARE_LEN + CLEN];
  }

  /** Recovers the secret into data; -1, and data untouched, when the ciphertexts differ or there is no share. */
  method CombineShares(box: SecretBox, data: array<bv8>, shares: seq<seq<bv8>>) returns (ret: int)
    requires OpenUndoesSeal(box)
    requires data.Length == MLEN && WellSized(shares)
    modifies data
    ensures shares == [] || !CiphertextsAgree(shares) ==> ret == -1 && data[..] == old(data[..])
    ensures shares != [] && CiphertextsAgree(shares) ==>
      ret == Opened(box, shares).0 && data[..] == Opened(box, shares).1[ZERO_BYTES..]
    ensures shares != [] && CiphertextsAgree(shares) ==>
      var result := box.open(Zeros(16) + shares[0][33..], Zeros(24), CombinedKey(KeyParts(shares)));
      ret == result.0 && |result.1| == 96 && data[..] == result.1[32..]
  {
    hide CombinedKey;
    if |shares| < 1 {
      return -1;
    }
    for idx := 1 to |shares|
      invariant forall i :: 0 <= i < idx ==> shares[i][KEYSHARE_LEN..] == shares[0][KEYSHARE_LEN..]
      invariant data[..] == old(data[..])
    {
      if shares[0][KEYSHARE_LEN..] != shares[idx][KEYSHARE_LEN..] {
        return -1;
      }
    }
    var key := new bv8[LANES];
    CombineKeyshares(key, KeyParts(shares));
    var result := box.open(Zeros(BOX_ZERO_BYTES) + shares[0][KEYSHARE_LEN..], ShareNonce(), key[..]);
    ret := result.0;
    CopyInto(data, 0, result.1[ZERO_BYTES..]);
    assert data[..] == data[0..0 + MLEN];
  }

  ghost predicate ValidShares(box: SecretBox, shares: seq<seq<bv8>>, data: seq<bv8>, key: seq<bv8>, coeffs: seq<Slice>)
    requires OpenUndoesSeal(box) && |key| == LANES && |data| == MLEN
  {
    CiphertextSize(box, data, key);
    forall i :: 0 <= i < |shares| ==> shares[i] != [] && shares[i] == ShareAt(box, data, key, coeffs, shares[i][0])
  }

  lemma CiphertextSize(box: SecretBox, data: seq<bv8>, key: seq<bv8>)
    requires OpenUndoesSeal(box)
    ensures var c := Ciphertext(box, data, key);
            |c| == ZERO_BYTES + |data| && c[..BOX_ZERO_BYTES] == Zeros(BOX_ZERO_BYTES)
            && box.open(c, ShareNonce(), key) == (0, Zeros(ZERO_BYTES) + data)
  {
    var m := Zeros(ZERO_BYTES) + data;
    assert m[..ZERO_BYTES] == Zeros(ZERO_BYTES);
  }

  /** Any k or more distinct shares, in any order, open to exactly the secret. */
  lemma SecretRecovery(box: SecretBox, shares: seq<seq<bv8>>, data: seq<bv8>, key: seq<bv8>, coeffs: seq<Slice>)
    requires OpenUndoesSeal(box) && |key| == LANES && |data| == MLEN
    requires ValidShares(box, shares, data, key, coeffs)
    requires |coeffs| + 1 <= |shares|
    requires forall i, j :: 0 <= i < j < |shares| ==> shares[i][0] != shares[j][0]
    ensures WellSized(shares) && CiphertextsAgree(shares)
    ensures Opened(box, shares) == (0, Zeros(ZERO_BYTES) + data)
    ensures Opened(box, shares).1[ZERO_BYTES..] == data
  {
    hide Keyshare, CombinedKey;
    CiphertextSize(box, data, key);
    var c := Ciphertext(box, data, key);
    forall i | 0 <= i < |shares|
      ensures |shares[i]| == SHARE_LEN && shares[i][..KEYSHARE_LEN] == Keyshare(key, coeffs, shares[i][0])
      ensures shares[i][KEYSHARE_LEN..] == c[BOX_ZERO_BYTES..]
    {
      assert shares[i] == ShareAt(box, data, key, coeffs, shares[i][0]);
    }
    Recovery(KeyParts(shares), key, coeffs);
    assert Zeros(BOX_ZERO_BYTES) + shares[0][KEYSHARE_LEN..] == c;
  }

  // ----- Damaged key parts -----

  /** All sealed parts are those of the secret. */
  ghost predicate SealedIntact(box: SecretBox, shares: seq<seq<bv8>>, data: seq<bv8>, key: seq<bv8>)
    requires WellSized(shares) && BOX_ZERO_BYTES <= |Ciphertext(box, data, key)|
  {
    forall i :: 0 <= i < |shares| ==> shares[i][KEYSHARE_LEN..] == Ciphertext(box, data, key)[BOX_ZERO_BYTES..]
  }

  /** If the other key is not the one the secret was sealed with, the sealed secret does not open under it. */
  predicate Rejects(box: SecretBox, data: seq<bv8>, key: seq<bv8>, other: seq<bv8>) {
    other != key ==> box.open(Ciphertext(box, data, key), ShareNonce(), other).0 != 0
  }

  /** With intact sealed parts, everything hangs on the combined key. */
  lemma OpenedExact(box: SecretBox, shares: seq<seq<bv8>>, data: seq<bv8>, key: seq<bv8>)
    requires OpenUndoesSeal(box) && |key| == LANES && |data| == MLEN
    requires WellSized(shares) && shares != [] && BOX_ZERO_BYTES <= |Ciphertext(box, data, key)|
    requires SealedIntact(box, shares, data, key)
    ensures CiphertextsAgree(shares)
    ensures CombinedKey(KeyParts(shares)) == key ==> Opened(box, shares) == (0, Zeros(ZERO_BYTES) + data)
    ensures CombinedKey(KeyParts(shares)) != key ==>
              (Opened(box, shares).0 != 0 <==> Rejects(box, data, key, CombinedKey(KeyParts(shares))))
  {
    hide CombinedKey;
    CiphertextSize(box, data, key);
    assert Zeros(BOX_ZERO_BYTES) + shares[0][KEYSHARE_LEN..] == Ciphertext(box, data, key);
  }
}
