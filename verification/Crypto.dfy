// Chunk encryption as src/crypto/rgtp_crypto.c uses it: an abstract AEAD keyed out of band, and the
// nonce derived from the chunk index.
module Crypto {
  import opened Bits
  import opened Wrappers

  const TAG := 16
  const MAX_PLAINTEXT := 65507

  // The AEAD under one fixed key: seal(nonce, plaintext) and open(nonce, ciphertext).
  datatype Aead = Aead(seal: (seq<Byte>, seq<Byte>) -> seq<Byte>, open: (seq<Byte>, seq<Byte>) -> Option<seq<Byte>>)

  // Section 2.8 of RFC 8439: opening undoes sealing and a ciphertext is 16 bytes longer.
  ghost predicate Correct(a: Aead) {
    forall n: seq<Byte>, p: seq<Byte> :: a.open(n, a.seal(n, p)) == Some(p) && |a.seal(n, p)| == |p| + TAG
  }

  // rgtp_build_nonce: the index in little-endian order, then eight zero bytes
  function Nonce(index: nat): (n: seq<Byte>)
    ensures |n| == 12
  {
    [index % 0x100, index / 0x100 % 0x100, index / 0x1_0000 % 0x100, index / 0x100_0000 % 0x100,
     0, 0, 0, 0, 0, 0, 0, 0]
  }

  lemma NonceLayout(index: nat)
    requires index < U32_END
    ensures var n := Nonce(index);
            && index == n[0] as int + 0x100 * n[1] as int + 0x1_0000 * n[2] as int + 0x100_0000 * n[3] as int
            && forall i :: 4 <= i < 12 ==> n[i] == 0
  {
    FourDigits(index);
  }

  // Different 32-bit indices never share a nonce.
  lemma NonceInjective(i: nat, j: nat)
    requires i < U32_END && j < U32_END && Nonce(i) == Nonce(j)
    ensures i == j
  {
    NonceLayout(i);
    NonceLayout(j);
  }

  // rgtp_encrypt_chunk: refuses an empty or oversized plaintext
  function Encrypt(a: Aead, index: nat, plaintext: seq<Byte>): Option<seq<Byte>> {
    if |plaintext| == 0 || |plaintext| > MAX_PLAINTEXT then None else Some(a.seal(Nonce(index), plaintext))
  }

  // rgtp_decrypt_chunk: a ciphertext no longer than the tag is refused unopened
  function Decrypt(a: Aead, index: nat, ciphertext: seq<Byte>): Option<seq<Byte>> {
    if |ciphertext| <= TAG then None else a.open(Nonce(index), ciphertext)
  }

  lemma DecryptEncrypt(a: Aead, index: nat, plaintext: seq<Byte>)
    requires Correct(a) && Encrypt(a, index, plaintext).Some?
    ensures Decrypt(a, index, Encrypt(a, index, plaintext).value) == Some(plaintext)
    ensures |Encrypt(a, index, plaintext).value| == |plaintext| + TAG
  {
    assert a.open(Nonce(index), a.seal(Nonce(index), plaintext)) == Some(plaintext);
  }
}
