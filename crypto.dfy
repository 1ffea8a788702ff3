/**
 * The ciphers the scripts take from pycryptodome, as opaque functions: RSA with
 * PKCS#1 OAEP padding, and AES in an authenticated mode (GCM or EAX). Their
 * internals are not modelled. What the protocol relies on is stated as the
 * predicates `RsaSound` and `AeadSound`, which the end-to-end lemmas take as
 * hypotheses: decryption undoes encryption, and the output sizes.
 */
module Crypto {
  import opened Wrappers
  import opened Bytes

  /** RSA keys are identified by the key pair they belong to. */
  datatype PublicKey = PublicKey(pair: nat)
  datatype PrivateKey = PrivateKey(pair: nat)

  /** Length of an RSA-OAEP ciphertext under the 2048-bit keys the repository generates. */
  const ModulusBytes: nat := 256
  /** The longest plaintext OAEP with SHA-1 accepts under a 2048-bit key: 256 - 2 * 20 - 2. */
  const OaepMaxPlaintext: nat := 214
  /** The default nonce length of pycryptodome's GCM and EAX modes. */
  const NonceLen: nat := 16
  /** The default tag length of pycryptodome's GCM and EAX modes. */
  const TagLen: nat := 16
  /** AES-256 key length. */
  const AesKeyLen: nat := 32

  /**
   * `RSA.import_key(pem)` (None where it raises), `PKCS1_OAEP.new(pub).encrypt(m)`
   * (whose padding is drawn from `seed`; None where it raises ValueError because
   * the message is too long for the key), and `PKCS1_OAEP.new(priv).decrypt(c)`
   * (None where it raises ValueError).
   */
  datatype Rsa = Rsa(
    importKey: Bytes -> Option<PublicKey>,
    encrypt: (PublicKey, Bytes, Bytes) -> Option<Bytes>,
    decrypt: (PrivateKey, Bytes) -> Option<Bytes>)

  /**
   * OAEP under a matching pair of 2048-bit keys: a short enough message is
   * accepted, its ciphertext is modulus-sized, and it decrypts to the message.
   */
  ghost predicate RsaSound(rsa: Rsa)
  {
    forall pair: nat, seed: Bytes, m: Bytes | |m| <= OaepMaxPlaintext ::
      rsa.encrypt(PublicKey(pair), seed, m).Some? &&
      |rsa.encrypt(PublicKey(pair), seed, m).value| == ModulusBytes &&
      rsa.decrypt(PrivateKey(pair), rsa.encrypt(PublicKey(pair), seed, m).value) == Some(m)
  }

  datatype Sealed = Sealed(ciphertext: Bytes, tag: Bytes)

  /**
   * `AES.new(key, mode, nonce=nonce).encrypt_and_digest(m)`, and
   * `AES.new(key, mode, nonce=nonce).decrypt_and_verify(c, tag)` (None where
   * it raises ValueError: a wrong key, nonce or tag).
   */
  datatype Aead = Aead(
    seal: (Bytes, Bytes, Bytes) -> Sealed,
    open: (Bytes, Bytes, Bytes, Bytes) -> Option<Bytes>)

  /**
   * A counter-based authenticated mode: the ciphertext is as long as the
   * message, the tag is 16 bytes, whatever is opened is as long as the
   * ciphertext, and opening a sealed message under the same 32-byte key and
   * nonce gives the message back.
   */
  ghost predicate AeadSound(aead: Aead)
  {
    (forall key: Bytes, nonce: Bytes, m: Bytes ::
      |aead.seal(key, nonce, m).ciphertext| == |m| && |aead.seal(key, nonce, m).tag| == TagLen) &&
    (forall key: Bytes, nonce: Bytes, c: Bytes, tag: Bytes ::
      aead.open(key, nonce, c, tag).Some? ==> |aead.open(key, nonce, c, tag).value| == |c|) &&
    (forall key: Bytes, nonce: Bytes, m: Bytes | |key| == AesKeyLen ::
      aead.open(key, nonce, aead.seal(key, nonce, m).ciphertext, aead.seal(key, nonce, m).tag) == Some(m))
  }
}
