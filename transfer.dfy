/**
 * One run of src/server/ft_server.py against src/client/ft_client.py. The
 * server's writes are the client's inbound stream, segmented in any way the
 * transport likes. The fixed-width reads are assumed to return their full
 * counts (`FullReads`); the reassembly loop needs no such assumption.
 */
module Transfer {
  import opened Wrappers
  import opened Bytes
  import opened Transport
  import opened Crypto
  import opened Server
  import opened Client

  /** Three full reads of 16, 16 and 4 bytes split the stream into its first 36 bytes and the rest. */
  lemma ThreeFullReads(segments: seq<Bytes>)
    requires FullReads(segments, [NonceRecvSize, TagRecvSize, LengthRecvSize])
    ensures var r1 := Receive(segments, NonceRecvSize);
      var r2 := Receive(r1.1, TagRecvSize);
      var r3 := Receive(r2.1, LengthRecvSize);
      var w := Flatten(segments);
      |w| >= 36 && r1.0 == w[..16] && r2.0 == w[16..32] && r3.0 == w[32..36] && Flatten(r3.1) == w[36..]
  {
    var r1 := Receive(segments, NonceRecvSize);
    var r2 := Receive(r1.1, TagRecvSize);
    var r3 := Receive(r2.1, LengthRecvSize);
    var w := Flatten(segments);
    FullReadsStep(segments, [NonceRecvSize, TagRecvSize, LengthRecvSize]);
    assert [NonceRecvSize, TagRecvSize, LengthRecvSize][1..] == [TagRecvSize, LengthRecvSize];
    FullReadsStep(r1.1, [TagRecvSize, LengthRecvSize]);
    assert [TagRecvSize, LengthRecvSize][1..] == [LengthRecvSize];
    DropSlices(w, 16, 16);
    FullReadsStep(r2.1, [LengthRecvSize]);
    DropSlices(w, 32, 4);
  }

  /**
   * The client's parser inverts the server's serialiser: from a stream that
   * starts with a frame it recovers exactly the nonce, the tag and the
   * ciphertext, and reads nothing of what follows the frame.
   */
  lemma ParseFrameOfFrame(segments: seq<Bytes>, nonce: Bytes, tag: Bytes, ciphertext: Bytes, trailing: Bytes)
    requires |nonce| == NonceRecvSize && |tag| == TagRecvSize && |ciphertext| < LengthLimit
    requires Flatten(segments) == Frame(nonce, tag, ciphertext).value + trailing
    requires FullReads(segments, [NonceRecvSize, TagRecvSize, LengthRecvSize])
    ensures ParseFrame(segments).nonce == nonce
    ensures ParseFrame(segments).tag == tag
    ensures ParseFrame(segments).FileSize() == |ciphertext|
    ensures ParseFrame(segments).body == ciphertext
  {
    ThreeFullReads(segments);
    var w := Flatten(segments);
    var f := Frame(nonce, tag, ciphertext).value;
    ConcatSlices(f, trailing, 0, 16);
    ConcatSlices(f, trailing, 16, 32);
    ConcatSlices(f, trailing, 32, 36);
    ConcatSlices(ciphertext, trailing, |ciphertext|, |ciphertext|);
  }

  /**
   * The key exchange end to end: under a matching key pair the client's
   * single `recv(256)` gets the whole wrapped key, unwraps the server's very
   * session key, and leaves the rest of the stream untouched.
   */
  lemma KeyExchangeRecovers(rsa: Rsa, priv: PrivateKey, random: Bytes, seed: Bytes,
                            segments: seq<Bytes>, trailing: Bytes)
    requires RsaSound(rsa)
    requires |random| == SessionKeyLen
    requires Flatten(segments) == rsa.encrypt(PublicKey(priv.pair), seed, random).value + trailing
    requires FullReads(segments, [EncryptedKeyRecvSize])
    ensures rsa.decrypt(priv, Receive(segments, EncryptedKeyRecvSize).0) == Some(random)
    ensures Flatten(Receive(segments, EncryptedKeyRecvSize).1) == trailing
  {
    var wrapped := rsa.encrypt(PublicKey(priv.pair), seed, random).value;
    assert |wrapped| == ModulusBytes;
    ReceiveFull(segments, EncryptedKeyRecvSize);
    assert (wrapped + trailing)[..256] == wrapped;
    assert (wrapped + trailing)[256..] == trailing;
  }

  /**
   * The file the client saves is the file the server sent: the server's
   * `recv(2048)` gets the client's whole public key, that key matches the
   * client's private key, the ciphers are sound, and the client's four
   * fixed-width reads return their full counts.
   */
  lemma EndToEnd(rsa: Rsa, aead: Aead, priv: PrivateKey, pem: Bytes, plaintext: Bytes,
                 random: Bytes, nonce: Bytes, seed: Bytes, c2s: seq<Bytes>, s2c: seq<Bytes>)
    requires RsaSound(rsa) && AeadSound(aead)
    requires Receive(c2s, PublicKeyRecvSize).0 == pem
    requires rsa.importKey(pem) == Some(PublicKey(priv.pair))
    requires |random| == SessionKeyLen && |nonce| == NonceLen && |plaintext| < LengthLimit
    requires Flatten(s2c) == HandleClientWrites(rsa, aead, c2s, Some(plaintext), random, nonce, seed)
    requires FullReads(s2c, [EncryptedKeyRecvSize, NonceRecvSize, TagRecvSize, LengthRecvSize])
    ensures ClientOutcome(rsa, aead, priv, s2c) == Some(plaintext)
  {
    var sealed := aead.seal(random, nonce, plaintext);
    var frame := Frame(nonce, sealed.tag, sealed.ciphertext).value;
    var sizes := [EncryptedKeyRecvSize, NonceRecvSize, TagRecvSize, LengthRecvSize];
    assert sizes[1..] == [NonceRecvSize, TagRecvSize, LengthRecvSize];
    assert FullReads(s2c, [EncryptedKeyRecvSize]) by {
      assert [EncryptedKeyRecvSize][1..] == [];
    }
    KeyExchangeRecovers(rsa, priv, random, seed, s2c, frame);
    var rest := Receive(s2c, EncryptedKeyRecvSize).1;
    assert frame + [] == frame;
    ParseFrameOfFrame(rest, nonce, sealed.tag, sealed.ciphertext, []);
  }

  /**
   * When the server closes right after the tag, the length read comes back
   * empty, `file_size` is 0, and decryption is attempted on an empty
   * ciphertext: a truncated frame is not reported as such.
   */
  lemma TruncatedAfterTag(segments: seq<Bytes>, nonce: Bytes, tag: Bytes)
    requires |nonce| == NonceRecvSize && |tag| == TagRecvSize
    requires Flatten(segments) == nonce + tag
    requires FullReads(segments, [NonceRecvSize, TagRecvSize])
    ensures ParseFrame(segments) == Parsed(nonce, tag, [], [])
    ensures ParseFrame(segments).FileSize() == 0
  {
    var r1 := Receive(segments, NonceRecvSize);
    var r2 := Receive(r1.1, TagRecvSize);
    assert [NonceRecvSize, TagRecvSize][1..] == [TagRecvSize];
    ReceiveFull(segments, NonceRecvSize);
    ReceiveFull(r1.1, TagRecvSize);
    assert (nonce + tag)[..16] == nonce && (nonce + tag)[16..] == tag;
    assert Flatten(r2.1) == [];
    var r3 := Receive(r2.1, LengthRecvSize);
    assert r3.0 + Flatten(r3.1) == [];
    assert FromBigEndian([]) == 0;
  }

  /**
   * When the stream ends inside the ciphertext, the loop stops on the empty
   * read with only the bytes that arrived, shorter than `file_size`, and
   * decryption is attempted on that short buffer.
   */
  lemma EndsInsideCiphertext(segments: seq<Bytes>, nonce: Bytes, tag: Bytes, ciphertext: Bytes, k: nat)
    requires |nonce| == NonceRecvSize && |tag| == TagRecvSize && |ciphertext| < LengthLimit
    requires k < |ciphertext|
    requires Flatten(segments) == Frame(nonce, tag, ciphertext).value[..36 + k]
    requires FullReads(segments, [NonceRecvSize, TagRecvSize, LengthRecvSize])
    ensures ParseFrame(segments).FileSize() == |ciphertext|
    ensures ParseFrame(segments).body == ciphertext[..k]
    ensures |ParseFrame(segments).body| < ParseFrame(segments).FileSize()
  {
    ThreeFullReads(segments);
    var w := Flatten(segments);
    var f := Frame(nonce, tag, ciphertext).value;
    assert w[32..36] == f[32..36];
    assert w[36..] == f[36..36 + k] == ciphertext[..k];
  }
}
