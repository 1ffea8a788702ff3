/**
 * One run of the top-level ft_server.py against the top-level ft_client.py.
 * The server writes the nonce and then the ciphertext. The client reads the
 * nonce and then a 16-byte tag, so it takes the first 16 ciphertext bytes as
 * the tag and decrypts only the remaining 19. It therefore cannot recover the
 * 35-byte message.
 */
module RootTransfer {
  import opened Wrappers
  import opened Bytes
  import opened Transport
  import opened Crypto
  import Server
  import Client
  import RootServer
  import RootClient

  /**
   * The client's view of a stream that holds the nonce followed by a
   * ciphertext: under full reads, its "tag" is the first 16 bytes of the
   * ciphertext and its body is the rest.
   */
  lemma LayoutMismatch(segments: seq<Bytes>, nonce: Bytes, ciphertext: Bytes)
    requires |nonce| == Client.NonceRecvSize && |ciphertext| >= Client.TagRecvSize
    requires Flatten(segments) == nonce + ciphertext
    requires FullReads(segments, [Client.NonceRecvSize, Client.TagRecvSize])
    ensures RootClient.ParseStream(segments) ==
      RootClient.Parsed(nonce, ciphertext[..Client.TagRecvSize], ciphertext[Client.TagRecvSize..])
  {
    var sizes := [Client.NonceRecvSize, Client.TagRecvSize];
    var r1 := Receive(segments, Client.NonceRecvSize);
    FullReadsStep(segments, sizes);
    assert sizes[1..] == [Client.TagRecvSize];
    FullReadsStep(r1.1, [Client.TagRecvSize]);
    var w := nonce + ciphertext;
    assert w[..16] == nonce && w[16..] == ciphertext;
    assert ciphertext[..16] + ciphertext[16..] == ciphertext;
  }

  /**
   * Under full reads of the key, the nonce and the tag, whatever the client
   * decrypts is 32 bytes shorter than what follows the wrapped key: the
   * nonce and the would-be tag are never part of what it decrypts.
   */
  lemma DecryptedLength(rsa: Rsa, gcm: Aead, priv: PrivateKey, s2c: seq<Bytes>)
    requires AeadSound(gcm)
    requires FullReads(s2c, [Client.EncryptedKeyRecvSize, Client.NonceRecvSize, Client.TagRecvSize])
    ensures var outcome := RootClient.ClientOutcome(rsa, gcm, priv, s2c);
      outcome.Some? ==>
        |outcome.value| + Client.NonceRecvSize + Client.TagRecvSize + Client.EncryptedKeyRecvSize == |Flatten(s2c)|
  {
    var sizes := [Client.EncryptedKeyRecvSize, Client.NonceRecvSize, Client.TagRecvSize];
    FullReadsStep(s2c, sizes);
    assert sizes[1..] == [Client.NonceRecvSize, Client.TagRecvSize];
    var (wrapped, rest) := Receive(s2c, Client.EncryptedKeyRecvSize);
    FullReadsStep(rest, sizes[1..]);
    assert sizes[1..][1..] == [Client.TagRecvSize];
    FullReadsStep(Receive(rest, Client.NonceRecvSize).1, [Client.TagRecvSize]);
    var p := RootClient.ParseStream(rest);
    assert |p.body| + 32 == |Flatten(rest)|;
    var key := rsa.decrypt(priv, wrapped);
    if key.Some? {
      var decrypted := gcm.open(key.value, p.nonce, p.body, p.tag);
      assert decrypted.Some? ==> |decrypted.value| == |p.body|;
      assert RootClient.ClientOutcome(rsa, gcm, priv, s2c) == decrypted;
    }
  }

  /**
   * The top-level pair never delivers its message. Assume the ciphers are
   * sound, the server's `recv(2048)` gets a public key matching the client's
   * private key, and the client's three fixed-width reads return their full
   * counts. Then whatever the client decrypts is 19 bytes long, never the
   * 35-byte message.
   */
  lemma NeverRecoversMessage(rsa: Rsa, eax: Aead, gcm: Aead, priv: PrivateKey, pem: Bytes,
                             random: Bytes, nonce: Bytes, seed: Bytes, c2s: seq<Bytes>, s2c: seq<Bytes>)
    requires RsaSound(rsa) && AeadSound(eax) && AeadSound(gcm)
    requires Receive(c2s, Server.PublicKeyRecvSize).0 == pem
    requires rsa.importKey(pem) == Some(PublicKey(priv.pair))
    requires |random| == Server.SessionKeyLen && |nonce| == NonceLen
    requires Flatten(s2c) == RootServer.HandleClientWrites(rsa, eax, c2s, random, nonce, seed)
    requires FullReads(s2c, [Client.EncryptedKeyRecvSize, Client.NonceRecvSize, Client.TagRecvSize])
    ensures var outcome := RootClient.ClientOutcome(rsa, gcm, priv, s2c);
      outcome.Some? ==> |outcome.value| == |RootServer.TestMessage| - TagLen
    ensures RootClient.ClientOutcome(rsa, gcm, priv, s2c) != Some(RootServer.TestMessage)
  {
    RootServer.HandleClientLayout(rsa, eax, c2s, random, nonce, seed);
    DecryptedLength(rsa, gcm, priv, s2c);
  }
}
