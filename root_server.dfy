/**
 * The server of the top-level ft_server.py, for one accepted connection. It
 * differs from src/server/ft_server.py in what follows the key exchange: the
 * file is a fixed 35-byte message, it is encrypted with AES-EAX, and only the
 * nonce and the ciphertext are written. The tag is computed but never sent,
 * and no length prefix is sent. The key exchange is the same as in
 * `Server.ExchangeKeys`.
 */
module RootServer {
  import opened Wrappers
  import opened Bytes
  import opened Transport
  import opened Crypto
  import Server

  /** The message encrypt_and_send_file always sends: the 35 ASCII bytes of "This is a test file for encryption.". */
  const TestMessage: Bytes := [
    84, 104, 105, 115, 32, 105, 115, 32, 97, 32, 116, 101, 115, 116, 32, 102, 105, 108, 101, 32, 102, 111, 114, 32, 101, 110, 99, 114, 121, 112, 116, 105, 111, 110, 46]

  /** The writes of encrypt_and_send_file: the nonce, then the ciphertext. */
  function FileEvents(eax: Aead, key: Bytes, nonce: Bytes): seq<Event>
  {
    [Sent(nonce), Sent(eax.seal(key, nonce, TestMessage).ciphertext)]
  }

  /**
   * The calls handle_client makes on the connection, whose undelivered bytes
   * are `inbound`; nothing follows the read where `RSA.import_key` or the
   * OAEP encryption raises.
   */
  function HandleClientTrace(rsa: Rsa, eax: Aead, inbound: seq<Bytes>,
                             random: Bytes, nonce: Bytes, seed: Bytes): seq<Event>
  {
    var pem := Receive(inbound, Server.PublicKeyRecvSize).0;
    [Received(Server.PublicKeyRecvSize, pem)] +
    match Server.WrappedKey(rsa, pem, random, seed)
    case None => []
    case Some(wrapped) => [Sent(wrapped)] + FileEvents(eax, random, nonce) + [Closed]
  }

  /** What handle_client writes: the wrapped session key, the nonce and the ciphertext. */
  function HandleClientWrites(rsa: Rsa, eax: Aead, inbound: seq<Bytes>,
                              random: Bytes, nonce: Bytes, seed: Bytes): Bytes
  {
    var pem := Receive(inbound, Server.PublicKeyRecvSize).0;
    match Server.WrappedKey(rsa, pem, random, seed)
    case None => []
    case Some(wrapped) => wrapped + nonce + eax.seal(random, nonce, TestMessage).ciphertext
  }

  /** The bytes handle_client writes are exactly those of the sends in its trace, in order. */
  lemma HandleClientTraceWrites(rsa: Rsa, eax: Aead, inbound: seq<Bytes>,
                                random: Bytes, nonce: Bytes, seed: Bytes)
    ensures SentBytes(HandleClientTrace(rsa, eax, inbound, random, nonce, seed)) ==
            HandleClientWrites(rsa, eax, inbound, random, nonce, seed)
  {
    var t := HandleClientTrace(rsa, eax, inbound, random, nonce, seed);
    var pem := Receive(inbound, Server.PublicKeyRecvSize).0;
    if Server.WrappedKey(rsa, pem, random, seed).None? {
      SingleEventBytes(t[0]);
    } else {
      var wrapped := Server.WrappedKey(rsa, pem, random, seed).value;
      var ct := eax.seal(random, nonce, TestMessage).ciphertext;
      var steps := [Received(Server.PublicKeyRecvSize, pem), Sent(wrapped), Sent(nonce), Sent(ct)];
      assert t == steps + [Closed];
      Server.SentBytesOfShortSteps(steps[0], wrapped, nonce, ct);
      TraceBytesAppend(steps, [Closed]);
      SingleEventBytes(Closed);
    }
  }

  /**
   * Under sound ciphers and a key that imports, the server writes 256 + 16 + 35
   * bytes after the public key: the wrapped key, the nonce, and a ciphertext as
   * long as the message. Neither the EAX tag nor a length prefix is among them.
   */
  lemma HandleClientLayout(rsa: Rsa, eax: Aead, inbound: seq<Bytes>,
                           random: Bytes, nonce: Bytes, seed: Bytes)
    requires RsaSound(rsa) && AeadSound(eax)
    requires |random| == Server.SessionKeyLen && |nonce| == NonceLen
    requires rsa.importKey(Receive(inbound, Server.PublicKeyRecvSize).0).Some?
    ensures var w := HandleClientWrites(rsa, eax, inbound, random, nonce, seed);
      |TestMessage| == 35 &&
      |w| == ModulusBytes + NonceLen + |TestMessage| &&
      w[ModulusBytes..ModulusBytes + NonceLen] == nonce &&
      w[ModulusBytes + NonceLen..] == eax.seal(random, nonce, TestMessage).ciphertext
  {
    var peer := rsa.importKey(Receive(inbound, Server.PublicKeyRecvSize).0).value;
    assert peer == PublicKey(peer.pair);
    var wrapped := rsa.encrypt(peer, seed, random).value;
    assert |wrapped| == ModulusBytes;
    var ct := eax.seal(random, nonce, TestMessage).ciphertext;
    var w := wrapped + nonce + ct;
    assert w[ModulusBytes..ModulusBytes + NonceLen] == nonce;
    assert w[ModulusBytes + NonceLen..] == ct;
  }

  /** encrypt_and_send_file: the nonce, then the ciphertext; the tag is dropped. */
  method EncryptAndSendFile(sock: Socket, eax: Aead, key: Bytes, nonce: Bytes)
    requires sock.Valid()
    modifies sock
    ensures sock.Valid()
    ensures sock.outbound == old(sock.outbound) + nonce + eax.seal(key, nonce, TestMessage).ciphertext
    ensures sock.trace == old(sock.trace) + FileEvents(eax, key, nonce)
    ensures sock.inbound == old(sock.inbound) && sock.closed == old(sock.closed)
  {
    var sealed := eax.seal(key, nonce, TestMessage);
    sock.Send(nonce);
    sock.Send(sealed.ciphertext);
  }

  /**
   * handle_client. `ok` is false only where `RSA.import_key` or the OAEP
   * encryption raises; the connection is closed otherwise.
   */
  method HandleClient(sock: Socket, rsa: Rsa, eax: Aead, random: Bytes, nonce: Bytes, seed: Bytes)
    returns (ok: bool)
    requires sock.Valid()
    requires |random| == Server.SessionKeyLen
    modifies sock
    ensures sock.Valid()
    ensures ok <==> Server.WrappedKey(rsa, Receive(old(sock.inbound), Server.PublicKeyRecvSize).0, random, seed).Some?
    ensures sock.trace == old(sock.trace) + HandleClientTrace(rsa, eax, old(sock.inbound), random, nonce, seed)
    ensures sock.outbound == old(sock.outbound) + HandleClientWrites(rsa, eax, old(sock.inbound), random, nonce, seed)
    ensures sock.inbound == Receive(old(sock.inbound), Server.PublicKeyRecvSize).1
    ensures sock.closed == (old(sock.closed) || ok)
  {
    var pem := sock.Recv(Server.PublicKeyRecvSize);
    var peer := rsa.importKey(pem);
    if peer.None? {
      ok := false;
      return;
    }
    var key := Server.ExchangeKeys(sock, rsa, peer.value, random, seed);
    if key.None? {
      ok := false;
      return;
    }
    EncryptAndSendFile(sock, eax, key.value, nonce);
    sock.Close();
    ok := true;
  }
}
