/**
 * The server of src/server/ft_server.py, for one accepted connection: it reads
 * the client's public key, sends it a fresh AES-256 session key wrapped with
 * RSA-OAEP, then sends the file as one AES-GCM frame
 * `nonce || tag || be32(|ciphertext|) || ciphertext`, and closes the connection.
 * The file contents (None where the file cannot be opened or read), the 32
 * bytes `os.urandom(32)` returns, the nonce the cipher
 * object draws and the OAEP padding seed are parameters.
 */
module Server {
  import opened Wrappers
  import opened Bytes
  import opened Transport
  import opened Crypto

  /** handle_client reads the client's public key with a single `recv(2048)`. */
  const PublicKeyRecvSize: nat := 2048
  /** exchange_keys draws its session key with `os.urandom(32)`. */
  const SessionKeyLen: nat := 32

  /**
   * The wire form of one frame, or None when the ciphertext is too long for the
   * four-byte length prefix.
   */
  function Frame(nonce: Bytes, tag: Bytes, ciphertext: Bytes): (r: Option<Bytes>)
    ensures r.Some? <==> |ciphertext| < LengthLimit
    ensures r.Some? ==>
      var k := |nonce| + |tag|;
      |r.value| == k + 4 + |ciphertext| &&
      r.value[..|nonce|] == nonce && r.value[|nonce|..k] == tag &&
      FromBigEndian(r.value[k..k + 4]) == |ciphertext| && r.value[k + 4..] == ciphertext
  {
    match ToBigEndian4(|ciphertext|)
    case None => None
    case Some(prefix) =>
      DecodeEncode(|ciphertext|);
      var w := nonce + tag + prefix + ciphertext;
      assert w[|nonce| + |tag|..|nonce| + |tag| + 4] == prefix;
      Some(w)
  }

  /**
   * The writes of encrypt_and_send_file, in order: nonce, tag, length prefix,
   * ciphertext. When the length does not fit, `to_bytes` raises after the
   * nonce and the tag have been sent.
   */
  function FrameEvents(aead: Aead, key: Bytes, nonce: Bytes, plaintext: Bytes): seq<Event>
  {
    var sealed := aead.seal(key, nonce, plaintext);
    [Sent(nonce), Sent(sealed.tag)] +
    match ToBigEndian4(|sealed.ciphertext|)
    case None => []
    case Some(prefix) => [Sent(prefix), Sent(sealed.ciphertext)]
  }

  /**
   * The session key as handle_client sends it: the client's public key imported
   * from `pem`, then the key wrapped under it. None where `RSA.import_key` or
   * `PKCS1_OAEP.encrypt` raises.
   */
  function WrappedKey(rsa: Rsa, pem: Bytes, random: Bytes, seed: Bytes): Option<Bytes>
  {
    match rsa.importKey(pem)
    case None => None
    case Some(peer) => rsa.encrypt(peer, seed, random)
  }

  /**
   * The calls handle_client makes on the connection, whose undelivered bytes
   * are `inbound`; `file` is what `f.read()` returns for the file to send, None
   * where opening or reading it raises. It stops early where `RSA.import_key`
   * or the OAEP encryption raises (nothing is sent), where the file read raises
   * (only the wrapped key is sent), or where `to_bytes` raises; the connection
   * is closed only when the whole frame was sent.
   */
  function HandleClientTrace(rsa: Rsa, aead: Aead, inbound: seq<Bytes>, file: Option<Bytes>,
                             random: Bytes, nonce: Bytes, seed: Bytes): seq<Event>
  {
    var pem := Receive(inbound, PublicKeyRecvSize).0;
    [Received(PublicKeyRecvSize, pem)] +
    match WrappedKey(rsa, pem, random, seed)
    case None => []
    case Some(wrapped) =>
      [Sent(wrapped)] +
      match file
      case None => []
      case Some(plaintext) =>
        FrameEvents(aead, random, nonce, plaintext) +
        (if |aead.seal(random, nonce, plaintext).ciphertext| < LengthLimit then [Closed] else [])
  }

  /** The event list of handle_client, case by case. */
  lemma HandleClientTraceCases(rsa: Rsa, aead: Aead, inbound: seq<Bytes>, file: Option<Bytes>,
                               random: Bytes, nonce: Bytes, seed: Bytes)
    ensures var t := HandleClientTrace(rsa, aead, inbound, file, random, nonce, seed);
      var pem := Receive(inbound, PublicKeyRecvSize).0;
      match WrappedKey(rsa, pem, random, seed)
      case None => t == [Received(PublicKeyRecvSize, pem)]
      case Some(wrapped) =>
        match file
        case None => t == [Received(PublicKeyRecvSize, pem), Sent(wrapped)]
        case Some(plaintext) =>
          var sealed := aead.seal(random, nonce, plaintext);
          if |sealed.ciphertext| < LengthLimit then
            t == [Received(PublicKeyRecvSize, pem), Sent(wrapped), Sent(nonce), Sent(sealed.tag),
                  Sent(ToBigEndian4(|sealed.ciphertext|).value), Sent(sealed.ciphertext), Closed]
          else
            t == [Received(PublicKeyRecvSize, pem), Sent(wrapped), Sent(nonce), Sent(sealed.tag)]
  {
  }

  /**
   * Phase order of handle_client: the public key is read first and nothing is
   * read afterwards; the wrapped session key is the first thing written and the
   * frame follows it; close comes last, and only when the file was read and
   * the whole frame was sent.
   */
  lemma HandleClientPhases(rsa: Rsa, aead: Aead, inbound: seq<Bytes>, file: Option<Bytes>,
                           random: Bytes, nonce: Bytes, seed: Bytes)
    ensures var t := HandleClientTrace(rsa, aead, inbound, file, random, nonce, seed);
      var pem := Receive(inbound, PublicKeyRecvSize).0;
      var wrapped := WrappedKey(rsa, pem, random, seed);
      var sent := file.Some? && |aead.seal(random, nonce, file.value).ciphertext| < LengthLimit;
      t[0] == Received(PublicKeyRecvSize, pem) &&
      (forall i :: 1 <= i < |t| - 1 ==> t[i].Sent?) &&
      (wrapped.None? ==> |t| == 1) &&
      (wrapped.Some? ==>
        |t| > 1 && t[1] == Sent(wrapped.value) &&
        (file.None? ==> |t| == 2) &&
        (t[|t| - 1].Closed? <==> sent) &&
        (t[|t| - 1].Sent? <==> !sent))
  {
    HandleClientTraceCases(rsa, aead, inbound, file, random, nonce, seed);
  }

  /**
   * What handle_client writes: the wrapped session key, then the frame; only
   * nonce and tag after the key when the length prefix cannot be encoded; the
   * key alone when the file cannot be read; nothing when the client's key does
   * not import or cannot wrap the session key.
   */
  function HandleClientWrites(rsa: Rsa, aead: Aead, inbound: seq<Bytes>, file: Option<Bytes>,
                              random: Bytes, nonce: Bytes, seed: Bytes): Bytes
  {
    var pem := Receive(inbound, PublicKeyRecvSize).0;
    match WrappedKey(rsa, pem, random, seed)
    case None => []
    case Some(wrapped) =>
      wrapped +
      match file
      case None => []
      case Some(plaintext) =>
        var sealed := aead.seal(random, nonce, plaintext);
        match Frame(nonce, sealed.tag, sealed.ciphertext)
        case Some(frame) => frame
        case None => nonce + sealed.tag
  }

  /** The bytes handle_client writes are exactly those of the sends in its trace, in order. */
  lemma HandleClientTraceWrites(rsa: Rsa, aead: Aead, inbound: seq<Bytes>, file: Option<Bytes>,
                                random: Bytes, nonce: Bytes, seed: Bytes)
    ensures SentBytes(HandleClientTrace(rsa, aead, inbound, file, random, nonce, seed)) ==
            HandleClientWrites(rsa, aead, inbound, file, random, nonce, seed)
  {
    var t := HandleClientTrace(rsa, aead, inbound, file, random, nonce, seed);
    var pem := Receive(inbound, PublicKeyRecvSize).0;
    var r := Received(PublicKeyRecvSize, pem);
    match WrappedKey(rsa, pem, random, seed)
    case None =>
      assert t == [r];
      SingleEventBytes(r);
    case Some(wrapped) =>
      match file
      case None =>
        assert t == [r] + [Sent(wrapped)];
        TraceBytesAppend([r], [Sent(wrapped)]);
        SingleEventBytes(r);
        SingleEventBytes(Sent(wrapped));
      case Some(plaintext) =>
        FrameTraceWrites(r, wrapped, aead, random, nonce, plaintext);
  }

  /** The bytes of the sends after the key read, when the file was read: the wrapped key, then the frame or only nonce and tag. */
  lemma FrameTraceWrites(r: Event, wrapped: Bytes, aead: Aead, key: Bytes, nonce: Bytes, plaintext: Bytes)
    requires r.Received?
    ensures var sealed := aead.seal(key, nonce, plaintext);
      SentBytes([r] + ([Sent(wrapped)] + (FrameEvents(aead, key, nonce, plaintext) +
        (if |sealed.ciphertext| < LengthLimit then [Closed] else [])))) ==
      wrapped + match Frame(nonce, sealed.tag, sealed.ciphertext)
                case Some(frame) => frame
                case None => nonce + sealed.tag
  {
    var sealed := aead.seal(key, nonce, plaintext);
    if |sealed.ciphertext| < LengthLimit {
      var prefix := ToBigEndian4(|sealed.ciphertext|).value;
      assert [r] + ([Sent(wrapped)] + (FrameEvents(aead, key, nonce, plaintext) + [Closed])) ==
        [r, Sent(wrapped), Sent(nonce), Sent(sealed.tag), Sent(prefix), Sent(sealed.ciphertext), Closed];
      SentBytesOfSteps(r, wrapped, nonce, sealed.tag, prefix, sealed.ciphertext);
      assert Frame(nonce, sealed.tag, sealed.ciphertext).value == nonce + sealed.tag + prefix + sealed.ciphertext;
    } else {
      assert [r] + ([Sent(wrapped)] + (FrameEvents(aead, key, nonce, plaintext) + [])) ==
        [r, Sent(wrapped), Sent(nonce), Sent(sealed.tag)];
      SentBytesOfShortSteps(r, wrapped, nonce, sealed.tag);
    }
  }

  /** The bytes written by one receive, five sends and a close. */
  lemma SentBytesOfSteps(r: Event, a: Bytes, b: Bytes, c: Bytes, d: Bytes, e: Bytes)
    requires r.Received?
    ensures SentBytes([r, Sent(a), Sent(b), Sent(c), Sent(d), Sent(e), Closed]) == a + b + c + d + e
  {
    var t := [r, Sent(a), Sent(b), Sent(c), Sent(d), Sent(e), Closed];
    SentBytesOfShortSteps(r, a, b, c);
    assert t == [r, Sent(a), Sent(b), Sent(c)] + [Sent(d), Sent(e), Closed];
    TraceBytesAppend([r, Sent(a), Sent(b), Sent(c)], [Sent(d), Sent(e), Closed]);
    var u := [Sent(d), Sent(e), Closed];
    SentBytesFrom(u, 0);
    SentBytesFrom(u, 1);
    SentBytesFrom(u, 2);
    assert u[0..] == u && u[3..] == [];
  }

  /** The bytes written by one receive and three sends. */
  lemma SentBytesOfShortSteps(r: Event, a: Bytes, b: Bytes, c: Bytes)
    requires r.Received?
    ensures SentBytes([r, Sent(a), Sent(b), Sent(c)]) == a + b + c
  {
    var u := [r, Sent(a), Sent(b), Sent(c)];
    SentBytesFrom(u, 0);
    SentBytesFrom(u, 1);
    SentBytesFrom(u, 2);
    SentBytesFrom(u, 3);
    assert u[0..] == u && u[4..] == [];
  }

  /**
   * exchange_keys: the returned session key is 32 bytes and is exactly the
   * value that was wrapped with the client's public key and sent. None where
   * `PKCS1_OAEP.encrypt` raises, before anything is sent.
   */
  method ExchangeKeys(sock: Socket, rsa: Rsa, peer: PublicKey, random: Bytes, seed: Bytes)
    returns (key: Option<Bytes>)
    requires sock.Valid()
    requires |random| == SessionKeyLen
    modifies sock
    ensures sock.Valid()
    ensures key.Some? <==> rsa.encrypt(peer, seed, random).Some?
    ensures key.Some? ==> key.value == random && |key.value| == SessionKeyLen
    ensures var wrapped := rsa.encrypt(peer, seed, random);
      sock.trace == old(sock.trace) + (if wrapped.Some? then [Sent(wrapped.value)] else [])
    ensures var wrapped := rsa.encrypt(peer, seed, random);
      sock.outbound == old(sock.outbound) + (if wrapped.Some? then wrapped.value else [])
    ensures sock.inbound == old(sock.inbound) && sock.closed == old(sock.closed)
  {
    var wrapped := rsa.encrypt(peer, seed, random);
    if wrapped.None? {
      key := None;
      assert sock.trace == old(sock.trace) + [];
      assert sock.outbound == old(sock.outbound) + [];
      return;
    }
    sock.Send(wrapped.value);
    key := Some(random);
  }

  /**
   * encrypt_and_send_file: the whole file goes out as a single frame. `ok` is
   * false where the file cannot be read, before anything is sent, and where
   * the ciphertext length does not fit the length prefix, after the nonce and
   * the tag have already been sent.
   */
  method EncryptAndSendFile(sock: Socket, aead: Aead, key: Bytes, nonce: Bytes, file: Option<Bytes>)
    returns (ok: bool)
    requires sock.Valid()
    modifies sock
    ensures sock.Valid()
    ensures ok <==> file.Some? && |aead.seal(key, nonce, file.value).ciphertext| < LengthLimit
    ensures file.None? ==> sock.outbound == old(sock.outbound) && sock.trace == old(sock.trace)
    ensures file.Some? ==>
      var sealed := aead.seal(key, nonce, file.value);
      sock.outbound == old(sock.outbound) +
        (if ok then Frame(nonce, sealed.tag, sealed.ciphertext).value else nonce + sealed.tag) &&
      sock.trace == old(sock.trace) + FrameEvents(aead, key, nonce, file.value)
    ensures sock.inbound == old(sock.inbound) && sock.closed == old(sock.closed)
  {
    if file.None? {
      ok := false;
      return;
    }
    var sealed := aead.seal(key, nonce, file.value);
    ghost var t0, out0 := sock.trace, sock.outbound;
    sock.Send(nonce);
    sock.Send(sealed.tag);
    var prefix := ToBigEndian4(|sealed.ciphertext|);
    if prefix.None? {
      ok := false;
      assert sock.trace == t0 + [Sent(nonce), Sent(sealed.tag)];
      assert sock.outbound == out0 + (nonce + sealed.tag);
      return;
    }
    sock.Send(prefix.value);
    sock.Send(sealed.ciphertext);
    ok := true;
    assert sock.trace == t0 + [Sent(nonce), Sent(sealed.tag), Sent(prefix.value), Sent(sealed.ciphertext)];
    assert sock.outbound == out0 + (nonce + sealed.tag + prefix.value + sealed.ciphertext);
  }

  /**
   * handle_client. `ok` is true when it ran to the end and closed the
   * connection; false where `RSA.import_key`, the OAEP encryption, the file
   * read or `to_bytes` raised.
   */
  method HandleClient(sock: Socket, rsa: Rsa, aead: Aead, file: Option<Bytes>,
                      random: Bytes, nonce: Bytes, seed: Bytes)
    returns (ok: bool)
    requires sock.Valid()
    requires |random| == SessionKeyLen
    modifies sock
    ensures sock.Valid()
    ensures var pem := Receive(old(sock.inbound), PublicKeyRecvSize).0;
      ok <==> WrappedKey(rsa, pem, random, seed).Some? && file.Some? &&
              |aead.seal(random, nonce, file.value).ciphertext| < LengthLimit
    ensures sock.trace == old(sock.trace) +
      HandleClientTrace(rsa, aead, old(sock.inbound), file, random, nonce, seed)
    ensures sock.outbound == old(sock.outbound) +
      HandleClientWrites(rsa, aead, old(sock.inbound), file, random, nonce, seed)
    ensures sock.inbound == Receive(old(sock.inbound), PublicKeyRecvSize).1
    ensures sock.closed == (old(sock.closed) || ok)
  {
    var pem := sock.Recv(PublicKeyRecvSize);
    var peer := rsa.importKey(pem);
    if peer.None? {
      ok := false;
    } else {
      var key := ExchangeKeys(sock, rsa, peer.value, random, seed);
      if key.None? {
        ok := false;
      } else {
        ok := EncryptAndSendFile(sock, aead, key.value, nonce, file);
        if ok {
          sock.Close();
        }
      }
    }
    HandleClientTraceCases(rsa, aead, old(sock.inbound), file, random, nonce, seed);
  }
}
