/**
 * The client of src/client/ft_client.py: it sends its public key, receives
 * and unwraps the session key, then reads one frame with fixed-width reads for
 * the nonce (16), the tag (16) and the length (4), reassembles the ciphertext
 * in chunks of at most 4096 bytes, decrypts it with AES-GCM and saves the
 * plaintext. Its public key file and private key are parameters.
 */
module Client {
  import opened Wrappers
  import opened Bytes
  import opened Transport
  import opened Crypto

  /** exchange_keys reads the wrapped session key with a single `recv(256)`. */
  const EncryptedKeyRecvSize: nat := 256
  const NonceRecvSize: nat := 16
  const TagRecvSize: nat := 16
  const LengthRecvSize: nat := 4
  /** The largest request of the reassembly loop. */
  const MaxChunk: nat := 4096

  function Min(a: nat, b: nat): nat
  {
    if a <= b then a else b
  }

  /**
   * exchange_keys: the public key is sent before anything is read, then the
   * wrapped key is read with one request of 256 bytes and unwrapped; None
   * where `PKCS1_OAEP.decrypt` raises.
   */
  method ExchangeKeys(sock: Socket, rsa: Rsa, publicPem: Bytes, priv: PrivateKey)
    returns (key: Option<Bytes>)
    requires sock.Valid()
    modifies sock
    ensures sock.Valid()
    ensures var (wrapped, rest) := Receive(old(sock.inbound), EncryptedKeyRecvSize);
      sock.inbound == rest && key == rsa.decrypt(priv, wrapped) &&
      sock.trace == old(sock.trace) + [Sent(publicPem), Received(EncryptedKeyRecvSize, wrapped)]
    ensures sock.outbound == old(sock.outbound) + publicPem
    ensures sock.closed == old(sock.closed)
  {
    sock.Send(publicPem);
    var wrapped := sock.Recv(EncryptedKeyRecvSize);
    key := rsa.decrypt(priv, wrapped);
  }

  /** The fields receive_encrypted_file obtains: each read may come back short. */
  datatype Parsed = Parsed(nonce: Bytes, tag: Bytes, lengthField: Bytes, body: Bytes)
  {
    /** `file_size`: the length field decoded as unsigned big-endian. */
    function FileSize(): nat
    {
      FromBigEndian(lengthField)
    }
  }

  /**
   * What receive_encrypted_file reads from a stream whose undelivered bytes are
   * `segments`: three single reads, then the ciphertext, which stops at
   * `file_size` bytes or where the stream ends.
   */
  function ParseFrame(segments: seq<Bytes>): (p: Parsed)
    ensures |p.nonce| <= NonceRecvSize && |p.tag| <= TagRecvSize && |p.lengthField| <= LengthRecvSize
    ensures |p.body| <= p.FileSize() < LengthLimit
    ensures p.nonce + p.tag + p.lengthField + p.body <= Flatten(segments)
    ensures |p.body| < p.FileSize() ==> p.nonce + p.tag + p.lengthField + p.body == Flatten(segments)
  {
    var r1 := Receive(segments, NonceRecvSize);
    var r2 := Receive(r1.1, TagRecvSize);
    var r3 := Receive(r2.1, LengthRecvSize);
    var rest := Flatten(r3.1);
    var nonce, tag, lengthField := r1.0, r2.0, r3.0;
    FromBigEndianShort(lengthField);
    var body := rest[..Min(FromBigEndian(lengthField), |rest|)];
    FieldsThenRest(nonce, tag, lengthField, rest, Flatten(r2.1), Flatten(r1.1), Flatten(segments));
    PrefixOfConcat(nonce + tag + lengthField, rest, |body|);
    Parsed(nonce, tag, lengthField, body)
  }

  lemma FieldsThenRest(a: Bytes, b: Bytes, c: Bytes, rest: Bytes, afterB: Bytes, afterA: Bytes, w: Bytes)
    requires c + rest == afterB && b + afterB == afterA && a + afterA == w
    ensures a + b + c + rest == w
  {
    assert a + b + c + rest == a + (b + (c + rest));
  }

  lemma PrefixOfConcat(fields: Bytes, rest: Bytes, k: nat)
    requires k <= |rest|
    ensures fields + rest[..k] <= fields + rest
    ensures k == |rest| ==> fields + rest[..k] == fields + rest
  {
    assert (fields + rest)[..|fields| + k] == fields + rest[..k];
  }

  /**
   * The reassembly loop of receive_encrypted_file: it asks for
   * `min(4096, file_size - len(buffer))` bytes until the buffer holds
   * `file_size` bytes or a read comes back empty. The buffer is the in-order
   * concatenation of the chunks, each request is between 1 and 4096, and the
   * result is the next `file_size` bytes of the stream, or all of them when
   * the stream ends first.
   */
  method ReadCiphertext(sock: Socket, fileSize: nat) returns (data: Bytes)
    requires sock.Valid()
    modifies sock
    ensures sock.Valid()
    ensures data == Flatten(old(sock.inbound))[..Min(fileSize, |Flatten(old(sock.inbound))|)]
    ensures data + Flatten(sock.inbound) == Flatten(old(sock.inbound))
    ensures var t0 := |old(sock.trace)|;
      |sock.trace| >= t0 && sock.trace[..t0] == old(sock.trace) &&
      (forall i :: t0 <= i < |sock.trace| ==>
        sock.trace[i].Received? && 1 <= sock.trace[i].requested <= MaxChunk) &&
      ReceivedBytes(sock.trace[t0..]) == data
    ensures sock.outbound == old(sock.outbound) && sock.closed == old(sock.closed)
  {
    ghost var start := sock.inbound;
    ghost var head := sock.trace;
    data := [];
    assert sock.trace[|head|..] == [];
    while |data| < fileSize
      invariant sock.Valid()
      invariant |data| <= fileSize
      invariant data + Flatten(sock.inbound) == Flatten(start)
      invariant |sock.trace| >= |head| && sock.trace[..|head|] == head
      invariant forall i :: |head| <= i < |sock.trace| ==>
        sock.trace[i].Received? && 1 <= sock.trace[i].requested <= MaxChunk
      invariant ReceivedBytes(sock.trace[|head|..]) == data
      invariant sock.outbound == old(sock.outbound) && sock.closed == old(sock.closed)
      decreases fileSize - |data|
    {
      ghost var before := sock.trace;
      var request := Min(MaxChunk, fileSize - |data|);
      var chunk := sock.Recv(request);
      ReceivedStep(before, |head|, request, chunk);
      if chunk == [] {
        break;
      }
      data := data + chunk;
    }
  }

  /** Appending one receive to a trace extends its received bytes from position k by that chunk. */
  lemma ReceivedStep(before: seq<Event>, k: nat, request: nat, chunk: Bytes)
    requires k <= |before|
    ensures (before + [Received(request, chunk)])[k..] == before[k..] + [Received(request, chunk)]
    ensures ReceivedBytes((before + [Received(request, chunk)])[k..]) == ReceivedBytes(before[k..]) + chunk
  {
    assert (before + [Received(request, chunk)])[k..] == before[k..] + [Received(request, chunk)];
    TraceBytesAppend(before[k..], [Received(request, chunk)]);
    SingleEventBytes(Received(request, chunk));
  }

  /**
   * The reads receive_encrypted_file makes for the frame `p`: the nonce, tag
   * and length reads, then the loop's requests, each of 1 to 4096 bytes, whose
   * chunks concatenate to the ciphertext.
   */
  predicate FileReads(events: seq<Event>, p: Parsed)
  {
    |events| >= 3 &&
    events[..3] == [Received(NonceRecvSize, p.nonce), Received(TagRecvSize, p.tag),
                    Received(LengthRecvSize, p.lengthField)] &&
    (forall i :: 3 <= i < |events| ==> events[i].Received? && 1 <= events[i].requested <= MaxChunk) &&
    ReceivedBytes(events[3..]) == p.body
  }

  /**
   * receive_encrypted_file. `saved` is what is written to the output file;
   * None where `decrypt_and_verify` raises, in which case nothing is written.
   * It consumes exactly the frame's fields and ciphertext from the stream.
   */
  method ReceiveEncryptedFile(sock: Socket, aead: Aead, key: Bytes) returns (saved: Option<Bytes>)
    requires sock.Valid()
    modifies sock
    ensures sock.Valid()
    ensures var p := ParseFrame(old(sock.inbound));
      saved == aead.open(key, p.nonce, p.body, p.tag)
    ensures var t0 := |old(sock.trace)|;
      |sock.trace| >= t0 && sock.trace[..t0] == old(sock.trace) &&
      FileReads(sock.trace[t0..], ParseFrame(old(sock.inbound)))
    ensures var p := ParseFrame(old(sock.inbound));
      p.nonce + p.tag + p.lengthField + p.body + Flatten(sock.inbound) == Flatten(old(sock.inbound))
    ensures sock.outbound == old(sock.outbound) && sock.closed == old(sock.closed)
  {
    ghost var s0 := sock.inbound;
    var nonce := sock.Recv(NonceRecvSize);
    ghost var s1 := sock.inbound;
    var tag := sock.Recv(TagRecvSize);
    ghost var s2 := sock.inbound;
    var lengthField := sock.Recv(LengthRecvSize);
    ghost var s3 := sock.inbound;
    var fileSize := FromBigEndian(lengthField);
    ghost var head := sock.trace;
    assert head == old(sock.trace) + [Received(NonceRecvSize, nonce),
      Received(TagRecvSize, tag), Received(LengthRecvSize, lengthField)];
    var data := ReadCiphertext(sock, fileSize);
    saved := aead.open(key, nonce, data, tag);
    FrameConsumed(s0, s1, s2, s3, nonce, tag, lengthField, data, Flatten(sock.inbound));
    FileReadsAfter(old(sock.trace), head, sock.trace, ParseFrame(s0));
  }

  /**
   * A trace that extends `before` by the three fixed-width reads of `p`, then
   * by reassembly requests whose chunks make up `p.body`, ends in the reads of `p`.
   */
  lemma FileReadsAfter(before: seq<Event>, head: seq<Event>, after: seq<Event>, p: Parsed)
    requires head == before + [Received(NonceRecvSize, p.nonce), Received(TagRecvSize, p.tag),
                               Received(LengthRecvSize, p.lengthField)]
    requires |after| >= |head| && after[..|head|] == head
    requires forall i :: |head| <= i < |after| ==> after[i].Received? && 1 <= after[i].requested <= MaxChunk
    requires ReceivedBytes(after[|head|..]) == p.body
    ensures after[..|before|] == before
    ensures FileReads(after[|before|..], p)
  {
    assert after[..|before|] == head[..|before|];
    assert after[|before|..][..3] == head[|before|..];
    assert after[|before|..][3..] == after[|head|..];
  }

  /**
   * ParseFrame, read off the stream after each of its three single reads and
   * the reassembly loop: the frame's fields and ciphertext, followed by what
   * is left, make up the stream.
   */
  lemma FrameConsumed(s0: seq<Bytes>, s1: seq<Bytes>, s2: seq<Bytes>, s3: seq<Bytes>,
                      nonce: Bytes, tag: Bytes, lengthField: Bytes, data: Bytes, left: Bytes)
    requires nonce == Receive(s0, NonceRecvSize).0 && s1 == Receive(s0, NonceRecvSize).1
    requires tag == Receive(s1, TagRecvSize).0 && s2 == Receive(s1, TagRecvSize).1
    requires lengthField == Receive(s2, LengthRecvSize).0 && s3 == Receive(s2, LengthRecvSize).1
    requires data == Flatten(s3)[..Min(FromBigEndian(lengthField), |Flatten(s3)|)]
    requires data + left == Flatten(s3)
    ensures ParseFrame(s0) == Parsed(nonce, tag, lengthField, data)
    ensures nonce + tag + lengthField + data + left == Flatten(s0)
  {
    ParseFrameFields(s0, s1, s2, s3, nonce, tag, lengthField);
    FieldsThenRest(nonce, tag, lengthField, data + left, Flatten(s2), Flatten(s1), Flatten(s0));
    AppendAssoc(nonce + tag + lengthField, data, left);
  }

  lemma AppendAssoc(fields: Bytes, data: Bytes, left: Bytes)
    ensures fields + (data + left) == fields + data + left
  {
  }

  lemma ParseFrameFields(s0: seq<Bytes>, s1: seq<Bytes>, s2: seq<Bytes>, s3: seq<Bytes>,
                         nonce: Bytes, tag: Bytes, lengthField: Bytes)
    requires nonce == Receive(s0, NonceRecvSize).0 && s1 == Receive(s0, NonceRecvSize).1
    requires tag == Receive(s1, TagRecvSize).0 && s2 == Receive(s1, TagRecvSize).1
    requires lengthField == Receive(s2, LengthRecvSize).0 && s3 == Receive(s2, LengthRecvSize).1
    ensures ParseFrame(s0) == Parsed(nonce, tag, lengthField,
      Flatten(s3)[..Min(FromBigEndian(lengthField), |Flatten(s3)|)])
  {
  }

  /**
   * The client's main sequence over the connection whose undelivered bytes are
   * `inbound`: the file it saves, or None where unwrapping or decryption raises.
   */
  function ClientOutcome(rsa: Rsa, aead: Aead, priv: PrivateKey, inbound: seq<Bytes>): Option<Bytes>
  {
    var (wrapped, rest) := Receive(inbound, EncryptedKeyRecvSize);
    match rsa.decrypt(priv, wrapped)
    case None => None
    case Some(key) =>
      var p := ParseFrame(rest);
      aead.open(key, p.nonce, p.body, p.tag)
  }

  /**
   * The client's main sequence: exchange_keys, receive_encrypted_file, close.
   * An exception in either step ends the script before `close()`.
   */
  method Run(sock: Socket, rsa: Rsa, aead: Aead, publicPem: Bytes, priv: PrivateKey)
    returns (saved: Option<Bytes>)
    requires sock.Valid()
    modifies sock
    ensures sock.Valid()
    ensures saved == ClientOutcome(rsa, aead, priv, old(sock.inbound))
    ensures var (wrapped, rest) := Receive(old(sock.inbound), EncryptedKeyRecvSize);
      var t0 := |old(sock.trace)|;
      |sock.trace| >= t0 + 2 &&
      sock.trace[..t0 + 2] == old(sock.trace) + [Sent(publicPem), Received(EncryptedKeyRecvSize, wrapped)] &&
      (rsa.decrypt(priv, wrapped).None? ==> |sock.trace| == t0 + 2 && sock.inbound == rest) &&
      (rsa.decrypt(priv, wrapped).Some? ==>
        var p := ParseFrame(rest);
        var stop := if saved.Some? then |sock.trace| - 1 else |sock.trace|;
        t0 + 2 <= stop && FileReads(sock.trace[t0 + 2..stop], p) &&
        p.nonce + p.tag + p.lengthField + p.body + Flatten(sock.inbound) == Flatten(rest))
    ensures |sock.trace| > 0 && (sock.trace[|sock.trace| - 1] == Closed <==> saved.Some?)
    ensures sock.outbound == old(sock.outbound) + publicPem
    ensures sock.closed == (old(sock.closed) || saved.Some?)
  {
    var key := ExchangeKeys(sock, rsa, publicPem, priv);
    if key.None? {
      saved := None;
      return;
    }
    ghost var mid := sock.trace;
    saved := ReceiveEncryptedFile(sock, aead, key.value);
    ghost var read := sock.trace;
    if saved.Some? {
      sock.Close();
    }
    assert sock.trace[|mid|..|read|] == read[|mid|..];
  }
}
