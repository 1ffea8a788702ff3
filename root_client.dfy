/**
 * The client of the top-level ft_client.py. Its key exchange is the same as in
 * `Client.ExchangeKeys`. After the key, it reads a 16-byte nonce and a 16-byte
 * tag, then reads everything up to the end of the stream in chunks of at most
 * 4096 bytes. There is no length field. It decrypts the result with AES-GCM.
 */
module RootClient {
  import opened Wrappers
  import opened Bytes
  import opened Transport
  import opened Crypto
  import Client

  /** The fields receive_encrypted_file obtains: each fixed-width read may come back short. */
  datatype Parsed = Parsed(nonce: Bytes, tag: Bytes, body: Bytes)

  /**
   * What receive_encrypted_file reads from a stream whose undelivered bytes are
   * `segments`: two single reads, then the whole remainder of the stream.
   */
  function ParseStream(segments: seq<Bytes>): (p: Parsed)
    ensures |p.nonce| <= Client.NonceRecvSize && |p.tag| <= Client.TagRecvSize
    ensures p.nonce + p.tag + p.body == Flatten(segments)
  {
    var r1 := Receive(segments, Client.NonceRecvSize);
    var r2 := Receive(r1.1, Client.TagRecvSize);
    Parsed(r1.0, r2.0, Flatten(r2.1))
  }

  /** Every event is a `recv(4096)`. */
  predicate ChunkReads(events: seq<Event>)
  {
    forall i :: 0 <= i < |events| ==> events[i].Received? && events[i].requested == Client.MaxChunk
  }

  lemma ChunkReadsStep(events: seq<Event>, chunk: Bytes)
    requires ChunkReads(events)
    ensures ChunkReads(events + [Received(Client.MaxChunk, chunk)])
  {
  }

  /**
   * The loop of receive_encrypted_file: `recv(4096)` until a read comes back
   * empty. The result is everything left on the stream, the chunks concatenate
   * to it in order, and the last read is the empty one at end of stream.
   */
  method ReadToEnd(sock: Socket) returns (data: Bytes, ghost chunks: seq<Event>)
    requires sock.Valid()
    modifies sock
    ensures sock.Valid()
    ensures data == Flatten(old(sock.inbound)) && Flatten(sock.inbound) == []
    ensures sock.trace == old(sock.trace) + chunks
    ensures ChunkReads(chunks) && ReceivedBytes(chunks) == data
    ensures |chunks| > 0 && chunks[|chunks| - 1] == Received(Client.MaxChunk, [])
    ensures sock.outbound == old(sock.outbound) && sock.closed == old(sock.closed)
  {
    ghost var start := sock.inbound;
    ghost var head := sock.trace;
    chunks := [];
    data := [];
    while true
      invariant sock.Valid()
      invariant data + Flatten(sock.inbound) == Flatten(start)
      invariant sock.trace == head + chunks
      invariant ChunkReads(chunks) && ReceivedBytes(chunks) == data
      invariant sock.outbound == old(sock.outbound) && sock.closed == old(sock.closed)
      decreases |Flatten(sock.inbound)|
    {
      ghost var pending := sock.inbound;
      StreamStep(start, pending, data);
      var chunk := sock.Recv(Client.MaxChunk);
      TraceStep(chunks, data, chunk);
      chunks := chunks + [Received(Client.MaxChunk, chunk)];
      if chunk == [] {
        break;
      }
      data := data + chunk;
    }
  }

  /**
   * One turn of the loop of `ReadToEnd`, on the stream: the bytes read so far
   * and the bytes left still make up the stream, an empty read means nothing
   * is left, and a non-empty one shortens what is left.
   */
  lemma StreamStep(start: seq<Bytes>, pending: seq<Bytes>, data: Bytes)
    requires Segmented(pending)
    requires data + Flatten(pending) == Flatten(start)
    ensures var (chunk, left) := Receive(pending, Client.MaxChunk);
      data + chunk + Flatten(left) == Flatten(start) &&
      (chunk == [] ==> data == Flatten(start) && Flatten(left) == []) &&
      (chunk != [] ==> |Flatten(left)| < |Flatten(pending)|)
  {
    ReceiveProgress(pending, Client.MaxChunk);
    var r := Receive(pending, Client.MaxChunk);
    ConcatStep(data, r.0, Flatten(r.1), Flatten(pending), Flatten(start));
  }

  lemma ConcatStep(data: Bytes, chunk: Bytes, left: Bytes, pending: Bytes, start: Bytes)
    requires chunk + left == pending && data + pending == start
    ensures data + chunk + left == start
  {
    assert data + chunk + left == data + (chunk + left);
  }

  /** One turn of the loop of `ReadToEnd`, on the trace: one more `recv(4096)`, whose bytes follow the others. */
  lemma TraceStep(chunks: seq<Event>, data: Bytes, chunk: Bytes)
    requires ChunkReads(chunks) && ReceivedBytes(chunks) == data
    ensures var chunks' := chunks + [Received(Client.MaxChunk, chunk)];
      ChunkReads(chunks') && ReceivedBytes(chunks') == data + chunk
  {
    TraceBytesAppend(chunks, [Received(Client.MaxChunk, chunk)]);
    SingleEventBytes(Received(Client.MaxChunk, chunk));
    ChunkReadsStep(chunks, chunk);
  }

  /**
   * receive_encrypted_file. `plaintext` is what is decrypted; None where
   * `decrypt_and_verify` raises. The whole stream is consumed.
   */
  method ReceiveEncryptedFile(sock: Socket, gcm: Aead, key: Bytes)
    returns (plaintext: Option<Bytes>, ghost chunks: seq<Event>)
    requires sock.Valid()
    modifies sock
    ensures sock.Valid()
    ensures var p := ParseStream(old(sock.inbound));
      plaintext == gcm.open(key, p.nonce, p.body, p.tag)
    ensures var p := ParseStream(old(sock.inbound));
      sock.trace == old(sock.trace) +
        [Received(Client.NonceRecvSize, p.nonce), Received(Client.TagRecvSize, p.tag)] + chunks &&
      ChunkReads(chunks) && ReceivedBytes(chunks) == p.body
    ensures |chunks| > 0 && chunks[|chunks| - 1] == Received(Client.MaxChunk, [])
    ensures Flatten(sock.inbound) == []
    ensures sock.outbound == old(sock.outbound) && sock.closed == old(sock.closed)
  {
    var nonce := sock.Recv(Client.NonceRecvSize);
    var tag := sock.Recv(Client.TagRecvSize);
    var data;
    data, chunks := ReadToEnd(sock);
    plaintext := gcm.open(key, nonce, data, tag);
  }

  /**
   * The reads receive_encrypted_file makes for the stream parsed as `p`: the
   * nonce and tag reads, then `recv(4096)` calls whose chunks concatenate to
   * the body, the last of them the empty read at end of stream.
   */
  predicate StreamReads(events: seq<Event>, p: Parsed)
  {
    |events| > 2 &&
    events[..2] == [Received(Client.NonceRecvSize, p.nonce), Received(Client.TagRecvSize, p.tag)] &&
    ChunkReads(events[2..]) && ReceivedBytes(events[2..]) == p.body &&
    events[|events| - 1] == Received(Client.MaxChunk, [])
  }

  /**
   * A trace made of `head`, the nonce and tag reads of `p`, the chunk reads
   * and a `tail` has the reads of `p` between `head` and `tail`.
   */
  lemma StreamReadsAt(head: seq<Event>, p: Parsed, chunks: seq<Event>, tail: seq<Event>,
                      trace: seq<Event>)
    requires trace == head + [Received(Client.NonceRecvSize, p.nonce), Received(Client.TagRecvSize, p.tag)] +
                      chunks + tail
    requires ChunkReads(chunks) && ReceivedBytes(chunks) == p.body
    requires |chunks| > 0 && chunks[|chunks| - 1] == Received(Client.MaxChunk, [])
    ensures |trace| - |tail| >= |head| && trace[..|head|] == head
    ensures StreamReads(trace[|head|..|trace| - |tail|], p)
    ensures |tail| > 0 ==> trace[|trace| - 1] == tail[|tail| - 1]
  {
    var fields := [Received(Client.NonceRecvSize, p.nonce), Received(Client.TagRecvSize, p.tag)];
    TraceParts(head, fields, chunks, tail, trace);
    var events := trace[|head|..|trace| - |tail|];
    assert events[..2] == trace[|head|..|head| + 2];
    assert events[2..] == trace[|head| + 2..|trace| - |tail|];
  }

  /** The pieces of a trace laid end to end, found again by position. */
  lemma TraceParts(head: seq<Event>, fields: seq<Event>, chunks: seq<Event>, tail: seq<Event>,
                   trace: seq<Event>)
    requires trace == head + fields + chunks + tail
    ensures trace[..|head|] == head
    ensures trace[|head|..|head| + |fields|] == fields
    ensures trace[|head| + |fields|..|trace| - |tail|] == chunks
    ensures |tail| > 0 ==> trace[|trace| - 1] == tail[|tail| - 1]
  {
    assert trace == head + (fields + (chunks + tail));
  }

  /**
   * The client's main sequence over the connection whose undelivered bytes are
   * `inbound`: the decrypted message, or None where unwrapping or decryption
   * raises.
   */
  function ClientOutcome(rsa: Rsa, gcm: Aead, priv: PrivateKey, inbound: seq<Bytes>): Option<Bytes>
  {
    var (wrapped, rest) := Receive(inbound, Client.EncryptedKeyRecvSize);
    match rsa.decrypt(priv, wrapped)
    case None => None
    case Some(key) =>
      var p := ParseStream(rest);
      gcm.open(key, p.nonce, p.body, p.tag)
  }

  /**
   * The client's main sequence: exchange_keys, receive_encrypted_file, close.
   * An exception in either step ends the script before `close()`.
   */
  method Run(sock: Socket, rsa: Rsa, gcm: Aead, publicPem: Bytes, priv: PrivateKey)
    returns (plaintext: Option<Bytes>)
    requires sock.Valid()
    modifies sock
    ensures sock.Valid()
    ensures plaintext == ClientOutcome(rsa, gcm, priv, old(sock.inbound))
    ensures var (wrapped, rest) := Receive(old(sock.inbound), Client.EncryptedKeyRecvSize);
      var t0 := |old(sock.trace)|;
      |sock.trace| >= t0 + 2 &&
      sock.trace[..t0 + 2] == old(sock.trace) + [Sent(publicPem), Received(Client.EncryptedKeyRecvSize, wrapped)] &&
      (rsa.decrypt(priv, wrapped).None? ==> |sock.trace| == t0 + 2 && sock.inbound == rest) &&
      (rsa.decrypt(priv, wrapped).Some? ==>
        var p := ParseStream(rest);
        var stop := if plaintext.Some? then |sock.trace| - 1 else |sock.trace|;
        t0 + 2 <= stop && StreamReads(sock.trace[t0 + 2..stop], p) && Flatten(sock.inbound) == [])
    ensures |sock.trace| > 0 && (sock.trace[|sock.trace| - 1] == Closed <==> plaintext.Some?)
    ensures sock.outbound == old(sock.outbound) + publicPem
    ensures sock.closed == (old(sock.closed) || plaintext.Some?)
  {
    var key := Client.ExchangeKeys(sock, rsa, publicPem, priv);
    if key.None? {
      plaintext := None;
      return;
    }
    ghost var mid := sock.trace;
    ghost var chunks;
    plaintext, chunks := ReceiveEncryptedFile(sock, gcm, key.value);
    ghost var p := ParseStream(Receive(old(sock.inbound), Client.EncryptedKeyRecvSize).1);
    if plaintext.Some? {
      sock.Close();
      StreamReadsAt(mid, p, chunks, [Closed], sock.trace);
    } else {
      StreamReadsAt(mid, p, chunks, [], sock.trace);
    }
  }
}
