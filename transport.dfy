/**
 * One end of a TCP connection, as the two scripts use it. What the peer has sent
 * and this end has not yet received is a sequence of segments: a single
 * `recv(n)` returns at most n bytes, all taken from the segment at the head, so a
 * fixed-width read can come back short when the peer's bytes arrive split. A
 * stream holds no empty segment; `recv` returns no bytes only at end of stream
 * (or when asked for none). Every `send` and `sendall` writes all of its bytes.
 */
module Transport {
  import opened Bytes

  /** The bytes of a sequence of segments, in order. */
  function Flatten(segments: seq<Bytes>): Bytes
  {
    if segments == [] then [] else segments[0] + Flatten(segments[1..])
  }

  /** No segment is empty: an empty read means the peer has closed the connection. */
  predicate Segmented(segments: seq<Bytes>)
  {
    forall i :: 0 <= i < |segments| ==> segments[i] != []
  }

  /**
   * `recv(n)` on a stream whose undelivered bytes are `segments`: the bytes it
   * returns and the segments left afterwards.
   */
  function Receive(segments: seq<Bytes>, n: nat): (r: (Bytes, seq<Bytes>))
    ensures |r.0| <= n
    ensures r.0 + Flatten(r.1) == Flatten(segments)
    ensures Segmented(segments) ==> Segmented(r.1)
    ensures Segmented(segments) ==> (r.0 == [] <==> n == 0 || Flatten(segments) == [])
  {
    if n == 0 || segments == [] then ([], segments)
    else if |segments[0]| <= n then (segments[0], segments[1..])
    else
      var rest := [segments[0][n..]] + segments[1..];
      assert rest[1..] == segments[1..];
      assert segments[0][..n] + segments[0][n..] == segments[0];
      (segments[0][..n], rest)
  }

  /** On a stream with no empty segment, a read that asks for bytes either gets some or finds the end of the stream. */
  lemma ReceiveProgress(segments: seq<Bytes>, n: nat)
    requires Segmented(segments) && n > 0
    ensures var r := Receive(segments, n);
      if r.0 == [] then Flatten(segments) == [] && Flatten(r.1) == []
      else |Flatten(r.1)| < |Flatten(segments)|
  {
    var r := Receive(segments, n);
    assert r.0 + Flatten(r.1) == Flatten(segments);
  }

  /** A read that returns the full count returns the next n bytes of the stream and consumes exactly those. */
  lemma ReceiveFull(segments: seq<Bytes>, n: nat)
    requires |Receive(segments, n).0| == n
    ensures Receive(segments, n).0 == Flatten(segments)[..n]
    ensures Flatten(Receive(segments, n).1) == Flatten(segments)[n..]
  {
    var (data, rest) := Receive(segments, n);
    assert data + Flatten(rest) == Flatten(segments);
    assert (data + Flatten(rest))[..n] == data;
    assert (data + Flatten(rest))[n..] == Flatten(rest);
  }

  /**
   * The full-count assumption: fixed-width reads of the given sizes, issued one
   * after another on `segments`, each return all the bytes they ask for.
   */
  predicate FullReads(segments: seq<Bytes>, sizes: seq<nat>)
    decreases |sizes|
  {
    sizes == [] ||
    (|Receive(segments, sizes[0]).0| == sizes[0] && FullReads(Receive(segments, sizes[0]).1, sizes[1..]))
  }

  /** The first of a series of full reads returns the next bytes of the stream; the others follow on what is left. */
  lemma FullReadsStep(segments: seq<Bytes>, sizes: seq<nat>)
    requires sizes != [] && FullReads(segments, sizes)
    ensures Receive(segments, sizes[0]).0 == Flatten(segments)[..sizes[0]]
    ensures Flatten(Receive(segments, sizes[0]).1) == Flatten(segments)[sizes[0]..]
    ensures FullReads(Receive(segments, sizes[0]).1, sizes[1..])
  {
    ReceiveFull(segments, sizes[0]);
  }

  /** What one step of the connection did, as this end sees it. */
  datatype Event = Received(requested: nat, data: Bytes) | Sent(data: Bytes) | Closed

  /** The bytes of the `Received` events of a trace, in order. */
  function ReceivedBytes(trace: seq<Event>): Bytes
  {
    if trace == [] then []
    else (if trace[0].Received? then trace[0].data else []) + ReceivedBytes(trace[1..])
  }

  /** The bytes of the `Sent` events of a trace, in order. */
  function SentBytes(trace: seq<Event>): Bytes
  {
    if trace == [] then []
    else (if trace[0].Sent? then trace[0].data else []) + SentBytes(trace[1..])
  }

  lemma {:induction false} TraceBytesAppend(a: seq<Event>, b: seq<Event>)
    ensures ReceivedBytes(a + b) == ReceivedBytes(a) + ReceivedBytes(b)
    ensures SentBytes(a + b) == SentBytes(a) + SentBytes(b)
  {
    if a == [] {
      assert a + b == b;
    } else {
      assert (a + b)[0] == a[0] && (a + b)[1..] == a[1..] + b;
      TraceBytesAppend(a[1..], b);
    }
  }

  lemma SingleEventBytes(e: Event)
    ensures ReceivedBytes([e]) == if e.Received? then e.data else []
    ensures SentBytes([e]) == if e.Sent? then e.data else []
  {
    assert [e][1..] == [];
  }

  /** One step of `SentBytes` from position k of a trace. */
  lemma SentBytesFrom(t: seq<Event>, k: nat)
    requires k < |t|
    ensures SentBytes(t[k..]) == (if t[k].Sent? then t[k].data else []) + SentBytes(t[k + 1..])
  {
    assert t[k..][1..] == t[k + 1..];
  }

  class Socket {
    /** Segments the peer has sent that this end has not received yet. */
    var inbound: seq<Bytes>
    /** Every byte this end has sent, in order. */
    var outbound: Bytes
    var closed: bool
    /** Every call made on this end so far. */
    ghost var trace: seq<Event>

    ghost predicate Valid()
      reads this
    {
      Segmented(inbound)
    }

    constructor (segments: seq<Bytes>)
      requires Segmented(segments)
      ensures Valid()
      ensures inbound == segments && outbound == [] && !closed
      ensures trace == []
    {
      inbound := segments;
      outbound := [];
      closed := false;
      trace := [];
    }

    /** `recv(n)`. */
    method Recv(n: nat) returns (data: Bytes)
      requires Valid()
      modifies this
      ensures Valid()
      ensures data == Receive(old(inbound), n).0 && inbound == Receive(old(inbound), n).1
      ensures outbound == old(outbound) && closed == old(closed)
      ensures trace == old(trace) + [Received(n, data)]
    {
      var r := Receive(inbound, n);
      data, inbound := r.0, r.1;
      trace := trace + [Received(n, data)];
    }

    /** `send(data)` or `sendall(data)`: all of data is written. */
    method Send(data: Bytes)
      requires Valid()
      modifies this
      ensures Valid()
      ensures outbound == old(outbound) + data
      ensures inbound == old(inbound) && closed == old(closed)
      ensures trace == old(trace) + [Sent(data)]
    {
      outbound := outbound + data;
      trace := trace + [Sent(data)];
    }

    /** `close()`. */
    method Close()
      requires Valid()
      modifies this
      ensures Valid()
      ensures closed
      ensures inbound == old(inbound) && outbound == old(outbound)
      ensures trace == old(trace) + [Closed]
    {
      closed := true;
      trace := trace + [Closed];
    }
  }
}
