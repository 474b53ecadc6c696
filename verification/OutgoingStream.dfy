/** The outgoing bytes of one client: Client::send appends to the writer buffer, writeFromBuffer
    hands its front to the socket, which may take any part of it or none. */
module OutgoingStream {
  import opened Basics
  import opened ByteArrays

  const BUFFER_SIZE: nat := 4096

  /** What the send call of the operating system does with `length` bytes. */
  datatype SendResult = Sent(n: nat) | WouldBlock | Failed

  /** The socket's answer to its k-th call of a flush, for the number of bytes offered. */
  type Socket = (nat, nat) -> SendResult

  ghost predicate Honest(socket: Socket) {
    forall k, length :: socket(k, length).Sent? ==> socket(k, length).n <= length
  }

  ghost predicate TakesAll(socket: Socket) {
    forall k, length :: socket(k, length) == Sent(length)
  }

  /** How many bytes one call of the socket is offered. */
  function OneOffer(pending: nat): (r: nat) {
    var available := pending % U32;
    if available > BUFFER_SIZE then BUFFER_SIZE else available
  }

  /** What is pending, as far as 32 bits show it, but at most 4096 bytes. */
  lemma OfferSize(pending: nat)
    ensures pending < 0x1_0000_0000 ==> OneOffer(pending) == if pending <= 4096 then pending else 4096
    ensures OneOffer(pending) <= 4096 && (OneOffer(pending) == 0 <==> pending % 0x1_0000_0000 == 0)
  {
  }

  /** How many of `pending` bytes a flush gets rid of from its k-th call on, and whether it ends in an
      error other than a full socket. */
  function Flushed(socket: Socket, pending: nat, k: nat): (r: (nat, bool))
    decreases pending
  {
    var length := OneOffer(pending);
    if length == 0 then (0, false)
    else
      match socket(k, length)
      case WouldBlock => (0, false)
      case Failed => (0, true)
      case Sent(n) =>
        if n < length then (n, false)
        else
          var rest := Flushed(socket, pending - length, k + 1);
          (n + rest.0, rest.1)
  }

  lemma FlushedNone(socket: Socket, pending: nat, k: nat)
    ensures pending % U32 == 0 ==> Flushed(socket, pending, k) == (0, false)
  {
  }

  lemma LongerPrefix(a: seq<Byte>, b: seq<Byte>, from: nat, n: nat)
    requires from + n <= |b|
    ensures (a + b[..from]) + b[from..from + n] == a + b[..from + n]
  {
  }

  lemma FlushedStep(socket: Socket, pending: nat, k: nat, length: nat)
    requires Honest(socket) && pending % U32 != 0
    requires length == if pending % U32 > BUFFER_SIZE then BUFFER_SIZE else pending % U32
    ensures 0 < length <= pending
    ensures match socket(k, length)
            case WouldBlock => Flushed(socket, pending, k) == (0, false)
            case Failed => Flushed(socket, pending, k) == (0, true)
            case Sent(n) =>
              n <= length &&
              if n < length then Flushed(socket, pending, k) == (n, false)
              else var rest := Flushed(socket, pending - length, k + 1);
                   Flushed(socket, pending, k) == (n + rest.0, rest.1)
  {
    assert socket(k, length).Sent? ==> socket(k, length).n <= length;
  }

  lemma {:induction false} FlushedAtMost(socket: Socket, pending: nat, k: nat)
    requires Honest(socket)
    ensures Flushed(socket, pending, k).0 <= pending
    decreases pending
  {
    var length := OneOffer(pending);
    if length != 0 {
      assert socket(k, length).Sent? ==> socket(k, length).n <= length;
      FlushedAtMost(socket, pending - length, k + 1);
    }
  }

  /** A socket that takes all it is offered gets everything up to a multiple of 2^32 bytes: the
      count of pending bytes is cut to 32 bits, so a backlog of exactly 2^32 bytes is not sent. */
  lemma {:induction false} FlushTakesAll(socket: Socket, pending: nat, k: nat)
    requires TakesAll(socket)
    ensures Flushed(socket, pending, k) == (pending % U32, false)
    decreases pending
  {
    var length := OneOffer(pending);
    if length != 0 {
      assert socket(k, length) == Sent(length);
      OfferedOff(pending);
      FlushTakesAll(socket, pending - length, k + 1);
    }
  }

  lemma OfferedOff(pending: nat)
    ensures OneOffer(pending) <= pending % U32 <= pending
    ensures (pending - OneOffer(pending)) % U32 == pending % U32 - OneOffer(pending)
  {
    var q, r := pending / U32, pending % U32;
    assert pending - OneOffer(pending) == q * U32 + (r - OneOffer(pending));
  }

  class Client {
    const writerBuffer: ByteArray
    var isClosing: bool
    ghost var enqueued: seq<Byte> // everything passed to send
    ghost var wire: seq<Byte>     // everything the socket has taken

    /** What the socket has taken followed by what is buffered is what has been enqueued, in order. */
    ghost predicate Valid()
      reads this, writerBuffer, writerBuffer.data
    {
      writerBuffer.Valid() && writerBuffer.readPos == 0 && wire + writerBuffer.Bytes() == enqueued
    }

    constructor ()
      ensures Valid() && !isClosing && enqueued == [] && fresh(writerBuffer) && fresh(writerBuffer.data)
    {
      writerBuffer := new ByteArray(BUFFER_SIZE);
      isClosing, enqueued, wire := false, [], [];
    }

    method Send(data: array<Byte>, length: nat)
      requires Valid() && length <= data.Length && data != writerBuffer.data
      requires 2 * (writerBuffer.writePos + length) < SIZE_RANGE
      modifies this`enqueued, writerBuffer, writerBuffer.data
      ensures Valid() && enqueued == old(enqueued) + old(data[..length])
      ensures writerBuffer.data == old(writerBuffer.data) || fresh(writerBuffer.data)
    {
      writerBuffer.WriteData(data, length);
      enqueued := enqueued + data[..length];
    }

    /** Offers the buffer to the socket piece by piece until it is empty or the socket takes less
        than it is offered, then drops what was taken. A count of pending bytes is kept in 32 bits. */
    method WriteFromBuffer(socket: Socket)
      requires Valid() && Honest(socket) && writerBuffer.writePos + 0x8000_0000 < SIZE_RANGE
      modifies this`isClosing, this`wire, writerBuffer, writerBuffer.data
      ensures Valid() && enqueued == old(enqueued) && writerBuffer.data == old(writerBuffer.data)
      ensures var (taken, failed) := Flushed(socket, |old(writerBuffer.Bytes())|, 0);
              && taken <= |old(writerBuffer.Bytes())|
              && wire == old(wire) + old(writerBuffer.Bytes())[..taken]
              && writerBuffer.Bytes() == old(writerBuffer.Bytes())[taken..]
              && isClosing == (old(isClosing) || failed)
    {
      FlushedAtMost(socket, |writerBuffer.Bytes()|, 0);
      if writerBuffer.ReadAvailable() % U32 == 0 {
        return;
      }
      Offer(socket);
      ghost var taken := writerBuffer.readPos;
      var cut := writerBuffer.CutHead(writerBuffer.readPos);
      CutIsTaken(old(writerBuffer.Bytes()), cut, writerBuffer.Bytes(), taken, old(wire));
    }

    /** The send loop: the read position moves over what the socket takes. */
    method Offer(socket: Socket)
      requires Valid() && Honest(socket) && writerBuffer.writePos + 0x8000_0000 < SIZE_RANGE
      modifies this`isClosing, this`wire, writerBuffer`readPos
      ensures writerBuffer.Valid() && writerBuffer.Bytes() == old(writerBuffer.Bytes())
      ensures wire == old(wire) + writerBuffer.Bytes()[..writerBuffer.readPos]
      ensures var (taken, failed) := Flushed(socket, |writerBuffer.Bytes()|, 0);
              writerBuffer.readPos == taken && isClosing == (old(isClosing) || failed)
    {
      hide Flushed, OneOffer, Honest;
      ghost var before := writerBuffer.Bytes();
      var available := writerBuffer.ReadAvailable() % U32;
      var calls := 0;
      while available != 0
        invariant writerBuffer.Valid() && writerBuffer.Bytes() == before
        invariant available == writerBuffer.ReadAvailable() % U32
        invariant wire == old(wire) + before[..writerBuffer.readPos]
        invariant isClosing == old(isClosing)
        invariant var rest := Flushed(socket, writerBuffer.ReadAvailable(), calls);
                  Flushed(socket, |before|, 0) == (writerBuffer.readPos + rest.0, rest.1)
        decreases writerBuffer.ReadAvailable()
      {
        var length := if available > BUFFER_SIZE then BUFFER_SIZE else available;
        FlushedStep(socket, writerBuffer.ReadAvailable(), calls, length);
        var sent := socket(calls, length);
        calls := calls + 1;
        if !sent.Sent? {
          if sent.Failed? {
            isClosing := true;
          }
          break;
        }
        ghost var from := writerBuffer.readPos;
        writerBuffer.Seek(sent.n);
        LongerPrefix(old(wire), before, from, sent.n);
        wire := wire + before[from..from + sent.n];
        if sent.n < length {
          break;
        }
        available := writerBuffer.ReadAvailable() % U32;
      }
      FlushedNone(socket, writerBuffer.ReadAvailable(), calls);
    }

    static lemma CutIsTaken(before: seq<Byte>, cut: seq<Byte>, left: seq<Byte>, taken: nat, wire: seq<Byte>)
      requires cut + left == before && taken == |cut|
      ensures (wire + before[..taken]) + left == wire + before
      ensures |left| == |before| - taken
    {
      assert before[..taken] == cut;
      assert (wire + cut) + left == wire + (cut + left);
    }
  }

  // ----- whole runs

  datatype Event = SendCall(bytes: seq<Byte>) | Flush(socket: Socket)

  function Enqueued(events: seq<Event>): (r: seq<Byte>)
    decreases |events|
  {
    if events == [] then []
    else
      var last := events[|events| - 1];
      Enqueued(events[..|events| - 1]) + if last.SendCall? then last.bytes else []
  }

  lemma {:induction false} EnqueuedGrows(events: seq<Event>, i: nat)
    requires i <= |events|
    ensures Enqueued(events[..i]) <= Enqueued(events)
    decreases |events| - i
  {
    if i < |events| {
      EnqueuedGrows(events, i + 1);
      assert events[..i + 1][..i] == events[..i];
    } else {
      assert events[..i] == events;
    }
  }

  ghost predicate AllHonest(events: seq<Event>) {
    forall i :: 0 <= i < |events| && events[i].Flush? ==> Honest(events[i].socket)
  }

  /** How many bytes the sockets have taken after these events: each flush offers what is enqueued
      and not taken yet. */
  ghost function Accepted(events: seq<Event>): (n: nat)
    requires AllHonest(events)
    ensures n <= |Enqueued(events)|
    decreases |events|
  {
    if events == [] then 0
    else
      var front, last := events[..|events| - 1], events[|events| - 1];
      var before := Accepted(front);
      match last
      case SendCall(_) => before
      case Flush(socket) =>
        FlushedAtMost(socket, |Enqueued(front)| - before, 0);
        before + Flushed(socket, |Enqueued(front)| - before, 0).0
  }

  /** Whether some flush has failed for another reason than a full socket. */
  ghost predicate SomeFailed(events: seq<Event>)
    requires AllHonest(events)
    decreases |events|
  {
    events != [] &&
    var front, last := events[..|events| - 1], events[|events| - 1];
    || SomeFailed(front)
    || (last.Flush? && Flushed(last.socket, |Enqueued(front)| - Accepted(front), 0).1)
  }

  lemma OneMoreEvent(events: seq<Event>, i: nat)
    requires i < |events| && AllHonest(events)
    ensures var front, more := events[..i], events[..i + 1];
            && AllHonest(front) && AllHonest(more)
            && var pending := |Enqueued(front)| - Accepted(front);
            match events[i]
            case SendCall(bytes) =>
              && Enqueued(more) == Enqueued(front) + bytes && Accepted(more) == Accepted(front)
              && (SomeFailed(more) <==> SomeFailed(front))
            case Flush(socket) =>
              && Enqueued(more) == Enqueued(front)
              && Accepted(more) == Accepted(front) + Flushed(socket, pending, 0).0
              && (SomeFailed(more) <==> SomeFailed(front) || Flushed(socket, pending, 0).1)
  {
    assert events[..i + 1][..i] == events[..i];
  }

  /** Any interleaving of sends and flushes: on the wire is exactly what the sockets have taken, it is
      the front of what was enqueued, the rest is still buffered, and the client is being closed
      exactly when a flush has failed. */
  method Interleave(events: seq<Event>) returns (client: Client)
    requires |Enqueued(events)| < 0x1000_0000_0000_0000 && AllHonest(events)
    ensures client.Valid() && client.enqueued == Enqueued(events)
    ensures client.wire == Enqueued(events)[..Accepted(events)]
    ensures client.writerBuffer.Bytes() == Enqueued(events)[Accepted(events)..]
    ensures client.isClosing == SomeFailed(events)
  {
    hide Flushed, Enqueued, Accepted, SomeFailed, Honest;
    client := new Client();
    NoEvents(events);
    for i := 0 to |events|
      invariant fresh(client) && fresh(client.writerBuffer) && fresh(client.writerBuffer.data)
      invariant AllHonest(events[..i]) && client.Valid() && client.enqueued == Enqueued(events[..i])
      invariant |client.wire| == Accepted(events[..i]) && client.isClosing == SomeFailed(events[..i])
    {
      OneMoreEvent(events, i);
      EnqueuedGrows(events, i + 1);
      match events[i]
      case SendCall(bytes) =>
        var data := new Byte[|bytes|](k requires 0 <= k < |bytes| => bytes[k]);
        assert data[..|bytes|] == bytes;
        client.Send(data, |bytes|);
      case Flush(socket) =>
        client.WriteFromBuffer(socket);
    }
    assert events[..|events|] == events;
  }

  lemma NoEvents(events: seq<Event>)
    ensures events[..0] == [] && Enqueued([]) == [] && Accepted([]) == 0 && !SomeFailed([])
  {
  }
}
