/** What one fragment does to the messages waiting at the receiver (d1_both.c), as functions. */
module DtlsInbound {
  import opened Encoding
  import opened ByteParser
  import opened DtlsHeader
  import opened Reassembly
  import opened DtlsFragment
  import PQ = PriorityQueue

  const HELLO_REQUEST: byte := 0
  const FINISHED: byte := 20

  /** A message header that was read, and what is there to read behind it. */
  datatype Arrival = Arrival(h: Header, body: seq<byte>)

  /** Reading the body: all of it or a failure; nothing is read for an empty fragment. */
  function Read(a: Arrival): (r: Option<seq<byte>>)
    ensures r.Some? ==> |r.value| == a.h.fragLen
  {
    if a.h.fragLen == 0 then Some([]) else if |a.body| == a.h.fragLen then Some(a.body) else None
  }

  /** A message in the queue. */
  datatype Held = Held(header: Header, part: Partial)

  type Waiting = seq<PQ.Entry<Held>>

  ghost predicate WellKept(e: PQ.Entry<Held>) {
    && e.priority == PQ.Priority64(e.data.header.number) && |e.data.part.bytes| == e.data.header.msgLen
    && e.data.header.fragOff == 0 && e.data.header.fragLen == e.data.header.msgLen
  }

  ghost predicate Orderly(q: Waiting) {
    PQ.Ascending(q) && forall i :: 0 <= i < |q| ==> WellKept(q[i])
  }

  /** pqueue_find, as a position. */
  function Lookup(q: Waiting, p: seq<byte>): (r: Option<nat>)
    ensures r.Some? ==> r.value < |q| && q[r.value].priority == p
  {
    if q == [] then None
    else if q[0].priority == p then Some(0)
    else match Lookup(q[1..], p) case None => None case Some(i) => Some(i + 1)
  }

  lemma {:induction false} LookupHolds(q: Waiting, p: seq<byte>)
    ensures Lookup(q, p).None? ==> !PQ.Holds(q, p)
  {
    if q != [] && q[0].priority != p {
      LookupHolds(q[1..], p);
      if PQ.Holds(q, p) {
        var i :| 0 <= i < |q| && q[i].priority == p;
        assert i > 0 && q[1..][i - 1].priority == p;
      }
    }
  }

  /** DTLS1_HM_FRAGMENT_RETRY, or an error. */
  datatype Outcome = Retry | Failed

  datatype Step = Step(queue: Waiting, outcome: Outcome)

  /** A message made whole by h, empty so far. */
  function Started(h: Header): (m: Held) {
    Held(Whole(h.kind, h.number, h.msgLen), Fresh(h.msgLen))
  }

  function Extended(m: Held, off: nat, data: seq<byte>): (r: Held)
    requires off + |data| <= |m.part.bytes|
  {
    m.(part := Arrive(m.part, off, data))
  }

  /** dtls1_reassemble_fragment. */
  ghost function Reassemble(q: Waiting, a: Arrival, maxLen: nat): (r: Step)
    requires Orderly(q)
  {
    var h, key := a.h, PQ.Priority64(a.h.number);
    if h.fragOff + h.fragLen > h.msgLen || h.msgLen > maxLen then Step(q, Failed)
    else if h.fragLen == 0 then Step(q, Retry)
    else
      match (Lookup(q, key), Read(a))
      case (None, None) => Step(q, Failed)
      case (None, Some(data)) =>
        Step(PQ.Inserted(q, PQ.Entry(key, Extended(Started(h), h.fragOff, data))), Retry)
      case (Some(i), read) =>
        var m := q[i].data;
        if m.header.msgLen != h.msgLen then Step(q, Failed)
        else if read.None? then Step(q, Failed)
        else Step(q[i := PQ.Entry(key, Extended(m, h.fragOff, read.value))], Retry)
  }

  /** Too old, too far ahead, already there, or a Finished before everything else. */
  predicate Stale(q: Waiting, next: u16, h: Header) {
    || h.number <= next || h.number > next + 10
    || (Lookup(q, PQ.Priority64(h.number)).Some? && h.fragLen >= h.msgLen)
    || (next == 0 && h.kind == FINISHED)
  }

  /** dtls1_process_out_of_seq_message. */
  ghost function OutOfSequence(q: Waiting, next: u16, a: Arrival, maxLen: nat): (r: Step)
    requires Orderly(q)
  {
    var h := a.h;
    if h.fragOff + h.fragLen > h.msgLen then Step(q, Failed)
    else if Stale(q, next, h) then Step(q, if Read(a).Some? then Retry else Failed)
    else if h.fragLen < h.msgLen then Reassemble(q, a, maxLen)
    else if h.fragLen > maxLen then Step(q, Failed)
    else
      match Read(a)
      case None => Step(q, Failed)
      case Some(data) =>
        var m := Held(h, Partial(data, Range(0, h.msgLen), false));
        Step(PQ.Inserted(q, PQ.Entry(PQ.Priority64(h.number), m)), Retry)
  }

  // --------------------------------------------------------------------------
  // Genuine fragments
  // --------------------------------------------------------------------------

  /** A fragment of one of the messages that were sent: its numbers are right, it is not an empty piece
      of a longer message, and what can be read of it is the piece it says it is. */
  ghost predicate Genuine(a: Arrival, M: seq<Message>) {
    && a.h.number < |M| && a.h.kind == M[a.h.number].kind && a.h.msgLen == |M[a.h.number].body|
    && a.h.fragOff + a.h.fragLen <= a.h.msgLen && (a.h.fragLen > 0 || a.h.msgLen == 0)
    && (Read(a).Some? ==> Read(a).value == M[a.h.number].body[a.h.fragOff..a.h.fragOff + a.h.fragLen])
  }

  /** What waits is a part of one of the messages. */
  ghost predicate OfMessages(m: Held, M: seq<Message>) {
    && m.header.number < |M| && m.header.kind == M[m.header.number].kind
    && m.header.msgLen == |M[m.header.number].body| && PartOf(m.part, M[m.header.number].body)
  }

  ghost predicate AllOfMessages(q: Waiting, M: seq<Message>) {
    forall i :: 0 <= i < |q| ==> OfMessages(q[i].data, M)
  }

  lemma InsertOrderly(q: Waiting, m: Held)
    requires Orderly(q) && WellKept(PQ.Entry(PQ.Priority64(m.header.number), m))
    ensures Orderly(PQ.Inserted(q, PQ.Entry(PQ.Priority64(m.header.number), m)))
  {
    var e := PQ.Entry(PQ.Priority64(m.header.number), m);
    PQ.InsertedOnce(q, e);
    InsertedAll(q, e);
  }

  lemma {:induction false} InsertedAll(q: Waiting, e: PQ.Entry<Held>)
    requires WellKept(e) && forall i :: 0 <= i < |q| ==> WellKept(q[i])
    ensures forall i :: 0 <= i < |PQ.Inserted(q, e)| ==> WellKept(PQ.Inserted(q, e)[i])
  {
    if q != [] {
      InsertedAll(q[1..], e);
    }
  }

  lemma InsertOfMessages(q: Waiting, m: Held, M: seq<Message>)
    requires AllOfMessages(q, M) && OfMessages(m, M)
    ensures AllOfMessages(PQ.Inserted(q, PQ.Entry(PQ.Priority64(m.header.number), m)), M)
  {
    PQ.InsertedAtPlace(q, PQ.Entry(PQ.Priority64(m.header.number), m));
  }

  lemma UpdateOrderly(q: Waiting, i: nat, m: Held)
    requires Orderly(q) && i < |q| && WellKept(PQ.Entry(q[i].priority, m))
    ensures Orderly(q[i := PQ.Entry(q[i].priority, m)])
  {
    var r := q[i := PQ.Entry(q[i].priority, m)];
    forall j, k | 0 <= j < k < |r|
      ensures PQ.Before(r, j, k)
    {
      assert PQ.Before(q, j, k);
    }
  }

  /** The queue stays in order, whatever arrives. */
  lemma ReassembleOrderly(q: Waiting, a: Arrival, maxLen: nat)
    requires Orderly(q)
    ensures Orderly(Reassemble(q, a, maxLen).queue)
  {
    var h, key := a.h, PQ.Priority64(a.h.number);
    if h.fragOff + h.fragLen <= h.msgLen <= maxLen && h.fragLen > 0 && Read(a).Some? {
      match Lookup(q, key) {
        case None =>
          InsertOrderly(q, Extended(Started(h), h.fragOff, Read(a).value));
        case Some(i) =>
          if q[i].data.header.msgLen == h.msgLen {
            UpdateOrderly(q, i, Extended(q[i].data, h.fragOff, Read(a).value));
          }
      }
    }
  }

  lemma OutOfSequenceOrderly(q: Waiting, next: u16, a: Arrival, maxLen: nat)
    requires Orderly(q)
    ensures Orderly(OutOfSequence(q, next, a, maxLen).queue)
  {
    ReassembleOrderly(q, a, maxLen);
    var h := a.h;
    if h.fragOff == 0 && h.fragLen == h.msgLen && Read(a).Some? {
      InsertOrderly(q, Held(h, Partial(Read(a).value, Range(0, h.msgLen), false)));
    }
  }

  lemma NumberOfKey(e: PQ.Entry<Held>, number: u16)
    requires WellKept(e) && e.priority == PQ.Priority64(number)
    ensures e.data.header.number == number
  {
    PQ.PriorityValue(number);
    PQ.PriorityValue(e.data.header.number);
  }

  lemma FirstPartGenuine(a: Arrival, M: seq<Message>)
    requires Genuine(a, M) && a.h.fragLen > 0 && Read(a).Some?
    ensures OfMessages(Extended(Started(a.h), a.h.fragOff, Read(a).value), M)
  {
    FreshPart(M[a.h.number].body);
    ArrivePart(Fresh(a.h.msgLen), M[a.h.number].body, a.h.fragOff, Read(a).value);
  }

  lemma NextPartGenuine(m: Held, a: Arrival, M: seq<Message>)
    requires Genuine(a, M) && Read(a).Some? && OfMessages(m, M) && m.header.number == a.h.number
    ensures OfMessages(Extended(m, a.h.fragOff, Read(a).value), M)
  {
    var body, data := M[a.h.number].body, Read(a).value;
    ArrivePart(m.part, body, a.h.fragOff, data);
  }

  lemma UpdateOfMessages(q: Waiting, i: nat, e: PQ.Entry<Held>, M: seq<Message>)
    requires AllOfMessages(q, M) && i < |q| && OfMessages(e.data, M)
    ensures AllOfMessages(q[i := e], M)
  {
  }

  /** Genuine fragments only add genuine parts. */
  lemma ReassembleGenuine(q: Waiting, a: Arrival, maxLen: nat, M: seq<Message>)
    requires Orderly(q) && AllOfMessages(q, M) && Genuine(a, M)
    ensures AllOfMessages(Reassemble(q, a, maxLen).queue, M)
  {
    var h, key := a.h, PQ.Priority64(a.h.number);
    if h.msgLen <= maxLen && h.fragLen > 0 && Read(a).Some? {
      match Lookup(q, key) {
        case None =>
          FirstPartGenuine(a, M);
          InsertOfMessages(q, Extended(Started(h), h.fragOff, Read(a).value), M);
        case Some(i) =>
          NumberOfKey(q[i], h.number);
          assert OfMessages(q[i].data, M);
          NextPartGenuine(q[i].data, a, M);
          UpdateOfMessages(q, i, PQ.Entry(key, Extended(q[i].data, h.fragOff, Read(a).value)), M);
      }
    }
  }

  lemma OutOfSequenceGenuine(q: Waiting, next: u16, a: Arrival, maxLen: nat, M: seq<Message>)
    requires Orderly(q) && AllOfMessages(q, M) && Genuine(a, M)
    ensures AllOfMessages(OutOfSequence(q, next, a, maxLen).queue, M)
  {
    ReassembleGenuine(q, a, maxLen, M);
    var h := a.h;
    if h.fragLen == h.msgLen && Read(a).Some? {
      assert M[h.number].body[0..h.msgLen] == M[h.number].body;
      InsertOfMessages(q, Held(h, Partial(Read(a).value, Range(0, h.msgLen), false)), M);
    }
  }

  // --------------------------------------------------------------------------
  // How far ahead the receiver looks
  // --------------------------------------------------------------------------

  /** After `done` messages no more than ten ahead wait, and before the first no later Finished. */
  ghost predicate Near(m: Held, done: nat) {
    m.header.number <= done + 10 && (done == 0 && m.header.kind == FINISHED ==> m.header.number == 0)
  }

  ghost predicate AllNear(q: Waiting, done: nat) {
    forall i :: 0 <= i < |q| ==> Near(q[i].data, done)
  }

  lemma InsertNear(q: Waiting, m: Held, done: nat)
    requires AllNear(q, done) && Near(m, done)
    ensures AllNear(PQ.Inserted(q, PQ.Entry(PQ.Priority64(m.header.number), m)), done)
  {
    PQ.InsertedAtPlace(q, PQ.Entry(PQ.Priority64(m.header.number), m));
  }

  lemma ReassembleNear(q: Waiting, a: Arrival, maxLen: nat, done: nat)
    requires Orderly(q) && AllNear(q, done) && Near(Started(a.h), done)
    ensures AllNear(Reassemble(q, a, maxLen).queue, done)
  {
    var h, key := a.h, PQ.Priority64(a.h.number);
    if h.fragOff + h.fragLen <= h.msgLen <= maxLen && h.fragLen > 0 && Read(a).Some? && Lookup(q, key).None? {
      InsertNear(q, Extended(Started(h), h.fragOff, Read(a).value), done);
    }
  }

  /** What is buffered ahead of its turn is near. */
  lemma OutOfSequenceNear(q: Waiting, next: u16, a: Arrival, maxLen: nat, done: nat)
    requires Orderly(q) && AllNear(q, done) && next == done % 0x1_0000
    ensures AllNear(OutOfSequence(q, next, a, maxLen).queue, done)
  {
    var h := a.h;
    if h.fragOff + h.fragLen <= h.msgLen && !Stale(q, next, h) {
      assert h.number <= done + 10;
      if h.fragLen < h.msgLen {
        ReassembleNear(q, a, maxLen, done);
      } else if h.fragLen <= maxLen && Read(a).Some? {
        InsertNear(q, Held(h, Partial(Read(a).value, Range(0, h.msgLen), false)), done);
      }
    }
  }
}
