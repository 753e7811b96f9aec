/** A flight across the network: sent, sent again under other MTUs, any of its records let through. */
module DtlsNetwork {
  import opened Encoding
  import opened ByteParser
  import opened DtlsHeader
  import opened DtlsWriter
  import opened DtlsInbound
  import opened DtlsProgress
  import opened DtlsReceiver
  import opened DtlsRetransmit
  import opened DtlsFlight
  import opened DtlsTransport
  import PQ = PriorityQueue

  // --------------------------------------------------------------------------
  // What the network lets through
  // --------------------------------------------------------------------------

  /** Any of the records, in any order, any number of times; what is no handshake message is not read here. */
  function Picked(sent: seq<Record>, picks: seq<nat>): (r: seq<Arrival>) {
    if picks == [] then [] else
      var n, rest := picks[|picks| - 1], Picked(sent, picks[..|picks| - 1]);
      if n < |sent| && Arriving(sent[n].bytes).Some? then rest + [Arriving(sent[n].bytes).value] else rest
  }

  /** Every arrival is one of the records. */
  lemma {:induction false} PickedFrom(sent: seq<Record>, picks: seq<nat>, i: nat) returns (n: nat)
    requires i < |Picked(sent, picks)|
    ensures n < |sent| && Arriving(sent[n].bytes) == Some(Picked(sent, picks)[i])
  {
    var front := picks[..|picks| - 1];
    if i < |Picked(sent, front)| {
      n := PickedFrom(sent, front, i);
    } else {
      n := picks[|picks| - 1];
    }
  }

  /** Every record picked arrives. */
  lemma {:induction false} PickedHas(sent: seq<Record>, picks: seq<nat>, j: nat) returns (i: nat)
    requires j < |picks| && picks[j] < |sent| && Arriving(sent[picks[j]].bytes).Some?
    ensures i < |Picked(sent, picks)| && Picked(sent, picks)[i] == Arriving(sent[picks[j]].bytes).value
  {
    var front := picks[..|picks| - 1];
    if j < |picks| - 1 {
      i := PickedHas(sent, front, j);
    } else {
      i := |Picked(sent, front)|;
    }
  }

  ghost predicate LetThrough(r: Record, sent: seq<Record>, picks: seq<nat>) {
    exists j :: 0 <= j < |picks| && picks[j] < |sent| && sent[picks[j]] == r
  }

  ghost predicate AllThrough(records: seq<Record>, sent: seq<Record>, picks: seq<nat>) {
    forall i :: 0 <= i < |records| ==> LetThrough(records[i], sent, picks)
  }

  // --------------------------------------------------------------------------
  // One message
  // --------------------------------------------------------------------------

  /** A message is cut into several fragments, all of them shorter, or sent whole. */
  lemma CutOrWhole(records: seq<Record>, h: Header, body: seq<byte>, i: nat) returns (off: nat, len: nat)
    requires h.msgLen == |body| && FragmentsOf(records, h, body) && i < |records|
    ensures off + len <= |body| && (len > 0 || body == []) && records[i].bytes == FragmentBytes(h, body, off, len)
    ensures len < |body| <==> body != [] && |records| > 1
  {
    var last := |records| - 1;
    len := |records[last].bytes| - HEADER;
    off := |body| - len;
    assert FragmentsUpTo(records[..last], h, body, off) && (len > 0 || body == []);
    if last == 0 {
      assert records[..last] == [] && off == 0;
    } else {
      if body != [] {
        EndsLater(records[..last], h, body, off);
      }
      if i < last {
        off, len := FragmentAt(records[..last], h, body, off, i);
      }
    }
  }

  /** What is sent of a message arrives as genuine fragments of it, all cut or all whole. */
  lemma RecordArrives(records: seq<Record>, h: Header, body: seq<byte>, M: seq<Message>, i: nat)
    requires h.msgLen == |body| && FragmentsOf(records, h, body) && i < |records|
    requires h.number < |M| && M[h.number] == Message(h.kind, body)
    ensures Arriving(records[i].bytes).Some?
    ensures var a := Arriving(records[i].bytes).value;
            && Genuine(a, M) && a.h.number == h.number && a.h.msgLen == |body| && Read(a).Some?
            && (Shorter(a.h) <==> body != [] && |records| > 1)
  {
    var off, len := CutOrWhole(records, h, body, i);
    HeaderRoundTrip(FragmentHeader(h, off, len), body[off..off + len]);
  }

  /** Some records of a message that is not empty carry a part of it. */
  lemma EndsLater(records: seq<Record>, h: Header, body: seq<byte>, end: nat)
    requires h.msgLen == |body| && FragmentsUpTo(records, h, body, end) && records != [] && body != []
    ensures 0 < end <= |body|
  {
  }

  /** A message comes when all records of one sending do. */
  lemma MessageComes(records: seq<Record>, h: Header, body: seq<byte>, M: seq<Message>, sent: seq<Record>,
                     picks: seq<nat>)
    requires h.msgLen == |body| && FragmentsOf(records, h, body)
    requires h.number < |M| && M[h.number] == Message(h.kind, body) && AllThrough(records, sent, picks)
    ensures Comes([], Picked(sent, picks), h.number, |body|)
  {
    var net := Picked(sent, picks);
    if body == [] {
      var i := RecordThrough(records, h, body, M, sent, picks, 0);
      assert Belongs(net[i], h.number);
    }
    forall k | 0 <= k < |body|
      ensures Reaches([], net, h.number, k)
    {
      var j, off, len := FragmentsCover(records, h, body, |body|, k);
      var i := RecordThrough(records, h, body, M, sent, picks, j);
      HeaderRoundTrip(FragmentHeader(h, off, len), body[off..off + len]);
      assert Adds(net[i], h.number, k);
    }
  }

  lemma RecordThrough(records: seq<Record>, h: Header, body: seq<byte>, M: seq<Message>, sent: seq<Record>,
                      picks: seq<nat>, j: nat)
    returns (i: nat)
    requires h.msgLen == |body| && FragmentsOf(records, h, body) && j < |records|
    requires h.number < |M| && M[h.number] == Message(h.kind, body) && AllThrough(records, sent, picks)
    ensures Arriving(records[j].bytes).Some? && i < |Picked(sent, picks)|
    ensures Picked(sent, picks)[i] == Arriving(records[j].bytes).value && Belongs(Picked(sent, picks)[i], h.number)
  {
    RecordArrives(records, h, body, M, j);
    assert LetThrough(records[j], sent, picks);
    var p :| 0 <= p < |picks| && picks[p] < |sent| && sent[picks[p]] == records[j];
    i := PickedHas(sent, picks, p);
  }

  // --------------------------------------------------------------------------
  // A flight
  // --------------------------------------------------------------------------

  ghost predicate SpelledAt(outs: seq<Outgoing>, i: nat, first: u16, M: seq<Message>)
    requires i < |outs|
  {
    outs[i].Handshake? ==>
      NumberAt(outs, i, first) < |M| && M[NumberAt(outs, i, first)] == Message(outs[i].kind, outs[i].body)
  }

  /** The flight sends the messages of M from `first` to the end. */
  ghost predicate Spelled(outs: seq<Outgoing>, first: u16, M: seq<Message>) {
    |M| == first + Numbers(outs, |outs|) && forall i :: 0 <= i < |outs| ==> SpelledAt(outs, i, first, M)
  }

  predicate CutUp(outs: seq<Outgoing>, parts: seq<seq<Record>>, i: nat)
    requires i < |outs| == |parts|
  {
    outs[i].Handshake? && outs[i].body != [] && |parts[i]| > 1
  }

  /** No message is cut in one sending and whole in the other. */
  ghost predicate Alike(outs: seq<Outgoing>, parts: seq<seq<Record>>, resent: seq<seq<Record>>) {
    |outs| == |parts| == |resent| && forall i :: 0 <= i < |outs| ==> (CutUp(outs, parts, i) <==> CutUp(outs, resent, i))
  }

  ghost function Pieces(outs: seq<Outgoing>, parts: seq<seq<Record>>, first: u16): (s: set<nat>)
    requires |outs| == |parts|
  {
    set i | 0 <= i < |outs| && CutUp(outs, parts, i) :: NumberAt(outs, i, first)
  }

  /** The arrival is a genuine fragment of message i, shorter if that was cut. */
  ghost predicate ArrivesAs(a: Arrival, outs: seq<Outgoing>, parts: seq<seq<Record>>, i: nat, first: u16,
                            M: seq<Message>)
    requires i < |outs| == |parts|
  {
    && outs[i].Handshake? && Genuine(a, M) && a.h.number == NumberAt(outs, i, first) && Read(a).Some?
    && (Shorter(a.h) <==> CutUp(outs, parts, i))
  }

  lemma PartArrives(parts: seq<seq<Record>>, outs: seq<Outgoing>, first: u16, epoch: nat, session: nat,
                    M: seq<Message>, i: nat, j: nat)
    requires SentIn(parts, FlightOf(outs, |outs|, first, epoch, session)) && Spelled(outs, first, M)
    requires i < |parts| && j < |parts[i]| && Arriving(parts[i][j].bytes).Some?
    ensures ArrivesAs(Arriving(parts[i][j].bytes).value, outs, parts, i, first, M)
  {
    var f := FlightOf(outs, |outs|, first, epoch, session);
    assert SentAt(parts, f, i) && SpelledAt(outs, i, first, M);
    FlightAt(outs, |outs|, first, epoch, session, i);
    if outs[i].Handshake? {
      RecordArrives(parts[i], f[i].header, Body(f[i]), M, j);
    }
  }

  lemma {:induction false} FlatFrom(parts: seq<seq<Record>>, n: nat) returns (i: nat, j: nat)
    requires n < |Flat(parts)|
    ensures i < |parts| && j < |parts[i]| && Flat(parts)[n] == parts[i][j]
  {
    var front := parts[..|parts| - 1];
    if n < |Flat(front)| {
      i, j := FlatFrom(front, n);
    } else {
      i, j := |parts| - 1, n - |Flat(front)|;
    }
  }

  /** Numbers tell the messages apart, and every number is taken. */
  lemma SameNumber(outs: seq<Outgoing>, first: u16, i: nat, j: nat)
    requires first + Numbers(outs, |outs|) < 0x1_0000 && i < |outs| && j < |outs|
    requires outs[i].Handshake? && outs[j].Handshake? && NumberAt(outs, i, first) == NumberAt(outs, j, first)
    ensures i == j
  {
    NumberIs(outs, i, first);
    NumberIs(outs, j, first);
    if i < j {
      NumbersGrow(outs, i, j);
    } else if j < i {
      NumbersGrow(outs, j, i);
    }
  }

  lemma {:induction false} NumberTaken(outs: seq<Outgoing>, n: nat, first: u16, m: nat) returns (i: nat)
    requires n <= |outs| && first + Numbers(outs, |outs|) < 0x1_0000 && first <= m < first + Numbers(outs, n)
    ensures i < n && outs[i].Handshake? && NumberAt(outs, i, first) == m
  {
    if m < first + Numbers(outs, n - 1) {
      i := NumberTaken(outs, n - 1, first, m);
    } else {
      i := n - 1;
      NumberIs(outs, i, first);
    }
  }

  lemma CutAsSaid(a: Arrival, outs: seq<Outgoing>, parts: seq<seq<Record>>, i: nat, first: u16, M: seq<Message>)
    requires first + Numbers(outs, |outs|) < 0x1_0000 && i < |outs| == |parts| && ArrivesAs(a, outs, parts, i, first, M)
    ensures AsCut(a, Pieces(outs, parts, first))
  {
    if a.h.number in Pieces(outs, parts, first) {
      var j :| 0 <= j < |outs| && CutUp(outs, parts, j) && NumberAt(outs, j, first) == a.h.number;
      SameNumber(outs, first, i, j);
    }
  }

  /** Both sendings of a flight, and what may be picked from them. */
  ghost predicate Sendings(outs: seq<Outgoing>, first: u16, M: seq<Message>, parts: seq<seq<Record>>,
                           resent: seq<seq<Record>>,
                           epoch: nat, session: nat) {
    var f := FlightOf(outs, |outs|, first, epoch, session);
    Spelled(outs, first, M) && |M| < 0x1_0000 && SentIn(parts, f) && SentIn(resent, f)
  }

  /** Everything that arrives of a flight is a genuine fragment, cut as that message was. */
  lemma FlightArrives(outs: seq<Outgoing>, first: u16, M: seq<Message>, parts: seq<seq<Record>>,
                      resent: seq<seq<Record>>,
                      epoch: nat, session: nat, picks: seq<nat>, k: nat)
    requires Sendings(outs, first, M, parts, resent, epoch, session) && k < |Picked(Flat(parts) + Flat(resent), picks)|
    ensures var a := Picked(Flat(parts) + Flat(resent), picks)[k];
            && Genuine(a, M) && Read(a).Some? && (Alike(outs, parts, resent) ==> AsCut(a, Pieces(outs, parts, first)))
  {
    var n := PickedFrom(Flat(parts) + Flat(resent), picks, k);
    var a := Picked(Flat(parts) + Flat(resent), picks)[k];
    if n < |Flat(parts)| {
      var i, j := FlatFrom(parts, n);
      PartArrives(parts, outs, first, epoch, session, M, i, j);
      CutAsSaid(a, outs, parts, i, first, M);
    } else {
      var i, j := FlatFrom(resent, n - |Flat(parts)|);
      PartArrives(resent, outs, first, epoch, session, M, i, j);
      if Alike(outs, parts, resent) {
        assert CutUp(outs, parts, i) <==> CutUp(outs, resent, i);
        CutAsSaid(a, outs, parts, i, first, M);
      }
    }
  }

  /** Of every message all records of the first sending or all of the second are let through. */
  ghost predicate OnceWhole(parts: seq<seq<Record>>, resent: seq<seq<Record>>, picks: seq<nat>) {
    |parts| == |resent| && forall i :: 0 <= i < |parts| ==> OneThrough(parts, resent, picks, i)
  }

  ghost predicate OneThrough(parts: seq<seq<Record>>, resent: seq<seq<Record>>, picks: seq<nat>, i: nat)
    requires i < |parts| == |resent|
  {
    AllThrough(parts[i], Flat(parts) + Flat(resent), picks) || AllThrough(resent[i], Flat(parts) + Flat(resent), picks)
  }

  lemma OneComes(outs: seq<Outgoing>, first: u16, M: seq<Message>, parts: seq<seq<Record>>, resent: seq<seq<Record>>,
                 epoch: nat, session: nat, picks: seq<nat>, m: u16)
    requires Sendings(outs, first, M, parts, resent, epoch, session) && OnceWhole(parts, resent, picks)
    requires first <= m < |M|
    ensures Comes([], Picked(Flat(parts) + Flat(resent), picks), m, |M[m].body|)
  {
    var i := NumberTaken(outs, |outs|, first, m);
    var f := FlightOf(outs, |outs|, first, epoch, session);
    assert SpelledAt(outs, i, first, M) && SentAt(parts, f, i) && SentAt(resent, f, i);
    assert OneThrough(parts, resent, picks, i);
    FlightAt(outs, |outs|, first, epoch, session, i);
    var records := if AllThrough(parts[i], Flat(parts) + Flat(resent), picks) then parts[i] else resent[i];
    MessageComes(records, f[i].header, outs[i].body, M, Flat(parts) + Flat(resent), picks);
  }

  /** No further ahead than is kept, and no Finished in front of the first message. */
  ghost predicate InReach(M: seq<Message>, first: nat, server: bool) {
    && |M| <= first + 11 && (first == 0 ==> forall m :: 0 < m < |M| ==> M[m].kind != FINISHED)
    && (server || forall m :: 0 <= m < |M| ==> M[m].kind != HELLO_REQUEST)
  }

  /** Then the whole flight is on its way. */
  lemma FlightFlows(outs: seq<Outgoing>, first: u16, M: seq<Message>, parts: seq<seq<Record>>, resent: seq<seq<Record>>,
                    epoch: nat, session: nat, picks: seq<nat>, server: bool, maxLen: nat)
    requires Sendings(outs, first, M, parts, resent, epoch, session) && OnceWhole(parts, resent, picks)
    requires Alike(outs, parts, resent)
    requires AllFit(M, maxLen) && InReach(M, first, server)
    ensures Flowing([], Picked(Flat(parts) + Flat(resent), picks), M, first, Limits(server, maxLen, maxLen),
                    Stretch(|M|, Pieces(outs, parts, first)))
  {
    var net := Picked(Flat(parts) + Flat(resent), picks);
    forall k | 0 <= k < |net|
      ensures Readable(net[k], maxLen) && AsCut(net[k], Pieces(outs, parts, first))
    {
      FlightArrives(outs, first, M, parts, resent, epoch, session, picks, k);
    }
    forall m: u16 | first <= m < |M|
      ensures Coming([], net, M, m, Limits(server, maxLen, maxLen))
    {
      OneComes(outs, first, M, parts, resent, epoch, session, picks, m);
    }
  }

  lemma OneText(outs: seq<Outgoing>, i: nat, first: u16, M: seq<Message>, texts: seq<seq<byte>>)
    requires 0 < i <= |outs| && Spelled(outs, first, M) && Sendable(M) && Texts(texts, outs, first)
    ensures first + Numbers(outs, i - 1) <= first + Numbers(outs, i) <= |M|
    ensures TranscriptOf(M, first + Numbers(outs, i)) == TranscriptOf(M, first + Numbers(outs, i - 1)) + texts[i - 1]
  {
    assert SpelledAt(outs, i - 1, first, M) && TextAt(texts, outs, i - 1, first);
    NumbersGrow(outs, i - 1, i);
    NumbersGrow(outs, i, |outs|);
    NumberIs(outs, i - 1, first);
    var n := first + Numbers(outs, i - 1);
    if outs[i - 1].ChangeCipherSpec? {
      assert TranscriptOf(M, n) + [] == TranscriptOf(M, n);
    } else {
      assert Numbers(outs, i) == Numbers(outs, i - 1) + 1;
    }
  }

  /** What the sender hashes is what the receiver does. */
  lemma {:induction false} TextsAreTranscript(outs: seq<Outgoing>, i: nat, first: u16, M: seq<Message>,
                                              texts: seq<seq<byte>>)
    requires Spelled(outs, first, M) && Sendable(M) && i <= |outs| && Texts(texts, outs, first)
    ensures first + Numbers(outs, i) <= |M|
    ensures Joined(TranscriptOf(M, first), texts, i) == TranscriptOf(M, first + Numbers(outs, i))
  {
    if i > 0 {
      TextsAreTranscript(outs, i - 1, first, M, texts);
      OneText(outs, i, first, M, texts);
    }
  }

  lemma {:induction false} TranscriptPrefix(M: seq<Message>, n: nat, m: nat)
    requires Sendable(M) && n <= m <= |M|
    ensures TranscriptOf(M, n) <= TranscriptOf(M, m)
  {
    if n < m {
      TranscriptPrefix(M, n, m - 1);
    }
  }

  // --------------------------------------------------------------------------
  // From end to end
  // --------------------------------------------------------------------------

  /** The receiver has handed up the first messages of M, and works apart from the sender. */
  ghost predicate Abreast(r: Receiver, w: Writer, q: PQ.Queue<Sent>, M: seq<Message>)
    reads r, r.store, r.store.Repr, q`Repr
  {
    && r.Valid() && r.Serves(M) && |r.delivered| == r.next <= |M| && Sendable(M)
    && r.transcript == TranscriptOf(M, r.next)
    && w !in r.store.Repr && (w.buf as object) !in r.store.Repr && q !in r.store.Repr
    && forall x :: x in q.Repr ==> (x as object) !in r.store.Repr
  }

  /** The sending side: the records of both sendings, and the transcript of everything sent so far. */
  method SendTwice(w: Writer, q: PQ.Queue<Sent>, first: u16, outs: seq<Outgoing>, room: nat -> nat -> nat,
                   again: nat -> nat -> nat, ghost M: seq<Message>)
    returns (records: seq<Record>, ghost parts: seq<seq<Record>>, ghost resent: seq<seq<Record>>)
    requires q.Valid() && Idle(w) && w.epoch == w.current && Flightlike(outs, first)
    requires forall i :: 0 <= i < |outs| ==> Size(outs[i]) <= w.buf.Length
    requires forall k, i :: room(k)(i) > HEADER && again(k)(i) > HEADER
    requires Spelled(outs, first, M) && Sendable(M) && w.transcript == TranscriptOf(M, first)
    modifies w, w.buf, q, q.Repr
    ensures records == Flat(parts) + Flat(resent) && w.sent == old(w.sent) + records
    ensures Sendings(outs, first, M, parts, resent, old(w.epoch), old(w.session))
    ensures w.transcript == TranscriptOf(M, |M|)
  {
    var n := |w.sent|;
    ghost var sent := w.sent;
    var ret, next;
    ghost var texts := TextsExist(outs, first);
    ret, next, parts, resent := FlightTwice(w, q, first, outs, room, again, texts);
    TextsAreTranscript(outs, |outs|, first, M, texts);
    records := w.sent[n..];
    Added(sent, Flat(parts) + Flat(resent));
  }

  lemma Added<T>(a: seq<T>, b: seq<T>)
    ensures (a + b)[|a|..] == b
  {
  }

  /** All of a flight comes up when of each message one sending is let through whole, no message is cut in one
      sending and whole in the other, and none is too long or too far ahead. */
  ghost predicate Deliverable(outs: seq<Outgoing>, first: u16, M: seq<Message>, parts: seq<seq<Record>>,
                              resent: seq<seq<Record>>, picks: seq<nat>, server: bool, maxLen: nat) {
    && OnceWhole(parts, resent, picks) && Alike(outs, parts, resent)
    && AllFit(M, maxLen) && InReach(M, first, server)
  }

  /** Nothing waits and nothing is left to read. */
  ghost predicate AtRest(r: Receiver)
    reads r`reuse, r`net, r.store`waiting
  {
    !r.reuse && r.store.waiting == [] && r.net == []
  }

  /** What is let through can be received, and is all of the flight under the conditions below. */
  lemma LetIn(outs: seq<Outgoing>, first: u16, M: seq<Message>, parts: seq<seq<Record>>, resent: seq<seq<Record>>,
              epoch: nat, session: nat, picks: seq<nat>, server: bool, maxLen: nat)
    requires Sendings(outs, first, M, parts, resent, epoch, session)
    ensures AllGenuine(Picked(Flat(parts) + Flat(resent), picks), M)
    ensures Deliverable(outs, first, M, parts, resent, picks, server, maxLen) ==>
              Flowing([], Picked(Flat(parts) + Flat(resent), picks), M, first, Limits(server, maxLen, maxLen),
                      Stretch(|M|, Pieces(outs, parts, first)))
  {
    var net := Picked(Flat(parts) + Flat(resent), picks);
    forall k | 0 <= k < |net|
      ensures Genuine(net[k], M)
    {
      FlightArrives(outs, first, M, parts, resent, epoch, session, picks, k);
    }
    if Deliverable(outs, first, M, parts, resent, picks, server, maxLen) {
      FlightFlows(outs, first, M, parts, resent, epoch, session, picks, server, maxLen);
    }
  }

  /** The receiving side, with what the network lets through. */
  method ReceivePicked(r: Receiver, arrivals: seq<Arrival>, calls: seq<(int, nat)>, ghost M: seq<Message>,
                       ghost pieces: set<nat>)
    requires r.Valid() && r.Serves(M) && Sendable(M) && AllGenuine(arrivals, M)
    requires |r.delivered| == r.next <= |M| && r.transcript == TranscriptOf(M, r.next)
    modifies r, r.store.Repr
    ensures r.Valid() && |r.delivered| == r.next <= |M|
    ensures r.transcript == TranscriptOf(M, r.next) <= TranscriptOf(M, |M|)
    ensures old(AtRest(r)) && AllFitAll(M, calls, r.maxLen) && |calls| >= |M| - old(r.next) ==>
              (old(r.next) < |M| ==>
                 Flowing([], arrivals, M, old(r.next), Limits(r.server, r.maxLen, r.maxLen), Stretch(|M|, pieces))) ==>
                r.next == |M|
  {
    if r.net == [] {
      assert [] + arrivals == arrivals;
    }
    r.net := r.net + arrivals;
    Receive(r, calls, M, pieces);
    TranscriptPrefix(M, r.next, |M|);
  }

  /** A flight is sent and sent again, under any MTUs, and the network lets any of the records through. Whatever
      the receiver hands up, its transcript is a beginning of the sender's. All of the flight comes up when
      of each message one sending is let through whole, and none is cut in one sending and whole in the other. */
  method Across(w: Writer, q: PQ.Queue<Sent>, first: u16, outs: seq<Outgoing>, room: nat -> nat -> nat,
                again: nat -> nat -> nat, r: Receiver, picks: seq<nat>, calls: seq<(int, nat)>,
                ghost M: seq<Message>)
    returns (ghost parts: seq<seq<Record>>, ghost resent: seq<seq<Record>>)
    requires q.Valid() && Idle(w) && w.epoch == w.current && Flightlike(outs, first)
    requires forall i :: 0 <= i < |outs| ==> Size(outs[i]) <= w.buf.Length
    requires forall k, i :: room(k)(i) > HEADER && again(k)(i) > HEADER
    requires Spelled(outs, first, M) && Abreast(r, w, q, M) && w.transcript == TranscriptOf(M, first)
    modifies w, w.buf, q, q.Repr, r, r.store.Repr
    ensures w.sent == old(w.sent) + (Flat(parts) + Flat(resent)) && |parts| == |resent| == |outs|
    ensures w.transcript == TranscriptOf(M, |M|)
    ensures r.Valid() && |r.delivered| == r.next <= |M| && r.transcript == TranscriptOf(M, r.next) <= w.transcript
    ensures old(AtRest(r)) && old(r.next) == first && AllFitAll(M, calls, r.maxLen) && |calls| >= |M| - first ==>
              Deliverable(outs, first, M, parts, resent, picks, r.server, r.maxLen) ==>
                r.next == |M| && r.transcript == w.transcript
  {
    ghost var epoch, session := w.epoch, w.session;
    var records;
    records, parts, resent := SendTwice(w, q, first, outs, room, again, M);
    LetIn(outs, first, M, parts, resent, epoch, session, picks, r.server, r.maxLen);
    ReceivePicked(r, Picked(records, picks), calls, M, Pieces(outs, parts, first));
  }
}