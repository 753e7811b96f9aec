/** A whole flight: numbered, buffered and sent message by message, and resent on demand. */
module DtlsFlight {
  import opened Encoding
  import opened DtlsHeader
  import opened DtlsWriter
  import opened DtlsRetransmit
  import PQ = PriorityQueue

  const MT_CCS: byte := 1

  type Content = s: seq<byte> | |s| < 0x100_0000

  /** What the handshake asks to be sent. */
  datatype Outgoing = Handshake(kind: byte, body: Content) | ChangeCipherSpec

  function Size(o: Outgoing): (n: nat) { if o.Handshake? then HEADER + |o.body| else CCS_HEADER }

  /** The number of message i: a change cipher spec carries the next number but does not use it up. */
  function NumberAt(outs: seq<Outgoing>, i: nat, first: u16): (n: u16)
    requires i <= |outs|
  {
    if i == 0 then first
    else if outs[i - 1].Handshake? then After(NumberAt(outs, i - 1, first))
    else NumberAt(outs, i - 1, first)
  }

  /** The epoch message i is sent under. */
  function EpochAt(outs: seq<Outgoing>, i: nat, start: nat): (e: nat)
    requires i <= |outs|
  {
    if i == 0 then start
    else if outs[i - 1].Handshake? then EpochAt(outs, i - 1, start)
    else EpochAt(outs, i - 1, start) + 1
  }

  /** The messages of either kind that are sent before message i. */
  ghost function Before(outs: seq<Outgoing>, i: nat, handshake: bool): (s: set<nat>)
    requires i <= |outs|
  {
    set j: nat | j < i && outs[j].Handshake? == handshake
  }

  lemma OneMoreBefore(outs: seq<Outgoing>, i: nat)
    requires i < |outs|
    ensures var kind := outs[i].Handshake?;
            |Before(outs, i + 1, kind)| == |Before(outs, i, kind)| + 1
            && |Before(outs, i + 1, !kind)| == |Before(outs, i, !kind)|
  {
    var kind := outs[i].Handshake?;
    assert Before(outs, i + 1, kind) == Before(outs, i, kind) + {i};
    assert Before(outs, i + 1, !kind) == Before(outs, i, !kind);
  }

  lemma NoneBefore(outs: seq<Outgoing>, handshake: bool)
    ensures |Before(outs, 0, handshake)| == 0
  {
    assert Before(outs, 0, handshake) == {};
  }

  /** A message has the number of handshake messages sent before it, in sixteen bits, and the epoch of the
      change cipher specs sent before it. */
  lemma {:induction false} NumbersMean(outs: seq<Outgoing>, i: nat, first: u16, start: nat)
    requires i <= |outs|
    ensures NumberAt(outs, i, first) == (first + |Before(outs, i, true)|) % 0x1_0000
    ensures EpochAt(outs, i, start) == start + |Before(outs, i, false)|
  {
    hide Before;
    if i == 0 {
      NoneBefore(outs, true);
      NoneBefore(outs, false);
    } else {
      NumbersMean(outs, i - 1, first, start);
      OneMoreBefore(outs, i - 1);
    }
  }

  /** A message as it is kept. */
  function Made(o: Outgoing, number: u16, epoch: nat, session: nat): (s: Sent)
    ensures Sound(s) && |s.bytes| == Size(o) && s.epoch == epoch && s.session == session && s.ccs == o.ChangeCipherSpec?
    ensures o.Handshake? ==> Body(s) == o.body
  {
    match o
    case Handshake(kind, body) =>
      var h := Whole(kind, number, |body|);
      Sent(h, false, epoch, session, HeaderBytes(h) + body)
    case ChangeCipherSpec =>
      Sent(Whole(MT_CCS, number, 0), true, epoch, session, [MT_CCS])
  }

  /** The first i messages of a flight, each under the number and the epoch reached when it is sent. */
  function FlightOf(outs: seq<Outgoing>, i: nat, first: u16, epoch: nat, session: nat): (r: seq<Sent>)
    requires i <= |outs|
    ensures |r| == i
  {
    if i == 0 then [] else
      FlightOf(outs, i - 1, first, epoch, session)
      + [Made(outs[i - 1], NumberAt(outs, i - 1, first), EpochAt(outs, i - 1, epoch), session)]
  }

  /** What message i adds to the transcript, whichever fragments it went out in. */
  function RecordedAt(outs: seq<Outgoing>, i: nat, first: u16): (r: seq<byte>)
    requires i < |outs|
  {
    if outs[i].ChangeCipherSpec? then [] else Unfragmented(outs[i].kind, NumberAt(outs, i, first), outs[i].body)
  }

  ghost predicate TextAt(texts: seq<seq<byte>>, outs: seq<Outgoing>, i: nat, first: u16)
    requires i < |texts| == |outs|
  {
    texts[i] == RecordedAt(outs, i, first)
  }

  /** What each message of a flight adds to the transcript. */
  ghost predicate Texts(texts: seq<seq<byte>>, outs: seq<Outgoing>, first: u16) {
    |texts| == |outs| && forall i :: 0 <= i < |outs| ==> TextAt(texts, outs, i, first)
  }

  /** The first i texts, one after the other, behind what is there. */
  function Joined(before: seq<byte>, texts: seq<seq<byte>>, i: nat): (r: seq<byte>)
    requires i <= |texts|
  {
    if i == 0 then before else Joined(before, texts, i - 1) + texts[i - 1]
  }

  lemma TextsExist(outs: seq<Outgoing>, first: u16) returns (texts: seq<seq<byte>>)
    ensures Texts(texts, outs, first)
  {
    texts := seq(|outs|, i requires 0 <= i < |outs| => RecordedAt(outs, i, first));
    forall i | 0 <= i < |outs|
      ensures TextAt(texts, outs, i, first)
    {
    }
  }

  lemma {:induction false} FlightAt(outs: seq<Outgoing>, n: nat, first: u16, epoch: nat, session: nat, i: nat)
    requires i < n <= |outs|
    ensures FlightOf(outs, n, first, epoch, session)[i] ==
              Made(outs[i], NumberAt(outs, i, first), EpochAt(outs, i, epoch), session)
  {
    if i < n - 1 {
      FlightAt(outs, n - 1, first, epoch, session, i);
    }
  }

  /** Loads a message into the buffer and keeps it for retransmission. */
  method Keep(w: Writer, q: PQ.Queue<Sent>, s: Sent, ghost flight: seq<Sent>)
    requires q.Valid() && Kept(q.Contents(), w.buf.Length) && q.Contents() == Buffered(flight) && w.initOff == 0
    requires Sound(s) && |s.bytes| <= w.buf.Length && s.epoch == w.epoch && s.session == w.session
    modifies w`initNum, w`hdr, w.buf, q, q.Repr
    ensures q.Valid() && Kept(q.Contents(), w.buf.Length) && q.Contents() == Buffered(flight + [s])
    ensures fresh(q.Repr - old(q.Repr))
    ensures Holding(w, s)
  {
    Load(w, s);
    BufferedSnoc(flight, s);
    assert Current(w, s.ccs) == s;
    BufferMessage(w, q, s.ccs);
  }

  method KeepAndWrite(w: Writer, q: PQ.Queue<Sent>, s: Sent, room: nat -> nat, ghost flight: seq<Sent>)
    returns (ghost records: seq<Record>)
    requires q.Valid() && Kept(q.Contents(), w.buf.Length) && q.Contents() == Buffered(flight) && Idle(w)
    requires Sound(s) && |s.bytes| <= w.buf.Length && s.epoch == w.epoch && s.session == w.session
    requires forall i :: room(i) > HEADER
    modifies w`initOff, w`initNum, w`hdr, w`sent, w`transcript, w.buf, q, q.Repr
    ensures q.Valid() && Kept(q.Contents(), w.buf.Length) && q.Contents() == Buffered(flight + [s]) && Idle(w)
    ensures fresh(q.Repr - old(q.Repr))
    ensures w.sent == old(w.sent) + records && Resends(records, s)
    ensures w.transcript == old(w.transcript) + if s.ccs then [] else Recorded1(s)
  {
    Keep(w, q, s, flight);
    records := WriteLoaded(w, s, room);
  }

  /** One message of a flight is kept for retransmission and written; after a change cipher spec the new keys
      are used. */
  method SendMessage(w: Writer, q: PQ.Queue<Sent>, s: Sent, room: nat -> nat, ghost flight: seq<Sent>)
    returns (ghost records: seq<Record>)
    requires q.Valid() && Kept(q.Contents(), w.buf.Length) && q.Contents() == Buffered(flight) && Idle(w)
    requires Sound(s) && |s.bytes| <= w.buf.Length && s.epoch == w.epoch && s.session == w.session
    requires forall i :: room(i) > HEADER
    modifies w`initOff, w`initNum, w`hdr, w`epoch, w`current, w`previous, w`sent, w`transcript, w.buf, q, q.Repr
    ensures q.Valid() && Kept(q.Contents(), w.buf.Length) && q.Contents() == Buffered(flight + [s])
    ensures fresh(q.Repr - old(q.Repr))
    ensures Idle(w) && w.sent == old(w.sent) + records && Resends(records, s)
    ensures w.transcript == old(w.transcript) + if s.ccs then [] else Recorded1(s)
    ensures if s.ccs then w.epoch == w.current == old(w.current) + 1 && w.previous == Some(old(w.current))
            else w.epoch == old(w.epoch) && w.current == old(w.current) && w.previous == old(w.previous)
  {
    records := KeepAndWrite(w, q, s, room, flight);
    if s.ccs {
      w.ChangeWriteState();
    }
  }

  ghost predicate MadeAt(f: seq<Sent>, outs: seq<Outgoing>, i: nat, first: u16, start: nat, session: nat)
    requires i < |f| <= |outs|
  {
    f[i] == Made(outs[i], NumberAt(outs, i, first), EpochAt(outs, i, start), session)
  }

  /** The same flight, message by message. */
  ghost predicate IsFlight(f: seq<Sent>, outs: seq<Outgoing>, first: u16, start: nat, session: nat) {
    |f| <= |outs| && forall i :: 0 <= i < |f| ==> MadeAt(f, outs, i, first, start, session)
  }

  lemma {:induction false} FlightIs(f: seq<Sent>, outs: seq<Outgoing>, first: u16, start: nat, session: nat)
    requires IsFlight(f, outs, first, start, session)
    ensures f == FlightOf(outs, |f|, first, start, session)
  {
    if f != [] {
      var n := |f| - 1;
      assert MadeAt(f, outs, n, first, start, session);
      forall i | 0 <= i < n
        ensures MadeAt(f[..n], outs, i, first, start, session)
      {
        assert MadeAt(f, outs, i, first, start, session);
      }
      FlightIs(f[..n], outs, first, start, session);
    }
  }

  lemma FlightGrows(f: seq<Sent>, s: Sent, outs: seq<Outgoing>, first: u16, start: nat, session: nat)
    requires IsFlight(f, outs, first, start, session) && |f| < |outs|
    requires s == Made(outs[|f|], NumberAt(outs, |f|, first), EpochAt(outs, |f|, start), session)
    ensures IsFlight(f + [s], outs, first, start, session)
  {
    forall i | 0 <= i < |f| + 1
      ensures MadeAt(f + [s], outs, i, first, start, session)
    {
      assert i < |f| ==> MadeAt(f, outs, i, first, start, session);
    }
  }

  /** The next message of the flight. */
  method NextOf(outs: seq<Outgoing>, number: u16, epoch: nat, session: nat, ghost f: seq<Sent>, ghost first: u16,
                ghost start: nat, ghost texts: seq<seq<byte>>, i: nat)
    returns (s: Sent, next: u16)
    requires Texts(texts, outs, first) && IsFlight(f, outs, first, start, session) && i == |f| < |outs|
    requires number == NumberAt(outs, i, first) && epoch == EpochAt(outs, i, start)
    ensures IsFlight(f + [s], outs, first, start, session) && next == NumberAt(outs, i + 1, first)
    ensures Sound(s) && |s.bytes| == Size(outs[i]) && s.epoch == epoch && s.session == session
    ensures s.ccs == outs[i].ChangeCipherSpec? && texts[i] == if s.ccs then [] else Recorded1(s)
  {
    assert TextAt(texts, outs, i, first);
    s := Made(outs[i], number, epoch, session);
    FlightGrows(f, s, outs, first, start, session);
    next := if outs[i].Handshake? then After(number) else number;
  }

  lemma SentInSnoc(parts: seq<seq<Record>>, flight: seq<Sent>, p: seq<Record>, s: Sent)
    requires SentIn(parts, flight) && Sound(s) && Resends(p, s)
    ensures SentIn(parts + [p], flight + [s])
  {
    forall i | 0 <= i < |flight| + 1
      ensures SentAt(parts + [p], flight + [s], i)
    {
      if i < |flight| {
        assert SentAt(parts, flight, i);
      }
    }
  }

  lemma SentStep(before: seq<Record>, parts: seq<seq<Record>>, p: seq<Record>)
    ensures before + Flat(parts) + p == before + Flat(parts + [p])
  {
    FlatSnoc(parts, p);
  }

  /** The epoch whose keys are still kept besides the current ones. */
  function PreviousAt(outs: seq<Outgoing>, i: nat, earlier: Option<nat>, start: nat): (r: Option<nat>)
    requires i <= |outs|
  {
    if i == 0 then earlier
    else if outs[i - 1].Handshake? then PreviousAt(outs, i - 1, earlier, start)
    else Some(EpochAt(outs, i - 1, start))
  }

  /** The first i messages have been numbered, kept and written. */
  ghost predicate Standing(q: PQ.Queue<Sent>, parts: seq<seq<Record>>, f: seq<Sent>, room: nat)
    reads q, q.Repr
  {
    q.Valid() && Kept(q.Contents(), room) && q.Contents() == Buffered(f) && SentIn(parts, f)
  }

  /** The record layer after the first i messages. */
  ghost predicate Layer(w: Writer, outs: seq<Outgoing>, i: nat, start: nat, earlier: Option<nat>)
    requires i <= |outs|
    reads w
  {
    && Idle(w) && w.epoch == w.current == EpochAt(outs, i, start)
    && w.previous == PreviousAt(outs, i, earlier, start)
  }

  /** The next message is given its number (dtls1_set_message_header), kept and written. */
  method SendMade(w: Writer, q: PQ.Queue<Sent>, outs: seq<Outgoing>, i: nat, number: u16, room: nat -> nat,
                  ghost f: seq<Sent>, ghost first: u16, ghost start: nat, ghost texts: seq<seq<byte>>)
    returns (next: u16, ghost s: Sent, ghost p: seq<Record>)
    requires q.Valid() && Kept(q.Contents(), w.buf.Length) && q.Contents() == Buffered(f) && Idle(w)
    requires Texts(texts, outs, first) && i < |outs| && Size(outs[i]) <= w.buf.Length
    requires number == NumberAt(outs, i, first) && w.epoch == EpochAt(outs, i, start)
    requires IsFlight(f, outs, first, start, w.session) && |f| == i && forall k :: room(k) > HEADER
    modifies w`initOff, w`initNum, w`hdr, w`epoch, w`current, w`previous, w`sent, w`transcript, w.buf, q, q.Repr
    ensures q.Valid() && Kept(q.Contents(), w.buf.Length) && q.Contents() == Buffered(f + [s]) && Idle(w)
    ensures fresh(q.Repr - old(q.Repr)) && next == NumberAt(outs, i + 1, first)
    ensures IsFlight(f + [s], outs, first, start, w.session) && s.ccs == outs[i].ChangeCipherSpec?
    ensures w.sent == old(w.sent) + p && Sound(s) && Resends(p, s) && w.transcript == old(w.transcript) + texts[i]
    ensures if s.ccs then w.epoch == w.current == old(w.current) + 1 && w.previous == Some(old(w.current))
            else w.epoch == old(w.epoch) && w.current == old(w.current) && w.previous == old(w.previous)
  {
    var m;
    m, next := NextOf(outs, number, w.epoch, w.session, f, first, start, texts, i);
    s := m;
    p := SendMessage(w, q, m, room, f);
  }

  /** The same, with the account of the flight so far. */
  method SendNth(w: Writer, q: PQ.Queue<Sent>, outs: seq<Outgoing>, i: nat, number: u16, room: nat -> nat,
                 ghost f: seq<Sent>, ghost parts: seq<seq<Record>>, ghost first: u16, ghost start: nat,
                 ghost earlier: Option<nat>, ghost before: seq<Record>, ghost transcript: seq<byte>,
                 ghost texts: seq<seq<byte>>)
    returns (next: u16, ghost s: Sent, ghost p: seq<Record>)
    requires Texts(texts, outs, first)
    requires w.sent == before + Flat(parts) && i < |outs| && w.transcript == Joined(transcript, texts, i)
    requires Standing(q, parts, f, w.buf.Length) && IsFlight(f, outs, first, start, w.session) && |f| == i
    requires Layer(w, outs, i, start, earlier) && number == NumberAt(outs, i, first)
    requires Size(outs[i]) <= w.buf.Length && forall k :: room(k) > HEADER
    modifies w`initOff, w`initNum, w`hdr, w`epoch, w`current, w`previous, w`sent, w`transcript, w.buf, q, q.Repr
    ensures Standing(q, parts + [p], f + [s], w.buf.Length) && IsFlight(f + [s], outs, first, start, w.session)
    ensures Layer(w, outs, i + 1, start, earlier) && next == NumberAt(outs, i + 1, first)
    ensures w.sent == before + Flat(parts + [p]) && w.transcript == Joined(transcript, texts, i + 1)
    ensures fresh(q.Repr - old(q.Repr))
  {
    next, s, p := SendMade(w, q, outs, i, number, room, f, first, start, texts);
    SentInSnoc(parts, f, p, s);
    SentStep(before, parts, p);
  }

  /** All messages of a flight, in order. */
  method SendFlight(w: Writer, q: PQ.Queue<Sent>, first: u16, outs: seq<Outgoing>, room: nat -> nat -> nat,
                    ghost texts: seq<seq<byte>>)
    returns (next: u16, ghost parts: seq<seq<Record>>)
    requires Texts(texts, outs, first)
    requires q.Valid() && q.Contents() == [] && Idle(w) && w.epoch == w.current
    requires forall i :: 0 <= i < |outs| ==> Size(outs[i]) <= w.buf.Length
    requires forall k, i :: room(k)(i) > HEADER
    modifies w`initOff, w`initNum, w`hdr, w`epoch, w`current, w`previous, w`sent, w`transcript, w.buf, q, q.Repr
    ensures Standing(q, parts, FlightOf(outs, |outs|, first, old(w.epoch), w.session), w.buf.Length)
    ensures Layer(w, outs, |outs|, old(w.epoch), old(w.previous))
    ensures next == NumberAt(outs, |outs|, first) && w.sent == old(w.sent) + Flat(parts)
    ensures w.transcript == Joined(old(w.transcript), texts, |outs|)
  {
    next, parts := first, [];
    ghost var start, f := w.epoch, [];
    assert w.sent == w.sent + Flat([]);
    for i := 0 to |outs|
      invariant fresh(q.Repr - old(q.Repr)) && IsFlight(f, outs, first, start, w.session) && |f| == i
      invariant Standing(q, parts, f, w.buf.Length) && w.sent == old(w.sent) + Flat(parts)
      invariant w.transcript == Joined(old(w.transcript), texts, i)
      invariant Layer(w, outs, i, start, old(w.previous)) && next == NumberAt(outs, i, first)
    {
      ghost var s, p;
      next, s, p := SendNth(w, q, outs, i, next, room(i), f, parts, first, start, old(w.previous), old(w.sent),
                            old(w.transcript), texts);
      f, parts := f + [s], parts + [p];
    }
    FlightIs(f, outs, first, start, w.session);
  }

  // --------------------------------------------------------------------------
  // The flight that was sent is the flight that is resent
  // --------------------------------------------------------------------------

  predicate Apart(outs: seq<Outgoing>, i: nat, j: nat)
    requires i < |outs| && j < |outs|
  {
    outs[i].Handshake? || outs[j].Handshake?
  }

  /** At most one change cipher spec, not the very first message of a handshake, and numbers whose
      priorities fit. */
  ghost predicate Flightlike(outs: seq<Outgoing>, first: u16) {
    && first + Numbers(outs, |outs|) < 0x8000
    && (forall i, j :: 0 <= i < j < |outs| ==> Apart(outs, i, j))
    && (outs != [] && outs[0].ChangeCipherSpec? ==> first > 0)
  }

  /** How many of the first i messages take a number of their own. */
  function Numbers(outs: seq<Outgoing>, i: nat): (n: nat)
    requires i <= |outs|
  {
    if i == 0 then 0 else Numbers(outs, i - 1) + (if outs[i - 1].Handshake? then 1 else 0)
  }

  lemma {:induction false} NumbersGrow(outs: seq<Outgoing>, i: nat, j: nat)
    requires i <= j <= |outs|
    ensures Numbers(outs, i) <= Numbers(outs, j)
    ensures i < j && outs[i].Handshake? ==> Numbers(outs, i) < Numbers(outs, j)
  {
    if i < j {
      NumbersGrow(outs, i, j - 1);
      if i == j - 1 {
        assert Numbers(outs, j) == Numbers(outs, i) + (if outs[i].Handshake? then 1 else 0);
      }
    }
  }

  lemma {:induction false} NumberIs(outs: seq<Outgoing>, i: nat, first: u16)
    requires i <= |outs| && first + Numbers(outs, |outs|) < 0x1_0000
    ensures NumberAt(outs, i, first) == first + Numbers(outs, i)
  {
    NumbersGrow(outs, i, |outs|);
    if i > 0 {
      NumberIs(outs, i - 1, first);
    }
  }

  /** Messages sent one after the other are in sending order. */
  lemma FlightInOrder(outs: seq<Outgoing>, first: u16, epoch: nat, session: nat)
    requires Flightlike(outs, first)
    ensures SendingOrder(FlightOf(outs, |outs|, first, epoch, session))
  {
    var f := FlightOf(outs, |outs|, first, epoch, session);
    forall i | 0 <= i < |f|
      ensures Numbered(f[i])
    {
      FlightAt(outs, |outs|, first, epoch, session, i);
      NumberFits(outs, first, i);
    }
    forall i, j | 0 <= i < j < |f|
      ensures SentBefore(f[i], f[j])
    {
      FlightAt(outs, |outs|, first, epoch, session, i);
      FlightAt(outs, |outs|, first, epoch, session, j);
      NumberIs(outs, i, first);
      NumberIs(outs, j, first);
      NumbersGrow(outs, i, j);
      assert Apart(outs, i, j);
    }
  }

  lemma NumberFits(outs: seq<Outgoing>, first: u16, i: nat)
    requires Flightlike(outs, first) && i < |outs|
    ensures NumberAt(outs, i, first) < 0x8000 && (outs[i].ChangeCipherSpec? ==> NumberAt(outs, i, first) > 0)
  {
    NumberIs(outs, i, first);
    NumbersGrow(outs, i, |outs|);
    if i > 0 && outs[i].ChangeCipherSpec? {
      assert Apart(outs, 0, i);
      NumbersGrow(outs, 0, i);
    }
  }

  lemma {:induction false} SameEpoch(outs: seq<Outgoing>, i: nat, j: nat, start: nat)
    requires i <= j <= |outs| && forall k :: i <= k < j ==> outs[k].Handshake?
    ensures EpochAt(outs, i, start) == EpochAt(outs, j, start)
  {
    if i < j {
      SameEpoch(outs, i, j - 1, start);
    }
  }

  /** Every message was sent under the current epoch or under the one whose keys are still kept. */
  lemma {:induction false} EpochKept(outs: seq<Outgoing>, i: nat, n: nat, start: nat, earlier: Option<nat>)
    requires i <= n <= |outs| && forall k, l :: 0 <= k < l < |outs| ==> Apart(outs, k, l)
    ensures EpochAt(outs, i, start) == EpochAt(outs, n, start)
         || PreviousAt(outs, n, earlier, start) == Some(EpochAt(outs, i, start))
  {
    if i < n {
      EpochKept(outs, i, n - 1, start, earlier);
      if outs[n - 1].ChangeCipherSpec? {
        forall k | i <= k < n - 1
          ensures outs[k].Handshake?
        {
          assert Apart(outs, k, n - 1);
        }
        SameEpoch(outs, i, n - 1, start);
      }
    }
  }

  lemma FlightReachable(outs: seq<Outgoing>, first: u16, start: nat, session: nat, earlier: Option<nat>)
    requires Flightlike(outs, first)
    ensures var now := EpochAt(outs, |outs|, start);
            AllUsable(now, PreviousAt(outs, |outs|, earlier, start), FlightOf(outs, |outs|, first, start, session), now)
  {
    var n, f := |outs|, FlightOf(outs, |outs|, first, start, session);
    var now, previous := EpochAt(outs, n, start), PreviousAt(outs, n, earlier, start);
    forall i | 0 <= i < |f|
      ensures UsableAt(now, previous, f, i, now)
    {
      FlightAt(outs, n, first, start, session, i);
      EpochKept(outs, i, n, start, earlier);
    }
  }

  lemma TwoSendings<T>(a: seq<T>, b: seq<T>, c: seq<T>)
    ensures a + b + c == a + (b + c)
  {
  }

  /** A new flight is sent, and on a timeout sent again: the same messages in the same order, each once, under
      the numbers, epochs and sessions they had, with nothing added to the transcript. */
  method FlightTwice(w: Writer, q: PQ.Queue<Sent>, first: u16, outs: seq<Outgoing>, room: nat -> nat -> nat,
                     again: nat -> nat -> nat, ghost texts: seq<seq<byte>>)
    returns (ret: int, next: u16, ghost parts: seq<seq<Record>>, ghost resent: seq<seq<Record>>)
    requires Texts(texts, outs, first)
    requires q.Valid() && Idle(w) && w.epoch == w.current && Flightlike(outs, first)
    requires forall i :: 0 <= i < |outs| ==> Size(outs[i]) <= w.buf.Length
    requires forall k, i :: room(k)(i) > HEADER && again(k)(i) > HEADER
    modifies w, w.buf, q, q.Repr
    ensures ret == 1 && next == NumberAt(outs, |outs|, first)
    ensures var f := FlightOf(outs, |outs|, first, old(w.epoch), old(w.session)); SentIn(parts, f) && SentIn(resent, f)
    ensures w.sent == old(w.sent) + (Flat(parts) + Flat(resent))
    ensures w.transcript == Joined(old(w.transcript), texts, |outs|)
    ensures w.epoch == EpochAt(outs, |outs|, old(w.epoch)) && w.session == old(w.session) && Idle(w)
  {
    ghost var f := FlightOf(outs, |outs|, first, w.epoch, w.session);
    FlightInOrder(outs, first, w.epoch, w.session);
    ClearRecordBuffer(w, q);
    FlightReachable(outs, first, w.epoch, w.session, w.previous);
    next, parts := SendFlight(w, q, first, outs, room, texts);
    ret, resent := RetransmitFlight(w, q, again, f);
    TwoSendings(old(w.sent), Flat(parts), Flat(resent));
  }
}
