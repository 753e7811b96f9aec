/** The flight kept for retransmission (d1_both.c): buffered by number, resent in sending order. */
module DtlsRetransmit {
  import opened Encoding
  import opened DtlsHeader
  import opened DtlsWriter
  import PQ = PriorityQueue

  const CCS_HEADER: nat := 1

  /** A sent message with the state it was sent under. */
  datatype Sent = Sent(header: Header, ccs: bool, epoch: nat, session: nat, bytes: seq<byte>)

  function HeaderLength(ccs: bool): (n: nat) { if ccs then CCS_HEADER else HEADER }

  function Body(s: Sent): (r: seq<byte>)
    requires Sound(s)
  {
    s.bytes[HeaderLength(s.ccs)..]
  }

  /** The bytes are a header and the body, or a change cipher spec alone. */
  predicate Sound(s: Sent) {
    && |s.bytes| == s.header.msgLen + HeaderLength(s.ccs) && (s.ccs ==> s.header.msgLen == 0)
    && s.header.fragOff == 0 && s.header.fragLen == s.header.msgLen
  }

  // --------------------------------------------------------------------------
  // Priorities
  // --------------------------------------------------------------------------

  /** dtls1_get_queue_priority. */
  function QueuePriority(number: u16, ccs: bool): (p: int) {
    number * 2 - if ccs then 1 else 0
  }

  /** The sixteen bits of a priority that reach the queue. */
  function Priority16(number: u16, ccs: bool): (p: u16) {
    QueuePriority(number, ccs) % 0x1_0000
  }

  /** The priority is kept exactly for numbers below 2^15, and for a change cipher spec of number 2^15
      but not of number 0. */
  lemma PriorityKept(number: u16, ccs: bool)
    ensures Priority16(number, ccs) == QueuePriority(number, ccs) <==>
            (number < 0x8000 || (ccs && number == 0x8000)) && !(ccs && number == 0)
  {
  }

  /** a was sent before b: a smaller number, or the change cipher spec in front of the message
      whose number it shares. */
  predicate SentBefore(a: Sent, b: Sent) {
    a.header.number < b.header.number || (a.header.number == b.header.number && a.ccs && !b.ccs)
  }

  predicate Numbered(s: Sent) {
    s.header.number < 0x8000 && !(s.ccs && s.header.number == 0)
  }

  /** Priorities follow the order of sending. */
  lemma PriorityOrder(a: Sent, b: Sent)
    requires Numbered(a) && Numbered(b)
    ensures SentBefore(a, b) <==> Priority16(a.header.number, a.ccs) < Priority16(b.header.number, b.ccs)
  {
    PriorityKept(a.header.number, a.ccs);
    PriorityKept(b.header.number, b.ccs);
  }

  function EntryOf(s: Sent): (e: PQ.Entry<Sent>) {
    PQ.Entry(PQ.Priority64(Priority16(s.header.number, s.ccs)), s)
  }

  /** The queue after buffering the messages of a flight one after the other. */
  function Buffered(flight: seq<Sent>): (r: seq<PQ.Entry<Sent>>) {
    if flight == [] then [] else PQ.Inserted(Buffered(flight[..|flight| - 1]), EntryOf(flight[|flight| - 1]))
  }

  function EntriesOf(flight: seq<Sent>): (r: seq<PQ.Entry<Sent>>)
    ensures |r| == |flight| && forall i :: 0 <= i < |r| ==> r[i] == EntryOf(flight[i])
  {
    seq(|flight|, i requires 0 <= i < |flight| => EntryOf(flight[i]))
  }

  ghost predicate SendingOrder(flight: seq<Sent>) {
    && (forall i :: 0 <= i < |flight| ==> Numbered(flight[i]))
    && forall i, j :: 0 <= i < j < |flight| ==> SentBefore(flight[i], flight[j])
  }

  /** Nothing is refused and nothing changes place. */
  lemma {:induction false} FlightKeepsOrder(flight: seq<Sent>)
    requires SendingOrder(flight)
    ensures Buffered(flight) == EntriesOf(flight)
  {
    if flight != [] {
      var t, s := flight[..|flight| - 1], flight[|flight| - 1];
      FlightKeepsOrder(t);
      var q := EntriesOf(t);
      forall i | 0 <= i < |q|
        ensures PQ.Number(q[i]) < PQ.Number(EntryOf(s))
      {
        OrderedNumbers(t[i], s);
      }
      PQ.InsertedLast(q, EntryOf(s));
      EntriesSnoc(flight);
    }
  }

  lemma EntriesSnoc(flight: seq<Sent>)
    requires flight != []
    ensures EntriesOf(flight) == EntriesOf(flight[..|flight| - 1]) + [EntryOf(flight[|flight| - 1])]
  {
  }

  lemma OrderedNumbers(a: Sent, b: Sent)
    requires Numbered(a) && Numbered(b) && SentBefore(a, b)
    ensures PQ.Number(EntryOf(a)) < PQ.Number(EntryOf(b))
  {
    PriorityOrder(a, b);
    PQ.PriorityValue(Priority16(a.header.number, a.ccs));
    PQ.PriorityValue(Priority16(b.header.number, b.ccs));
  }

  // --------------------------------------------------------------------------
  // Buffering and resending
  // --------------------------------------------------------------------------

  /** Every message in the queue is sound and stands under its own priority. */
  ghost predicate Kept(s: seq<PQ.Entry<Sent>>, room: nat) {
    s == [] || (KeptOne(s[0], room) && Kept(s[1..], room))
  }

  ghost predicate KeptOne(e: PQ.Entry<Sent>, room: nat) {
    Sound(e.data) && |e.data.bytes| <= room && e == EntryOf(e.data)
  }

  lemma {:induction false} KeptAt(s: seq<PQ.Entry<Sent>>, room: nat, i: nat)
    requires Kept(s, room) && i < |s|
    ensures KeptOne(s[i], room)
  {
    if i > 0 {
      KeptAt(s[1..], room, i - 1);
    }
  }

  /** The message in the writer's buffer, with the current epoch and session. */
  ghost function Current(w: Writer, ccs: bool): (s: Sent)
    requires w.initNum <= w.buf.Length
    reads w, w.buf
  {
    Sent(Whole(w.hdr.kind, w.hdr.number, w.hdr.msgLen), ccs, w.epoch, w.session, w.buf[..w.initNum])
  }

  /** dtls1_buffer_message. */
  method BufferMessage(w: Writer, q: PQ.Queue<Sent>, ccs: bool)
    requires q.Valid() && w.initOff == 0 && w.initNum <= w.buf.Length
    requires w.hdr.msgLen + HeaderLength(ccs) == w.initNum && (ccs ==> w.hdr.msgLen == 0)
    requires Kept(q.Contents(), w.buf.Length)
    modifies q, q.Repr
    ensures q.Valid() && q.Contents() == PQ.Inserted(old(q.Contents()), EntryOf(Current(w, ccs)))
    ensures Kept(q.Contents(), w.buf.Length)
    ensures fresh(q.Repr - old(q.Repr))
  {
    var frag := Sent(Whole(w.hdr.kind, w.hdr.number, w.hdr.msgLen), ccs, w.epoch, w.session, w.buf[..w.initNum]);
    KeptInserted(q.Contents(), frag, w.buf.Length);
    var _ := q.Add(PQ.Priority64(Priority16(frag.header.number, ccs)), frag);
  }

  lemma BufferedSnoc(flight: seq<Sent>, s: Sent)
    ensures Buffered(flight + [s]) == PQ.Inserted(Buffered(flight), EntryOf(s))
  {
    assert (flight + [s])[..|flight|] == flight;
  }

  lemma {:induction false} KeptInserted(q: seq<PQ.Entry<Sent>>, s: Sent, room: nat)
    requires Kept(q, room) && Sound(s) && |s.bytes| <= room
    ensures Kept(PQ.Inserted(q, EntryOf(s)), room)
  {
    var e := EntryOf(s);
    if q != [] && PQ.Number(q[0]) < PQ.Number(e) {
      KeptInserted(q[1..], s, room);
      assert PQ.Inserted(q, e)[1..] == PQ.Inserted(q[1..], e);
    } else {
      assert ([e] + q)[1..] == q;
      assert Kept([e][1..], room);
    }
  }

  /** The records that resend one message: under its own epoch and session, cut as the MTU now asks. */
  ghost predicate Resends(records: seq<Record>, s: Sent)
    requires Sound(s)
  {
    if s.ccs then records == [Record(true, s.epoch, s.session, s.bytes)]
    else FragmentsOf(records, s.header, Body(s)) && Under(records, s.epoch, s.session)
  }

  ghost predicate Under(records: seq<Record>, epoch: nat, session: nat) {
    forall i :: 0 <= i < |records| ==> records[i].epoch == epoch && records[i].session == session && !records[i].ccs
  }

  /** Copies a kept message back into the writer's buffer. */
  method Load(w: Writer, s: Sent)
    requires Sound(s) && |s.bytes| <= w.buf.Length && w.initOff == 0
    modifies w`initNum, w`hdr, w.buf
    ensures Holding(w, s)
  {
    for i := 0 to |s.bytes|
      invariant w.buf[..i] == s.bytes[..i]
    {
      w.buf[i] := s.bytes[i];
    }
    assert s.bytes[..|s.bytes|] == s.bytes;
    w.initNum := |s.bytes|;
    w.hdr := s.header;
  }

  /** The message lies in the writer's buffer, ready to be sent. */
  ghost predicate Holding(w: Writer, s: Sent)
    reads w`initOff, w`initNum, w`hdr, w.buf
  {
    w.initOff == 0 && w.initNum == |s.bytes| <= w.buf.Length && w.hdr == s.header && w.buf[..|s.bytes|] == s.bytes
  }

  lemma HoldingLoaded(w: Writer, s: Sent)
    requires Holding(w, s) && Sound(s) && !s.ccs
    ensures w.Loaded(Body(s))
  {
    assert w.buf[HEADER..HEADER + |Body(s)|] == w.buf[..|s.bytes|][HEADER..];
  }

  /** What a handshake message adds to the transcript when it is first sent. */
  function Recorded1(s: Sent): (r: seq<byte>)
    requires Sound(s)
  {
    Unfragmented(s.header.kind, s.header.number, Body(s))
  }

  /** The write of a loaded message, whichever kind it is. */
  method WriteLoaded(w: Writer, s: Sent, room: nat -> nat) returns (ghost records: seq<Record>)
    requires Sound(s) && Holding(w, s)
    requires w.epoch == s.epoch && w.session == s.session && forall i :: room(i) > HEADER
    modifies w`initOff, w`initNum, w`hdr, w`sent, w`transcript, w.buf
    ensures w.initOff == 0 && w.sent == old(w.sent) + records && Resends(records, s)
    ensures w.transcript == old(w.transcript) + if w.retransmitting || s.ccs then [] else Recorded1(s)
  {
    if s.ccs {
      assert s.bytes == [w.buf[0]];
      records := [Record(true, w.epoch, w.session, s.bytes)];
      w.DoWriteCcs();
      assert w.transcript == old(w.transcript) + [];
    } else {
      HoldingLoaded(w, s);
      records := w.DoWrite(room, Body(s));
    }
  }

  /** Everything a connection keeps while it resends. */
  ghost predicate Idle(w: Writer)
    reads w
  {
    w.initOff == 0 && !w.retransmitting
  }

  /** The record layer can go to epoch e and back to now. */
  ghost predicate Usable(w: Writer, e: nat, now: nat)
    reads w`current, w`previous
  {
    Reachable(w.current, w.previous, e, now)
  }

  ghost predicate Reachable(current: nat, previous: Option<nat>, e: nat, now: nat) {
    e == now || ((e == current || previous == Some(e)) && (now == current || previous == Some(now)))
  }

  /** dtls1_retransmit_message once the message has been found. */
  method Resend(w: Writer, s: Sent, room: nat -> nat) returns (ok: bool, ghost records: seq<Record>)
    requires Sound(s) && |s.bytes| <= w.buf.Length && Idle(w) && forall i :: room(i) > HEADER
    modifies w, w.buf
    ensures ok <==> Usable(w, s.epoch, old(w.epoch))
    ensures w.current == old(w.current) && w.previous == old(w.previous) && w.transcript == old(w.transcript)
    ensures ok ==> Idle(w) && w.epoch == old(w.epoch) && w.session == old(w.session)
    ensures ok ==> w.sent == old(w.sent) + records && Resends(records, s)
  {
    var session, epoch := w.session, w.epoch;
    Load(w, s);
    w.retransmitting := true;
    w.session := s.session;
    ok := w.UseEpoch(s.epoch);
    records := [];
    if ok {
      records := WriteLoaded(w, s, room);
      assert w.transcript == old(w.transcript);
      w.session := session;
      ok := w.UseEpoch(epoch);
      if ok {
        w.retransmitting := false;
      }
    }
  }

  lemma OnlyEntry(s: seq<PQ.Entry<Sent>>, i: nat, e: PQ.Entry<Sent>)
    requires PQ.Ascending(s) && i < |s| && e in s && e.priority == s[i].priority
    ensures e == s[i]
  {
    var j :| 0 <= j < |s| && s[j] == e;
    assert j < i ==> PQ.Before(s, j, i);
    assert i < j ==> PQ.Before(s, i, j);
  }

  lemma KeptMember(q: seq<PQ.Entry<Sent>>, room: nat, e: PQ.Entry<Sent>)
    requires Kept(q, room) && e in q
    ensures Sound(e.data) && |e.data.bytes| <= room && e == EntryOf(e.data)
  {
    var i :| 0 <= i < |q| && q[i] == e;
    KeptAt(q, room, i);
  }

  /** dtls1_retransmit_message: looks the message up by its priority. */
  method RetransmitMessage(w: Writer, q: PQ.Queue<Sent>, priority: u16, room: nat -> nat)
    returns (ret: int, found: bool, ghost s: Sent, ghost records: seq<Record>)
    requires q.Valid() && Kept(q.Contents(), w.buf.Length) && Idle(w) && forall i :: room(i) > HEADER
    modifies w, w.buf
    ensures found <==> PQ.Holds(q.Contents(), PQ.Priority64(priority))
    ensures w.current == old(w.current) && w.previous == old(w.previous) && w.transcript == old(w.transcript)
    ensures !found ==> ret == 0 && unchanged(w)
    ensures found ==>
              && PQ.Entry(PQ.Priority64(priority), s) in q.Contents() && Sound(s)
              && (ret > 0 <==> Usable(w, s.epoch, old(w.epoch)))
              && (ret > 0 ==> w.sent == old(w.sent) + records && Resends(records, s))
    ensures ret > 0 ==> Idle(w) && w.epoch == old(w.epoch) && w.session == old(w.session)
  {
    ret, found, s, records := 0, false, Sent(w.hdr, false, 0, 0, []), [];
    var item := q.Find(PQ.Priority64(priority));
    if item != null {
      KeptMember(q.Contents(), w.buf.Length, PQ.Entry(item.priority, item.data));
      found, s := true, item.data;
      var ok;
      ok, records := Resend(w, item.data, room);
      ret := if ok then 1 else 0;
    }
  }

  function Flat(parts: seq<seq<Record>>): (r: seq<Record>) {
    if parts == [] then [] else Flat(parts[..|parts| - 1]) + parts[|parts| - 1]
  }

  lemma FlatSnoc(parts: seq<seq<Record>>, p: seq<Record>)
    ensures Flat(parts + [p]) == Flat(parts) + p
  {
    assert (parts + [p])[..|parts|] == parts;
  }

  /** One part for each of the first messages of the queue, in order. */
  ghost predicate ResendsAll(parts: seq<seq<Record>>, q: seq<PQ.Entry<Sent>>) {
    |parts| <= |q| && forall i :: 0 <= i < |parts| ==> ResendsAt(parts, q, i)
  }

  ghost predicate ResendsAt(parts: seq<seq<Record>>, q: seq<PQ.Entry<Sent>>, i: nat)
    requires i < |parts| <= |q|
  {
    Sound(q[i].data) && Resends(parts[i], q[i].data)
  }

  ghost predicate AllReachable(w: Writer, q: seq<PQ.Entry<Sent>>, n: nat, now: nat)
    reads w`current, w`previous
  {
    AllIn(w.current, w.previous, q, n, now)
  }

  ghost predicate AllIn(current: nat, previous: Option<nat>, q: seq<PQ.Entry<Sent>>, n: nat, now: nat) {
    forall i :: 0 <= i < n && i < |q| ==> ReachableAt(current, previous, q, i, now)
  }

  ghost predicate ReachableAt(current: nat, previous: Option<nat>, q: seq<PQ.Entry<Sent>>, i: nat, now: nat)
    requires i < |q|
  {
    Reachable(current, previous, q[i].data.epoch, now)
  }

  /** The first k messages of the queue have been resent. */
  ghost predicate Resent(parts: seq<seq<Record>>, q: seq<PQ.Entry<Sent>>, k: nat, before: seq<Record>,
                         sent: seq<Record>) {
    |parts| == k && ResendsAll(parts, q) && sent == before + Flat(parts)
  }

  lemma ResentStep(parts: seq<seq<Record>>, q: seq<PQ.Entry<Sent>>, k: nat, before: seq<Record>, sent: seq<Record>,
                   p: seq<Record>)
    requires Resent(parts, q, k, before, sent) && k < |q| && Sound(q[k].data) && Resends(p, q[k].data)
    ensures Resent(parts + [p], q, k + 1, before, sent + p)
  {
    FlatSnoc(parts, p);
    assert before + Flat(parts) + p == before + (Flat(parts) + p);
    var now := parts + [p];
    forall i | 0 <= i < |now|
      ensures ResendsAt(now, q, i)
    {
      assert i < k ==> ResendsAt(parts, q, i);
    }
  }

  /** One turn of the loop: the message at position k of the queue. */
  method RetransmitNext(w: Writer, q: PQ.Queue<Sent>, frag: Sent, room: nat -> nat, ghost k: nat)
    returns (ok: bool, ghost records: seq<Record>)
    requires q.Valid() && Kept(q.Contents(), w.buf.Length) && Idle(w) && forall i :: room(i) > HEADER
    requires k < |q.Contents()| && q.Contents()[k] == EntryOf(frag)
    modifies w, w.buf
    ensures w.current == old(w.current) && w.previous == old(w.previous) && w.transcript == old(w.transcript)
    ensures ok <==> Usable(w, frag.epoch, old(w.epoch))
    ensures ok ==> Idle(w) && w.epoch == old(w.epoch) && w.session == old(w.session)
    ensures ok ==> Sound(frag) && w.sent == old(w.sent) + records && Resends(records, frag)
  {
    var ret, found;
    ghost var s;
    ret, found, s, records := RetransmitMessage(w, q, Priority16(frag.header.number, frag.ccs), room);
    OnlyEntry(q.Contents(), k, PQ.Entry(q.Contents()[k].priority, s));
    ok := !(ret <= 0 && found);
  }

  /** dtls1_retransmit_buffered_messages. */
  method RetransmitBuffered(w: Writer, q: PQ.Queue<Sent>, room: nat -> nat -> nat)
    returns (ret: int, ghost parts: seq<seq<Record>>)
    requires q.Valid() && Kept(q.Contents(), w.buf.Length) && Idle(w) && forall k, i :: room(k)(i) > HEADER
    modifies w, w.buf
    ensures w.current == old(w.current) && w.previous == old(w.previous) && w.transcript == old(w.transcript)
    ensures ret == 1 <==> AllReachable(w, q.Contents(), |q.Contents()|, old(w.epoch))
    ensures ret == 1 ==> Idle(w) && w.epoch == old(w.epoch) && w.session == old(w.session)
    ensures ret == 1 ==> Resent(parts, q.Contents(), |q.Contents()|, old(w.sent), w.sent)
  {
    var item, k := q.items, 0;
    parts := [];
    ret := 1;
    ghost var s, before := q.Contents(), w.sent;
    assert before + [] == before;
    while item != null && ret == 1
      invariant k <= |s| && (ret == 1 ==> item == PQ.At(q.nodes, k)) && (ret == 1 || ret == -1)
      invariant w.current == old(w.current) && w.previous == old(w.previous) && w.transcript == old(w.transcript)
      invariant ret == 1 ==> Idle(w) && w.epoch == old(w.epoch) && w.session == old(w.session)
      invariant ret == 1 ==> Resent(parts, s, k, before, w.sent) && AllReachable(w, s, k, old(w.epoch))
      invariant ret == -1 ==> !AllReachable(w, s, |s|, old(w.epoch))
      decreases |s| - k, ret
    {
      KeptAt(s, w.buf.Length, k);
      assert q.Linked(k) && s[k].data == item.data && s[k] == EntryOf(item.data);
      ghost var sent := w.sent;
      var ok;
      ghost var p;
      ok, p := RetransmitNext(w, q, item.data, room(k), k);
      assert ok <==> ReachableAt(w.current, w.previous, s, k, old(w.epoch));
      if ok {
        ResentStep(parts, s, k, before, sent, p);
        parts := parts + [p];
        item, k := item.next, k + 1;
      } else {
        ret := -1;
      }
    }
  }

  ghost predicate SentAt(parts: seq<seq<Record>>, flight: seq<Sent>, i: nat)
    requires i < |parts| == |flight|
  {
    Sound(flight[i]) && Resends(parts[i], flight[i])
  }

  /** Each message went out in its own records. */
  ghost predicate SentIn(parts: seq<seq<Record>>, flight: seq<Sent>) {
    |parts| == |flight| && forall i :: 0 <= i < |flight| ==> SentAt(parts, flight, i)
  }

  ghost predicate UsableAt(current: nat, previous: Option<nat>, flight: seq<Sent>, i: nat, now: nat)
    requires i < |flight|
  {
    Reachable(current, previous, flight[i].epoch, now)
  }

  ghost predicate AllUsable(current: nat, previous: Option<nat>, flight: seq<Sent>, now: nat) {
    forall i :: 0 <= i < |flight| ==> UsableAt(current, previous, flight, i, now)
  }

  /** What holds of the queue in order holds of the flight. */
  lemma FlightUsable(current: nat, previous: Option<nat>, flight: seq<Sent>, now: nat)
    ensures AllUsable(current, previous, flight, now) <==> AllIn(current, previous, EntriesOf(flight), |flight|, now)
  {
    var q := EntriesOf(flight);
    forall i | 0 <= i < |flight|
      ensures UsableAt(current, previous, flight, i, now) <==> ReachableAt(current, previous, q, i, now)
    {
    }
  }

  lemma FlightResent(parts: seq<seq<Record>>, flight: seq<Sent>)
    requires |parts| == |flight| && ResendsAll(parts, EntriesOf(flight))
    ensures SentIn(parts, flight)
  {
    forall i | 0 <= i < |flight|
      ensures SentAt(parts, flight, i)
    {
      assert ResendsAt(parts, EntriesOf(flight), i);
    }
  }

  /** A flight buffered since the queue was last empty is resent in the order it was sent, each message
      once, under its own epoch and session; the current ones are back afterwards and the transcript
      has not grown. */
  method RetransmitFlight(w: Writer, q: PQ.Queue<Sent>, room: nat -> nat -> nat, ghost flight: seq<Sent>)
    returns (ret: int, ghost parts: seq<seq<Record>>)
    requires q.Valid() && Kept(q.Contents(), w.buf.Length) && Idle(w) && forall k, i :: room(k)(i) > HEADER
    requires q.Contents() == Buffered(flight) && SendingOrder(flight)
    modifies w, w.buf
    ensures w.transcript == old(w.transcript)
    ensures ret == 1 <==> AllUsable(old(w.current), old(w.previous), flight, old(w.epoch))
    ensures ret == 1 ==> Idle(w) && w.epoch == old(w.epoch) && w.session == old(w.session)
    ensures ret == 1 ==> SentIn(parts, flight) && w.sent == old(w.sent) + Flat(parts)
  {
    FlightKeepsOrder(flight);
    FlightUsable(w.current, w.previous, flight, w.epoch);
    ret, parts := RetransmitBuffered(w, q, room);
    if ret == 1 {
      FlightResent(parts, flight);
    }
  }

  /** One of the first n messages is a change cipher spec sent under the epoch whose keys are kept. */
  predicate KeysDone(s: seq<PQ.Entry<Sent>>, n: nat, previous: Option<nat>)
    requires n <= |s|
  {
    n > 0 && (KeysDone(s, n - 1, previous) || (s[n - 1].data.ccs && previous == Some(s[n - 1].data.epoch)))
  }

  /** The record layer once the first n messages have been dropped. */
  twostate predicate Dropped(w: Writer, s: seq<PQ.Entry<Sent>>, n: nat)
    requires n <= |s|
    reads w`epoch, w`previous, w`current
  {
    if KeysDone(s, n, old(w.previous)) then w.epoch == w.current && w.previous.None?
    else w.epoch == old(w.epoch) && w.previous == old(w.previous)
  }

  lemma PoppedOff<T>(s: seq<T>, n: nat, e: T, rest: seq<T>)
    requires n <= |s| && s[n..] == [e] + rest
    ensures n < |s| && s[n] == e && s[n + 1..] == rest && (rest == [] ==> n + 1 == |s|)
  {
    assert s[n..][0] == s[n] && s[n..][1..] == s[n + 1..];
  }

  /** dtls1_clear_record_buffer: a new flight starts; keys kept only for the old one go. */
  method ClearRecordBuffer(w: Writer, q: PQ.Queue<Sent>)
    requires q.Valid()
    modifies q, w`epoch, w`previous
    ensures q.Valid() && q.Contents() == Buffered([]) && q.Repr == old(q.Repr)
    ensures Dropped(w, old(q.Contents()), |old(q.Contents())|)
  {
    ghost var s, n := q.Contents(), 0;
    var item := q.Pop();
    while item != null
      invariant q.Valid() && q.Repr == old(q.Repr) && n <= |s| && Dropped(w, s, n)
      invariant if item == null then q.Contents() == [] && n == |s|
                else s[n..] == [PQ.Entry(item.priority, item.data)] + q.Contents()
      decreases |s| - n
    {
      PoppedOff(s, n, PQ.Entry(item.priority, item.data), q.Contents());
      if item.data.ccs {
        w.EpochDone(item.data.epoch);
      }
      n := n + 1;
      item := q.Pop();
    }
  }
}
