/** What keeps buffered messages moving: which of them come up, and what holds them back for good. */
module DtlsProgress {
  import opened Encoding
  import opened ByteParser
  import opened DtlsHeader
  import opened Reassembly
  import opened DtlsFragment
  import opened DtlsInbound
  import PQ = PriorityQueue

  // --------------------------------------------------------------------------
  // The queue by number
  // --------------------------------------------------------------------------

  function Find(q: Waiting, p: seq<byte>): (r: Option<Held>) {
    if q == [] then None else if q[0].priority == p then Some(q[0].data) else Find(q[1..], p)
  }

  /** The message that waits under a number. */
  function At(q: Waiting, number: u16): (r: Option<Held>) {
    Find(q, PQ.Priority64(number))
  }

  lemma KeyOf(a: u16, b: u16)
    ensures PQ.Priority64(a) == PQ.Priority64(b) <==> a == b
  {
    PQ.PriorityValue(a);
    PQ.PriorityValue(b);
  }

  lemma {:induction false} FindLookup(q: Waiting, p: seq<byte>)
    ensures Find(q, p) == match Lookup(q, p) case None => None case Some(i) => Some(q[i].data)
  {
    if q != [] && q[0].priority != p {
      FindLookup(q[1..], p);
    }
  }

  lemma {:induction false} FindInserted(q: Waiting, e: PQ.Entry<Held>, p: seq<byte>)
    requires PQ.Ascending(q) && |e.priority| == PQ.WIDTH && Lookup(q, e.priority).None?
    ensures Find(PQ.Inserted(q, e), p) == if p == e.priority then Some(e.data) else Find(q, p)
  {
    if q == [] {
      assert [e][1..] == [];
    } else {
      PQ.SameNumber(q[0].priority, e.priority);
      if PQ.Number(q[0]) < PQ.Number(e) {
        PQ.TailAscending(q);
        FindInserted(q[1..], e, p);
        assert PQ.Inserted(q, e)[1..] == PQ.Inserted(q[1..], e);
      } else {
        assert ([e] + q)[1..] == q;
      }
    }
  }

  lemma {:induction false} FindUpdated(q: Waiting, i: nat, m: Held, p: seq<byte>)
    requires i < |q| && Lookup(q, q[i].priority) == Some(i)
    ensures Find(q[i := PQ.Entry(q[i].priority, m)], p) == if p == q[i].priority then Some(m) else Find(q, p)
  {
    var r := q[i := PQ.Entry(q[i].priority, m)];
    if i == 0 {
      assert r[1..] == q[1..];
    } else {
      FindUpdated(q[1..], i - 1, m, p);
      assert r[1..] == q[1..][i - 1 := PQ.Entry(q[i].priority, m)];
    }
  }

  /** Without the first entry. */
  lemma FindTail(q: Waiting, p: seq<byte>)
    requires PQ.Ascending(q) && q != []
    ensures Find(q[1..], p) == if p == q[0].priority then None else Find(q, p)
  {
    if p == q[0].priority {
      forall i | 0 < i < |q|
        ensures q[i].priority != p
      {
        assert PQ.Before(q, 0, i);
      }
      NotFound(q[1..], p);
    }
  }

  lemma {:induction false} NotFound(q: Waiting, p: seq<byte>)
    requires forall i :: 0 <= i < |q| ==> q[i].priority != p
    ensures Find(q, p).None?
  {
    if q != [] {
      NotFound(q[1..], p);
    }
  }

  lemma AtTail(q: Waiting, number: u16)
    requires Orderly(q) && q != []
    ensures At(q[1..], number) == if number == q[0].data.header.number then None else At(q, number)
  {
    FindTail(q, PQ.Priority64(number));
    KeyOf(number, q[0].data.header.number);
  }

  lemma AtInserted(q: Waiting, m: Held, number: u16)
    requires Orderly(q) && At(q, m.header.number).None?
    ensures At(PQ.Inserted(q, PQ.Entry(PQ.Priority64(m.header.number), m)), number)
         == if number == m.header.number then Some(m) else At(q, number)
  {
    FindLookup(q, PQ.Priority64(m.header.number));
    FindInserted(q, PQ.Entry(PQ.Priority64(m.header.number), m), PQ.Priority64(number));
    KeyOf(number, m.header.number);
  }

  lemma AtFound(q: Waiting, number: u16)
    requires Orderly(q) && At(q, number).Some?
    ensures At(q, number).value.header.number == number
    ensures Lookup(q, PQ.Priority64(number)).Some?
    ensures q[Lookup(q, PQ.Priority64(number)).value].data == At(q, number).value
  {
    FindLookup(q, PQ.Priority64(number));
    NumberOfKey(q[Lookup(q, PQ.Priority64(number)).value], number);
  }

  // --------------------------------------------------------------------------
  // One arrival
  // --------------------------------------------------------------------------

  predicate Shorter(h: Header) {
    h.fragLen < h.msgLen
  }

  /** What has been received of a message. */
  function Got(q: Waiting, number: u16): (s: set<nat>) {
    match At(q, number) case None => {} case Some(m) => m.part.got
  }

  /** The message has arrived whole. */
  predicate Complete(q: Waiting, number: u16) {
    At(q, number).Some? && !At(q, number).value.part.pending
  }

  predicate Pending(q: Waiting, number: u16) {
    At(q, number).Some? && At(q, number).value.part.pending
  }

  /** No message is waiting that has been handed up already. */
  ghost predicate Unblocked(q: Waiting, next: nat) {
    forall m: u16 :: m < next ==> At(q, m).None?
  }

  /** The queue after an arrival that is not read directly. */
  ghost function Queued(q: Waiting, next: u16, a: Arrival, maxLen: nat): (r: Step)
    requires Orderly(q)
  {
    if a.h.number != next then OutOfSequence(q, next, a, maxLen) else Reassemble(q, a, maxLen)
  }

  /** An arrival can be read, and is not longer than the receiver takes. */
  predicate Readable(a: Arrival, maxLen: nat) {
    Read(a).Some? && a.h.msgLen <= maxLen
  }

  predicate Adds(a: Arrival, number: u16, k: nat) {
    a.h.number == number && a.h.fragOff <= k < a.h.fragOff + a.h.fragLen
  }

  /** The step keeps what has been received, adds the arrival to its own message, and makes no other wait. */
  ghost predicate Gains(q: Waiting, r: Step, a: Arrival) {
    && r.outcome.Retry? && At(r.queue, a.h.number).Some?
    && (forall number: u16 :: number != a.h.number ==> At(r.queue, number) == At(q, number))
    && Got(r.queue, a.h.number) == Got(q, a.h.number) + Range(a.h.fragOff, a.h.fragOff + a.h.fragLen)
  }

  /** Reassembly: the message gains the piece, all others stay. */
  lemma Reassembled(q: Waiting, a: Arrival, maxLen: nat, M: seq<Message>)
    requires Orderly(q) && AllOfMessages(q, M) && Genuine(a, M) && Readable(a, maxLen) && a.h.fragLen > 0
    ensures Gains(q, Reassemble(q, a, maxLen), a)
  {
    var key := PQ.Priority64(a.h.number);
    FindLookup(q, key);
    match Lookup(q, key)
    case None =>
      var m := Extended(Started(a.h), a.h.fragOff, Read(a).value);
      forall number: u16
        ensures At(Reassemble(q, a, maxLen).queue, number) == if number == a.h.number then Some(m) else At(q, number)
      {
        AtInserted(q, m, number);
      }
    case Some(i) =>
      NumberOfKey(q[i], a.h.number);
      assert OfMessages(q[i].data, M);
      var m := Extended(q[i].data, a.h.fragOff, Read(a).value);
      forall number: u16
        ensures At(Reassemble(q, a, maxLen).queue, number) == if number == a.h.number then Some(m) else At(q, number)
      {
        KeyOf(number, a.h.number);
        FindUpdated(q, i, m, PQ.Priority64(number));
      }
  }

  /** Ahead of its turn but not too far, no Finished in front of everything, and more than is there. */
  predicate Wanted(q: Waiting, next: u16, a: Arrival) {
    && next < a.h.number <= next + 10 && (next > 0 || a.h.kind != FINISHED)
    && (Pending(q, a.h.number) ==> Shorter(a.h))
  }

  /** A message that is not due: dropped if it is old, else kept. */
  lemma Early(q: Waiting, next: u16, a: Arrival, maxLen: nat, M: seq<Message>)
    requires Orderly(q) && AllOfMessages(q, M) && Genuine(a, M) && Readable(a, maxLen) && a.h.number != next
    ensures OutOfSequence(q, next, a, maxLen).outcome.Retry?
    ensures a.h.number < next ==> OutOfSequence(q, next, a, maxLen).queue == q
    ensures OutOfSequence(q, next, a, maxLen).queue == q || Gains(q, OutOfSequence(q, next, a, maxLen), a)
    ensures Wanted(q, next, a) ==> Gains(q, OutOfSequence(q, next, a, maxLen), a)
  {
    var h, key := a.h, PQ.Priority64(a.h.number);
    FindLookup(q, key);
    if !Stale(q, next, h) {
      if h.fragLen < h.msgLen {
        Reassembled(q, a, maxLen, M);
      } else {
        var m := Held(h, Partial(Read(a).value, Range(0, h.msgLen), false));
        forall number: u16
          ensures At(OutOfSequence(q, next, a, maxLen).queue, number) ==
                  if number == h.number then Some(m) else At(q, number)
        {
          AtInserted(q, m, number);
        }
      }
    } else if At(q, h.number).Some? {
      AtFound(q, h.number);
      assert OfMessages(At(q, h.number).value, M);
    }
  }

  // --------------------------------------------------------------------------
  // A stretch of messages that will come up
  // --------------------------------------------------------------------------

  /** A byte of a message has been received or will be. */
  ghost predicate Reaches(q: Waiting, net: seq<Arrival>, number: u16, k: nat) {
    k in Got(q, number) || exists i :: 0 <= i < |net| && Adds(net[i], number, k)
  }

  predicate Belongs(a: Arrival, number: u16) {
    a.h.number == number
  }

  /** All n bytes of a message have been received or will be. */
  ghost predicate Comes(q: Waiting, net: seq<Arrival>, number: u16, n: nat) {
    if n == 0 then At(q, number).Some? || exists i :: 0 <= i < |net| && Belongs(net[i], number)
    else forall k :: 0 <= k < n ==> Reaches(q, net, number, k)
  }

  /** The messages before upTo are to come up; those in pieces are cut whenever they are sent, the others never. */
  datatype Stretch = Stretch(upTo: nat, pieces: set<nat>)

  /** What the receiver is: which side, and the longest message it buffers and hands up. */
  datatype Limits = Limits(server: bool, maxLen: nat, max: nat)

  predicate AsCut(a: Arrival, pieces: set<nat>) {
    Shorter(a.h) <==> a.h.number in pieces
  }

  ghost predicate CutAlike(q: Waiting, net: seq<Arrival>, pieces: set<nat>) {
    && (forall i :: 0 <= i < |net| ==> AsCut(net[i], pieces))
    && forall m: u16 :: Pending(q, m) ==> m in pieces
  }

  /** The message can be handed up, and will have come by then. */
  ghost predicate Coming(q: Waiting, net: seq<Arrival>, M: seq<Message>, m: u16, l: Limits)
    requires m < |M|
  {
    && Comes(q, net, m, |M[m].body|) && |M[m].body| <= l.max && (l.server || M[m].kind != HELLO_REQUEST)
  }

  /** Every message of the stretch is on its way, no further than the receiver looks ahead, and nothing
      that has been handed up is still waiting. */
  ghost predicate Flowing(q: Waiting, net: seq<Arrival>, M: seq<Message>, next: nat, l: Limits, s: Stretch) {
    && s.upTo <= |M| <= 0x1_0000 && next <= s.upTo <= next + 11
    && (forall i :: 0 <= i < |net| ==> Readable(net[i], l.maxLen))
    && (forall m: u16 :: next <= m < s.upTo ==> Coming(q, net, M, m, l))
    && (next < s.upTo ==> Unblocked(q, next))
    && (next + 1 < s.upTo ==> CutAlike(q, net, s.pieces))
    && (next == 0 ==> forall m: u16 :: 0 < m < s.upTo ==> M[m].kind != FINISHED)
  }

  ghost predicate AllGenuine(net: seq<Arrival>, M: seq<Message>) {
    forall i :: 0 <= i < |net| ==> Genuine(net[i], M)
  }

  /** The due message is whole: it stands at the head of the queue, and behind it the stretch goes on. */
  lemma HeadUp(q: Waiting, net: seq<Arrival>, M: seq<Message>, next: u16, l: Limits, s: Stretch)
    requires Orderly(q) && Flowing(q, net, M, next, l, s) && next < s.upTo && Complete(q, next)
    ensures q != [] && q[0].data == At(q, next).value && q[0].data.header.number == next
    ensures Flowing(q[1..], net, M, next + 1, l, s)
  {
    AtFound(q, next);
    var n := q[0].data.header.number;
    assert At(q, n).Some?;
    NoEarlier(q, Lookup(q, PQ.Priority64(next)).value);
    forall m: u16
      ensures At(q[1..], m) == if m == next then None else At(q, m)
    {
      AtTail(q, m);
    }
    Behind(q, net, M, next, l, s, q[1..], net);
  }

  /** The stretch goes on with the next message, once nothing waits for this one. */
  lemma Behind(q: Waiting, net: seq<Arrival>, M: seq<Message>, next: u16, l: Limits, s: Stretch, q': Waiting,
               net': seq<Arrival>)
    requires Flowing(q, net, M, next, l, s) && next < s.upTo
    requires net' == net || (net != [] && net' == net[1..] && net[0].h.number == next)
    requires forall m: u16 :: m != next ==> At(q', m) == At(q, m)
    requires next + 1 < s.upTo ==> At(q', next).None?
    ensures Flowing(q', net', M, next + 1, l, s)
  {
    forall m: u16 | next + 1 <= m < s.upTo
      ensures Coming(q', net', M, m, l)
    {
      assert Coming(q, net, M, m, l);
      StillComes(q, net, m, |M[m].body|, q', net');
    }
  }

  lemma StillComes(q: Waiting, net: seq<Arrival>, m: u16, n: nat, q': Waiting, net': seq<Arrival>)
    requires Comes(q, net, m, n) && At(q', m) == At(q, m)
    requires net' == net || (net != [] && net' == net[1..] && net[0].h.number != m)
    ensures Comes(q', net', m, n)
  {
    if n == 0 {
      if At(q, m).None? {
        var i :| 0 <= i < |net| && Belongs(net[i], m);
        assert net' == net || net'[i - 1] == net[i];
      }
    } else {
      forall k | 0 <= k < n
        ensures Reaches(q', net', m, k)
      {
        assert Reaches(q, net, m, k);
        if k !in Got(q, m) {
          var i :| 0 <= i < |net| && Adds(net[i], m, k);
          assert net' == net || net'[i - 1] == net[i];
        }
      }
    }
  }

  /** What has been received of a message is all there is, once it has come. */
  lemma AllGot(q: Waiting, M: seq<Message>, m: u16)
    requires Orderly(q) && AllOfMessages(q, M) && At(q, m).Some?
    ensures m < |M| && (Complete(q, m) <==> Got(q, m) == Range(0, |M[m].body|))
    ensures At(q, m).value.header.msgLen == |M[m].body| && Got(q, m) <= Range(0, |M[m].body|)
  {
    AtFound(q, m);
    assert OfMessages(q[Lookup(q, PQ.Priority64(m)).value].data, M);
  }

  /** While the due message is not whole, something is still to be read. */
  lemma MoreToCome(q: Waiting, net: seq<Arrival>, M: seq<Message>, next: u16, l: Limits, s: Stretch)
    requires Orderly(q) && AllOfMessages(q, M) && Flowing(q, net, M, next, l, s) && next < s.upTo && !Complete(q, next)
    ensures net != []
  {
    assert Coming(q, net, M, next, l);
    var n := |M[next].body|;
    if net == [] {
      forall k | 0 <= k < n
        ensures k in Got(q, next)
      {
        assert Reaches(q, net, next, k);
      }
      if n > 0 {
        assert 0 in Got(q, next);
      }
      AllGot(q, M, next);
    }
  }

  /** The due message arrives in one piece: behind it the stretch goes on. */
  lemma ReadUp(q: Waiting, net: seq<Arrival>, M: seq<Message>, next: u16, l: Limits, s: Stretch)
    requires Orderly(q) && Flowing(q, net, M, next, l, s) && next < s.upTo && !Complete(q, next)
    requires net != [] && AllGenuine(net, M) && net[0].h.number == next && !Shorter(net[0].h)
    ensures Flowing(q, net[1..], M, next + 1, l, s)
  {
    if next + 1 < s.upTo {
      assert AsCut(net[0], s.pieces);
      assert !Pending(q, next);
    }
    Behind(q, net, M, next, l, s, q, net[1..]);
  }

  /** Any other arrival leaves the stretch on its way. */
  lemma OneMoreQueued(q: Waiting, net: seq<Arrival>, M: seq<Message>, next: u16, l: Limits, s: Stretch)
    requires Orderly(q) && AllOfMessages(q, M) && AllGenuine(net, M) && net != []
    requires Flowing(q, net, M, next, l, s) && next < s.upTo
    requires net[0].h.number == next ==> Shorter(net[0].h) && net[0].h.fragLen > 0
    ensures var r := Queued(q, next, net[0], l.maxLen);
            r.outcome.Retry? && Flowing(r.queue, net[1..], M, next, l, s)
  {
    var a, r := net[0], Queued(q, next, net[0], l.maxLen);
    assert Readable(a, l.maxLen) && Genuine(a, M);
    QueuedGains(q, a, M, next, l, s, net);
    QueuedSound(q, next, a, l.maxLen, M);
    forall m: u16 | next <= m < s.upTo
      ensures Coming(r.queue, net[1..], M, m, l)
    {
      assert Coming(q, net, M, m, l);
      if m == a.h.number {
        PieceComes(q, net, M, m, r);
      } else {
        StillComes(q, net, m, |M[m].body|, r.queue, net[1..]);
      }
    }
    if next + 1 < s.upTo {
      assert AsCut(a, s.pieces);
      forall m: u16 | Pending(r.queue, m)
        ensures m in s.pieces
      {
        if m == a.h.number && r.queue != q {
          StillPending(q, M, r, a);
        }
      }
    }
  }

  lemma QueuedSound(q: Waiting, next: u16, a: Arrival, maxLen: nat, M: seq<Message>)
    requires Orderly(q) && AllOfMessages(q, M) && Genuine(a, M)
    ensures Orderly(Queued(q, next, a, maxLen).queue) && AllOfMessages(Queued(q, next, a, maxLen).queue, M)
  {
    if a.h.number != next {
      OutOfSequenceOrderly(q, next, a, maxLen);
      OutOfSequenceGenuine(q, next, a, maxLen, M);
    } else {
      ReassembleOrderly(q, a, maxLen);
      ReassembleGenuine(q, a, maxLen, M);
    }
  }

  /** The arrival is dropped, if it is too old, or counts. */
  lemma QueuedGains(q: Waiting, a: Arrival, M: seq<Message>, next: u16, l: Limits, s: Stretch, net: seq<Arrival>)
    requires Orderly(q) && AllOfMessages(q, M) && Genuine(a, M) && net != [] && a == net[0] && Readable(a, l.maxLen)
    requires Flowing(q, net, M, next, l, s) && next < s.upTo
    requires a.h.number == next ==> Shorter(a.h) && a.h.fragLen > 0
    ensures var r := Queued(q, next, a, l.maxLen);
            && r.outcome.Retry? && (r.queue == q || (next <= a.h.number && Gains(q, r, a)))
            && (next <= a.h.number < s.upTo ==> Gains(q, r, a))
  {
    if a.h.number == next {
      Reassembled(q, a, l.maxLen, M);
    } else {
      Early(q, next, a, l.maxLen, M);
      if next < a.h.number < s.upTo {
        assert AsCut(a, s.pieces);
      }
    }
  }

  lemma PieceComes(q: Waiting, net: seq<Arrival>, M: seq<Message>, m: u16, r: Step)
    requires net != [] && m < |M| && net[0].h.number == m && Comes(q, net, m, |M[m].body|) && Gains(q, r, net[0])
    ensures Comes(r.queue, net[1..], m, |M[m].body|)
  {
    forall k | 0 <= k < |M[m].body|
      ensures Reaches(r.queue, net[1..], m, k)
    {
      assert Reaches(q, net, m, k);
      if k !in Got(r.queue, m) {
        var i :| 0 <= i < |net| && Adds(net[i], m, k);
        assert net[1..][i - 1] == net[i];
      }
    }
  }

  /** What is pending afterwards was pending before, or came in a piece. */
  lemma StillPending(q: Waiting, M: seq<Message>, r: Step, a: Arrival)
    requires Orderly(q) && AllOfMessages(q, M) && Genuine(a, M) && Gains(q, r, a)
    requires Orderly(r.queue) && AllOfMessages(r.queue, M) && Pending(r.queue, a.h.number)
    ensures Pending(q, a.h.number) || Shorter(a.h)
  {
    AllGot(r.queue, M, a.h.number);
    if Complete(q, a.h.number) {
      AllGot(q, M, a.h.number);
    }
  }

  predicate Direct(h: Header, next: u16) {
    h.number == next && (h.fragLen == 0 || h.fragLen >= h.msgLen)
  }

  /** What comes next, while the due message is not whole: the message itself in one piece, or something to queue. */
  lemma NextArrival(q: Waiting, net: seq<Arrival>, M: seq<Message>, next: u16, l: Limits, s: Stretch)
    requires Orderly(q) && AllOfMessages(q, M) && AllGenuine(net, M)
    requires Flowing(q, net, M, next, l, s) && next < s.upTo && !Complete(q, next)
    ensures net != [] && Read(net[0]).Some? && Genuine(net[0], M)
    ensures Direct(net[0].h, next) ==>
              && net[0].h.fragOff + net[0].h.fragLen <= l.max && (l.server || net[0].h.kind != HELLO_REQUEST)
              && Flowing(q, net[1..], M, next + 1, l, s)
    ensures !Direct(net[0].h, next) ==>
              var r := Queued(q, next, net[0], l.maxLen); r.outcome.Retry? && Flowing(r.queue, net[1..], M, next, l, s)
  {
    MoreToCome(q, net, M, next, l, s);
    assert Genuine(net[0], M) && Readable(net[0], l.maxLen) && Coming(q, net, M, next, l);
    if Direct(net[0].h, next) {
      ReadUp(q, net, M, next, l, s);
    } else {
      OneMoreQueued(q, net, M, next, l, s);
    }
  }

  // --------------------------------------------------------------------------
  // A message left behind holds back all that wait
  // --------------------------------------------------------------------------

  /** The head of the queue has a number that is over. */
  predicate Blocked(q: Waiting, next: nat) {
    q != [] && q[0].data.header.number < next
  }

  /** A fragment that is neither empty nor the whole message. */
  predicate Piece(a: Arrival) {
    0 < a.h.fragLen < a.h.msgLen
  }

  ghost predicate AllPieces(net: seq<Arrival>) {
    forall i :: 0 <= i < |net| ==> Piece(net[i])
  }

  lemma InsertedBehind(q: Waiting, m: Held, next: nat)
    requires Orderly(q) && Blocked(q, next) && m.header.number >= next
    ensures Blocked(PQ.Inserted(q, PQ.Entry(PQ.Priority64(m.header.number), m)), next)
  {
    assert WellKept(q[0]);
    PQ.PriorityValue(q[0].data.header.number);
    PQ.PriorityValue(m.header.number);
  }

  /** Nothing that arrives removes it. */
  lemma BlockedStays(q: Waiting, next: u16, a: Arrival, maxLen: nat)
    requires Orderly(q) && Blocked(q, next)
    ensures Blocked(Queued(q, next, a, maxLen).queue, next)
  {
    var h, key := a.h, PQ.Priority64(a.h.number);
    if h.fragOff + h.fragLen <= h.msgLen && next <= h.number && Read(a).Some? {
      if h.fragLen > 0 {
        InsertedBehind(q, Extended(Started(h), h.fragOff, Read(a).value), next);
      }
      if h.fragLen == h.msgLen {
        InsertedBehind(q, Held(h, Partial(Read(a).value, Range(0, h.msgLen), false)), next);
      }
    }
  }

  /** The head decides whether anything that was handed up still waits. */
  lemma BlockedExact(q: Waiting, next: u16)
    requires Orderly(q)
    ensures Blocked(q, next) <==> !Unblocked(q, next)
  {
    if Blocked(q, next) {
      assert At(q, q[0].data.header.number).Some?;
    } else {
      forall m: u16 | m < next
        ensures At(q, m).None?
      {
        if At(q, m).Some? {
          AtFound(q, m);
          NoEarlier(q, Lookup(q, PQ.Priority64(m)).value);
        }
      }
    }
  }

  /** Handing up the due message without the queue leaves something behind exactly when a part of it waits. */
  lemma LeftExact(q: Waiting, next: u16)
    requires Orderly(q) && Unblocked(q, next) && next < 0xFFFF
    ensures Blocked(q, next + 1) <==> At(q, next).Some?
  {
    BlockedExact(q, next + 1);
  }

  lemma NoEarlier(q: Waiting, i: nat)
    requires Orderly(q) && i < |q|
    ensures q[0].data.header.number <= q[i].data.header.number
  {
    if i > 0 {
      assert PQ.Before(q, 0, i) && WellKept(q[0]) && WellKept(q[i]);
      PQ.PriorityValue(q[0].data.header.number);
      PQ.PriorityValue(q[i].data.header.number);
    }
  }
}
