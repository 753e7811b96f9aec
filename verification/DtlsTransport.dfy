/** Both ends of the handshake: whatever fragments are cut, lost, repeated or reordered in between. */
module DtlsTransport {
  import opened Encoding
  import opened ByteParser
  import opened DtlsHeader
  import opened DtlsWriter
  import opened DtlsInbound
  import opened DtlsReceiver
  import opened DtlsRetransmit
  import opened DtlsFlight
  import opened DtlsFragment
  import opened DtlsProgress
  import opened Reassembly

  ghost predicate Sendable(M: seq<Message>) {
    |M| < 0x1_0000 && forall i :: 0 <= i < |M| ==> |M[i].body| < 0x100_0000
  }

  /** What the receiver reads in a record. */
  function Arriving(bytes: seq<byte>): (r: Option<Arrival>) {
    match GetHeader(bytes)
    case None => None
    case Some(g) => Some(Arrival(g.v, g.rest))
  }

  /** Together they carry all of it. */
  lemma {:induction false} FragmentsCover(records: seq<Record>, h: Header, body: seq<byte>, end: nat, k: nat)
    returns (i: nat, off: nat, len: nat)
    requires h.msgLen == |body| && end <= |body| && FragmentsUpTo(records, h, body, end) && k < end
    ensures i < |records| && off <= k < off + len && off + len <= |body|
    ensures records[i].bytes == FragmentBytes(h, body, off, len)
    decreases |records|
  {
    i := |records| - 1;
    len := |records[i].bytes| - HEADER;
    off := end - len;
    if k < off {
      i, off, len := FragmentsCover(records[..i], h, body, off, k);
    }
  }

  // --------------------------------------------------------------------------
  // Receiving
  // --------------------------------------------------------------------------

  ghost predicate AllFit(M: seq<Message>, max: nat) {
    forall m :: 0 <= m < |M| ==> |M[m].body| <= max
  }

  ghost predicate AllFitAll(M: seq<Message>, calls: seq<(int, nat)>, maxLen: nat) {
    AllFit(M, maxLen) && forall i :: 0 <= i < |calls| ==> AllFit(M, calls[i].1)
  }

  /** Which limit is asked for does not matter, as long as it is kept. */
  lemma OtherLimit(q: Waiting, net: seq<Arrival>, M: seq<Message>, next: nat, l: Limits, max: nat, s: Stretch)
    requires AllFit(M, max)
    ensures Flowing(q, net, M, next, l, s) ==> Flowing(q, net, M, next, l.(max := max), s)
  {
    if Flowing(q, net, M, next, l, s) {
      forall m: u16 | next <= m < s.upTo
        ensures Coming(q, net, M, m, l.(max := max))
      {
        assert Coming(q, net, M, m, l);
      }
    }
  }

  /** What is left to come up, if it is on its way. */
  ghost predicate Left(r: Receiver, M: seq<Message>, max: nat, pieces: set<nat>)
    reads r`net, r`next, r.store`waiting
  {
    r.next < |M| ==> r.OnTheWay(M, max, r.next, Stretch(|M|, pieces))
  }

  /** One call: nothing but the next message comes up, and that does come up if it is on its way. */
  method ReceiveNext(r: Receiver, mt: int, max: nat, ghost M: seq<Message>, ghost pieces: set<nat>)
    requires r.Valid() && r.Serves(M) && Sendable(M)
    requires |r.delivered| == r.next <= |M| && r.transcript == TranscriptOf(M, r.next)
    modifies r, r.store.Repr
    ensures r.Valid() && fresh(r.store.Repr - old(r.store.Repr)) && r.Serves(M) && !r.reuse
    ensures |r.delivered| == r.next <= |M| && r.next >= old(r.next) && r.transcript == TranscriptOf(M, r.next)
    ensures !old(r.reuse) && old(Left(r, M, max, pieces)) && old(r.next) < |M| ==>
              r.next == old(r.next) + 1 && Left(r, M, max, pieces)
  {
    var _, _ := r.GetMessage(mt, max, M, Stretch(|M|, pieces));
  }

  /** Receiving with any number of calls: the messages come up in order, each once, with their own bodies,
      and the transcript is that of the messages handed up. With enough calls all of them come up, if they are
      on their way. */
  method Receive(r: Receiver, calls: seq<(int, nat)>, ghost M: seq<Message>, ghost pieces: set<nat>)
    requires r.Valid() && r.Serves(M) && Sendable(M)
    requires |r.delivered| == r.next <= |M| && r.transcript == TranscriptOf(M, r.next)
    modifies r, r.store.Repr
    ensures r.Valid() && r.Serves(M) && |r.delivered| == r.next <= |M| && r.next >= old(r.next)
    ensures r.transcript == TranscriptOf(M, r.next)
    ensures AllFitAll(M, calls, r.maxLen) && !old(r.reuse) && old(Left(r, M, r.maxLen, pieces)) ==>
              |calls| >= |M| - old(r.next) ==> r.next == |M|
  {
    ghost var on := Left(r, M, r.maxLen, pieces) && !r.reuse && AllFitAll(M, calls, r.maxLen);
    for i := 0 to |calls|
      invariant r.Valid() && fresh(r.store.Repr - old(r.store.Repr)) && r.Serves(M)
      invariant |r.delivered| == r.next <= |M| && r.next >= old(r.next) && r.transcript == TranscriptOf(M, r.next)
      invariant on ==> !r.reuse && Left(r, M, r.maxLen, pieces) && (r.next == |M| || r.next >= old(r.next) + i)
    {
      if on {
        OtherLimit(r.store.waiting, r.net, M, r.next, Limits(r.server, r.maxLen, r.maxLen), calls[i].1,
                   Stretch(|M|, pieces));
      }
      ReceiveNext(r, calls[i].0, calls[i].1, M, pieces);
      if on {
        OtherLimit(r.store.waiting, r.net, M, r.next, Limits(r.server, r.maxLen, calls[i].1), r.maxLen,
                   Stretch(|M|, pieces));
      }
    }
  }

  // --------------------------------------------------------------------------
  // A message left behind
  // --------------------------------------------------------------------------

  /** A part of the due message is waiting when it arrives once more, in one piece: the part is left at the head of
      the queue, and from then on no message that comes in pieces is handed up, whatever arrives. */
  method LeftBehind(r: Receiver, max: nat, M: seq<Message>) returns (first: bool, second: bool)
    requires r.Valid() && !r.reuse && r.next < 0xFFFF && At(r.store.waiting, r.next).Some?
    requires r.DirectDue(max) && AllPieces(r.net[1..])
    modifies r, r.store.Repr
    ensures first && !second && r.next == old(r.next) + 1 && r.Stuck()
  {
    ghost var next := r.next;
    var isNew;
    first, isNew := r.GetMessage(-1, max, M, Stretch(0, {}));
    BlockedExact(r.store.waiting, next + 1);
    second, isNew := r.GetMessage(-1, max, M, Stretch(0, {}));
  }

  lemma PieceWaits(piece: Arrival, maxLen: nat, M: seq<Message>)
    requires Genuine(piece, M) && Piece(piece) && Readable(piece, maxLen) && piece.h.number == 0
    ensures var r := Queued([], 0, piece, maxLen);
            r.outcome.Retry? && At(r.queue, 0).Some? && (r.queue == [] || r.queue[0].data.part.pending)
  {
    var r := Reassemble([], piece, maxLen);
    Reassembled([], piece, maxLen, M);
    ReassembleOrderly([], piece, maxLen);
    ReassembleGenuine([], piece, maxLen, M);
    AllGot(r.queue, M, 0);
    assert |r.queue| == 1;
    assert At(r.queue, 0) == Some(r.queue[0].data);
    assert |M[0].body| - 1 in Range(0, |M[0].body|) && 0 in Range(0, |M[0].body|);
  }

  /** A new receiver comes to that: a piece of the first message, the first message again in one piece, and then
      all pieces there are. */
  method LeavesBehind(server: bool, maxLen: nat, max: nat, M: seq<Message>, piece: Arrival, whole: Arrival,
                      rest: seq<Arrival>)
    returns (r: Receiver, first: bool, second: bool)
    requires Genuine(piece, M) && Piece(piece) && Readable(piece, maxLen) && piece.h.number == 0
    requires Genuine(whole, M) && Direct(whole.h, 0) && Readable(whole, max)
    requires (server || whole.h.kind != HELLO_REQUEST)
    requires AllPieces(rest)
    ensures first && !second && r.next == 1
  {
    r := new Receiver(server, maxLen, [piece, whole] + rest);
    assert ([piece, whole] + rest)[1..] == [whole] + rest && ([whole] + rest)[1..] == rest;
    PieceWaits(piece, maxLen, M);
    var again := r.GetFragment(max, M, Stretch(0, {}));
    first, second := LeftBehind(r, max, M);
  }
}
