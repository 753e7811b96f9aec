/** Receiving handshake messages in order (dtls1_get_message and what it calls). */
module DtlsReceiver {
  import opened Encoding
  import opened ByteParser
  import opened DtlsHeader
  import opened Reassembly
  import opened DtlsFragment
  import opened DtlsInbound
  import opened DtlsStore
  import opened DtlsProgress
  import PQ = PriorityQueue

  /** BUF_MEM_grow_clean: what was there stays, new bytes are zero. */
  function Grown(b: seq<byte>, n: nat): (r: seq<byte>)
    ensures |r| == n && forall k :: 0 <= k < n && k < |b| ==> r[k] == b[k]
  {
    if n <= |b| then b[..n] else b + Zeros(n - |b|)
  }

  /** The buffer after a fragment of the message being read has been put in its place. */
  function Placed(b: seq<byte>, h: Header, data: seq<byte>): (r: seq<byte>)
    requires h.fragOff + |data| <= h.msgLen
    ensures |r| == HEADER + h.msgLen
  {
    Splice(Grown(b, HEADER + h.msgLen), HEADER + h.fragOff, data)
  }

  /** A whole message is put there as it is, whatever the buffer held. */
  lemma WholePlaced(b: seq<byte>, h: Header, data: seq<byte>)
    requires h.fragOff == 0 && h.fragLen == h.msgLen == |data|
    ensures Placed(b, h, data)[HEADER..] == data
  {
  }

  /** A fragment that is put straight into the buffer leaves there a body that does not depend on what the
      buffer held exactly when it is whole: the guard lets empty fragments of longer messages through as well.
      The part of it that is as long as the fragment never does. */
  lemma DirectExact(h: Header, data: seq<byte>)
    requires h.fragOff + h.fragLen <= h.msgLen && |data| == h.fragLen && (h.fragLen == 0 || h.fragLen >= h.msgLen)
    ensures (forall b1, b2 :: Placed(b1, h, data)[HEADER..] == Placed(b2, h, data)[HEADER..]) <==> h.fragLen == h.msgLen
    ensures forall b :: Placed(b, h, data)[HEADER..HEADER + h.fragLen] == data
  {
    if h.fragLen == h.msgLen {
      forall b
        ensures Placed(b, h, data)[HEADER..] == data
      {
        WholePlaced(b, h, data);
      }
    } else {
      var n := HEADER + h.msgLen;
      var b1, b2 := seq(n, _ => 0), seq(n, _ => 1);
      assert Placed(b1, h, data)[HEADER..][0] == 0 && Placed(b2, h, data)[HEADER..][0] == 1;
    }
  }

  lemma EmptyPlaced(b: seq<byte>, h: Header)
    requires h.fragOff <= h.msgLen
    ensures Placed(b, h, []) == Grown(b, HEADER + h.msgLen)
  {
  }

  /** What both sides hash for the first n messages. */
  function TranscriptOf(M: seq<Message>, n: nat): (r: seq<byte>)
    requires n <= |M| <= 0x1_0000 && forall i :: 0 <= i < |M| ==> |M[i].body| < 0x100_0000
  {
    if n == 0 then [] else TranscriptOf(M, n - 1) + Unfragmented(M[n - 1].kind, n - 1, M[n - 1].body)
  }

  predicate InTurn(delivered: seq<Header>, i: nat)
    requires i < |delivered|
  {
    delivered[i].number == i % 0x1_0000
  }

  /** Messages numbered 0, 1, 2, ... in sixteen bits. */
  ghost predicate Consecutive(delivered: seq<Header>) {
    forall i :: 0 <= i < |delivered| ==> InTurn(delivered, i)
  }

  /** One more message has been handed up. */
  lemma OneMore(delivered: seq<Header>, h: Header, q: Waiting)
    requires Consecutive(delivered) && h.number == |delivered| % 0x1_0000 && AllNear(q, |delivered|)
    ensures Consecutive(delivered + [h]) && AllNear(q, |delivered| + 1)
    ensures After(h.number) == (|delivered| + 1) % 0x1_0000
  {
    forall i | 0 <= i < |delivered| + 1
      ensures InTurn(delivered + [h], i)
    {
      assert i < |delivered| ==> InTurn(delivered, i);
    }
  }

  /** What a call for a fragment comes back with: try again, an error, or a message in the buffer. */
  datatype Result = Again | Error | Ready(h: Header)

  /** The receiving side of the connection. */
  class Receiver {
    const server: bool
    const maxLen: nat                 // dtls1_max_handshake_message_len
    var net: seq<Arrival>             // what will be read
    var next: u16                     // handshake_read_seq
    const store: Store                // buffered_messages
    var buf: seq<byte>                // init_buf
    var initNum: nat
    var reuse: bool                   // the last message is to be handed up once more
    var kind: byte                    // message_type
    var size: nat                     // message_size
    var transcript: seq<byte>
    var delivered: seq<Header>        // headers of the messages handed up

    constructor (isServer: bool, max: nat, arrivals: seq<Arrival>)
      ensures net == arrivals && next == 0 && store.waiting == [] && buf == [] && transcript == [] && delivered == []
      ensures server == isServer && maxLen == max && !reuse && Valid() && fresh(store.Repr)
    {
      server, maxLen, net, next, buf := isServer, max, arrivals, 0, [];
      store := new Store();
      initNum, reuse, kind, size, transcript, delivered := 0, false, 0, 0, [], [];
    }

    /** The messages handed up so far carry the numbers 0, 1, 2, ... and the next one follows; what waits
        is not far ahead. */
    ghost predicate Valid()
      reads this, store, store.Repr
    {
      && store.Valid() && this !in store.Repr && Orderly(store.waiting) && AllNear(store.waiting, |delivered|)
      && next == |delivered| % 0x1_0000 && Consecutive(delivered)
    }

    /** Everything that waits or will be read belongs to the messages M. */
    ghost predicate Serves(M: seq<Message>)
      reads this`net, store`waiting
    {
      AllOfMessages(store.waiting, M) && forall i :: 0 <= i < |net| ==> Genuine(net[i], M)
    }

    /** The message that h announces is due and has its place in the buffer; of its body as many bytes are
        handed up as the fragment had. */
    ghost predicate InBuffer(h: Header)
      reads this`next, this`buf, this`initNum, this`kind, this`size
    {
      && h.number == next && |buf| == HEADER + h.msgLen
      && initNum == h.fragLen <= h.msgLen && kind == h.kind && size == h.msgLen
    }

    /** The buffer holds the message that is due, all of it. */
    ghost predicate Due(h: Header, M: seq<Message>)
      reads this`next, this`buf
    {
      && next < |M| && h.kind == M[next].kind && h.fragLen == h.msgLen == |M[next].body|
      && |buf| == HEADER + h.msgLen && buf[HEADER..] == M[next].body
    }

    /** The body as the caller parses it. */
    ghost function Body(): (r: seq<byte>)
      requires HEADER + initNum <= |buf|
      reads this`buf, this`initNum
    {
      buf[HEADER..HEADER + initNum]
    }

    /** dtls1_preprocess_fragment: the checks, and room for the message. */
    method Preprocess(h: Header, max: nat) returns (ok: bool)
      modifies this`buf, this`kind, this`size
      ensures ok <==> h.fragOff + h.fragLen <= h.msgLen && h.fragOff + h.fragLen <= max
      ensures buf == if ok then Grown(old(buf), HEADER + h.msgLen) else old(buf)
      ensures ok ==> kind == h.kind && size == h.msgLen
    {
      ok := h.fragOff + h.fragLen <= h.msgLen && h.fragOff + h.fragLen <= max;
      if ok {
        buf := Grown(buf, HEADER + h.msgLen);
        kind, size := h.kind, h.msgLen;
      }
    }

    /** The head of the queue is whole and due. */
    ghost predicate HeadDue()
      reads this`next, store`waiting
    {
      && store.waiting != [] && !store.waiting[0].data.part.pending && store.waiting[0].data.header.number == next
    }

    /** dtls1_retrieve_buffered_fragment: the head of the queue, exactly if it is whole and due. */
    method RetrieveBuffered(max: nat, ghost M: seq<Message>) returns (r: Option<Result>)
      requires Valid()
      modifies this`buf, this`kind, this`size, this`initNum, store.Repr
      ensures Valid() && store.Repr == old(store.Repr) && (r.Some? <==> old(HeadDue()))
      ensures r.None? ==> store.waiting == old(store.waiting) && buf == old(buf)
      ensures r.Some? ==> store.waiting == old(store.waiting)[1..]
      ensures r.Some? ==>
                var m := old(store.waiting)[0].data;
                && r.value == (if m.header.msgLen <= max then Ready(m.header) else Error)
                && (r.value.Ready? ==>
                      InBuffer(m.header) && initNum == m.header.msgLen && buf[HEADER..] == m.part.bytes)
      ensures old(Serves(M)) ==> Serves(M) && (r.Some? && r.value.Ready? ==> Due(r.value.h, M))
    {
      var ready := store.HeadReady(next);
      if !ready {
        return None;
      }
      TailOrderly(store.waiting);
      HeadWhole(store.waiting, M);
      var header, bytes := store.TakeHead();
      var ok := CopyWhole(header, bytes, max);
      return Some(if ok then Ready(header) else Error);
    }

    /** The same, for a message on its way. */
    method Retrieve(max: nat, ghost M: seq<Message>, ghost s: Stretch) returns (r: Option<Result>)
      requires Valid()
      modifies this`buf, this`kind, this`size, this`initNum, store.Repr
      ensures Valid() && store.Repr == old(store.Repr) && (r.Some? <==> old(HeadDue()))
      ensures r.None? ==> store.waiting == old(store.waiting) && buf == old(buf)
      ensures r.Some? ==> old(store.waiting) != [] && !r.value.Again? && (r.value.Ready? ==> InBuffer(r.value.h))
      ensures old(Serves(M)) ==> Serves(M) && (r.Some? && r.value.Ready? ==> Due(r.value.h, M))
      ensures next < s.upTo && old(OnTheWay(M, max, next, s)) ==>
                if r.Some? then r.value.Ready? && OnTheWay(M, max, next + 1, s) else !Complete(store.waiting, next)
    {
      HeadUpOrNot(store.waiting, net, M, next, Limits(server, maxLen, max), s);
      r := RetrieveBuffered(max, M);
    }

    /** A whole message goes into the buffer, unless it is longer than the caller allows. */
    method CopyWhole(h: Header, bytes: seq<byte>, max: nat) returns (ok: bool)
      requires h.fragOff == 0 && h.fragLen == h.msgLen == |bytes|
      modifies this`buf, this`kind, this`size, this`initNum
      ensures ok <==> h.msgLen <= max
      ensures ok ==> |buf| == HEADER + h.msgLen && buf[HEADER..] == bytes
      ensures ok ==> initNum == h.msgLen == size && kind == h.kind
    {
      ok := Preprocess(h, max);
      initNum := 0;
      if ok {
        WholePlaced(old(buf), h, bytes);
        buf := Splice(buf, HEADER + h.fragOff, bytes);
        initNum := h.fragLen;
      }
    }

    /** The rest of dtls1_get_message_fragment: a message that is due arrives in one piece. */
    method ReadDirect(a: Arrival, max: nat, ghost M: seq<Message>) returns (r: Result)
      requires a.h.number == next && (a.h.fragLen == 0 || a.h.fragLen >= a.h.msgLen)
      modifies this`buf, this`kind, this`size, this`initNum
      ensures !r.Again? && (r.Ready? ==> r.h == a.h && InBuffer(r.h))
      ensures r.Ready? <==> a.h.fragOff + a.h.fragLen <= a.h.msgLen && a.h.fragOff + a.h.fragLen <= max && Read(a).Some?
      ensures r.Ready? ==>
                Read(a).Some? && a.h.fragOff + a.h.fragLen <= a.h.msgLen && buf == Placed(old(buf), a.h, Read(a).value)
      ensures Genuine(a, M) && r.Ready? ==> Due(r.h, M)
    {
      var ok := Preprocess(a.h, max);
      if !ok {
        initNum := 0;
        return Error;
      }
      var read := Read(a);
      if read.None? {
        return Error;
      }
      GenuinePlaced(old(buf), a, M);
      buf := Splice(buf, HEADER + a.h.fragOff, read.value);
      initNum := a.h.fragLen;
      return Ready(a.h);
    }

    /** An arrival that is not put straight into the buffer. */
    method Queue(a: Arrival, ghost M: seq<Message>) returns (r: Result)
      requires Valid()
      modifies store.Repr
      ensures Valid() && fresh(store.Repr - old(store.Repr))
      ensures old(Serves(M)) && Genuine(a, M) ==> Serves(M)
      ensures var step := Queued(old(store.waiting), next, a, maxLen);
              store.waiting == step.queue && r == if step.outcome.Retry? then Again else Error
    {
      QueueStep(store.waiting, next, a, maxLen, |delivered|, M);
      var o;
      if a.h.number != next {
        o := store.ProcessOutOfSequence(next, a, maxLen);
      } else {
        o := store.ReassembleFragment(a, maxLen);
      }
      r := if o.Retry? then Again else Error;
    }

    /** Nothing whole is waiting, and what arrives next is put straight into the buffer: a message that is due, in
        one piece, or an empty fragment of it. */
    ghost predicate DirectDue(max: nat)
      reads this`net, this`next, store`waiting
    {
      && !HeadDue() && net != [] && Read(net[0]).Some? && DtlsProgress.Direct(net[0].h, next)
      && net[0].h.fragOff + net[0].h.fragLen <= net[0].h.msgLen && net[0].h.fragOff + net[0].h.fragLen <= max
      && (server || net[0].h.kind != HELLO_REQUEST)
    }

    /** The head of the queue is left behind, and messages come in pieces only. */
    ghost predicate Stuck()
      reads this`net, this`next, store`waiting
    {
      Blocked(store.waiting, next) && AllPieces(net)
    }

    /** The messages of the stretch are on their way, from `number` on. */
    ghost predicate OnTheWay(M: seq<Message>, max: nat, number: nat, s: Stretch)
      reads this`net, store`waiting
    {
      Serves(M) && Flowing(store.waiting, net, M, number, Limits(server, maxLen, max), s)
    }

    /** The first arrival has been put into the buffer, and nothing else has changed. */
    ghost predicate Received(b: seq<byte>, arrivals: seq<Arrival>, q: Waiting, r: Result)
      requires arrivals != [] && Read(arrivals[0]).Some?
      requires arrivals[0].h.fragOff + arrivals[0].h.fragLen <= arrivals[0].h.msgLen
      reads this`buf, this`net, store`waiting
    {
      && r == Ready(arrivals[0].h) && buf == Placed(b, r.h, Read(arrivals[0]).value)
      && net == arrivals[1..] && store.waiting == q
    }

    /** The first arrival has been queued or dropped. */
    ghost predicate Piled(arrivals: seq<Arrival>, q: Waiting, r: Result)
      requires arrivals != [] && Orderly(q)
      reads this`net, this`next, store`waiting
    {
      var step := Queued(q, next, arrivals[0], maxLen);
      net == arrivals[1..] && store.waiting == step.queue && r == if step.outcome.Retry? then Again else Error
    }

    /** dtls1_get_message_fragment. A message that is on its way comes nearer, or is there. */
    method GetFragment(max: nat, ghost M: seq<Message>, ghost s: Stretch) returns (r: Result)
      requires Valid()
      modifies this`net, this`buf, this`kind, this`size, this`initNum, store.Repr
      ensures Valid() && fresh(store.Repr - old(store.Repr)) && (r.Again? ==> |net| < |old(net)|)
      ensures r.Ready? ==> InBuffer(r.h)
      ensures old(Serves(M)) ==> Serves(M) && (r.Ready? ==> Due(r.h, M))
      ensures old(DirectDue(max)) ==> Received(old(buf), old(net), old(store.waiting), r)
      ensures old(Stuck()) ==> Stuck() && !r.Ready?
      ensures next < s.upTo && old(OnTheWay(M, max, next, s)) ==>
                !r.Error? && OnTheWay(M, max, if r.Ready? then next + 1 else next, s)
      ensures !old(HeadDue()) && old(net) != [] && !Direct(old(net)[0].h, next) ==>
                Piled(old(net), old(store.waiting), r)
      decreases |net|, 2
    {
      var buffered := Retrieve(max, M, s);
      if buffered.Some? {
        r := buffered.value;
      } else {
        r := ReadFragment(max, M, s);
      }
    }

    /** What is read when nothing is at hand: requests for a new handshake are passed over. */
    method ReadFragment(max: nat, ghost M: seq<Message>, ghost s: Stretch) returns (r: Result)
      requires Valid()
      modifies this`net, this`buf, this`kind, this`size, this`initNum, store.Repr
      ensures Valid() && fresh(store.Repr - old(store.Repr)) && (r.Again? ==> |net| < |old(net)|)
      ensures r.Ready? ==> InBuffer(r.h)
      ensures old(Serves(M)) ==> Serves(M) && (r.Ready? ==> Due(r.h, M))
      ensures old(DirectDue(max)) ==> Received(old(buf), old(net), old(store.waiting), r)
      ensures old(Stuck()) ==> Stuck() && !r.Ready?
      ensures next < s.upTo && old(OnTheWay(M, max, next, s)) && !old(Complete(store.waiting, next)) ==>
                !r.Error? && OnTheWay(M, max, if r.Ready? then next + 1 else next, s)
      ensures old(net) != [] && !Direct(old(net)[0].h, next) ==> Piled(old(net), old(store.waiting), r)
      decreases |net|, 1
    {
      NotStuck(store.waiting, net, M, next, Limits(server, maxLen, max), s);
      if net == [] {
        return Error;
      }
      if Direct(net[0].h, next) && !server && net[0].h.kind == HELLO_REQUEST {
        r := PassOver(max, M);
      } else {
        r := TakeNext(max, M, s);
      }
    }

    /** A request for a new handshake, which a client ignores while there is one. */
    method PassOver(max: nat, ghost M: seq<Message>) returns (r: Result)
      requires Valid() && net != []
      modifies this`net, this`buf, this`kind, this`size, this`initNum, store.Repr
      ensures Valid() && fresh(store.Repr - old(store.Repr)) && (r.Again? ==> |net| < |old(net)|)
      ensures r.Ready? ==> InBuffer(r.h)
      ensures old(Serves(M)) ==> Serves(M) && (r.Ready? ==> Due(r.h, M))
      decreases |net|, 0
    {
      initNum := 0;
      var empty := net[0].h.msgLen == 0;
      net := net[1..];
      if empty {
        r := GetFragment(max, M, Stretch(0, {}));
      } else {
        r := Error;
      }
    }

    /** The next arrival, which is no request for a new handshake: how it brings things on, or does not. */
    method TakeNext(max: nat, ghost M: seq<Message>, ghost s: Stretch) returns (r: Result)
      requires Valid() && net != []
      modifies this`net, this`buf, this`kind, this`size, this`initNum, store.Repr
      ensures Valid() && fresh(store.Repr - old(store.Repr)) && net == old(net)[1..]
      ensures r.Ready? ==> InBuffer(r.h)
      ensures old(Serves(M)) ==> Serves(M) && (r.Ready? ==> Due(r.h, M))
      ensures old(DirectDue(max)) ==> Received(old(buf), old(net), old(store.waiting), r)
      ensures old(Stuck()) ==> Stuck() && !r.Ready?
      ensures next < s.upTo && old(OnTheWay(M, max, next, s)) && !old(Complete(store.waiting, next)) ==>
                !r.Error? && OnTheWay(M, max, if r.Ready? then next + 1 else next, s)
      ensures !Direct(old(net)[0].h, next) ==> Piled(old(net), old(store.waiting), r)
    {
      Onward(store.waiting, net, M, next, Limits(server, maxLen, max), s);
      StaysBehind(store.waiting, next, net[0], maxLen);
      r := Take(max, M);
    }

    /** The same, with what becomes of the arrival: put into the buffer if it is due and not cut, else queued. */
    method Take(max: nat, ghost M: seq<Message>) returns (r: Result)
      requires Valid() && net != []
      modifies this`net, this`buf, this`kind, this`size, this`initNum, store.Repr
      ensures Valid() && fresh(store.Repr - old(store.Repr)) && net == old(net)[1..]
      ensures r.Ready? ==> InBuffer(r.h)
      ensures old(Serves(M)) ==> Serves(M) && (r.Ready? ==> Due(r.h, M))
      ensures Direct(old(net)[0].h, next) ==>
                var a := old(net)[0];
                && store.waiting == old(store.waiting) && !r.Again?
                && (r.Ready? <==>
                      Read(a).Some? && a.h.fragOff + a.h.fragLen <= a.h.msgLen && a.h.fragOff + a.h.fragLen <= max)
                && (r.Ready? ==> r.h == a.h && buf == Placed(old(buf), a.h, Read(a).value))
      ensures !Direct(old(net)[0].h, next) ==> Piled(old(net), old(store.waiting), r)
    {
      var a := net[0];
      net := net[1..];
      if Direct(a.h, next) {
        r := ReadDirect(a, max, M);
      } else {
        r := Queue(a, M);
      }
    }

    /** The end of dtls1_get_message: header of the whole message, transcript, next number. */
    method HandUp(h: Header)
      requires Valid() && h.number == next && |buf| == HEADER + h.msgLen
      modifies this`buf, this`transcript, this`next, this`delivered
      ensures Valid() && delivered == old(delivered) + [h] && next == After(old(next))
      ensures |buf| == HEADER + h.msgLen && buf[HEADER..] == old(buf)[HEADER..]
      ensures transcript == old(transcript) + Unfragmented(h.kind, h.number, buf[HEADER..])
    {
      DropHeader(h.kind, h.number, buf[HEADER..]);
      OneMore(delivered, h, store.waiting);
      buf := Unfragmented(h.kind, h.number, buf[HEADER..]);
      transcript := transcript + buf;
      delivered := delivered + [h];
      next := After(next);
    }

    /** Fragments are taken in until one completes the message that is due, or fails. */
    method AwaitFragment(max: nat, ghost M: seq<Message>, ghost s: Stretch) returns (r: Result)
      requires Valid()
      modifies this`net, this`buf, this`kind, this`size, this`initNum, store.Repr
      ensures Valid() && fresh(store.Repr - old(store.Repr)) && !r.Again?
      ensures r.Ready? ==> InBuffer(r.h)
      ensures old(Serves(M)) ==> Serves(M) && (r.Ready? ==> Due(r.h, M))
      ensures old(DirectDue(max)) ==> Received(old(buf), old(net), old(store.waiting), r)
      ensures old(Stuck()) ==> Stuck() && !r.Ready?
      ensures next < s.upTo && old(OnTheWay(M, max, next, s)) ==> r.Ready? && OnTheWay(M, max, next + 1, s)
    {
      r := GetFragment(max, M, s);
      while r.Again?
        invariant Valid() && fresh(store.Repr - old(store.Repr)) && (old(Serves(M)) ==> Serves(M))
        invariant r.Ready? ==> InBuffer(r.h) && (old(Serves(M)) ==> Due(r.h, M))
        invariant old(DirectDue(max)) ==> Received(old(buf), old(net), old(store.waiting), r)
        invariant old(Stuck()) ==> Stuck() && !r.Ready?
        invariant next < s.upTo && old(OnTheWay(M, max, next, s)) ==>
                    !r.Error? && OnTheWay(M, max, if r.Ready? then next + 1 else next, s)
        decreases r.Again?, |net|
      {
        r := GetFragment(max, M, s);
      }
    }

    /** The message h has been handed up, with as many bytes of its body as its last fragment had. */
    ghost predicate HandedUp(h: Header)
      reads this`buf, this`initNum, this`kind, this`size, this`delivered
    {
      && delivered != [] && delivered[|delivered| - 1] == h && |buf| == HEADER + h.msgLen
      && initNum == h.fragLen <= h.msgLen && kind == h.kind && size == h.msgLen
    }

    /** dtls1_get_message: hands up the message that is due, or the last one again, or fails. */
    method GetMessage(mt: int, max: nat, ghost M: seq<Message>, ghost s: Stretch) returns (ok: bool, isNew: bool)
      requires Valid()
      modifies this, store.Repr
      ensures Valid() && fresh(store.Repr - old(store.Repr)) && (old(Serves(M)) ==> Serves(M)) && !reuse
      ensures isNew <==> ok && !old(reuse)
      ensures isNew ==> next == After(old(next)) && |delivered| == |old(delivered)| + 1
      ensures isNew ==> delivered[..|old(delivered)|] == old(delivered) && HandedUp(delivered[|old(delivered)|])
      ensures isNew ==>
                var h := delivered[|old(delivered)|];
                transcript == old(transcript) + Unfragmented(h.kind, old(next), buf[HEADER..])
      ensures isNew && old(Serves(M)) ==>
                && old(next) < |M| && |M[old(next)].body| < 0x100_0000 && HEADER + initNum == |buf|
                && Body() == buf[HEADER..] == M[old(next)].body && kind == M[old(next)].kind
      ensures !old(reuse) && old(next) < s.upTo && old(OnTheWay(M, max, next, s)) ==>
                isNew && OnTheWay(M, max, old(next) + 1, s)
      ensures !isNew ==> next == old(next) && delivered == old(delivered) && transcript == old(transcript)
      ensures old(reuse) ==>
                buf == old(buf) && size == old(size) && kind == old(kind) && store.waiting == old(store.waiting)
      ensures old(reuse) ==> (ok <==> mt < 0 || kind == mt) && (ok ==> initNum == size)
      ensures !old(reuse) && old(DirectDue(max)) ==>
                var a := old(net)[0];
                && isNew && delivered == old(delivered) + [a.h] && net == old(net)[1..]
                && store.waiting == old(store.waiting)
                && buf[HEADER..] == Placed(old(buf), a.h, Read(a).value)[HEADER..]
      ensures old(Stuck()) ==> Stuck() && !isNew
    {
      isNew := false;
      if reuse {
        ok := Reuse(mt);
      } else {
        ok := NewMessage(max, M, s);
        isNew := ok;
      }
    }

    /** The last message once more, if it is of the type asked for. */
    method Reuse(mt: int) returns (ok: bool)
      modifies this`reuse, this`initNum
      ensures !reuse && (ok <==> mt < 0 || kind == mt) && (ok ==> initNum == size)
    {
      reuse := false;
      ok := !(mt >= 0 && kind != mt);
      if ok {
        initNum := size;
      }
    }

    /** The message that is due. */
    method NewMessage(max: nat, ghost M: seq<Message>, ghost s: Stretch) returns (ok: bool)
      requires Valid()
      modifies this`net, this`buf, this`kind, this`size, this`initNum, store.Repr
      modifies this`transcript, this`next, this`delivered
      ensures Valid() && fresh(store.Repr - old(store.Repr)) && (old(Serves(M)) ==> Serves(M))
      ensures ok ==> next == After(old(next)) && |delivered| == |old(delivered)| + 1
      ensures ok ==> delivered[..|old(delivered)|] == old(delivered) && HandedUp(delivered[|old(delivered)|])
      ensures ok ==>
                var h := delivered[|old(delivered)|];
                transcript == old(transcript) + Unfragmented(h.kind, old(next), buf[HEADER..])
      ensures ok && old(Serves(M)) ==>
                && old(next) < |M| && |M[old(next)].body| < 0x100_0000 && HEADER + initNum == |buf|
                && Body() == buf[HEADER..] == M[old(next)].body && kind == M[old(next)].kind
      ensures old(next) < s.upTo && old(OnTheWay(M, max, next, s)) ==> ok && OnTheWay(M, max, old(next) + 1, s)
      ensures !ok ==> next == old(next) && delivered == old(delivered) && transcript == old(transcript)
      ensures old(DirectDue(max)) ==>
                var a := old(net)[0];
                && ok && delivered == old(delivered) + [a.h] && net == old(net)[1..]
                && store.waiting == old(store.waiting)
                && buf[HEADER..] == Placed(old(buf), a.h, Read(a).value)[HEADER..]
      ensures old(Stuck()) ==> Stuck() && !ok
    {
      var r := AwaitFragment(max, M, s);
      ok := r.Ready?;
      if ok {
        HandUp(r.h);
      }
    }
  }

  /** The last message is handed up once more: the transcript recorded what comes up then, which is what came
      up before exactly when the last fragment was the whole message. */
  method HandUpAgain(r: Receiver, max: nat, ghost M: seq<Message>)
    returns (ok: bool, first: seq<byte>, again: seq<byte>)
    requires r.Valid() && !r.reuse
    modifies r, r.store.Repr
    ensures r.Valid() && fresh(r.store.Repr - old(r.store.Repr))
    ensures ok ==> |r.delivered| == |old(r.delivered)| + 1
    ensures ok ==>
              var h := r.delivered[|r.delivered| - 1];
              && |first| == h.fragLen && |again| == h.msgLen && first <= again
              && (first == again <==> h.fragLen == h.msgLen)
              && r.transcript == old(r.transcript) + Unfragmented(h.kind, old(r.next), again)
  {
    var isNew;
    ok, isNew := r.GetMessage(-1, max, M, Stretch(0, {}));
    first, again := [], [];
    if ok {
      first := r.buf[HEADER..HEADER + r.initNum];
      again := OnceMore(r, max, M, r.delivered[|r.delivered| - 1]);
    }
  }

  /** An empty fragment of a longer message that is due: an empty body comes up, and the transcript takes what
      the buffer held before. */
  method EmptyComesUp(r: Receiver, max: nat, ghost M: seq<Message>)
    requires r.Valid() && !r.reuse && r.DirectDue(max) && r.net[0].h.fragLen == 0 < r.net[0].h.msgLen
    modifies r, r.store.Repr
    ensures r.Valid() && fresh(r.store.Repr - old(r.store.Repr)) && r.delivered == old(r.delivered) + [old(r.net)[0].h]
    ensures HEADER <= |r.buf| && r.initNum == 0 && r.size == old(r.net)[0].h.msgLen
    ensures var h := old(r.net)[0].h;
            var stale := Grown(old(r.buf), HEADER + h.msgLen)[HEADER..];
            r.transcript == old(r.transcript) + Unfragmented(h.kind, old(r.next), stale)
  {
    EmptyPlaced(r.buf, r.net[0].h);
    var ok, isNew := r.GetMessage(-1, max, M, Stretch(0, {}));
  }

  /** The caller puts the message back and asks for it again: all of the buffer comes up. */
  method OnceMore(r: Receiver, max: nat, ghost M: seq<Message>, ghost h: Header) returns (again: seq<byte>)
    requires r.Valid() && r.HandedUp(h)
    modifies r, r.store.Repr
    ensures r.Valid() && fresh(r.store.Repr - old(r.store.Repr))
    ensures |again| == h.msgLen && again == old(r.buf)[HEADER..] && again[..h.fragLen] == old(r.Body())
    ensures r.delivered == old(r.delivered) && r.transcript == old(r.transcript)
  {
    r.reuse := true;
    var _, _ := r.GetMessage(-1, max, M, Stretch(0, {}));
    again := r.buf[HEADER..HEADER + r.initNum];
  }

  /** A genuine fragment that is put straight into the buffer makes its message. */
  lemma GenuinePlaced(b: seq<byte>, a: Arrival, M: seq<Message>)
    requires a.h.fragOff + a.h.fragLen <= a.h.msgLen && (a.h.fragLen == 0 || a.h.fragLen >= a.h.msgLen) && Read(a).Some?
    ensures Genuine(a, M) ==> Placed(b, a.h, Read(a).value)[HEADER..] == M[a.h.number].body
  {
    if Genuine(a, M) {
      WholePlaced(b, a.h, Read(a).value);
      var body := M[a.h.number].body;
      assert body[0..|body|] == body;
    }
  }

  /** Whichever way an arrival is queued. */
  lemma QueueStep(q: Waiting, next: u16, a: Arrival, maxLen: nat, done: nat, M: seq<Message>)
    requires Orderly(q) && AllNear(q, done) && next == done % 0x1_0000
    ensures var r := Queued(q, next, a, maxLen);
            && Orderly(r.queue) && AllNear(r.queue, done)
            && (AllOfMessages(q, M) && Genuine(a, M) ==> AllOfMessages(r.queue, M))
  {
    if a.h.number != next {
      OutOfSequenceOrderly(q, next, a, maxLen);
      OutOfSequenceNear(q, next, a, maxLen, done);
    } else {
      ReassembleOrderly(q, a, maxLen);
      ReassembleNear(q, a, maxLen, done);
    }
    if AllOfMessages(q, M) && Genuine(a, M) {
      QueuedSound(q, next, a, maxLen, M);
    }
  }

  lemma StaysBehind(q: Waiting, next: u16, a: Arrival, maxLen: nat)
    requires Orderly(q)
    ensures Blocked(q, next) ==> Blocked(Queued(q, next, a, maxLen).queue, next)
  {
    if Blocked(q, next) {
      BlockedStays(q, next, a, maxLen);
    }
  }

  lemma HeadUpOrNot(q: Waiting, net: seq<Arrival>, M: seq<Message>, next: u16, l: Limits, s: Stretch)
    requires Orderly(q)
    ensures AllOfMessages(q, M) && Flowing(q, net, M, next, l, s) && next < s.upTo ==>
              if q != [] && !q[0].data.part.pending && q[0].data.header.number == next then
                q[0].data.header.msgLen <= l.max && Flowing(q[1..], net, M, next + 1, l, s)
              else !Complete(q, next)
  {
    if AllOfMessages(q, M) && Flowing(q, net, M, next, l, s) && next < s.upTo {
      if q != [] && !q[0].data.part.pending && q[0].data.header.number == next {
        assert At(q, next) == Some(q[0].data);
        assert OfMessages(q[0].data, M) && Coming(q, net, M, next, l);
      }
      if Complete(q, next) {
        HeadUp(q, net, M, next, l, s);
      }
    }
  }

  /** The due message is on its way and not there yet. */
  ghost predicate OnItsWay(q: Waiting, net: seq<Arrival>, M: seq<Message>, next: u16, l: Limits, s: Stretch) {
    && AllOfMessages(q, M) && AllGenuine(net, M) && Flowing(q, net, M, next, l, s)
    && next < s.upTo && !Complete(q, next)
  }

  lemma NotStuck(q: Waiting, net: seq<Arrival>, M: seq<Message>, next: u16, l: Limits, s: Stretch)
    requires Orderly(q)
    ensures OnItsWay(q, net, M, next, l, s) ==>
              net != [] && !(Direct(net[0].h, next) && !l.server && net[0].h.kind == HELLO_REQUEST)
  {
    if OnItsWay(q, net, M, next, l, s) {
      NextArrival(q, net, M, next, l, s);
    }
  }

  lemma Onward(q: Waiting, net: seq<Arrival>, M: seq<Message>, next: u16, l: Limits, s: Stretch)
    requires Orderly(q) && net != []
    ensures OnItsWay(q, net, M, next, l, s) ==>
              if Direct(net[0].h, next) then
                && net[0].h.fragOff + net[0].h.fragLen <= l.max && Read(net[0]).Some?
                && Flowing(q, net[1..], M, next + 1, l, s)
              else
                var r := Queued(q, next, net[0], l.maxLen);
                r.outcome.Retry? && Flowing(r.queue, net[1..], M, next, l, s)
  {
    if OnItsWay(q, net, M, next, l, s) {
      NextArrival(q, net, M, next, l, s);
    }
  }

  lemma DropHeader(kind: byte, number: u16, body: seq<byte>)
    requires |body| < 0x100_0000
    ensures |Unfragmented(kind, number, body)| == HEADER + |body| && Unfragmented(kind, number, body)[HEADER..] == body
  {
  }

  /** The head of the queue, if it is whole, is the message with its number. */
  lemma HeadWhole(q: Waiting, M: seq<Message>)
    requires q != [] && !q[0].data.part.pending
    ensures AllOfMessages(q, M) ==>
              && AllOfMessages(q[1..], M) && q[0].data.header.number < |M|
              && q[0].data.header.kind == M[q[0].data.header.number].kind
              && q[0].data.part.bytes == M[q[0].data.header.number].body
  {
    if AllOfMessages(q, M) {
      assert OfMessages(q[0].data, M);
      WholeIsMessage(q[0].data.part, M[q[0].data.header.number].body);
    }
  }

  lemma TailOrderly(q: Waiting)
    requires Orderly(q) && q != []
    ensures Orderly(q[1..]) && WellKept(q[0])
  {
    PQ.TailAscending(q);
  }
}
