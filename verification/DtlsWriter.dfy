/** Sending a handshake message in fragments cut in place from one buffer (dtls1_do_write). */
module DtlsWriter {
  import opened Encoding
  import opened DtlsHeader

  /** A record handed to the record layer. */
  datatype Record = Record(ccs: bool, epoch: nat, session: nat, bytes: seq<byte>)

  function FragmentHeader(h: Header, off: nat, len: nat): (r: Header)
    requires off + len <= h.msgLen
  {
    h.(fragOff := off, fragLen := len)
  }

  function FragmentBytes(h: Header, body: seq<byte>, off: nat, len: nat): (r: seq<byte>)
    requires off + len <= |body| == h.msgLen
  {
    HeaderBytes(FragmentHeader(h, off, len)) + body[off..off + len]
  }

  /** The records are consecutive fragments of the body from its start up to end. */
  ghost predicate FragmentsUpTo(records: seq<Record>, h: Header, body: seq<byte>, end: nat)
    requires h.msgLen == |body|
    decreases |records|
  {
    if records == [] then end == 0 else
      var last := records[|records| - 1];
      var len := |last.bytes| - HEADER;
      && 0 <= len <= end <= |body| && (len > 0 || body == [])
      && last.bytes == FragmentBytes(h, body, end - len, len)
      && FragmentsUpTo(records[..|records| - 1], h, body, end - len)
  }

  /** The records are the fragments of the whole message. */
  ghost predicate FragmentsOf(records: seq<Record>, h: Header, body: seq<byte>)
    requires h.msgLen == |body|
  {
    records != [] && FragmentsUpTo(records, h, body, |body|)
  }

  function Bodies(records: seq<Record>): (r: seq<byte>) {
    if records == [] then [] else
      var b := records[|records| - 1].bytes;
      Bodies(records[..|records| - 1]) + (if |b| < HEADER then [] else b[HEADER..])
  }

  /** Dropping the headers gives the body back. */
  lemma {:induction false} FragmentsJoin(records: seq<Record>, h: Header, body: seq<byte>, end: nat)
    requires h.msgLen == |body| && end <= |body| && FragmentsUpTo(records, h, body, end)
    ensures Bodies(records) == body[..end]
    decreases |records|
  {
    if records != [] {
      var last := records[|records| - 1].bytes;
      var len := |last| - HEADER;
      FragmentsJoin(records[..|records| - 1], h, body, end - len);
      assert last[HEADER..] == body[end - len..end];
      assert body[..end - len] + body[end - len..end] == body[..end];
    }
  }

  /** Every record up to the end is a fragment with its own offset and length. */
  lemma {:induction false} FragmentAt(records: seq<Record>, h: Header, body: seq<byte>, end: nat, i: nat)
    returns (off: nat, len: nat)
    requires h.msgLen == |body| && end <= |body| && FragmentsUpTo(records, h, body, end) && i < |records|
    ensures off + len <= end && (len > 0 || body == [])
    ensures records[i].bytes == FragmentBytes(h, body, off, len)
    decreases |records|
  {
    len := |records[|records| - 1].bytes| - HEADER;
    off := end - len;
    if i < |records| - 1 {
      off, len := FragmentAt(records[..|records| - 1], h, body, off, i);
    }
  }

  /** Record i lays out a fragment that starts where the bodies of the records before it end, and
      carries that part of the body. */
  ghost predicate LaidFragment(records: seq<Record>, h: Header, body: seq<byte>, i: nat)
    requires i < |records|
  {
    var b, off := records[i].bytes, |Bodies(records[..i])|;
    && HEADER <= |b| && off + |b| - HEADER <= |body| < 0x100_0000
    && Laid(b, Header(h.kind, |body|, h.number, off, |b| - HEADER))
    && b[HEADER..] == body[off..off + |b| - HEADER]
  }

  lemma LastLaid(records: seq<Record>, h: Header, body: seq<byte>, end: nat)
    requires h.msgLen == |body| && end <= |body| && FragmentsUpTo(records, h, body, end) && records != []
    ensures LaidFragment(records, h, body, |records| - 1)
  {
    var n := |records| - 1;
    var b := records[n].bytes;
    var off := end - (|b| - HEADER);
    FragmentsJoin(records[..n], h, body, off);
    HeaderLayout(b, FragmentHeader(h, off, |b| - HEADER));
    assert b[HEADER..] == body[off..end];
  }

  lemma {:induction false} FragmentLaid(records: seq<Record>, h: Header, body: seq<byte>, end: nat, i: nat)
    requires h.msgLen == |body| && end <= |body| && FragmentsUpTo(records, h, body, end) && i < |records|
    ensures LaidFragment(records, h, body, i)
    decreases |records|
  {
    var n := |records| - 1;
    if i == n {
      LastLaid(records, h, body, end);
    } else {
      FragmentLaid(records[..n], h, body, end - (|records[n].bytes| - HEADER), i);
      assert records[..n][..i] == records[..i];
    }
  }

  lemma AllLaid(records: seq<Record>, h: Header, body: seq<byte>)
    requires h.msgLen == |body| && FragmentsOf(records, h, body)
    ensures forall i: nat :: i < |records| ==> LaidFragment(records, h, body, i)
  {
    forall i: nat | i < |records|
      ensures LaidFragment(records, h, body, i)
    {
      FragmentLaid(records, h, body, |body|, i);
    }
  }

  /** A header in front of the bytes that are still in place. */
  lemma Framed(b: seq<byte>, off: nat, header: seq<byte>, rest: seq<byte>, len: nat)
    requires off + |header| + |rest| <= |b| && |header| <= len <= |header| + |rest|
    requires b[off..off + |header|] == header && b[off + |header|..off + |header| + |rest|] == rest
    ensures b[off..off + len] == header + rest[..len - |header|]
  {
    var m, r := off + |header|, header + rest[..len - |header|];
    forall k | 0 <= k < len
      ensures b[off..off + len][k] == r[k]
    {
      if k < |header| {
        assert b[off..m][k] == header[k];
      } else {
        assert b[m..m + |rest|][k - |header|] == rest[k - |header|];
      }
    }
  }

  lemma SameSlice(b: seq<byte>, c: seq<byte>, lo: nat, hi: nat)
    requires lo <= hi <= |b| == |c| && forall k :: lo <= k < hi ==> b[k] == c[k]
    ensures b[lo..hi] == c[lo..hi]
  {
  }

  lemma SliceOfTail(body: seq<byte>, off: nat, n: nat)
    requires off + n <= |body|
    ensures body[off..][..n] == body[off..off + n]
  {
  }

  lemma Unsnoc(records: seq<Record>, r: Record)
    ensures (records + [r])[..|records|] == records && (records + [r])[|records|] == r
  {
  }

  lemma FragmentsSnoc(records: seq<Record>, r: Record, h: Header, body: seq<byte>, off: nat, len: nat)
    requires h.msgLen == |body| && off + len <= |body| && (len > 0 || body == [])
    requires FragmentsUpTo(records, h, body, off)
    requires r.bytes == FragmentBytes(h, body, off, len)
    ensures FragmentsUpTo(records + [r], h, body, off + len)
  {
    Unsnoc(records, r);
  }

  lemma TwoParts(b: seq<byte>, m: nat, n: nat, x: seq<byte>, y: seq<byte>)
    requires m <= n <= |b| && b[0..m] == x && b[m..n] == y
    ensures b[0..n] == x + y
  {
    assert b[0..n] == b[0..m] + b[m..n];
  }

  /** The sending side of the connection. */
  class Writer {
    const buf: array<byte>
    var initOff: nat
    var initNum: nat
    var hdr: Header
    var retransmitting: bool
    var epoch: nat                          // of the keys records are written under
    var current: nat                        // the newest epoch
    var previous: Option<nat>    // the one before, while its keys are kept
    var session: nat
    var sent: seq<Record>
    var transcript: seq<byte>

    constructor (size: nat, h: Header)
      ensures fresh(buf) && buf.Length == size && initOff == 0 && initNum == 0 && hdr == h
      ensures !retransmitting && epoch == 0 && current == 0 && previous.None? && session == 0 && sent == []
      ensures transcript == []
    {
      buf := new byte[size](_ => 0);
      initOff, initNum, hdr, retransmitting := 0, 0, h, false;
      epoch, current, previous := 0, 0, None;
      session, sent, transcript := 0, [], [];
    }

    /** dtls1_write_message_header into the buffer. */
    method PutHeader(at: nat, h: Header)
      requires at + HEADER <= buf.Length
      modifies buf
      ensures buf[at..at + HEADER] == HeaderBytes(h)
      ensures forall k :: 0 <= k < buf.Length && !(at <= k < at + HEADER) ==> buf[k] == old(buf[k])
    {
      var bytes := HeaderBytes(h);
      for i := 0 to HEADER
        invariant forall k :: 0 <= k < i ==> buf[at + k] == bytes[k]
        invariant forall k :: 0 <= k < buf.Length && !(at <= k < at + i) ==> buf[k] == old(buf[k])
      {
        buf[at + i] := bytes[i];
      }
    }

    /** The message being sent lies in the buffer behind room for a header. */
    ghost predicate Loaded(body: seq<byte>)
      reads this, buf
    {
      && initOff == 0 && initNum == HEADER + |body| && HEADER + |body| <= buf.Length
      && hdr.msgLen == |body| && buf[HEADER..HEADER + |body|] == body
    }

    /** Everything before off has been sent, the rest is still in place. */
    ghost predicate SentUpTo(body: seq<byte>, off: nat)
      reads this, buf
    {
      && off <= |body| == hdr.msgLen && HEADER + |body| <= buf.Length
      && buf[HEADER + off..HEADER + |body|] == body[off..]
      && if off == 0 then initOff == 0 && initNum == HEADER + |body|
         else initOff == HEADER + off && initNum == |body| - off
    }

    /** Backs up over the last bytes sent to make room for the next header, and writes it there. */
    method NextFragment(room: nat, fragOff: nat, ghost body: seq<byte>) returns (len: nat)
      requires room > HEADER && SentUpTo(body, fragOff) && (fragOff < |body| || fragOff == 0)
      modifies this`initOff, this`initNum, this`hdr, buf
      ensures HEADER <= len <= room && initOff == fragOff && initNum == HEADER + |body| - fragOff
      ensures len == if room < initNum then room else initNum
      ensures hdr == FragmentHeader(old(hdr), fragOff, len - HEADER)
      ensures buf[fragOff..fragOff + len] == HeaderBytes(hdr) + body[fragOff..fragOff + len - HEADER]
      ensures buf[HEADER + fragOff..HEADER + |body|] == body[fragOff..]
    {
      len := if initNum > room then room else initNum;
      if initOff != 0 {
        initOff := initOff - HEADER;
        initNum := initNum + HEADER;
        len := if initNum > room then room else initNum;
      }
      hdr := FragmentHeader(hdr, fragOff, len - HEADER);
      ghost var b, was := buf[..], buf[HEADER + fragOff..HEADER + |body|];
      PutHeader(initOff, hdr);
      SameSlice(b, buf[..], HEADER + fragOff, HEADER + |body|);
      assert buf[HEADER + fragOff..HEADER + |body|] == was;
      Framed(buf[..], fragOff, HeaderBytes(hdr), was, len);
      SliceOfTail(body, fragOff, len - HEADER);
    }

    /** What goes into the transcript: the first fragment with the header of the whole message, later
        ones without theirs. */
    method RecordTranscript(fragOff: nat, len: nat, ghost body: seq<byte>)
      requires HEADER <= len && fragOff + len <= buf.Length && fragOff + len - HEADER <= |body| && hdr.msgLen == |body|
      requires initOff == fragOff && buf[fragOff + HEADER..fragOff + len] == body[fragOff..fragOff + len - HEADER]
      modifies this`transcript, buf
      ensures forall k :: HEADER + fragOff <= k < buf.Length ==> buf[k] == old(buf[k])
      ensures transcript == old(transcript) +
                            (if fragOff == 0 then HeaderBytes(FragmentHeader(hdr, 0, |body|)) else []) +
                            body[fragOff..fragOff + len - HEADER]
    {
      if fragOff == 0 {
        ghost var header := HeaderBytes(FragmentHeader(hdr, 0, |body|));
        PutHeader(initOff, hdr.(fragOff := 0, fragLen := hdr.msgLen));
        TwoParts(buf[..], HEADER, len, header, body[..len - HEADER]);
        transcript := transcript + buf[initOff..initOff + len];
        assert transcript == old(transcript) + header + body[..len - HEADER];
      } else {
        transcript := transcript + buf[initOff + HEADER..initOff + len];
      }
    }

    /** The current fragment starts at initOff, its header in place of bytes already sent. */
    ghost predicate Emitted(body: seq<byte>, fragOff: nat, len: nat)
      reads this`initOff, this`initNum, this`hdr, buf
    {
      && HEADER <= len <= initNum == HEADER + |body| - fragOff && fragOff <= |body| == hdr.msgLen
      && initOff == fragOff && HEADER + |body| <= buf.Length
      && buf[HEADER + fragOff..HEADER + |body|] == body[fragOff..]
    }

    method Emit(room: nat, fragOff: nat, ghost h: Header, ghost body: seq<byte>) returns (len: nat, ghost r: Record)
      requires room > HEADER && SentUpTo(body, fragOff) && (fragOff < |body| || fragOff == 0) && Same(hdr, h)
      modifies this`initOff, this`initNum, this`hdr, this`sent, buf
      ensures HEADER <= len <= room && (len > HEADER || body == []) && Emitted(body, fragOff, len)
      ensures Same(hdr, h) && sent == old(sent) + [r]
      ensures r == Record(false, epoch, session, FragmentBytes(h, body, fragOff, len - HEADER))
    {
      len := NextFragment(room, fragOff, body);
      r := Record(false, epoch, session, buf[initOff..initOff + len]);
      sent := sent + [Record(false, epoch, session, buf[initOff..initOff + len])];
    }

    /** After a successful write: the transcript, and on to the rest. */
    method Settle(fragOff: nat, len: nat, ghost h: Header, ghost body: seq<byte>) returns (done: bool)
      requires Emitted(body, fragOff, len) && Same(hdr, h) && (len > HEADER || body == [])
      modifies this`initOff, this`initNum, this`transcript, buf
      ensures fragOff + len - HEADER <= |body| == h.msgLen
      ensures transcript ==
                if retransmitting then old(transcript) else RecordMore(old(transcript), h, body, fragOff, len - HEADER)
      ensures done <==> fragOff + len - HEADER == |body|
      ensures if done then initOff == 0 && initNum == 0 else SentUpTo(body, fragOff + len - HEADER)
    {
      ghost var n, b := len - HEADER, buf[..];
      Tails(body, fragOff, n);
      StillInPlace(b, HEADER + fragOff, HEADER + |body|, body[fragOff..], n);
      if !retransmitting {
        assert buf[fragOff + HEADER..fragOff + len] == body[fragOff..][..n];
        RecordTranscript(fragOff, len, body);
        assert buf[HEADER + fragOff + n..HEADER + |body|] == b[HEADER + fragOff + n..HEADER + |body|];
      }
      done := len == initNum;
      if done {
        initOff, initNum := 0, 0;
      } else {
        initOff, initNum := initOff + len, initNum - len;
      }
    }

    /** One turn of the loop: a fragment leaves. */
    method SendFragment(room: nat, fragOff: nat, ghost h: Header, ghost body: seq<byte>)
      returns (len: nat, done: bool, ghost r: Record)
      requires room > HEADER && SentUpTo(body, fragOff) && (fragOff < |body| || fragOff == 0) && Same(hdr, h)
      modifies this`initOff, this`initNum, this`hdr, this`sent, this`transcript, buf
      ensures HEADER <= len <= room && fragOff + len - HEADER <= |body| == h.msgLen && (len > HEADER || body == [])
      ensures Same(hdr, h) && sent == old(sent) + [r]
      ensures r == Record(false, epoch, session, FragmentBytes(h, body, fragOff, len - HEADER))
      ensures transcript ==
                if retransmitting then old(transcript) else RecordMore(old(transcript), h, body, fragOff, len - HEADER)
      ensures done <==> fragOff + len - HEADER == |body|
      ensures if done then initOff == 0 && initNum == 0 else SentUpTo(body, fragOff + len - HEADER)
    {
      len, r := Emit(room, fragOff, h, body);
      done := Settle(fragOff, len, h, body);
    }

    /** The same with the account of what has been sent so far. */
    method Turn(room: nat, fragOff: nat, ghost records: seq<Record>, ghost h: Header, ghost body: seq<byte>,
                ghost before: seq<byte>)
      returns (n: nat, done: bool, ghost r: Record)
      requires room > HEADER && SentUpTo(body, fragOff) && (fragOff < |body| || fragOff == 0)
      requires Same(hdr, h) && (records == [] <==> fragOff == 0)
      requires Progress(records, h, body, fragOff, before, transcript, retransmitting)
      modifies this`initOff, this`initNum, this`hdr, this`sent, this`transcript, buf
      ensures Same(hdr, h) && (n > 0 || done) && sent == old(sent) + [r]
      ensures Progress(records + [r], h, body, fragOff + n, before, transcript, retransmitting)
      ensures r.epoch == epoch && r.session == session && !r.ccs && |r.bytes| <= room
      ensures done <==> fragOff + n == |body|
      ensures if done then initOff == 0 && initNum == 0 else SentUpTo(body, fragOff + n)
    {
      ghost var was := transcript;
      var len;
      len, done, r := SendFragment(room, fragOff, h, body);
      n := len - HEADER;
      ProgressStep(records, r, h, body, fragOff, n, before, was, transcript, retransmitting);
    }

    method CountedTurn(room: nat -> nat, i: nat, fragOff: nat, ghost records: seq<Record>, ghost h: Header,
                       ghost body: seq<byte>, ghost before: seq<byte>, ghost out: seq<Record>)
      returns (n: nat, done: bool, ghost now: seq<Record>)
      requires room(i) > HEADER && SentUpTo(body, fragOff) && (fragOff < |body| || fragOff == 0)
      requires Same(hdr, h) && i == |records| && (i == 0 <==> fragOff == 0)
      requires Progress(records, h, body, fragOff, before, transcript, retransmitting)
      requires sent == out + records && Stamped(records, room)
      modifies this`initOff, this`initNum, this`hdr, this`sent, this`transcript, buf
      ensures Same(hdr, h) && (n > 0 || done) && |now| == i + 1 && fragOff + n <= |body|
      ensures Progress(now, h, body, fragOff + n, before, transcript, retransmitting)
      ensures sent == out + now && Stamped(now, room)
      ensures done <==> fragOff + n == |body|
      ensures if done then initOff == 0 && initNum == 0 else SentUpTo(body, fragOff + n)
    {
      ghost var r;
      n, done, r := Turn(room(i), fragOff, records, h, body, before);
      Appended(out, records, r);
      now := records + [r];
    }

    /** dtls1_do_write for a handshake message: room(i) is what the MTU leaves for the i-th record. */
    method DoWrite(room: nat -> nat, ghost body: seq<byte>) returns (ghost records: seq<Record>)
      requires Loaded(body) && forall i :: room(i) > HEADER
      modifies this`initOff, this`initNum, this`hdr, this`sent, this`transcript, buf
      ensures initOff == 0 && initNum == 0 && |body| == old(hdr).msgLen && sent == old(sent) + records
      ensures FragmentsOf(records, old(hdr), body)
      ensures forall i: nat :: i < |records| ==> LaidFragment(records, old(hdr), body, i)
      ensures Stamped(records, room)
      ensures transcript ==
              old(transcript) + if retransmitting then [] else Unfragmented(old(hdr).kind, old(hdr).number, body)
    {
      ghost var h, before, out := hdr, transcript, sent;
      var fragOff, i, done := 0, 0, false;
      records := [];
      assert before + [] == before && out + records == out;
      while !done
        invariant Same(hdr, h) && |records| == i && sent == out + records
        invariant Progress(records, h, body, fragOff, before, transcript, retransmitting)
        invariant Stamped(records, room)
        invariant if done then fragOff == |body| && i > 0 && initOff == 0 && initNum == 0
                  else SentUpTo(body, fragOff) && (fragOff < |body| || fragOff == 0) && (i == 0 <==> fragOff == 0)
        decreases |body| - fragOff, !done
      {
        var n;
        n, done, records := CountedTurn(room, i, fragOff, records, h, body, before, out);
        fragOff, i := fragOff + n, i + 1;
      }
      AllRecorded(records, h, body, before, transcript, retransmitting);
      AllLaid(records, h, body);
    }

    /** dtls1_do_write for a change cipher spec: one byte, no header, not in the transcript. */
    method DoWriteCcs()
      requires initOff == 0 && initNum == 1 && 1 <= buf.Length
      modifies this`initNum, this`sent
      ensures initNum == 0 && sent == old(sent) + [Record(true, epoch, session, [buf[0]])]
    {
      assert buf[..1] == [buf[0]];
      sent := sent + [Record(true, epoch, session, buf[..1])];
      initNum := 0;
    }

    /** tls12_record_layer_use_write_epoch. */
    method UseEpoch(e: nat) returns (ok: bool)
      modifies this`epoch
      ensures ok <==> e == old(epoch) || Knows(e)
      ensures epoch == if ok then e else old(epoch)
    {
      ok := true;
      if epoch == e {
      } else if current == e {
        epoch := current;
      } else if previous.Some? && previous.value == e {
        epoch := previous.value;
      } else {
        ok := false;
      }
    }

    /** The record layer has keys for the epoch. */
    ghost predicate Knows(e: nat)
      reads this`current, this`previous
    {
      e == current || previous == Some(e)
    }

    /** tls12_record_layer_change_write_cipher_state: a new epoch, whose keys are used from now on. */
    method ChangeWriteState()
      modifies this`epoch, this`current, this`previous
      ensures current == old(current) + 1 && epoch == current && previous == Some(old(current))
    {
      previous := Some(current);
      current := current + 1;
      epoch := current;
    }

    /** tls12_record_layer_write_epoch_done. */
    method EpochDone(e: nat)
      modifies this`epoch, this`previous
      ensures if old(previous) == Some(e) then epoch == current && previous.None?
              else epoch == old(epoch) && previous == old(previous)
    {
      if previous.Some? && previous.value == e {
        epoch := current;
        previous := None;
      }
    }

    /** Under the current epoch and session, and within what the MTU leaves. */
    ghost predicate Stamped(records: seq<Record>, room: nat -> nat)
      reads this`epoch, this`session
    {
      forall i :: 0 <= i < |records| ==>
        records[i].epoch == epoch && records[i].session == session && !records[i].ccs && |records[i].bytes| <= room(i)
    }
  }

  lemma Tails(body: seq<byte>, off: nat, n: nat)
    requires off + n <= |body|
    ensures body[off..][n..] == body[off + n..] && body[off..][..n] == body[off..off + n]
  {
  }

  /** The transcript once something has been sent, up to off. */
  ghost function Recorded(h: Header, body: seq<byte>, off: nat): (r: seq<byte>)
    requires h.msgLen == |body| && off <= |body|
  {
    HeaderBytes(FragmentHeader(h, 0, |body|)) + body[..off]
  }

  /** The same message, whatever fragment was sent last. */
  ghost predicate Same(now: Header, h: Header) {
    now == h.(fragOff := now.fragOff, fragLen := now.fragLen)
  }

  /** Where the sending of a message stands. */
  ghost predicate Progress(records: seq<Record>, h: Header, body: seq<byte>, off: nat,
                           before: seq<byte>, transcript: seq<byte>, silent: bool) {
    && h.msgLen == |body| && off <= |body| && FragmentsUpTo(records, h, body, off)
    && transcript == before + if silent || records == [] then [] else Recorded(h, body, off)
  }

  lemma ProgressStep(records: seq<Record>, r: Record, h: Header, body: seq<byte>, off: nat, n: nat,
                     before: seq<byte>, was: seq<byte>, now: seq<byte>, silent: bool)
    requires Progress(records, h, body, off, before, was, silent) && (records == [] <==> off == 0)
    requires off + n <= |body| && (n > 0 || body == [])
    requires r.bytes == FragmentBytes(h, body, off, n)
    requires now == if silent then was else RecordMore(was, h, body, off, n)
    ensures Progress(records + [r], h, body, off + n, before, now, silent)
  {
    FragmentsSnoc(records, r, h, body, off, n);
    RecordedStep(before, h, body, off, n);
    assert before + [] == before;
  }

  lemma AllRecorded(records: seq<Record>, h: Header, body: seq<byte>, before: seq<byte>, transcript: seq<byte>,
                    silent: bool)
    requires Progress(records, h, body, |body|, before, transcript, silent) && records != []
    ensures transcript == before + if silent then [] else Unfragmented(h.kind, h.number, body)
  {
    assert body[..|body|] == body;
  }

  lemma Appended(out: seq<Record>, records: seq<Record>, r: Record)
    ensures out + records + [r] == out + (records + [r])
  {
  }

  /** What a fragment adds to the transcript. */
  ghost function RecordMore(was: seq<byte>, h: Header, body: seq<byte>, off: nat, n: nat): (r: seq<byte>)
    requires h.msgLen == |body| && off + n <= |body|
  {
    was + (if off == 0 then HeaderBytes(FragmentHeader(h, 0, |body|)) else []) + body[off..off + n]
  }

  lemma StillInPlace(b: seq<byte>, lo: nat, hi: nat, was: seq<byte>, n: nat)
    requires lo + n <= hi <= |b| && b[lo..hi] == was
    ensures b[lo + n..hi] == was[n..]
  {
  }

  lemma RecordedStep(before: seq<byte>, h: Header, body: seq<byte>, off: nat, n: nat)
    requires h.msgLen == |body| && off + n <= |body|
    ensures var header := HeaderBytes(FragmentHeader(h, 0, |body|));
            before + Recorded(h, body, off + n) ==
            if off == 0 then before + header + body[off..off + n]
            else before + Recorded(h, body, off) + [] + body[off..off + n]
  {
    var header := HeaderBytes(FragmentHeader(h, 0, |body|));
    assert body[..off + n] == body[..off] + body[off..off + n];
    Assoc(before, header, body[..off], body[off..off + n]);
  }

  lemma Assoc(a: seq<byte>, b: seq<byte>, c: seq<byte>, d: seq<byte>)
    ensures a + (b + (c + d)) == a + (b + c) + [] + d
    ensures c == [] ==> a + (b + (c + d)) == a + b + d
  {
  }
}
