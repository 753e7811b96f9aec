/** SSL_SESSION_encode: the calls on nested builders, field by field, with their exact outcome. */
module SessionWriter {
  import opened Encoding
  import opened ByteBuilder
  import opened TreeCodec
  import opened IntegerBuilder
  import opened ExactCalls
  import opened SessionCodec
  import SessionRoundTrip

  /** What writing a field makes of the levels: a negative number or an empty certificate fails, and so does
      what does not fit. */
  function FieldTaken(x: Option<seq<Level>>, f: Field, s: Session, asTicket: bool,
                      limit: nat): (r: Option<seq<Level>>) {
    if FieldOk(f, s) then AddNodes(x, FieldNodes(f, s, asTicket), limit) else None
  }

  function Taken(x: Option<seq<Level>>, fs: seq<Field>, s: Session, asTicket: bool,
                 limit: nat): (r: Option<seq<Level>>) {
    if fs == [] then x else FieldTaken(Taken(x, fs[..|fs| - 1], s, asTicket, limit), fs[|fs| - 1], s, asTicket, limit)
  }

  /** Builders nested in c are those that were there, or new. */
  twostate predicate Kept(c: Cbb, b: Buffer)
    reads c, b
  {
    forall i :: c.depth < i < |b.chain| ==> fresh(b.chain[i]) || (i < |old(b.chain)| && b.chain[i] == old(b.chain)[i])
  }

  /** The first five fields, which are always written. */
  method PutMandatory(c: Cbb, b: Buffer, f: Field, s: Session, asTicket: bool, ghost chain: seq<Cbb>) returns (ok: bool)
    requires Stands(c, b, chain) && !SessionRoundTrip.IsOptional(f)
    modifies b, b.chain
    ensures Held(ok, b.levels, c.depth, old(b.Limit())) ==
            FieldTaken(Close(old(b.levels), c.depth, old(b.Limit())), f, s, asTicket, old(b.Limit()))
    ensures ok ==> Stands(c, b, chain) && b.Limit() == old(b.Limit())
    ensures ok ==> Kept(c, b)
  {
    ghost var x := Close(b.levels, c.depth, b.Limit());
    if FieldOk(f, s) {
      AddOne(x, FieldNodes(f, s, asTicket)[0], b.Limit());
    }
    match f
    case Asn1Version => ok := PutInteger(c, b, ASN1_VERSION, chain);
    case Protocol =>
      ok := s.version >= 0;
      if ok {
        ok := PutInteger(c, b, s.version, chain);
      }
    case Cipher => ok := PutElement(c, b, OCTET_STRING, Short(s.cipher), chain);
    case Id => ok := PutElement(c, b, OCTET_STRING, Bytes(if asTicket then [] else s.id), chain);
    case Key => ok := PutElement(c, b, OCTET_STRING, Bytes(s.key), chain);
  }

  /** An optional number: tagged, left out when it is zero, refused when it is negative. */
  method PutNumber(c: Cbb, b: Buffer, tag: byte, v: int64, ghost chain: seq<Cbb>) returns (ok: bool)
    requires Stands(c, b, chain) && tag % 32 != 31
    modifies b, b.chain
    ensures Held(ok, b.levels, c.depth, old(b.Limit())) ==
            if v < 0 then None else
              AddNodes(Close(old(b.levels), c.depth, old(b.Limit())),
                       if v == 0 then [] else [Tagged(tag, [IntNode(v)])], old(b.Limit()))
    ensures ok ==> Stands(c, b, chain) && b.Limit() == old(b.Limit())
    ensures ok ==> Kept(c, b)
  {
    ok := true;
    if v != 0 {
      if v < 0 {
        return false;
      }
      AddOne(Close(b.levels, c.depth, b.Limit()), Tagged(tag, [IntNode(v)]), b.Limit());
      ok := PutElement(c, b, tag, Integer(v), chain);
    }
  }

  /** An optional string, inside an OCTET STRING or bare. */
  method PutString(c: Cbb, b: Buffer, tag: byte, data: Option<seq<byte>>, wrapped: bool, ghost chain: seq<Cbb>)
    returns (ok: bool)
    requires Stands(c, b, chain) && tag % 32 != 31
    modifies b, b.chain
    ensures Held(ok, b.levels, c.depth, old(b.Limit())) ==
            AddNodes(Close(old(b.levels), c.depth, old(b.Limit())), StringNodes(tag, data, wrapped), old(b.Limit()))
    ensures ok ==> Stands(c, b, chain) && b.Limit() == old(b.Limit())
    ensures ok ==> Kept(c, b)
  {
    ok := true;
    if data.Some? {
      AddOne(Close(b.levels, c.depth, b.Limit()), StringNodes(tag, data, wrapped)[0], b.Limit());
      ok := PutElement(c, b, tag, if wrapped then Wrapped(OCTET_STRING, data.value) else Bytes(data.value), chain);
    }
  }

  function StringNodes(tag: byte, data: Option<seq<byte>>, wrapped: bool): (r: seq<Node>) {
    if data.None? then [] else [Tagged(tag, [if wrapped then Octets(data.value) else Raw(data.value)])]
  }

  method PutOptional(c: Cbb, b: Buffer, f: Field, s: Session, asTicket: bool, ghost chain: seq<Cbb>) returns (ok: bool)
    requires Stands(c, b, chain) && SessionRoundTrip.IsOptional(f)
    modifies b, b.chain
    ensures Held(ok, b.levels, c.depth, old(b.Limit())) ==
            FieldTaken(Close(old(b.levels), c.depth, old(b.Limit())), f, s, asTicket, old(b.Limit()))
    ensures ok ==> Stands(c, b, chain) && b.Limit() == old(b.Limit())
    ensures ok ==> Kept(c, b)
  {
    match f
    case Time => ok := PutNumber(c, b, Tag(Time), s.time, chain);
    case Timeout => ok := PutNumber(c, b, Tag(Timeout), s.timeout, chain);
    case Peer =>
      if s.peer == Some([]) {
        return false;
      }
      ok := PutString(c, b, Tag(Peer), s.peer, false, chain);
    case Context => ok := PutString(c, b, Tag(Context), Some(s.context), true, chain);
    case Verify => ok := PutNumber(c, b, Tag(Verify), s.verify, chain);
    case Hostname => ok := PutString(c, b, Tag(Hostname), s.hostname, true, chain);
    case Lifetime => ok := PutNumber(c, b, Tag(Lifetime), s.lifetime, chain);
    case Ticket => ok := PutString(c, b, Tag(Ticket), s.ticket, true, chain);
  }

  method PutField(c: Cbb, b: Buffer, f: Field, s: Session, asTicket: bool, ghost chain: seq<Cbb>) returns (ok: bool)
    requires Stands(c, b, chain)
    modifies b, b.chain
    ensures Held(ok, b.levels, c.depth, old(b.Limit())) ==
            FieldTaken(Close(old(b.levels), c.depth, old(b.Limit())), f, s, asTicket, old(b.Limit()))
    ensures ok ==> Stands(c, b, chain) && b.Limit() == old(b.Limit())
    ensures ok ==> Kept(c, b)
  {
    if SessionRoundTrip.IsOptional(f) {
      ok := PutOptional(c, b, f, s, asTicket, chain);
    } else {
      ok := PutMandatory(c, b, f, s, asTicket, chain);
    }
  }

  method PutFields(c: Cbb, b: Buffer, fs: seq<Field>, s: Session, asTicket: bool, ghost chain: seq<Cbb>)
    returns (ok: bool)
    requires Stands(c, b, chain)
    modifies b, b.chain
    ensures Held(ok, b.levels, c.depth, old(b.Limit())) ==
            Taken(Close(old(b.levels), c.depth, old(b.Limit())), fs, s, asTicket, old(b.Limit()))
    ensures ok ==> Stands(c, b, chain) && b.Limit() == old(b.Limit())
    ensures ok ==> Kept(c, b)
  {
    ghost var x, limit := Close(b.levels, c.depth, b.Limit()), b.Limit();
    ok := true;
    var i := 0;
    while i < |fs| && ok
      invariant 0 <= i <= |fs| && (ok ==> Stands(c, b, chain) && b.Limit() == limit)
      invariant ok ==> Kept(c, b)
      invariant Held(ok, b.levels, c.depth, limit) == Taken(x, fs[..i], s, asTicket, limit)
    {
      TakenSnoc(x, fs, i, s, asTicket, limit);
      ok := PutField(c, b, fs[i], s, asTicket, chain);
      i := i + 1;
    }
    if !ok {
      TakenFails(x, fs, i, s, asTicket, limit);
    } else {
      assert fs[..i] == fs;
    }
  }

  lemma TakenSnoc(x: Option<seq<Level>>, fs: seq<Field>, i: nat, s: Session, asTicket: bool, limit: nat)
    requires i < |fs|
    ensures Taken(x, fs[..i + 1], s, asTicket, limit) ==
              FieldTaken(Taken(x, fs[..i], s, asTicket, limit), fs[i], s, asTicket, limit)
  {
    assert fs[..i + 1][..i] == fs[..i];
  }

  lemma {:induction false} TakenFails(x: Option<seq<Level>>, fs: seq<Field>, i: nat, s: Session, asTicket: bool,
                                      limit: nat)
    requires i <= |fs| && Taken(x, fs[..i], s, asTicket, limit).None?
    ensures Taken(x, fs, s, asTicket, limit).None?
    decreases |fs| - i
  {
    if i == |fs| {
      assert fs[..i] == fs;
    } else {
      TakenSnoc(x, fs, i, s, asTicket, limit);
      if FieldOk(fs[i], s) {
        NoneAdded(FieldNodes(fs[i], s, asTicket), limit);
      }
      TakenFails(x, fs, i + 1, s, asTicket, limit);
    }
  }

  lemma {:induction false} NodesSnoc(fs: seq<Field>, f: Field, s: Session, asTicket: bool)
    requires Encodable(s)
    ensures SessionNodes(fs + [f], s, asTicket) == SessionNodes(fs, s, asTicket) + FieldNodes(f, s, asTicket)
  {
    if fs == [] {
      assert [f] == [] + [f] && [f][1..] == [];
      assert FieldNodes(f, s, asTicket) + [] == [] + FieldNodes(f, s, asTicket);
    } else {
      NodesSnoc(fs[1..], f, s, asTicket);
      assert (fs + [f])[1..] == fs[1..] + [f];
    }
  }

  /** Writing a field adds its node, if it has one. */
  lemma FieldAdds(x: Option<seq<Level>>, ns: seq<Node>, f: Field, s: Session, asTicket: bool, limit: nat)
    requires FieldOk(f, s)
    ensures AddNodes(x, ns + FieldNodes(f, s, asTicket), limit) ==
              FieldTaken(AddNodes(x, ns, limit), f, s, asTicket, limit)
  {
    var n := FieldNodes(f, s, asTicket);
    if n == [] {
      assert ns + n == ns;
    } else {
      assert n == [n[0]];
      AddNodesSnoc(x, ns, n[0], limit);
      AddOne(AddNodes(x, ns, limit), n[0], limit);
    }
  }

  lemma {:induction false} TakenExact(x: Option<seq<Level>>, fs: seq<Field>, s: Session, asTicket: bool, limit: nat)
    requires Encodable(s)
    ensures Taken(x, fs, s, asTicket, limit) == AddNodes(x, SessionNodes(fs, s, asTicket), limit)
  {
    if fs != [] {
      var t, f := fs[..|fs| - 1], fs[|fs| - 1];
      assert fs == t + [f];
      NodesSnoc(t, f, s, asTicket);
      var ns := SessionNodes(t, s, asTicket);
      FieldAdds(x, ns, f, s, asTicket, limit);
      TakenExact(x, t, s, asTicket, limit);
    }
  }

  /** One number or certificate that cannot be written fails the whole. */
  lemma OneRefused(x: Option<seq<Level>>, s: Session, asTicket: bool, limit: nat)
    requires !Encodable(s)
    ensures Taken(x, FIELDS, s, asTicket, limit).None?
  {
    var f := if s.version < 0 then Protocol else if s.time < 0 then Time else if s.timeout < 0 then Timeout
             else if s.verify < 0 then Verify else Peer;
    var i := SessionRoundTrip.Place(f);
    assert FIELDS[i] == f;
    TakenSnoc(x, FIELDS, i, s, asTicket, limit);
    TakenFails(x, FIELDS, i + 1, s, asTicket, limit);
  }

  /** Every length fits its octets, and the whole a size. */
  predicate Fits(s: Session, asTicket: bool)
    requires Encodable(s)
  {
    Writable(SessionTree(s, asTicket)) && |EncodeNode(SessionTree(s, asTicket))| <= SIZE_MAX
  }

  /** What is held in the end, from an empty builder. */
  function Whole(s: Session, asTicket: bool): (r: Option<seq<Level>>) {
    if Encodable(s) && Fits(s, asTicket) then Some([Level(Top, 0, [SessionTree(s, asTicket)])]) else None
  }

  lemma WholeExact(s: Session, asTicket: bool)
    ensures var start := [Level(Top, 0, [])];
            Left(Taken(Entered(Some(start), SEQUENCE, SIZE_MAX), FIELDS, s, asTicket, SIZE_MAX), SIZE_MAX) ==
            Whole(s, asTicket)
  {
    if Encodable(s) {
      InSequence(SessionNodes(FIELDS, s, asTicket));
      TakenExact(Entered(Some([Level(Top, 0, [])]), SEQUENCE, SIZE_MAX), FIELDS, s, asTicket, SIZE_MAX);
    } else {
      OneRefused(Entered(Some([Level(Top, 0, [])]), SEQUENCE, SIZE_MAX), s, asTicket, SIZE_MAX);
    }
  }

  /** A SEQUENCE around the given nodes, from an empty builder. */
  lemma InSequence(ns: seq<Node>)
    ensures var start := [Level(Top, 0, [])];
            Left(AddNodes(Entered(Some(start), SEQUENCE, SIZE_MAX), ns, SIZE_MAX), SIZE_MAX) ==
            if Writable(Tagged(SEQUENCE, ns)) && |EncodeNode(Tagged(SEQUENCE, ns))| <= SIZE_MAX
            then Some([Level(Top, 0, [Tagged(SEQUENCE, ns)])]) else None
  {
    var start := [Level(Top, 0, [])];
    ImageTop(start);
    WrapExact(start, SEQUENCE, ns, SIZE_MAX);
    assert [] + [Tagged(SEQUENCE, ns)] == [Tagged(SEQUENCE, ns)];
  }

  /** SSL_SESSION_encode: it gives the encoding exactly when no number is negative, the peer certificate is not
      empty and everything fits. */
  method EncodeSession(s: Session, asTicket: bool) returns (out: Option<seq<byte>>)
    ensures out == if Encodable(s) && Fits(s, asTicket) then Some(EncodeNode(SessionTree(s, asTicket))) else None
  {
    var cbb, b := Init(0, true);
    out := None;
    WholeExact(s, asTicket);
    StartClosed();
    var ok, session := WriteSession(cbb, b, FIELDS, s, asTicket);
    if ok {
      out := FinishSession(cbb, session, b, s, asTicket);
    }
  }

  /** The outer SEQUENCE and the fields inside it. */
  method WriteSession(cbb: Cbb, b: Buffer, fs: seq<Field>, s: Session, asTicket: bool) returns (ok: bool, session: Cbb)
    requires Stands(cbb, b, [cbb]) && cbb.depth == 0
    modifies b, b.chain
    ensures Held(ok, b.levels, 0, old(b.Limit())) ==
            Left(Taken(Entered(Close(old(b.levels), 0, old(b.Limit())), SEQUENCE, old(b.Limit())), fs, s, asTicket,
                       old(b.Limit())), old(b.Limit()))
    ensures ok ==> Stands(session, b, [cbb] + [session]) && session.depth == 1 && b.Limit() == old(b.Limit())
    ensures ok ==> forall i :: 0 < i < |b.chain| ==> fresh(b.chain[i])
  {
    ghost var limit := b.Limit();
    ghost var x := Entered(Close(b.levels, 0, limit), SEQUENCE, limit);
    ok, session := EnterElement(cbb, b, SEQUENCE, [cbb]);
    if ok {
      ClosedAlready(b.levels, limit);
      label entered:
      ok := PutFields(session, b, fs, s, asTicket, [cbb] + [session]);
      HeldFurther(ok, b.levels, 0, limit);
      if ok {
        assert Kept@entered(session, b);
        forall i | 0 < i < |b.chain|
          ensures fresh(b.chain[i])
        {
          assert i == 1 ==> b.chain[i] == session;
        }
      }
    } else {
      TakenFails(x, fs, 0, s, asTicket, limit);
    }
  }

  lemma StartClosed()
    ensures Close([Level(Top, 0, [])], 0, SIZE_MAX) == Some([Level(Top, 0, [])])
  {
  }

  method FinishSession(cbb: Cbb, session: Cbb, b: Buffer, s: Session, asTicket: bool) returns (out: Option<seq<byte>>)
    requires Stands(session, b, [cbb] + [session]) && cbb.depth == 0 && session.depth == 1 && b.Limit() == SIZE_MAX
    requires Close(b.levels, 0, SIZE_MAX) == Whole(s, asTicket)
    modifies b, b.chain
    ensures out == if Encodable(s) && Fits(s, asTicket) then Some(EncodeNode(SessionTree(s, asTicket))) else None
  {
    ParentStands(cbb, session, b, [cbb]);
    assert b.Linked(0);
    var bytes := Finish(cbb, b);
    out := None;
    if bytes.Some? {
      SessionRoundTrip.EncodeOne(SessionTree(s, asTicket));
      out := Some(bytes.value);
    }
  }
}
