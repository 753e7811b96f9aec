/** Decoding the encoding of a session gives the session back. */
module SessionRoundTrip {
  import opened Encoding
  import opened ByteParser
  import D = DerInteger
  import opened IntegerBuilder
  import opened SessionCodec
  import T = TreeCodec

  // --------------------------------------------------------------------------
  // Elements
  // --------------------------------------------------------------------------

  lemma EncodeOne(n: Node)
    ensures Encode([n]) == EncodeNode(n)
  {
    EncodeAppend([], n);
    assert [] + [n] == [n];
  }

  lemma {:induction false} EncodeConcat(a: seq<Node>, b: seq<Node>)
    ensures Encode(a + b) == Encode(a) + Encode(b)
  {
    if b == [] {
      assert a + b == a;
    } else {
      var t, n := b[..|b| - 1], b[|b| - 1];
      EncodeConcat(a, t);
      assert a + b == a + t + [n] && b == t + [n];
      EncodeAppend(a + t, n);
      EncodeAppend(t, n);
      Assoc(Encode(a), Encode(t), EncodeNode(n));
    }
  }

  lemma Assoc(a: seq<byte>, b: seq<byte>, c: seq<byte>)
    ensures a + b + c == a + (b + c)
  {
  }

  lemma UintBack(v: nat, rest: seq<byte>)
    requires v < D.TWO_64
    ensures D.GetUint64(EncodeNode(IntNode(v)) + rest) == Some(Got(v, rest))
  {
    IntNodeBytes(v);
    D.Uint64Exact(D.DerUint(v) + rest, v, rest);
  }

  lemma OctetsBack(c: seq<byte>, rest: seq<byte>)
    requires |c| <= 0xffff_fffe
    ensures GetAsn1(EncodeNode(Octets(c)) + rest, OCTET_STRING) == Some(Got(c, rest))
  {
    Asn1Exact(EncodeNode(Octets(c)) + rest, OCTET_STRING, c, rest);
  }

  lemma ElementBack(tag: byte, ns: seq<Node>, rest: seq<byte>)
    requires T.Writable(Tagged(tag, ns))
    ensures EncodeNode(Tagged(tag, ns)) != [] && EncodeNode(Tagged(tag, ns))[0] == tag
    ensures GetAsn1(EncodeNode(Tagged(tag, ns)) + rest, tag) == Some(Got(Encode(ns), rest))
  {
    Asn1Accepted(tag, Encode(ns), rest);
  }

  lemma OptionalBack(tag: byte, n: Node, rest: seq<byte>)
    requires T.Writable(Tagged(tag, [n]))
    ensures GetOptional(EncodeNode(Tagged(tag, [n])) + rest, tag) == Some(Got(Some(EncodeNode(n)), rest))
  {
    ElementBack(tag, [n], rest);
    EncodeOne(n);
  }

  predicate NotNext(rest: seq<byte>, tag: byte) {
    rest == [] || rest[0] != tag
  }

  /** An optional number: written only when it is not the default. */
  lemma OptionalUintBack(tag: byte, v: nat, rest: seq<byte>)
    requires v < D.TWO_64 && NotNext(rest, tag) && T.Writable(Tagged(tag, [IntNode(v)]))
    ensures GetOptionalUint((if v == 0 then [] else EncodeNode(Tagged(tag, [IntNode(v)]))) + rest, tag, 0) ==
            Some(Got(v, rest))
  {
    if v == 0 {
      assert [] + rest == rest;
    } else {
      OptionalBack(tag, IntNode(v), rest);
      UintBack(v, []);
      assert EncodeNode(IntNode(v)) + [] == EncodeNode(IntNode(v));
    }
  }

  lemma OptionalOctetsBack(tag: byte, c: seq<byte>, rest: seq<byte>)
    requires |c| <= 0xffff_fffe && T.Writable(Tagged(tag, [Octets(c)]))
    ensures GetOptionalOctets(EncodeNode(Tagged(tag, [Octets(c)])) + rest, tag) == Some(Got(Some(c), rest))
  {
    OptionalBack(tag, Octets(c), rest);
    OctetsBack(c, []);
    assert EncodeNode(Octets(c)) + [] == EncodeNode(Octets(c));
  }

  lemma AbsentBack(tag: byte, rest: seq<byte>)
    requires NotNext(rest, tag)
    ensures GetOptional([] + rest, tag) == Some(Got(None, rest))
    ensures GetOptionalOctets([] + rest, tag) == Some(Got(None, rest))
  {
    assert [] + rest == rest;
  }

  // --------------------------------------------------------------------------
  // Fields
  // --------------------------------------------------------------------------

  function FieldBytes(f: Field, s: Session, asTicket: bool): (r: seq<byte>)
    requires Encodable(s)
  {
    Encode(FieldNodes(f, s, asTicket))
  }

  predicate IsOptional(f: Field) {
    !f.Asn1Version? && !f.Protocol? && !f.Cipher? && !f.Id? && !f.Key?
  }

  /** Nothing that belongs to f can be taken for what follows. */
  predicate Separate(f: Field, rest: seq<byte>) {
    IsOptional(f) ==> NotNext(rest, Tag(f))
  }

  lemma NumberBack(f: Field, a: Session, s: Session, w: Outside, asTicket: bool, rest: seq<byte>)
    requires Valid(s, w) && (f.Asn1Version? || f.Protocol?)
    ensures ReadField(f, a, FieldBytes(f, s, asTicket) + rest, w) == Some(Got(Restored(f, a, s, asTicket, w.now), rest))
  {
    var v := if f.Asn1Version? then ASN1_VERSION else s.version;
    EncodeOne(IntNode(v));
    UintBack(v, rest);
  }

  lemma IdBack(a: Session, s: Session, w: Outside, asTicket: bool, rest: seq<byte>)
    requires Valid(s, w)
    ensures ReadField(Id, a, FieldBytes(Id, s, asTicket) + rest, w) ==
              Some(Got(Restored(Id, a, s, asTicket, w.now), rest))
  {
    var c := if asTicket then [] else s.id;
    BoundedBack(c, MAX_ID, rest);
  }

  lemma BoundedBack(c: seq<byte>, max: nat, rest: seq<byte>)
    requires |c| <= max <= 0xffff_fffe
    ensures Bounded(GetAsn1(Encode([Octets(c)]) + rest, OCTET_STRING), max) == Some(Got(c, rest))
  {
    EncodeOne(Octets(c));
    OctetsBack(c, rest);
  }

  lemma KeyBack(a: Session, s: Session, w: Outside, asTicket: bool, rest: seq<byte>)
    requires Valid(s, w)
    ensures ReadField(Key, a, FieldBytes(Key, s, asTicket) + rest, w) ==
              Some(Got(Restored(Key, a, s, asTicket, w.now), rest))
  {
    BoundedBack(s.key, MAX_KEY, rest);
  }

  lemma CipherBytes(v: nat, rest: seq<byte>)
    requires v < 0x1_0000
    ensures CipherValue(Some(Got(BigEndian(v, 2), rest))) == Some(Got(v, rest))
  {
    Pow256Small();
    UintRoundTrip(v, 2, []);
    assert BigEndian(v, 2) + [] == BigEndian(v, 2);
  }

  lemma CipherBack(a: Session, s: Session, w: Outside, asTicket: bool, rest: seq<byte>)
    requires Valid(s, w)
    ensures ReadField(Cipher, a, FieldBytes(Cipher, s, asTicket) + rest, w) ==
              Some(Got(Restored(Cipher, a, s, asTicket, w.now), rest))
  {
    var c := BigEndian(s.cipher, 2);
    CipherBytes(s.cipher, rest);
    EncodeOne(Octets(c));
    OctetsBack(c, rest);
  }

  lemma SmallWritable(tag: byte, v: nat)
    requires tag % 32 != 31 && v < D.TWO_64
    ensures T.Writable(Tagged(tag, [IntNode(v)]))
  {
    IntNodeBytes(v);
    IntNodeLength(v);
    ContentShort(v);
    EncodeOne(IntNode(v));
    assert [IntNode(v)][..0] == [];
  }

  lemma OptionalEncoded(tag: byte, v: nat, rest: seq<byte>)
    requires tag % 32 != 31 && v < D.TWO_64 && NotNext(rest, tag)
    ensures GetOptionalUint(NumberBytes(tag, v) + rest, tag, 0) == Some(Got(v, rest))
  {
    SmallWritable(tag, v);
    EncodeOne(Tagged(tag, [IntNode(v)]));
    OptionalUintBack(tag, v, rest);
  }

  /** The bytes of an optional number. */
  function NumberBytes(tag: byte, v: nat): (r: seq<byte>)
    requires v < D.TWO_64
  {
    Encode(if v == 0 then [] else [Tagged(tag, [IntNode(v)])])
  }

  lemma TimeRead(a: Session, b: seq<byte>, w: Outside, v: int64, rest: seq<byte>)
    requires 0 <= v <= TIME_MAX && GetOptionalUint(b, Tag(Time), 0) == Some(Got(v, rest))
    ensures ReadField(Time, a, b, w) == Some(Got(a.(time := if v == 0 then w.now else v), rest))
  {
  }

  lemma TimeBack(a: Session, s: Session, w: Outside, asTicket: bool, rest: seq<byte>)
    requires Valid(s, w) && NotNext(rest, Tag(Time))
    ensures ReadField(Time, a, FieldBytes(Time, s, asTicket) + rest, w) ==
              Some(Got(Restored(Time, a, s, asTicket, w.now), rest))
  {
    OptionalEncoded(Tag(Time), s.time, rest);
    assert FieldBytes(Time, s, asTicket) == NumberBytes(Tag(Time), s.time);
    TimeRead(a, NumberBytes(Tag(Time), s.time) + rest, w, s.time, rest);
  }

  lemma TimeoutRead(a: Session, b: seq<byte>, w: Outside, v: int64, rest: seq<byte>)
    requires 0 <= v <= LONG_MAX && GetOptionalUint(b, Tag(Timeout), 0) == Some(Got(v, rest))
    ensures ReadField(Timeout, a, b, w) == Some(Got(a.(timeout := if v == 0 then 3 else v), rest))
  {
  }

  lemma TimeoutBack(a: Session, s: Session, w: Outside, asTicket: bool, rest: seq<byte>)
    requires Valid(s, w) && NotNext(rest, Tag(Timeout))
    ensures ReadField(Timeout, a, FieldBytes(Timeout, s, asTicket) + rest, w) ==
              Some(Got(Restored(Timeout, a, s, asTicket, w.now), rest))
  {
    OptionalEncoded(Tag(Timeout), s.timeout, rest);
    assert FieldBytes(Timeout, s, asTicket) == NumberBytes(Tag(Timeout), s.timeout);
    TimeoutRead(a, NumberBytes(Tag(Timeout), s.timeout) + rest, w, s.timeout, rest);
  }

  lemma VerifyRead(a: Session, b: seq<byte>, w: Outside, v: int64, rest: seq<byte>)
    requires 0 <= v <= LONG_MAX && GetOptionalUint(b, Tag(Verify), 0) == Some(Got(v, rest))
    ensures ReadField(Verify, a, b, w) == Some(Got(a.(verify := v), rest))
  {
  }

  lemma VerifyBack(a: Session, s: Session, w: Outside, asTicket: bool, rest: seq<byte>)
    requires Valid(s, w) && NotNext(rest, Tag(Verify))
    ensures ReadField(Verify, a, FieldBytes(Verify, s, asTicket) + rest, w) ==
              Some(Got(Restored(Verify, a, s, asTicket, w.now), rest))
  {
    OptionalEncoded(Tag(Verify), s.verify, rest);
    assert FieldBytes(Verify, s, asTicket) == NumberBytes(Tag(Verify), s.verify);
    VerifyRead(a, NumberBytes(Tag(Verify), s.verify) + rest, w, s.verify, rest);
  }

  lemma LifetimeRead(a: Session, b: seq<byte>, w: Outside, v: u32, rest: seq<byte>)
    requires 0 <= v <= UINT32_MAX && GetOptionalUint(b, Tag(Lifetime), 0) == Some(Got(v, rest))
    ensures ReadField(Lifetime, a, b, w) == Some(Got(a.(lifetime := v), rest))
  {
  }

  lemma LifetimeBack(a: Session, s: Session, w: Outside, asTicket: bool, rest: seq<byte>)
    requires Valid(s, w) && NotNext(rest, Tag(Lifetime))
    ensures ReadField(Lifetime, a, FieldBytes(Lifetime, s, asTicket) + rest, w) ==
              Some(Got(Restored(Lifetime, a, s, asTicket, w.now), rest))
  {
    OptionalEncoded(Tag(Lifetime), s.lifetime, rest);
    assert FieldBytes(Lifetime, s, asTicket) == NumberBytes(Tag(Lifetime), s.lifetime);
    LifetimeRead(a, NumberBytes(Tag(Lifetime), s.lifetime) + rest, w, s.lifetime, rest);
  }

  function StringOf(f: Field, s: Session): (c: Option<seq<byte>>) {
    match f
    case Context => Some(s.context)
    case Hostname => s.hostname
    case _ => s.ticket
  }

  /** The string is found, or found to be absent. */
  lemma StringThere(f: Field, s: Session, asTicket: bool, rest: seq<byte>)
    requires Encodable(s) && (f.Context? || f.Hostname? || f.Ticket?) && NotNext(rest, Tag(f))
    requires T.AllWritable(FieldNodes(f, s, asTicket))
    ensures GetOptionalOctets(FieldBytes(f, s, asTicket) + rest, Tag(f)) == Some(Got(StringOf(f, s), rest))
  {
    var c := StringOf(f, s);
    if c.None? {
      AbsentBack(Tag(f), rest);
    } else {
      var n := Tagged(Tag(f), [Octets(c.value)]);
      assert FieldNodes(f, s, asTicket) == [n];
      OneWritable(n);
      OneWritable(Octets(c.value));
      InnerShort(Tag(f), c.value);
      EncodeOne(n);
      OptionalOctetsBack(Tag(f), c.value, rest);
    }
  }

  lemma StringRead(f: Field, a: Session, s: Session, b: seq<byte>, w: Outside, asTicket: bool, rest: seq<byte>)
    requires Valid(s, w) && (f.Context? || f.Hostname? || f.Ticket?)
    requires GetOptionalOctets(b, Tag(f)) == Some(Got(StringOf(f, s), rest))
    ensures ReadField(f, a, b, w) == Some(Got(Restored(f, a, s, asTicket, w.now), rest))
  {
  }

  lemma OptionalStringBack(f: Field, a: Session, s: Session, w: Outside, asTicket: bool, rest: seq<byte>)
    requires Valid(s, w) && (f.Context? || f.Hostname? || f.Ticket?) && NotNext(rest, Tag(f))
    requires T.AllWritable(FieldNodes(f, s, asTicket))
    ensures ReadField(f, a, FieldBytes(f, s, asTicket) + rest, w) == Some(Got(Restored(f, a, s, asTicket, w.now), rest))
  {
    StringThere(f, s, asTicket, rest);
    StringRead(f, a, s, FieldBytes(f, s, asTicket) + rest, w, asTicket, rest);
  }

  lemma OneWritable(n: Node)
    ensures T.AllWritable([n]) ==> T.Writable(n)
  {
  }

  lemma InnerShort(tag: byte, c: seq<byte>)
    requires T.Writable(Tagged(tag, [Octets(c)]))
    ensures |c| <= 0xffff_fffe
  {
    OneWritable(Octets(c));
    EncodeOne(Raw(c));
  }

  lemma PeerBack(a: Session, s: Session, w: Outside, asTicket: bool, rest: seq<byte>)
    requires Valid(s, w) && NotNext(rest, Tag(Peer)) && T.AllWritable(FieldNodes(Peer, s, asTicket))
    ensures ReadField(Peer, a, FieldBytes(Peer, s, asTicket) + rest, w) ==
              Some(Got(Restored(Peer, a, s, asTicket, w.now), rest))
  {
    if s.peer.None? {
      AbsentBack(Tag(Peer), rest);
    } else {
      var n := Tagged(Tag(Peer), [Raw(s.peer.value)]);
      OneWritable(n);
      EncodeOne(n);
      OptionalBack(Tag(Peer), Raw(s.peer.value), rest);
    }
  }

  /** Every field is read back, whatever follows. */
  lemma FieldBack(f: Field, a: Session, s: Session, w: Outside, asTicket: bool, rest: seq<byte>)
    requires Valid(s, w) && Separate(f, rest) && T.AllWritable(FieldNodes(f, s, asTicket))
    ensures ReadField(f, a, FieldBytes(f, s, asTicket) + rest, w) == Some(Got(Restored(f, a, s, asTicket, w.now), rest))
  {
    if f.Asn1Version? || f.Protocol? {
      NumberBack(f, a, s, w, asTicket, rest);
    } else if f.Id? {
      IdBack(a, s, w, asTicket, rest);
    } else if f.Key? {
      KeyBack(a, s, w, asTicket, rest);
    } else if f.Cipher? {
      CipherBack(a, s, w, asTicket, rest);
    } else if f.Peer? {
      PeerBack(a, s, w, asTicket, rest);
    } else if f.Context? || f.Hostname? || f.Ticket? {
      OptionalStringBack(f, a, s, w, asTicket, rest);
    } else if f.Time? {
      TimeBack(a, s, w, asTicket, rest);
    } else if f.Timeout? {
      TimeoutBack(a, s, w, asTicket, rest);
    } else if f.Verify? {
      VerifyBack(a, s, w, asTicket, rest);
    } else {
      LifetimeBack(a, s, w, asTicket, rest);
    }
  }

  // --------------------------------------------------------------------------
  // The whole session
  // --------------------------------------------------------------------------

  function Tail(fs: seq<Field>, s: Session, asTicket: bool): (r: seq<byte>)
    requires Encodable(s)
  {
    Encode(SessionNodes(fs, s, asTicket))
  }

  lemma TailStep(fs: seq<Field>, s: Session, asTicket: bool)
    requires Encodable(s) && fs != []
    ensures Tail(fs, s, asTicket) == FieldBytes(fs[0], s, asTicket) + Tail(fs[1..], s, asTicket)
  {
    EncodeConcat(FieldNodes(fs[0], s, asTicket), SessionNodes(fs[1..], s, asTicket));
  }

  lemma StartsWithTag(n: Node)
    requires n.Tagged?
    ensures Encode([n]) != [] && Encode([n])[0] == n.tag
  {
    EncodeOne(n);
  }

  /** A field that is written starts with its tag. */
  lemma FieldFirst(f: Field, s: Session, asTicket: bool)
    requires Encodable(s) && IsOptional(f)
    ensures FieldBytes(f, s, asTicket) == [] || FieldBytes(f, s, asTicket)[0] == Tag(f)
  {
    var ns := FieldNodes(f, s, asTicket);
    if ns != [] {
      assert ns[0].Tagged? && ns[0].tag == Tag(f);
      StartsWithTag(ns[0]);
      assert |ns| == 1 && ns == [ns[0]];
    }
  }

  /** What follows never starts with the tag of a field that is not among it. */
  lemma {:induction false} TailSeparate(fs: seq<Field>, s: Session, asTicket: bool, f: Field)
    requires Encodable(s) && IsOptional(f) && forall i :: 0 <= i < |fs| ==> fs[i] != f && IsOptional(fs[i])
    ensures NotNext(Tail(fs, s, asTicket), Tag(f))
  {
    if fs != [] {
      TailSeparate(fs[1..], s, asTicket, f);
      TailStep(fs, s, asTicket);
      FieldFirst(fs[0], s, asTicket);
      TagsDiffer(fs[0], f);
      var b := FieldBytes(fs[0], s, asTicket);
      if b == [] {
        assert b + Tail(fs[1..], s, asTicket) == Tail(fs[1..], s, asTicket);
      }
    }
  }

  lemma TagsDiffer(f: Field, g: Field)
    requires IsOptional(f) && IsOptional(g) && f != g
    ensures Tag(f) != Tag(g)
  {
  }

  /** The place of a field. */
  function Place(f: Field): (k: nat) {
    match f
    case Asn1Version => 0 case Protocol => 1 case Cipher => 2 case Id => 3 case Key => 4 case Time => 5
    case Timeout => 6 case Peer => 7 case Context => 8 case Verify => 9 case Hostname => 10
    case Lifetime => 11 case Ticket => 12
  }

  lemma Places(k: nat)
    requires k < |FIELDS|
    ensures Place(FIELDS[k]) == k && (IsOptional(FIELDS[k]) <==> k >= 5)
  {
  }

  lemma SuffixSeparate(k: nat, s: Session, asTicket: bool)
    requires k < |FIELDS| && Encodable(s)
    ensures Separate(FIELDS[k], Tail(FIELDS[k + 1..], s, asTicket))
  {
    Places(k);
    var f, fs := FIELDS[k], FIELDS[k + 1..];
    if IsOptional(f) {
      forall i | 0 <= i < |fs|
        ensures fs[i] != f && IsOptional(fs[i])
      {
        assert fs[i] == FIELDS[k + 1 + i];
        Places(k + 1 + i);
      }
      TailSeparate(fs, s, asTicket, f);
    }
  }

  lemma {:induction false} WritableSuffix(a: seq<Node>, b: seq<Node>)
    requires T.AllWritable(a + b)
    ensures T.AllWritable(a) && T.AllWritable(b)
  {
    if b == [] {
      assert a + b == a;
    } else {
      assert (a + b)[..|a + b| - 1] == a + b[..|b| - 1];
      WritableSuffix(a, b[..|b| - 1]);
    }
  }

  /** One field is read back, and those after it are. */
  lemma OneMoreBack(fs: seq<Field>, a: Session, s: Session, w: Outside, asTicket: bool)
    requires fs != [] && Valid(s, w) && T.AllWritable(SessionNodes(fs, s, asTicket))
    requires IsOptional(fs[0]) ==> NotNext(Tail(fs[1..], s, asTicket), Tag(fs[0]))
    requires var next := Restored(fs[0], a, s, asTicket, w.now);
             ReadFields(fs[1..], next, Tail(fs[1..], s, asTicket), w) ==
               Some(Got(RestoredAll(fs[1..], next, s, asTicket, w.now), []))
    ensures ReadFields(fs, a, Tail(fs, s, asTicket), w) == Some(Got(RestoredAll(fs, a, s, asTicket, w.now), []))
  {
    WritableSuffix(FieldNodes(fs[0], s, asTicket), SessionNodes(fs[1..], s, asTicket));
    FieldBack(fs[0], a, s, w, asTicket, Tail(fs[1..], s, asTicket));
    TailStep(fs, s, asTicket);
  }

  /** The fields from the k-th on are read back. */
  lemma {:induction false} FieldsBack(k: nat, a: Session, s: Session, w: Outside, asTicket: bool)
    requires k <= |FIELDS| && Valid(s, w) && T.AllWritable(SessionNodes(FIELDS[k..], s, asTicket))
    ensures ReadFields(FIELDS[k..], a, Tail(FIELDS[k..], s, asTicket), w)
         == Some(Got(RestoredAll(FIELDS[k..], a, s, asTicket, w.now), []))
    decreases |FIELDS| - k
  {
    var fs := FIELDS[k..];
    if k < |FIELDS| {
      var f := FIELDS[k];
      assert fs[0] == f && fs[1..] == FIELDS[k + 1..];
      WritableSuffix(FieldNodes(f, s, asTicket), SessionNodes(fs[1..], s, asTicket));
      SuffixSeparate(k, s, asTicket);
      FieldsBack(k + 1, Restored(f, a, s, asTicket, w.now), s, w, asTicket);
      OneMoreBack(fs, a, s, w, asTicket);
    }
  }

  /** The session after the round trip: default times, no empty ticket, and no identifier in a ticket. */
  function Normal(s: Session, asTicket: bool, now: int64): (r: Session) {
    s.(id := if asTicket then [] else s.id, time := if s.time == 0 then now else s.time,
       timeout := if s.timeout == 0 then 3 else s.timeout, ticket := if s.ticket == Some([]) then None else s.ticket)
  }

  /** A field of a, as told by its name. */
  ghost predicate Agrees(f: Field, a: Session, n: Session) {
    match f
    case Asn1Version => true
    case Protocol => a.version == n.version
    case Cipher => a.cipher == n.cipher
    case Id => a.id == n.id
    case Key => a.key == n.key
    case Time => a.time == n.time
    case Timeout => a.timeout == n.timeout
    case Peer => a.peer == n.peer
    case Context => a.context == n.context
    case Verify => a.verify == n.verify
    case Hostname => a.hostname == n.hostname
    case Lifetime => a.lifetime == n.lifetime
    case Ticket => a.ticket == n.ticket
  }

  lemma {:induction false} RestoredAgrees(fs: seq<Field>, a: Session, s: Session, asTicket: bool, now: int64, f: Field)
    requires f in fs || Agrees(f, a, Normal(s, asTicket, now))
    ensures Agrees(f, RestoredAll(fs, a, s, asTicket, now), Normal(s, asTicket, now))
  {
    if fs != [] {
      assert fs == [fs[0]] + fs[1..];
      RestoredAgrees(fs[1..], Restored(fs[0], a, s, asTicket, now), s, asTicket, now, f);
    }
  }

  lemma RestoredNormal(a: Session, s: Session, asTicket: bool, now: int64)
    ensures RestoredAll(FIELDS, a, s, asTicket, now) == Normal(s, asTicket, now)
  {
    forall f: Field
      ensures Agrees(f, RestoredAll(FIELDS, a, s, asTicket, now), Normal(s, asTicket, now))
    {
      assert FIELDS[Place(f)] == f;
      RestoredAgrees(FIELDS, a, s, asTicket, now, f);
    }
    SameSession(RestoredAll(FIELDS, a, s, asTicket, now), Normal(s, asTicket, now));
  }

  lemma SameSession(a: Session, n: Session)
    requires forall f: Field :: Agrees(f, a, n)
    ensures a == n
  {
    assert Agrees(Protocol, a, n) && Agrees(Cipher, a, n) && Agrees(Id, a, n) && Agrees(Key, a, n);
    assert Agrees(Time, a, n) && Agrees(Timeout, a, n) && Agrees(Peer, a, n) && Agrees(Context, a, n);
    assert Agrees(Verify, a, n) && Agrees(Hostname, a, n) && Agrees(Lifetime, a, n) && Agrees(Ticket, a, n);
  }

  /** Decoding the encoding of a session, whatever was in the session it is read into. */
  lemma RoundTrip(a: Session, s: Session, w: Outside, asTicket: bool, rest: seq<byte>)
    requires Valid(s, w) && T.Writable(SessionTree(s, asTicket))
    ensures Decode(a, EncodeNode(SessionTree(s, asTicket)) + rest, w) == Some(Got(Normal(s, asTicket, w.now), rest))
    ensures Normal(s, asTicket, w.now)
         == Session(s.version, s.cipher, if asTicket then [] else s.id, s.key, if s.time != 0 then s.time else w.now,
                    if s.timeout != 0 then s.timeout else 3, s.peer, s.context, s.verify, s.hostname, s.lifetime,
                    if s.ticket.Some? && s.ticket.value != [] then s.ticket else None)
  {
    var ns := SessionNodes(FIELDS, s, asTicket);
    ElementBack(SEQUENCE, ns, rest);
    assert FIELDS[0..] == FIELDS;
    FieldsBack(0, a, s, w, asTicket);
    RestoredNormal(a, s, asTicket, w.now);
  }
}
