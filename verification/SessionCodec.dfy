/** The ASN.1 form of a session (ssl_asn1.c): what is written for each field and how it is read back. */
module SessionCodec {
  import opened Encoding
  import opened ByteParser
  import D = DerInteger
  import opened IntegerBuilder

  const SEQUENCE: byte := 0x30
  const OCTET_STRING: byte := 4
  const ASN1_VERSION: nat := 1
  const INT_MAX: nat := 0x7fff_ffff
  const LONG_MAX: nat := 0x7fff_ffff_ffff_ffff
  const TIME_MAX: nat := 0x7fff_ffff_ffff_ffff
  const UINT32_MAX: nat := 0xffff_ffff
  const MAX_ID: nat := 32
  const MAX_KEY: nat := 48
  const MAX_CONTEXT: nat := 32

  type int32 = x: int | -0x8000_0000 <= x < 0x8000_0000
  type int64 = x: int | -0x8000_0000_0000_0000 <= x < 0x8000_0000_0000_0000
  type u16 = x: nat | x < 0x1_0000
  type u32 = x: nat | x < 0x1_0000_0000

  /** The fields of SSL_SESSION that are kept; the peer certificate as its DER bytes. */
  datatype Session = Session(version: int32, cipher: u16, id: seq<byte>, key: seq<byte>, time: int64, timeout: int64,
                             peer: Option<seq<byte>>, context: seq<byte>, verify: int64,
                             hostname: Option<seq<byte>>, lifetime: u32, ticket: Option<seq<byte>>)

  datatype Field = Asn1Version | Protocol | Cipher | Id | Key | Time | Timeout | Peer | Context | Verify
                 | Hostname | Lifetime | Ticket

  /** The order in which both sides go. */
  const FIELDS: seq<Field> := [Asn1Version, Protocol, Cipher, Id, Key, Time, Timeout, Peer, Context, Verify,
                               Hostname, Lifetime, Ticket]

  /** The identifier octet: universal for the first five, context-specific and constructed for the rest. */
  function Tag(f: Field): (t: byte)
    ensures t % 32 != 31
  {
    match f
    case Asn1Version => D.INTEGER
    case Protocol => D.INTEGER
    case Cipher => OCTET_STRING
    case Id => OCTET_STRING
    case Key => OCTET_STRING
    case Time => 0xa1
    case Timeout => 0xa2
    case Peer => 0xa3
    case Context => 0xa4
    case Verify => 0xa5
    case Hostname => 0xa6
    case Lifetime => 0xa9
    case Ticket => 0xaa
  }

  // --------------------------------------------------------------------------
  // Optional elements (bs_cbs.c)
  // --------------------------------------------------------------------------

  predicate PeekTag(s: seq<byte>, tag: byte) {
    |s| >= 1 && tag % 32 != 31 && s[0] == tag
  }

  function GetOptional(s: seq<byte>, tag: byte): (r: Option<Got<Option<seq<byte>>>>) {
    if !PeekTag(s, tag) then Some(Got(None, s)) else
      match GetAsn1(s, tag)
      case None => None
      case Some(g) => Some(Got(Some(g.v), g.rest))
  }

  function GetOptionalOctets(s: seq<byte>, tag: byte): (r: Option<Got<Option<seq<byte>>>>) {
    match GetOptional(s, tag)
    case None => None
    case Some(g) =>
      if g.v.None? then Some(Got(None, g.rest)) else
        match GetAsn1(g.v.value, OCTET_STRING)
        case None => None
        case Some(c) => if c.rest != [] then None else Some(Got(Some(c.v), g.rest))
  }

  function GetOptionalUint(s: seq<byte>, tag: byte, missing: nat): (r: Option<Got<nat>>) {
    match GetOptional(s, tag)
    case None => None
    case Some(g) =>
      if g.v.None? then Some(Got(missing, g.rest)) else
        match D.GetUint64(g.v.value)
        case None => None
        case Some(c) => if c.rest != [] then None else Some(Got(c.v, g.rest))
  }

  // --------------------------------------------------------------------------
  // Writing
  // --------------------------------------------------------------------------

  function Octets(c: seq<byte>): (n: Node) { Tagged(OCTET_STRING, [Raw(c)]) }

  /** SSL_SESSION_encode fails for negative numbers and for a certificate of no bytes. */
  predicate FieldOk(f: Field, s: Session) {
    match f
    case Protocol => s.version >= 0
    case Time => s.time >= 0
    case Timeout => s.timeout >= 0
    case Peer => s.peer != Some([])
    case Verify => s.verify >= 0
    case _ => true
  }

  predicate Encodable(s: Session) {
    s.version >= 0 && s.time >= 0 && s.timeout >= 0 && s.verify >= 0 && s.peer != Some([])
  }

  /** What is written for a field, if anything. */
  function FieldNodes(f: Field, s: Session, asTicket: bool): (r: seq<Node>)
    requires FieldOk(f, s)
    ensures |r| <= 1
  {
    match f
    case Asn1Version => [IntNode(ASN1_VERSION)]
    case Protocol => [IntNode(s.version)]
    case Cipher => [Octets(BigEndian(s.cipher, 2))]
    case Id => [Octets(if asTicket then [] else s.id)]
    case Key => [Octets(s.key)]
    case Time => if s.time == 0 then [] else [Tagged(Tag(Time), [IntNode(s.time)])]
    case Timeout => if s.timeout == 0 then [] else [Tagged(Tag(Timeout), [IntNode(s.timeout)])]
    case Peer => if s.peer.None? then [] else [Tagged(Tag(Peer), [Raw(s.peer.value)])]
    case Context => [Tagged(Tag(Context), [Octets(s.context)])]
    case Verify => if s.verify == 0 then [] else [Tagged(Tag(Verify), [IntNode(s.verify)])]
    case Hostname => if s.hostname.None? then [] else [Tagged(Tag(Hostname), [Octets(s.hostname.value)])]
    case Lifetime => if s.lifetime == 0 then [] else [Tagged(Tag(Lifetime), [IntNode(s.lifetime)])]
    case Ticket => if s.ticket.None? then [] else [Tagged(Tag(Ticket), [Octets(s.ticket.value)])]
  }

  function SessionNodes(fs: seq<Field>, s: Session, asTicket: bool): (r: seq<Node>)
    requires Encodable(s)
  {
    if fs == [] then [] else FieldNodes(fs[0], s, asTicket) + SessionNodes(fs[1..], s, asTicket)
  }

  function SessionTree(s: Session, asTicket: bool): (n: Node)
    requires Encodable(s)
  {
    Tagged(SEQUENCE, SessionNodes(FIELDS, s, asTicket))
  }

  // --------------------------------------------------------------------------
  // Reading
  // --------------------------------------------------------------------------

  /** What the outside provides: the clock, and which bytes d2i_X509 accepts. */
  datatype Outside = Outside(now: int64, certificate: seq<byte> -> bool)

  function Bounded(r: Option<Got<seq<byte>>>, max: nat): (o: Option<Got<seq<byte>>>) {
    if r.None? || |r.value.v| > max then None else r
  }

  function CipherValue(r: Option<Got<seq<byte>>>): (o: Option<Got<nat>>)
    ensures o.Some? ==> o.value.v < 0x1_0000
  {
    if r.None? then None else
      match GetUint(r.value.v, 2)
      case None => None
      case Some(g) =>
        ValueBound(r.value.v[..2]);
        Pow256Small();
        if g.rest != [] then None else Some(Got(g.v, r.value.rest))
  }

  function AtMost(r: Option<Got<nat>>, max: nat): (o: Option<Got<nat>>) {
    if r.None? || r.value.v > max then None else r
  }

  predicate HasZero(s: seq<byte>) {
    exists i :: 0 <= i < |s| && s[i] == 0
  }

  /** d2i_SSL_SESSION, one field at a time; the session read so far is filled in. */
  function ReadField(f: Field, s: Session, b: seq<byte>, w: Outside): (r: Option<Got<Session>>) {
    match f
    case Asn1Version =>
      (var g := D.GetUint64(b);
       if g.None? || g.value.v != ASN1_VERSION then None else Some(Got(s, g.value.rest)))
    case Protocol =>
      (var g := AtMost(D.GetUint64(b), INT_MAX);
       if g.None? then None else Some(Got(s.(version := g.value.v), g.value.rest)))
    case Cipher =>
      (var g := CipherValue(GetAsn1(b, OCTET_STRING));
       if g.None? then None else Some(Got(s.(cipher := g.value.v), g.value.rest)))
    case Id =>
      (var g := Bounded(GetAsn1(b, OCTET_STRING), MAX_ID);
       if g.None? then None else Some(Got(s.(id := g.value.v), g.value.rest)))
    case Key =>
      (var g := Bounded(GetAsn1(b, OCTET_STRING), MAX_KEY);
       if g.None? then None else Some(Got(s.(key := g.value.v), g.value.rest)))
    case Time =>
      (var g := AtMost(GetOptionalUint(b, Tag(f), 0), TIME_MAX);
       if g.None? then None else Some(Got(s.(time := if g.value.v != 0 then g.value.v else w.now), g.value.rest)))
    case Timeout =>
      (var g := AtMost(GetOptionalUint(b, Tag(f), 0), LONG_MAX);
       if g.None? then None else Some(Got(s.(timeout := if g.value.v != 0 then g.value.v else 3), g.value.rest)))
    case Peer =>
      (var g := GetOptional(b, Tag(f));
       if g.None? || (g.value.v.Some? && !w.certificate(g.value.v.value)) then None
       else Some(Got(s.(peer := g.value.v), g.value.rest)))
    case Context =>
      (var g := GetOptionalOctets(b, Tag(f));
       if g.None? || (g.value.v.Some? && |g.value.v.value| > MAX_CONTEXT) then None
       else Some(Got(s.(context := if g.value.v.Some? then g.value.v.value else []), g.value.rest)))
    case Verify =>
      (var g := AtMost(GetOptionalUint(b, Tag(f), 0), LONG_MAX);
       if g.None? then None else Some(Got(s.(verify := g.value.v), g.value.rest)))
    case Hostname =>
      (var g := GetOptionalOctets(b, Tag(f));
       if g.None? || (g.value.v.Some? && HasZero(g.value.v.value)) then None
       else Some(Got(s.(hostname := g.value.v), g.value.rest)))
    case Lifetime =>
      (var g := AtMost(GetOptionalUint(b, Tag(f), 0), UINT32_MAX);
       if g.None? then None else Some(Got(s.(lifetime := g.value.v), g.value.rest)))
    case Ticket =>
      (var g := GetOptionalOctets(b, Tag(f));
       if g.None? then None
       else Some(Got(s.(ticket := if g.value.v == Some([]) then None else g.value.v), g.value.rest)))
  }

  function ReadFields(fs: seq<Field>, s: Session, b: seq<byte>, w: Outside): (r: Option<Got<Session>>) {
    if fs == [] then Some(Got(s, b)) else
      match ReadField(fs[0], s, b, w)
      case None => None
      case Some(g) => ReadFields(fs[1..], g.v, g.rest, w)
  }

  /** d2i_SSL_SESSION into the session s: what is read, and what follows it. */
  function Decode(s: Session, b: seq<byte>, w: Outside): (r: Option<Got<Session>>) {
    match GetAsn1(b, SEQUENCE)
    case None => None
    case Some(g) =>
      match ReadFields(FIELDS, s, g.v, w)
      case None => None
      case Some(h) => Some(Got(h.v, g.rest))
  }

  // --------------------------------------------------------------------------
  // Round trip
  // --------------------------------------------------------------------------

  /** Field values that an SSL_SESSION can hold and that are meant to survive. */
  ghost predicate Valid(s: Session, w: Outside) {
    && Encodable(s) && |s.id| <= MAX_ID && |s.key| <= MAX_KEY && |s.context| <= MAX_CONTEXT
    && (s.peer.Some? ==> w.certificate(s.peer.value)) && (s.hostname.Some? ==> !HasZero(s.hostname.value))
  }

  /** A field of s as it is after the round trip, put into a. */
  function Restored(f: Field, a: Session, s: Session, asTicket: bool, now: int64): (r: Session) {
    match f
    case Asn1Version => a
    case Protocol => a.(version := s.version)
    case Cipher => a.(cipher := s.cipher)
    case Id => a.(id := if asTicket then [] else s.id)
    case Key => a.(key := s.key)
    case Time => a.(time := if s.time == 0 then now else s.time)
    case Timeout => a.(timeout := if s.timeout == 0 then 3 else s.timeout)
    case Peer => a.(peer := s.peer)
    case Context => a.(context := s.context)
    case Verify => a.(verify := s.verify)
    case Hostname => a.(hostname := s.hostname)
    case Lifetime => a.(lifetime := s.lifetime)
    case Ticket => a.(ticket := if s.ticket == Some([]) then None else s.ticket)
  }

  function RestoredAll(fs: seq<Field>, a: Session, s: Session, asTicket: bool, now: int64): (r: Session) {
    if fs == [] then a else RestoredAll(fs[1..], Restored(fs[0], a, s, asTicket, now), s, asTicket, now)
  }
}
