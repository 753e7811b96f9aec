/** The octets of an encoded session, field by field. */
module SessionLayout {
  import opened Encoding
  import opened ByteParser
  import D = DerInteger
  import opened IntegerBuilder
  import opened SessionCodec
  import R = SessionRoundTrip

  /** An element with the identifier octet and the contents. */
  function Element(tag: byte, c: seq<byte>): (r: seq<byte>) {
    [tag] + (if |c| < 0x1_0000_0000 then DerLength(|c|) else []) + c
  }

  function When(b: bool, r: seq<byte>): (r': seq<byte>) {
    if b then r else []
  }

  /** The k-th of the thirteen pieces: version, protocol, cipher suite in two octets, identifier and key;
      then, each under the context-specific constructed tag of its number, the time [1], the timeout [2],
      the peer certificate [3], the context [4], the verify result [5], the host name [6], the lifetime [9]
      and the ticket [10]. Only the context is written when there is nothing to say. */
  function Piece(k: nat, s: Session, asTicket: bool): (r: seq<byte>)
    requires Encodable(s)
  {
    if k == 0 then D.DerUint(1)
    else if k == 1 then D.DerUint(s.version)
    else if k == 2 then Element(4, [s.cipher / 256, s.cipher % 256])
    else if k == 3 then Element(4, When(!asTicket, s.id))
    else if k == 4 then Element(4, s.key)
    else if k == 5 then When(s.time != 0, Element(0xa0 + 1, D.DerUint(s.time)))
    else if k == 6 then When(s.timeout != 0, Element(0xa0 + 2, D.DerUint(s.timeout)))
    else if k == 7 then (if s.peer.None? then [] else Element(0xa0 + 3, s.peer.value))
    else if k == 8 then Element(0xa0 + 4, Element(4, s.context))
    else if k == 9 then When(s.verify != 0, Element(0xa0 + 5, D.DerUint(s.verify)))
    else if k == 10 then (if s.hostname.None? then [] else Element(0xa0 + 6, Element(4, s.hostname.value)))
    else if k == 11 then When(s.lifetime != 0, Element(0xa0 + 9, D.DerUint(s.lifetime)))
    else if k == 12 then (if s.ticket.None? then [] else Element(0xa0 + 10, Element(4, s.ticket.value)))
    else []
  }

  function PiecesFrom(k: nat, s: Session, asTicket: bool): (r: seq<byte>)
    requires Encodable(s)
    decreases 13 - k
  {
    if k >= 13 then [] else Piece(k, s, asTicket) + PiecesFrom(k + 1, s, asTicket)
  }

  lemma RawElement(tag: byte, c: seq<byte>)
    ensures Encode([Tagged(tag, [Raw(c)])]) == Element(tag, c)
  {
    R.EncodeOne(Raw(c));
    R.EncodeOne(Tagged(tag, [Raw(c)]));
  }

  lemma NestedElement(tag: byte, n: Node)
    ensures Encode([Tagged(tag, [n])]) == Element(tag, EncodeNode(n))
  {
    R.EncodeOne(n);
    R.EncodeOne(Tagged(tag, [n]));
  }

  lemma NumberElement(tag: byte, v: nat)
    requires v < D.TWO_64
    ensures Encode([Tagged(tag, [IntNode(v)])]) == Element(tag, D.DerUint(v))
    ensures Encode([IntNode(v)]) == D.DerUint(v)
  {
    IntNodeBytes(v);
    NestedElement(tag, IntNode(v));
    R.EncodeOne(IntNode(v));
  }

  lemma OctetsElement(tag: byte, c: seq<byte>)
    ensures Encode([Tagged(tag, [Octets(c)])]) == Element(tag, Element(4, c))
    ensures Encode([Octets(c)]) == Element(4, c)
  {
    RawElement(4, c);
    R.EncodeOne(Octets(c));
    NestedElement(tag, Octets(c));
  }

  lemma CipherOctets(v: u16)
    ensures BigEndian(v, 2) == [v / 256, v % 256]
  {
    var t := BigEndian(v / 256, 1);
    assert t == BigEndian(v / 256 / 256, 0) + [v / 256 % 256] == [v / 256];
  }

  lemma LeadingPiece(k: nat, s: Session, asTicket: bool)
    requires Encodable(s) && k < 5
    ensures Encode(FieldNodes(FIELDS[k], s, asTicket)) == Piece(k, s, asTicket)
  {
    if k == 0 {
      NumberElement(0, ASN1_VERSION);
    } else if k == 1 {
      NumberElement(0, s.version);
    } else if k == 2 {
      CipherOctets(s.cipher);
      OctetsElement(0, BigEndian(s.cipher, 2));
    } else if k == 3 {
      OctetsElement(0, When(!asTicket, s.id));
    } else {
      OctetsElement(0, s.key);
    }
  }

  lemma TimePiece(k: nat, s: Session, asTicket: bool)
    requires Encodable(s) && (k == 5 || k == 6)
    ensures Encode(FieldNodes(FIELDS[k], s, asTicket)) == Piece(k, s, asTicket)
  {
    if k == 5 {
      NumberElement(0xa1, s.time);
    } else {
      NumberElement(0xa2, s.timeout);
    }
  }

  lemma NumberPiece(k: nat, s: Session, asTicket: bool)
    requires Encodable(s) && (k == 9 || k == 11)
    ensures Encode(FieldNodes(FIELDS[k], s, asTicket)) == Piece(k, s, asTicket)
  {
    if k == 9 {
      NumberElement(0xa5, s.verify);
    } else {
      NumberElement(0xa9, s.lifetime);
    }
  }

  lemma StringPiece(k: nat, s: Session, asTicket: bool)
    requires Encodable(s) && (k == 7 || k == 8 || k == 10 || k == 12)
    ensures Encode(FieldNodes(FIELDS[k], s, asTicket)) == Piece(k, s, asTicket)
  {
    if k == 7 && s.peer.Some? {
      RawElement(0xa3, s.peer.value);
    } else if k == 8 {
      OctetsElement(0xa4, s.context);
    } else if k == 10 && s.hostname.Some? {
      OctetsElement(0xa6, s.hostname.value);
    } else if k == 12 && s.ticket.Some? {
      OctetsElement(0xaa, s.ticket.value);
    }
  }

  lemma {:induction false} FieldsLaid(k: nat, s: Session, asTicket: bool)
    requires Encodable(s) && k <= |FIELDS|
    ensures Encode(SessionNodes(FIELDS[k..], s, asTicket)) == PiecesFrom(k, s, asTicket)
    decreases |FIELDS| - k
  {
    hide FieldNodes, Piece;
    var fs := FIELDS[k..];
    if k < |FIELDS| {
      assert fs[0] == FIELDS[k] && fs[1..] == FIELDS[k + 1..];
      R.EncodeConcat(FieldNodes(FIELDS[k], s, asTicket), SessionNodes(fs[1..], s, asTicket));
      if k < 5 {
        LeadingPiece(k, s, asTicket);
      } else if k == 5 || k == 6 {
        TimePiece(k, s, asTicket);
      } else if k == 9 || k == 11 {
        NumberPiece(k, s, asTicket);
      } else {
        StringPiece(k, s, asTicket);
      }
      FieldsLaid(k + 1, s, asTicket);
    }
  }

  /** The encoding of a session is a SEQUENCE of the thirteen pieces in their order. */
  lemma SessionLaid(s: Session, asTicket: bool)
    requires Encodable(s)
    ensures EncodeNode(SessionTree(s, asTicket)) == Element(0x30, PiecesFrom(0, s, asTicket))
  {
    hide FieldNodes, Piece, PiecesFrom, SessionNodes;
    assert FIELDS[0..] == FIELDS;
    FieldsLaid(0, s, asTicket);
  }
}
