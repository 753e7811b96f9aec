/** The DTLS handshake message header (section 4.2.2 of RFC 6347), and messages. */
module DtlsHeader {
  import opened Encoding
  import opened ByteParser

  const HEADER: nat := 12

  type u16 = x: nat | x < 0x1_0000
  type u24 = x: nat | x < 0x100_0000

  /** The message number after this one, in sixteen bits. */
  function After(number: u16): (r: u16) { if number == 0xFFFF then 0 else number + 1 }

  /** struct hm_header_st. */
  datatype Header = Header(kind: byte, msgLen: u24, number: u16, fragOff: u24, fragLen: u24)

  // widths of the fields in octets
  const OCTETS8: nat := 1
  const OCTETS16: nat := 2
  const OCTETS24: nat := 3

  /** dtls1_write_message_header with the header's own fragment fields. */
  function HeaderBytes(h: Header): (r: seq<byte>)
    ensures |r| == HEADER
  {
    BigEndian(h.kind, OCTETS8) + BigEndian(h.msgLen, OCTETS24) + BigEndian(h.number, OCTETS16)
    + BigEndian(h.fragOff, OCTETS24) + BigEndian(h.fragLen, OCTETS24)
  }

  /** dtls1_get_message_header. */
  function GetHeader(s: seq<byte>): (r: Option<Got<Header>>) {
    match GetUint(s, OCTETS8) case None => None case Some(kind) =>
    match GetUint(kind.rest, OCTETS24) case None => None case Some(msgLen) =>
    match GetUint(msgLen.rest, OCTETS16) case None => None case Some(number) =>
    match GetUint(number.rest, OCTETS24) case None => None case Some(off) =>
    match GetUint(off.rest, OCTETS24) case None => None case Some(len) =>
      UintFits(s, OCTETS8);
      UintFits(kind.rest, OCTETS24);
      UintFits(msgLen.rest, OCTETS16);
      UintFits(number.rest, OCTETS24);
      UintFits(off.rest, OCTETS24);
      Some(Got(Header(kind.v, msgLen.v, number.v, off.v, len.v), len.rest))
  }

  lemma UintFits(s: seq<byte>, n: nat)
    requires GetUint(s, n).Some?
    ensures GetUint(s, n).value.v < Pow256(n)
    ensures Pow256(1) == 0x100 && Pow256(2) == 0x1_0000 && Pow256(3) == 0x100_0000
  {
    ValueBound(s[..n]);
    Pow256Small();
  }

  /** Reading a header back, whatever follows it. */
  lemma HeaderRoundTrip(h: Header, rest: seq<byte>)
    ensures GetHeader(HeaderBytes(h) + rest) == Some(Got(h, rest))
  {
    var off := BigEndian(h.fragOff, OCTETS24) + (BigEndian(h.fragLen, OCTETS24) + rest);
    var number := BigEndian(h.number, OCTETS16) + off;
    var msgLen := BigEndian(h.msgLen, OCTETS24) + number;
    assert HeaderBytes(h) + rest == BigEndian(h.kind, OCTETS8) + msgLen;
    Pow256Small();
    UintRoundTrip(h.kind, OCTETS8, msgLen);
    UintRoundTrip(h.msgLen, OCTETS24, number);
    UintRoundTrip(h.number, OCTETS16, off);
    UintRoundTrip(h.fragOff, OCTETS24, BigEndian(h.fragLen, OCTETS24) + rest);
    UintRoundTrip(h.fragLen, OCTETS24, rest);
  }

  lemma UintExact(s: seq<byte>, n: nat)
    requires GetUint(s, n).Some?
    ensures s == BigEndian(GetUint(s, n).value.v, n) + GetUint(s, n).value.rest
  {
    BigEndianOfValue(s[..n]);
    assert s == s[..n] + s[n..];
  }

  lemma FiveJoined(s: seq<byte>, a: seq<byte>, s1: seq<byte>, b: seq<byte>, s2: seq<byte>, c: seq<byte>, s3: seq<byte>,
                   d: seq<byte>, s4: seq<byte>, e: seq<byte>, s5: seq<byte>)
    requires s == a + s1 && s1 == b + s2 && s2 == c + s3 && s3 == d + s4 && s4 == e + s5
    ensures s == a + b + c + d + e + s5
  {
    assert s == a + b + s2;
    assert s == a + b + c + s3;
    assert s == a + b + c + d + s4;
  }

  /** Every header that is read is the one that is written. */
  lemma {:induction false} HeaderExact(s: seq<byte>)
    requires GetHeader(s).Some?
    ensures s == HeaderBytes(GetHeader(s).value.v) + GetHeader(s).value.rest
  {
    var kind := GetUint(s, OCTETS8).value;
    var msgLen := GetUint(kind.rest, OCTETS24).value;
    var number := GetUint(msgLen.rest, OCTETS16).value;
    var off := GetUint(number.rest, OCTETS24).value;
    var len := GetUint(off.rest, OCTETS24).value;
    UintExact(s, OCTETS8);
    UintExact(kind.rest, OCTETS24);
    UintExact(msgLen.rest, OCTETS16);
    UintExact(number.rest, OCTETS24);
    UintExact(off.rest, OCTETS24);
    FiveJoined(s, BigEndian(kind.v, OCTETS8), kind.rest, BigEndian(msgLen.v, OCTETS24), msgLen.rest,
               BigEndian(number.v, OCTETS16), number.rest, BigEndian(off.v, OCTETS24), off.rest,
               BigEndian(len.v, OCTETS24), len.rest);
  }

  /** The octets of a header, each in its place (section 4.2.2 of RFC 6347): type, length of the
      message, number of the message, and offset and length of the fragment. */
  predicate Laid(b: seq<byte>, h: Header) {
    && |b| >= HEADER
    && b[0] == h.kind
    && 0x1_0000 * (b[1] as int) + 0x100 * (b[2] as int) + b[3] == h.msgLen
    && 0x100 * (b[4] as int) + b[5] == h.number
    && 0x1_0000 * (b[6] as int) + 0x100 * (b[7] as int) + b[8] == h.fragOff
    && 0x1_0000 * (b[9] as int) + 0x100 * (b[10] as int) + b[11] == h.fragLen
  }

  lemma ValueOctets(s: seq<byte>)
    ensures |s| == 1 ==> Value(s) == s[0]
    ensures |s| == 2 ==> Value(s) == 0x100 * (s[0] as int) + s[1]
    ensures |s| == 3 ==> Value(s) == 0x1_0000 * (s[0] as int) + 0x100 * (s[1] as int) + s[2]
  {
    if 0 < |s| <= 3 {
      var t := s[..|s| - 1];
      assert t == [] || t[..|t| - 1] == [] || t[..|t| - 1] == [s[0]];
    }
  }

  /** A field of n octets holds v exactly when they are the big-endian form of v. */
  lemma FieldExact(f: seq<byte>, v: nat)
    requires v < Pow256(|f|)
    ensures f == BigEndian(v, |f|) <==> Value(f) == v
  {
    BigEndianOfValue(f);
    ValueOfBigEndian(v, |f|);
  }

  /** Those octets, and no others, are written for a header. */
  lemma HeaderLayout(b: seq<byte>, h: Header)
    ensures Laid(b, h) <==> HeaderBytes(h) <= b
  {
    if |b| >= HEADER {
      var f0, f1, f2, f3, f4 := b[0..1], b[1..4], b[4..6], b[6..9], b[9..12];
      Pow256Small();
      FieldExact(f0, h.kind);
      FieldExact(f1, h.msgLen);
      FieldExact(f2, h.number);
      FieldExact(f3, h.fragOff);
      FieldExact(f4, h.fragLen);
      ValueOctets(f0);
      ValueOctets(f1);
      ValueOctets(f2);
      ValueOctets(f3);
      ValueOctets(f4);
      FiveFields(b, BigEndian(h.kind, OCTETS8), BigEndian(h.msgLen, OCTETS24), BigEndian(h.number, OCTETS16),
                 BigEndian(h.fragOff, OCTETS24), BigEndian(h.fragLen, OCTETS24));
    }
  }

  lemma FiveFields(b: seq<byte>, a0: seq<byte>, a1: seq<byte>, a2: seq<byte>, a3: seq<byte>, a4: seq<byte>)
    requires |b| >= HEADER && |a0| == 1 && |a1| == 3 && |a2| == 2 && |a3| == 3 && |a4| == 3
    ensures a0 + a1 + a2 + a3 + a4 <= b <==>
            b[0..1] == a0 && b[1..4] == a1 && b[4..6] == a2 && b[6..9] == a3 && b[9..12] == a4
  {
    var all := a0 + a1 + a2 + a3 + a4;
    assert all[0..1] == a0 && all[1..4] == a1 && all[4..6] == a2 && all[6..9] == a3 && all[9..12] == a4;
    if all <= b {
      Slices(all, b, 0, 1);
      Slices(all, b, 1, 4);
      Slices(all, b, 4, 6);
      Slices(all, b, 6, 9);
      Slices(all, b, 9, 12);
    }
    assert b[..12] == b[0..1] + b[1..4] + b[4..6] + b[6..9] + b[9..12];
  }

  lemma Slices(a: seq<byte>, b: seq<byte>, i: nat, j: nat)
    requires a <= b && i <= j <= |a|
    ensures a[i..j] == b[i..j]
  {
  }

  /** Any twelve octets are read, and as the header they lay out; the rest is left. */
  lemma HeaderRead(s: seq<byte>)
    ensures GetHeader(s).Some? <==> |s| >= HEADER
    ensures GetHeader(s).Some? ==> Laid(s, GetHeader(s).value.v) && GetHeader(s).value.rest == s[HEADER..]
  {
    if GetHeader(s).Some? {
      var h := GetHeader(s).value.v;
      HeaderExact(s);
      HeaderLayout(s, h);
    }
  }

  /** A handshake message as a whole. */
  datatype Message = Message(kind: byte, body: seq<byte>)

  function Whole(kind: byte, number: u16, msgLen: u24): (h: Header) {
    Header(kind, msgLen, number, 0, msgLen)
  }

  /** What both sides hash: the header as if unfragmented, then the body. */
  function Unfragmented(kind: byte, number: u16, body: seq<byte>): (r: seq<byte>)
    requires |body| < 0x100_0000
  {
    HeaderBytes(Whole(kind, number, |body|)) + body
  }

  /** The transcript of a message lays out one fragment that is the whole of it. */
  lemma UnfragmentedLayout(kind: byte, number: u16, body: seq<byte>)
    requires |body| < 0x100_0000
    ensures Laid(Unfragmented(kind, number, body), Header(kind, |body|, number, 0, |body|))
    ensures Unfragmented(kind, number, body)[HEADER..] == body
  {
    HeaderLayout(Unfragmented(kind, number, body), Whole(kind, number, |body|));
  }
}
