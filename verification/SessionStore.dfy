/** Reading a session through the cursor, and storing and loading one. */
module SessionStore {
  import opened Encoding
  import opened ByteParser
  import opened ByteCursor
  import opened SessionCodec
  import SessionRoundTrip
  import SessionWriter

  // --------------------------------------------------------------------------
  // Reading
  // --------------------------------------------------------------------------

  /** CBS_get_optional_asn1. */
  method ReadOptional(c: Cbs, tag: byte) returns (ok: bool, v: Option<seq<byte>>)
    modifies c
    ensures ok <==> GetOptional(old(c.data), tag).Some?
    ensures ok ==> GetOptional(old(c.data), tag) == Some(Got(v, c.data))
  {
    ok, v := true, None;
    if PeekTag(c.data, tag) {
      var contents;
      ok, contents := c.GetAsn1Contents(tag);
      v := Some(contents);
    }
  }

  /** CBS_get_optional_asn1_octet_string. */
  method ReadOptionalOctets(c: Cbs, tag: byte) returns (ok: bool, v: Option<seq<byte>>)
    modifies c
    ensures ok <==> GetOptionalOctets(old(c.data), tag).Some?
    ensures ok ==> GetOptionalOctets(old(c.data), tag) == Some(Got(v, c.data))
  {
    ok, v := ReadOptional(c, tag);
    if ok && v.Some? {
      var child := new Cbs(v.value);
      var contents;
      ok, contents := child.GetAsn1Contents(OCTET_STRING);
      v := Some(contents);
      ok := ok && child.data == [];
    }
  }

  /** CBS_get_optional_asn1_uint64. */
  method ReadOptionalUint(c: Cbs, tag: byte, missing: nat) returns (ok: bool, v: nat)
    modifies c
    ensures ok <==> GetOptionalUint(old(c.data), tag, missing).Some?
    ensures ok ==> GetOptionalUint(old(c.data), tag, missing) == Some(Got(v, c.data))
  {
    var contents;
    ok, contents := ReadOptional(c, tag);
    v := missing;
    if ok && contents.Some? {
      var child := new Cbs(contents.value);
      ok, v := child.GetAsn1Uint64();
      ok := ok && child.data == [];
    }
  }

  /** The first five fields. */
  method ReadMandatory(c: Cbs, f: Field, s: Session, w: Outside) returns (r: Option<Session>)
    requires !SessionRoundTrip.IsOptional(f)
    modifies c
    ensures r.Some? <==> ReadField(f, s, old(c.data), w).Some?
    ensures r.Some? ==> ReadField(f, s, old(c.data), w) == Some(Got(r.value, c.data))
  {
    var ok;
    if f.Asn1Version? || f.Protocol? {
      var v;
      ok, v := c.GetAsn1Uint64();
      if !ok || (if f.Asn1Version? then v != ASN1_VERSION else v > INT_MAX) {
        return None;
      }
      return Some(if f.Asn1Version? then s else s.(version := v));
    }
    var bytes;
    ok, bytes := c.GetAsn1Contents(OCTET_STRING);
    if !ok {
      return None;
    }
    if f.Cipher? {
      var suite := new Cbs(bytes);
      var v;
      ok, v := suite.GetU(2);
      if !ok || suite.data != [] {
        return None;
      }
      assert bytes[..2] == bytes;
      ValueBound(bytes);
      Pow256Small();
      return Some(s.(cipher := v));
    }
    if |bytes| > (if f.Id? then MAX_ID else MAX_KEY) {
      return None;
    }
    return Some(if f.Id? then s.(id := bytes) else s.(key := bytes));
  }

  /** The optional numbers. */
  method ReadNumber(c: Cbs, f: Field, s: Session, w: Outside) returns (r: Option<Session>)
    requires f.Time? || f.Timeout? || f.Verify? || f.Lifetime?
    modifies c
    ensures r.Some? <==> ReadField(f, s, old(c.data), w).Some?
    ensures r.Some? ==> ReadField(f, s, old(c.data), w) == Some(Got(r.value, c.data))
  {
    var ok, v := ReadOptionalUint(c, Tag(f), 0);
    var max := if f.Lifetime? then UINT32_MAX else if f.Time? then TIME_MAX else LONG_MAX;
    if !ok || v > max {
      return None;
    }
    match f
    case Time => return Some(s.(time := if v != 0 then v else w.now));
    case Timeout => return Some(s.(timeout := if v != 0 then v else 3));
    case Verify => return Some(s.(verify := v));
    case Lifetime => return Some(s.(lifetime := v));
  }

  /** The optional strings, and the peer certificate. */
  method ReadString(c: Cbs, f: Field, s: Session, w: Outside) returns (r: Option<Session>)
    requires f.Peer? || f.Context? || f.Hostname? || f.Ticket?
    modifies c
    ensures r.Some? <==> ReadField(f, s, old(c.data), w).Some?
    ensures r.Some? ==> ReadField(f, s, old(c.data), w) == Some(Got(r.value, c.data))
  {
    var ok, v;
    if f.Peer? {
      ok, v := ReadOptional(c, Tag(f));
      if !ok || (v.Some? && !w.certificate(v.value)) {
        return None;
      }
      return Some(s.(peer := v));
    }
    ok, v := ReadOptionalOctets(c, Tag(f));
    if !ok {
      return None;
    }
    match f
    case Context =>
      if v.Some? && |v.value| > MAX_CONTEXT {
        return None;
      }
      return Some(s.(context := if v.Some? then v.value else []));
    case Hostname =>
      if v.Some? && HasZero(v.value) {
        return None;
      }
      return Some(s.(hostname := v));
    case Ticket =>
      return Some(s.(ticket := if v == Some([]) then None else v));
  }

  method ReadOne(c: Cbs, f: Field, s: Session, w: Outside) returns (r: Option<Session>)
    modifies c
    ensures r.Some? <==> ReadField(f, s, old(c.data), w).Some?
    ensures r.Some? ==> ReadField(f, s, old(c.data), w) == Some(Got(r.value, c.data))
  {
    if !SessionRoundTrip.IsOptional(f) {
      r := ReadMandatory(c, f, s, w);
    } else if f.Time? || f.Timeout? || f.Verify? || f.Lifetime? {
      r := ReadNumber(c, f, s, w);
    } else {
      r := ReadString(c, f, s, w);
    }
  }

  /** d2i_SSL_SESSION. */
  method DecodeSession(c: Cbs, s: Session, w: Outside) returns (r: Option<Session>)
    modifies c
    ensures r.Some? <==> Decode(s, old(c.data), w).Some?
    ensures r.Some? ==> Decode(s, old(c.data), w) == Some(Got(r.value, c.data))
  {
    var ok, body := c.GetAsn1Contents(SEQUENCE);
    if !ok {
      return None;
    }
    var session := new Cbs(body);
    r := ReadAll(session, FIELDS, s, w);
  }

  method ReadAll(c: Cbs, fs: seq<Field>, s: Session, w: Outside) returns (r: Option<Session>)
    modifies c
    ensures r.Some? <==> ReadFields(fs, s, old(c.data), w).Some?
    ensures r.Some? ==> ReadFields(fs, s, old(c.data), w) == Some(Got(r.value, c.data))
  {
    r := Some(s);
    ghost var goal := ReadFields(fs, s, c.data, w);
    for i := 0 to |fs|
      invariant r.Some? ==> ReadFields(fs[i..], r.value, c.data, w) == goal
      invariant r.None? ==> goal.None?
    {
      if r.Some? {
        assert fs[i..][0] == fs[i] && fs[i..][1..] == fs[i + 1..];
        r := ReadOne(c, fs[i], r.value, w);
      }
    }
  }

  /** Storing a session and loading it again. */
  method StoreAndLoad(s: Session, asTicket: bool, into: Session, w: Outside) returns (r: Option<Session>)
    requires Valid(s, w) && SessionWriter.Fits(s, asTicket)
    ensures r == Some(SessionRoundTrip.Normal(s, asTicket, w.now))
  {
    var bytes := SessionWriter.EncodeSession(s, asTicket);
    var c := new Cbs(bytes.value);
    SessionRoundTrip.RoundTrip(into, s, w, asTicket, []);
    assert bytes.value + [] == bytes.value;
    r := DecodeSession(c, into, w);
  }
}
