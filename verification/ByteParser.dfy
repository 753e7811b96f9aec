/** The parser of bs_cbs.c: a cursor over bytes, big-endian numbers, length-prefixed strings and
    DER elements. The functions say what each getter returns and leaves; the class advances in place. */
module ByteParser {
  import opened Encoding

  /** A value read from the front, and what is left. */
  datatype Got<T> = Got(v: T, rest: seq<byte>)

  function GetBytes(s: seq<byte>, n: nat): (r: Option<Got<seq<byte>>>) {
    if |s| < n then None else Some(Got(s[..n], s[n..]))
  }

  /** cbs_get_u: between one and four bytes, most significant first. */
  function GetUint(s: seq<byte>, n: nat): (r: Option<Got<nat>>) {
    if n < 1 || n > 4 || |s| < n then None else Some(Got(Value(s[..n]), s[n..]))
  }

  function GetPrefixed(s: seq<byte>, n: nat): (r: Option<Got<seq<byte>>>) {
    match GetUint(s, n)
    case None => None
    case Some(g) => GetBytes(g.rest, g.v)
  }

  /** An element as found: identifier octet, length of the header, the whole element and what follows. */
  datatype Found = Found(tag: byte, headerLen: nat, element: seq<byte>, rest: seq<byte>)
  {
    function Contents(): (c: seq<byte>)
      requires headerLen <= |element|
    {
      element[headerLen..]
    }
  }

  function Cut(tag: byte, headerLen: nat, len: nat, s: seq<byte>): (r: Option<Found>) {
    if |s| < len then None else Some(Found(tag, headerLen, s[..len], s[len..]))
  }

  predicate Constructed(tag: byte) {
    tag / 32 % 2 == 1
  }

  /** cbs_get_any_asn1_element_internal. */
  function GetElement(s: seq<byte>, strict: bool): (r: Option<Found>)
    ensures r.Some? ==>
              && 2 <= r.value.headerLen <= |r.value.element|
              && s == r.value.element + r.value.rest
              && r.value.tag == s[0] && r.value.tag % 32 != 31
  {
    if |s| < 2 || s[0] % 32 == 31 then None else
      var tag, lengthByte := s[0], s[1];
      if lengthByte < 0x80 then Cut(tag, 2, lengthByte + 2, s) else
        var numBytes := lengthByte - 0x80;
        if numBytes == 0x7f then None
        else if numBytes == 0 then
          (if strict || !Constructed(tag) then None else Cut(tag, 2, 2, s))
        else if numBytes > 4 || |s| < 2 + numBytes then None
        else
          var len32 := Value(s[2..2 + numBytes]);
          if len32 < 128 || len32 < Pow256(numBytes - 1) then None
          else Cut(tag, 2 + numBytes, len32 + 2 + numBytes, s)
  }

  /** cbs_get_asn1, skipping the header. */
  function GetAsn1(s: seq<byte>, tag: byte): (r: Option<Got<seq<byte>>>) {
    match GetElement(s, true)
    case None => None
    case Some(f) => if f.tag != tag then None else Some(Got(f.Contents(), f.rest))
  }

  // --------------------------------------------------------------------------
  // The getters are the inverses of the encoders
  // --------------------------------------------------------------------------

  lemma Pow256Small()
    ensures Pow256(1) == 0x100 && Pow256(2) == 0x1_0000 && Pow256(3) == 0x100_0000 && Pow256(4) == 0x1_0000_0000
  {
  }

  lemma UintRoundTrip(v: nat, n: nat, rest: seq<byte>)
    requires 1 <= n <= 4 && v < Pow256(n)
    ensures GetUint(BigEndian(v, n) + rest, n) == Some(Got(v, rest))
  {
    ValueOfBigEndian(v, n);
    assert (BigEndian(v, n) + rest)[..n] == BigEndian(v, n);
    assert (BigEndian(v, n) + rest)[n..] == rest;
  }

  lemma PrefixedAccepted(n: nat, c: seq<byte>, rest: seq<byte>)
    requires 1 <= n <= 4 && |c| < Pow256(n)
    ensures GetPrefixed(BigEndian(|c|, n) + (c + rest), n) == Some(Got(c, rest))
  {
    UintRoundTrip(|c|, n, c + rest);
    assert (c + rest)[..|c|] == c && (c + rest)[|c|..] == rest;
  }

  lemma PrefixedCanonical(s: seq<byte>, n: nat)
    requires GetPrefixed(s, n).Some?
    ensures var g := GetPrefixed(s, n).value;
            s == BigEndian(|g.v|, n) + (g.v + g.rest)
  {
    var g := GetPrefixed(s, n).value;
    BigEndianOfValue(s[..n]);
    assert s[n..] == g.v + g.rest;
    assert s == s[..n] + s[n..];
  }

  /** The length-prefixed getter accepts exactly what the builder writes for that prefix. */
  lemma PrefixedExact(s: seq<byte>, n: nat, c: seq<byte>, rest: seq<byte>)
    requires 1 <= n <= 4 && |c| < Pow256(n)
    ensures GetPrefixed(s, n) == Some(Got(c, rest)) <==> s == BigEndian(|c|, n) + (c + rest)
  {
    if s == BigEndian(|c|, n) + (c + rest) {
      PrefixedAccepted(n, c, rest);
    }
    if GetPrefixed(s, n) == Some(Got(c, rest)) {
      PrefixedCanonical(s, n);
    }
  }

  /** The length octets written for len start the way the strict parser expects. */
  lemma LongFormAccepted(len: nat)
    requires 0x7f < len < 0x1_0000_0000
    ensures var k := LongOctets(len);
            && 1 <= k && len < Pow256(k) && len >= Pow256(k - 1)
            && DerLength(len)[0] == 0x80 + k && Value(DerLength(len)[1..]) == len
  {
    Pow256Small();
    var k := LongOctets(len);
    ValueOfBigEndian(len, k);
    assert DerLength(len)[1..] == BigEndian(len, k);
  }

  /** What the builder emits is accepted. */
  lemma ElementAccepted(tag: byte, c: seq<byte>, rest: seq<byte>, strict: bool)
    requires tag % 32 != 31 && |c| < 0x1_0000_0000
    ensures var e := [tag] + DerLength(|c|) + c;
            GetElement(e + rest, strict) == Some(Found(tag, 2 + LongOctets(|c|), e, rest))
  {
    var d := DerLength(|c|);
    var e := [tag] + d + c;
    var s := e + rest;
    assert s[0] == tag && s[1] == d[0];
    assert s[..|e|] == e && s[|e|..] == rest;
    if |c| > 0x7f {
      var k := LongOctets(|c|);
      LongFormAccepted(|c|);
      assert s[2..2 + k] == d[1..];
    }
  }

  lemma OctetCount(v: nat, n: nat)
    requires 1 <= n <= 4 && v >= 128 && Pow256(n - 1) <= v < Pow256(n)
    ensures v < 0x1_0000_0000 && LongOctets(v) == n
  {
    Pow256Small();
    assert n == 1 || n == 2 || n == 3 || n == 4;
  }

  lemma LongLength(v: nat)
    requires 0x7f < v < 0x1_0000_0000
    ensures DerLength(v) == [0x80 + LongOctets(v)] + BigEndian(v, LongOctets(v))
  {
  }

  /** A minimal long form determines its own octets. */
  lemma LongFormUnique(octets: seq<byte>)
    requires 1 <= |octets| <= 4 && Value(octets) >= 128 && Value(octets) >= Pow256(|octets| - 1)
    ensures Value(octets) < 0x1_0000_0000
    ensures DerLength(Value(octets)) == [0x80 + |octets|] + octets
  {
    var v := Value(octets);
    ValueBound(octets);
    OctetCount(v, |octets|);
    LongLength(v);
    BigEndianOfValue(octets);
  }

  /** Nothing else is accepted in strict mode: DER is canonical here. */
  lemma ElementCanonical(s: seq<byte>)
    requires GetElement(s, true).Some?
    ensures var f := GetElement(s, true).value;
            && |f.Contents()| < 0x1_0000_0000
            && f.element == [f.tag] + DerLength(|f.Contents()|) + f.Contents()
            && f.headerLen == 2 + LongOctets(|f.Contents()|)
  {
    var f := GetElement(s, true).value;
    var h := f.headerLen;
    assert f.element == f.element[..h] + f.element[h..];
    if s[1] >= 0x80 {
      var octets := s[2..h];
      LongFormUnique(octets);
      assert f.element[..h] == [f.tag] + ([s[1]] + octets);
    } else {
      assert f.element[..2] == [f.tag] + [s[1]];
    }
  }

  /** The looser parser reads the same, and an indefinite header by itself, if it is of a constructed element. */
  lemma ElementLoose(s: seq<byte>)
    ensures GetElement(s, false) ==
            if |s| >= 2 && s[0] / 32 % 2 == 1 && s[0] % 32 != 31 && s[1] == 0x80
            then Some(Found(s[0], 2, [s[0], 0x80], s[2..]))
            else GetElement(s, true)
  {
    if |s| >= 2 && s[1] == 0x80 {
      assert s[..2] == [s[0], 0x80];
    }
  }

  lemma Asn1Accepted(tag: byte, c: seq<byte>, rest: seq<byte>)
    requires tag % 32 != 31 && |c| < 0x1_0000_0000
    ensures GetAsn1([tag] + DerLength(|c|) + c + rest, tag) == Some(Got(c, rest))
  {
    ElementAccepted(tag, c, rest, true);
    assert ([tag] + DerLength(|c|) + c)[2 + LongOctets(|c|)..] == c;
  }

  /** For contents the builder can close, the strict parser accepts exactly the builder's bytes. */
  lemma Asn1Exact(s: seq<byte>, tag: byte, c: seq<byte>, rest: seq<byte>)
    requires |c| <= 0xffff_fffe && tag % 32 != 31
    ensures GetAsn1(s, tag) == Some(Got(c, rest)) <==> s == EncodeNode(Tagged(tag, [Raw(c)])) + rest
  {
    assert Encode([Raw(c)]) == c by {
      EncodeAppend([], Raw(c));
      assert [] + [Raw(c)] == [Raw(c)];
    }
    assert EncodeNode(Tagged(tag, [Raw(c)])) == [tag] + DerLength(|c|) + c;
    if s == EncodeNode(Tagged(tag, [Raw(c)])) + rest {
      ElementAccepted(tag, c, rest, true);
      assert ([tag] + DerLength(|c|) + c)[2 + LongOctets(|c|)..] == c;
    }
    if GetAsn1(s, tag) == Some(Got(c, rest)) {
      ElementCanonical(s);
    }
  }
}
