/** The INTEGER encoding of unsigned 64-bit numbers (X.690 section 8.3): the bytes that
    CBB_add_asn1_uint64 emits and CBS_get_asn1_uint64 accepts. */
module DerInteger {
  import Arith
  import opened Encoding
  import opened ByteParser

  const TWO_64: nat := 0x1_0000_0000_0000_0000

  const INTEGER: byte := 2

  /** The shortest big-endian form, at least one byte. */
  function MinBytes(v: nat): (r: seq<byte>)
    ensures r != []
  {
    if v < 256 then [v] else MinBytes(v / 256) + [v % 256]
  }

  /** The contents octets: a zero byte keeps a leading top bit from reading as a sign. */
  function UintContent(v: nat): (r: seq<byte>)
    ensures r != []
  {
    var m := MinBytes(v);
    if m[0] >= 0x80 then [0] + m else m
  }

  lemma {:induction false} MinBytesValue(v: nat)
    ensures Value(MinBytes(v)) == v
    ensures MinBytes(v)[0] == 0 ==> v == 0
  {
    if v >= 256 {
      MinBytesValue(v / 256);
      assert MinBytes(v)[..|MinBytes(v)| - 1] == MinBytes(v / 256);
    } else {
      assert [v][..0] == [];
    }
  }

  /** Bytes without a superfluous leading zero are the shortest form of their value. */
  lemma {:induction false} MinBytesUnique(s: seq<byte>)
    requires s != [] && (s[0] != 0 || |s| == 1)
    ensures MinBytes(Value(s)) == s
  {
    var t, b := s[..|s| - 1], s[|s| - 1];
    if |s| == 1 {
      assert t == [] && s == [b];
    } else {
      LeadingByte(t);
      PositiveLead(t);
      MinBytesUnique(t);
      assert Value(s) / 256 == Value(t) && Value(s) % 256 == b;
      assert s == t + [b];
    }
  }

  lemma PositiveLead(s: seq<byte>)
    requires s != [] && s[0] != 0
    ensures Value(s) > 0
  {
    LeadingByte(s);
    Arith.MulGrows(s[0], Pow256(|s| - 1));
  }

  lemma ValueOfPadded(m: seq<byte>)
    ensures Value([0] + m) == Value(m)
  {
    LeadingByte([0] + m);
    assert ([0] + m)[1..] == m;
  }

  /** The contents are the number, most significant octet first, without a sign and without a superfluous zero. */
  lemma ContentMeans(v: nat)
    ensures var c := UintContent(v);
            && c != [] && Value(c) == v && c[0] < 0x80 && (|c| > 1 && c[0] == 0 ==> c[1] >= 0x80)
  {
    MinBytesValue(v);
    ValueOfPadded(MinBytes(v));
  }

  /** What CBS_get_asn1_uint64 makes of the contents octets. */
  function DecodeUint(c: seq<byte>): (r: Option<nat>) {
    if c == [] || c[0] >= 0x80 || (c[0] == 0 && |c| > 1 && c[1] < 0x80) || Value(c) >= TWO_64 then None
    else Some(Value(c))
  }

  lemma DecodeOfContent(v: nat)
    requires v < TWO_64
    ensures DecodeUint(UintContent(v)) == Some(v)
  {
    MinBytesValue(v);
    ValueOfPadded(MinBytes(v));
    assert |MinBytes(v)| > 1 ==> v >= 256;
  }

  /** Encoder and decoder are mutual inverses: every other contents octets are rejected. */
  lemma DecodeExact(c: seq<byte>, v: nat)
    ensures DecodeUint(c) == Some(v) <==> v < TWO_64 && c == UintContent(v)
  {
    if v < TWO_64 && c == UintContent(v) {
      DecodeOfContent(v);
    }
    if DecodeUint(c) == Some(v) {
      if c[0] == 0 && |c| > 1 {
        LeadingByte(c);
        MinBytesUnique(c[1..]);
        assert c == [0] + c[1..];
      } else {
        MinBytesUnique(c);
      }
    }
  }

  function GetUint64(s: seq<byte>): (r: Option<Got<nat>>) {
    match GetAsn1(s, INTEGER)
    case None => None
    case Some(g) =>
      match DecodeUint(g.v)
      case None => None
      case Some(v) => Some(Got(v, g.rest))
  }

  function DerUint(v: nat): (r: seq<byte>) {
    EncodeNode(Tagged(INTEGER, [Raw(UintContent(v))]))
  }

  lemma {:induction false} MinBytesShort(v: nat, n: nat)
    requires v < Pow256(n) && n >= 1
    ensures |MinBytes(v)| <= n
  {
    if v >= 256 {
      MinBytesShort(v / 256, n - 1);
    }
  }

  /** An INTEGER element is accepted as v exactly when it is the encoding of v. */
  lemma Uint64Exact(s: seq<byte>, v: nat, rest: seq<byte>)
    requires v < TWO_64
    ensures GetUint64(s) == Some(Got(v, rest)) <==> s == DerUint(v) + rest
  {
    var c := UintContent(v);
    assert Pow256(4) == 0x1_0000_0000;
    assert Pow256(8) == TWO_64;
    MinBytesShort(v, 8);
    Asn1Exact(s, INTEGER, c, rest);
    DecodeExact(c, v);
    if GetUint64(s) == Some(Got(v, rest)) {
      DecodeExact(GetAsn1(s, INTEGER).value.v, v);
    }
  }
}
