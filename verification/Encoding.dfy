/** Pure encoders: big-endian numbers, DER headers (X.690 section 8.1.2 and 10.1) and trees of
    length-prefixed and tagged elements. */
module Encoding {
  import Arith

  datatype Option<T> = None | Some(value: T)

  type byte = x: int | 0 <= x < 256

  const SIZE_MAX: nat := 0xffff_ffff_ffff_ffff

  function Pow256(n: nat): (r: nat)
    ensures r > 0
  {
    if n == 0 then 1 else 256 * Pow256(n - 1)
  }

  /** The low n bytes of v, most significant first. */
  function BigEndian(v: nat, n: nat): (r: seq<byte>)
    ensures |r| == n
  {
    if n == 0 then [] else BigEndian(v / 256, n - 1) + [v % 256]
  }

  /** The number written by the bytes, most significant first. */
  function Value(s: seq<byte>): (v: nat) {
    if s == [] then 0 else 256 * Value(s[..|s| - 1]) + s[|s| - 1]
  }

  lemma {:induction false} ValueBound(s: seq<byte>)
    ensures Value(s) < Pow256(|s|)
  {
    if s != [] {
      ValueBound(s[..|s| - 1]);
    }
  }

  lemma {:induction false} ValueOfBigEndian(v: nat, n: nat)
    requires v < Pow256(n)
    ensures Value(BigEndian(v, n)) == v
  {
    if n > 0 {
      ValueOfBigEndian(v / 256, n - 1);
      assert BigEndian(v, n)[..n - 1] == BigEndian(v / 256, n - 1);
    }
  }

  lemma {:induction false} BigEndianOfValue(s: seq<byte>)
    ensures BigEndian(Value(s), |s|) == s
  {
    if s != [] {
      var t, b := s[..|s| - 1], s[|s| - 1];
      BigEndianOfValue(t);
      assert Value(s) / 256 == Value(t) && Value(s) % 256 == b;
      assert s == t + [b];
    }
  }

  /** Byte i from the end of the big-endian form is byte i of the number. */
  lemma {:induction false} BigEndianAt(v: nat, n: nat, i: nat)
    requires i < n
    ensures BigEndian(v, n)[n - 1 - i] == v / Pow256(i) % 256
  {
    if i > 0 {
      BigEndianAt(v / 256, n - 1, i - 1);
      Arith.DivTwice(v, Pow256(i - 1));
    }
  }

  lemma {:induction false} ZeroValue(s: seq<byte>)
    requires forall i :: 0 <= i < |s| ==> s[i] == 0
    ensures Value(s) == 0
  {
    if s != [] {
      ZeroValue(s[..|s| - 1]);
    }
  }

  lemma {:induction false} LeadingByte(s: seq<byte>)
    requires s != []
    ensures Value(s) >= s[0] * Pow256(|s| - 1)
    ensures s[0] == 0 ==> Value(s) == Value(s[1..])
  {
    if |s| == 1 {
      assert s[..0] == [] && s[1..] == [];
    } else {
      var t := s[..|s| - 1];
      LeadingByte(t);
      assert t[1..] == s[1..][..|s| - 2];
      assert Pow256(|s| - 1) == 256 * Pow256(|s| - 2);
      assert s[0] * Pow256(|s| - 1) == 256 * (s[0] * Pow256(|s| - 2));
    }
  }

  /** The number of length octets after the initial one: none for the short form. */
  function LongOctets(len: nat): (k: nat)
    ensures k <= 4
  {
    if len > 0xff_ffff then 4
    else if len > 0xffff then 3
    else if len > 0xff then 2
    else if len > 0x7f then 1
    else 0
  }

  /** The definite, minimal length octets of X.690 section 8.1.3 and 10.1. */
  function DerLength(len: nat): (r: seq<byte>)
    requires len < 0x1_0000_0000
    ensures |r| == 1 + LongOctets(len)
  {
    if len <= 0x7f then [len] else [0x80 + LongOctets(len)] + BigEndian(len, LongOctets(len))
  }

  /** The short form is the length; the long form says how many octets follow, as few as can hold it. */
  lemma DerLengthMeans(len: nat)
    requires len < 0x1_0000_0000
    ensures var d := DerLength(len);
            if len < 0x80 then d == [len]
            else && 2 <= |d| <= 5 && d[0] == 0x80 + (|d| - 1) && Value(d[1..]) == len && d[1] != 0
  {
    if len >= 0x80 {
      var k := LongOctets(len);
      assert Pow256(0) == 1 && Pow256(1) == 0x100 && Pow256(2) == 0x1_0000 && Pow256(3) == 0x100_0000;
      assert Pow256(4) == 0x1_0000_0000;
      ValueOfBigEndian(len, k);
      BigEndianAt(len, k, k - 1);
      assert DerLength(len)[1..] == BigEndian(len, k);
    }
  }

  /** A tree of elements. */
  datatype Node =
    | Raw(bytes: seq<byte>)
    | Prefixed(lenLen: nat, body: seq<Node>)
    | Tagged(tag: byte, body: seq<Node>)

  function EncodeNode(n: Node): (r: seq<byte>)
    decreases n
  {
    match n
    case Raw(bytes) => bytes
    case Prefixed(k, body) =>
      var c := Encode(body);
      BigEndian(|c|, k) + c
    case Tagged(tag, body) =>
      var c := Encode(body);
      [tag] + (if |c| < 0x1_0000_0000 then DerLength(|c|) else []) + c
  }

  function Encode(ns: seq<Node>): (r: seq<byte>)
    decreases ns
  {
    if ns == [] then [] else Encode(ns[..|ns| - 1]) + EncodeNode(ns[|ns| - 1])
  }

  lemma EncodeAppend(ns: seq<Node>, n: Node)
    ensures Encode(ns + [n]) == Encode(ns) + EncodeNode(n)
  {
    assert (ns + [n])[..|ns|] == ns;
  }
}
