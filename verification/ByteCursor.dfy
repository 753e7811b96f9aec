/** The cursor of bs_cbs.c as an object that every getter advances in place. */
module ByteCursor {
  import opened Encoding
  import opened ByteParser
  import opened DerInteger

  class Cbs {
    var data: seq<byte>

    constructor (s: seq<byte>)
      ensures data == s
    {
      data := s;
    }

    /** cbs_get. */
    method Get(n: nat) returns (ok: bool, p: seq<byte>)
      modifies this
      ensures ok <==> GetBytes(old(data), n).Some?
      ensures ok ==> GetBytes(old(data), n) == Some(Got(p, data))
      ensures !ok ==> data == old(data)
    {
      p := [];
      if |data| < n {
        return false, [];
      }
      p := data[..n];
      data := data[n..];
      return true, p;
    }

    /** cbs_get_u. */
    method GetU(n: nat) returns (ok: bool, v: nat)
      modifies this
      ensures ok <==> GetUint(old(data), n).Some?
      ensures ok ==> GetUint(old(data), n) == Some(Got(v, data))
      ensures !ok ==> data == old(data)
    {
      v := 0;
      if n < 1 || n > 4 {
        return false, 0;
      }
      var p;
      ok, p := Get(n);
      if !ok {
        return false, 0;
      }
      for i := 0 to n
        modifies {}
        invariant v == Value(p[..i])
      {
        assert p[..i + 1][..i] == p[..i];
        v := 256 * v + p[i];
      }
      assert p[..n] == p;
    }

    /** cbs_get_length_prefixed. */
    method GetLengthPrefixed(n: nat) returns (ok: bool, c: seq<byte>)
      modifies this
      ensures ok <==> GetPrefixed(old(data), n).Some?
      ensures ok ==> GetPrefixed(old(data), n) == Some(Got(c, data))
    {
      var len;
      c := [];
      ok, len := GetU(n);
      if ok {
        ok, c := Get(len);
      }
    }

    /** cbs_get_any_asn1_element_internal: the header is read through a copy of the cursor. */
    method GetAnyElement(strict: bool) returns (r: Option<Found>)
      modifies this
      ensures r == GetElement(old(data), strict)
      ensures data == if r.Some? then r.value.rest else old(data)
    {
      var header := new Cbs(data);
      var ok, id := header.Get(2);
      if !ok {
        return None;
      }
      var tag, lengthByte := id[0], id[1];
      if tag % 32 == 31 {
        return None;
      }
      var len, headerLen: nat;
      if lengthByte < 0x80 {
        len, headerLen := lengthByte + 2, 2;
      } else {
        var numBytes := lengthByte - 0x80;
        if numBytes == 0x7f {
          return None;
        }
        if numBytes == 0 {
          if strict || !Constructed(tag) {
            return None;
          }
          len, headerLen := 2, 2;
        } else {
          if numBytes > 4 {
            return None;
          }
          var len32;
          assert header.data[..] == data[2..];
          ok, len32 := header.GetU(numBytes);
          if !ok {
            return None;
          }
          assert data[2..][..numBytes] == data[2..2 + numBytes];
          if len32 < 128 || len32 < Pow256(numBytes - 1) {
            return None;
          }
          len, headerLen := len32 + 2 + numBytes, 2 + numBytes;
        }
      }
      var element;
      ok, element := Get(len);
      if !ok {
        return None;
      }
      return Some(Found(tag, headerLen, element, data));
    }

    /** CBS_get_asn1. */
    method GetAsn1Contents(tag: byte) returns (ok: bool, c: seq<byte>)
      modifies this
      ensures ok <==> GetAsn1(old(data), tag).Some?
      ensures ok ==> GetAsn1(old(data), tag) == Some(Got(c, data))
    {
      c := [];
      var r := GetAnyElement(true);
      if r.None? || r.value.tag != tag {
        return false, [];
      }
      c := r.value.element[r.value.headerLen..];
      return true, c;
    }

    /** CBS_get_asn1_uint64: the overflow check looks at the top byte before each shift. */
    method GetAsn1Uint64() returns (ok: bool, v: nat)
      modifies this
      ensures ok <==> GetUint64(old(data)).Some?
      ensures ok ==> GetUint64(old(data)) == Some(Got(v, data))
    {
      v := 0;
      var c;
      ok, c := GetAsn1Contents(INTEGER);
      if !ok || c == [] || c[0] >= 0x80 {
        return false, 0;
      }
      if c[0] == 0 && |c| > 1 && c[1] < 0x80 {
        return false, 0;
      }
      for i := 0 to |c|
        modifies {}
        invariant v == Value(c[..i]) < TWO_64
      {
        assert c[..i + 1][..i] == c[..i];
        if v >= 0x100_0000_0000_0000 {
          PrefixValue(c, i + 1);
          return false, 0;
        }
        v := 256 * v + c[i];
      }
      assert c[..|c|] == c;
    }
  }

  lemma {:induction false} PrefixValue(c: seq<byte>, i: nat)
    requires i <= |c|
    ensures Value(c[..i]) <= Value(c)
    decreases |c|
  {
    if i == |c| {
      assert c[..i] == c;
    } else {
      PrefixValue(c[..|c| - 1], i);
      assert c[..|c| - 1][..i] == c[..i];
    }
  }
}
