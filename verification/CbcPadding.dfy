/** ssl3_cbc_remove_padding: padding removal by masks, against section 6.2.3.2 of RFC 5246. */
module CbcPadding {
  import opened ConstantTime

  /** The fields of SSL3_RECORD_INTERNAL that padding removal uses; `data` and `input`
      are offsets into one buffer. */
  class Record {
    const buf: array<bv8>
    var data: nat
    var input: nat
    var length: nat
    var paddingLength: nat

    ghost predicate Valid()
      reads this
    {
      data + length <= buf.Length && length < 0x8000_0000
    }

    ghost function Fragment(): (s: seq<bv8>)
      requires Valid()
      reads this, buf
      ensures |s| == length
    {
      buf[data..data + length]
    }

    constructor (b: array<bv8>, off: nat, len: nat)
      requires off + len <= b.Length && len < 0x8000_0000
      ensures Valid() && buf == b && data == off && input == off && length == len && paddingLength == 0
    {
      buf, data, input, length, paddingLength := b, off, off, len, 0;
    }
  }

  /** GenericBlockCipher padding: the last byte p is preceded by p bytes of value p, and the
      MAC still fits in front of them. */
  predicate WellPadded(s: seq<bv8>, macSize: nat)
    requires |s| > 0
  {
    var p := s[|s| - 1];
    && p as int + 1 + macSize <= |s|
    && forall k :: |s| - 1 - p as int <= k < |s| ==> s[k] == p
  }

  /** Well padded is what is made of a MAC and more by adding p + 1 bytes of value p, and nothing else. */
  lemma PaddingMeans(s: seq<bv8>, macSize: nat)
    requires |s| > 0
    ensures WellPadded(s, macSize) <==>
            exists p: bv8, c: seq<bv8> :: |c| >= macSize && s == Padded(c, p)
  {
    if WellPadded(s, macSize) {
      var p := s[|s| - 1];
      var c := s[..|s| - 1 - p as int];
      assert s == Padded(c, p);
    }
    forall p: bv8, c: seq<bv8> | |c| >= macSize && s == Padded(c, p)
      ensures WellPadded(s, macSize)
    {
      assert s[|s| - 1] == p;
    }
  }

  function Padded(c: seq<bv8>, p: bv8): (s: seq<bv8>) {
    c + seq(p as int + 1, _ => p)
  }

  predicate LowOnes(g: bv32) {
    g & 0xff == 0xff
  }

  /** One byte of the scan: a wrong byte inside the padding clears a low bit of `good`. */
  method AccumulateByte(good: bv32, p: bv8, pad: u32, b: bv8, i: u32) returns (g: bv32)
    requires i <= 256 && pad < 256
    ensures LowOnes(g) <==> LowOnes(good) && (pad >= i ==> b == p)
  {
    GeExact(pad, i);
    Low8Mask(pad >= i);
    var mask := Low8(Ge(pad, i));
    g := good & !((mask & (p ^ b)) as bv32);
  }

  method InitialGood(length: u32, needed: u32) returns (g: bv32)
    requires -0x8000_0000 <= length - needed < 0x8000_0000
    ensures LowOnes(g) <==> needed <= length
  {
    GeExact(length, needed);
    g := if Ge(length, needed) == ONES then 0xffff_ffff else 0;
  }

  /** ANDs the low eight bits together and copies the result to every bit. */
  function FoldGood(g: bv32): (r: bv32)
    ensures r == if LowOnes(g) then 0xffff_ffff else 0
  {
    var g1 := g & (g >> 4);
    var g2 := g1 & (g1 >> 2);
    var g3 := g2 & (g2 >> 1);
    if g3 << 31 >= 0x8000_0000 then 0xffff_ffff else 0
  }

  function AsSigned(x: bv32): (r: int) {
    if x >= 0x8000_0000 then x as int - 0x1_0000_0000 else x as int
  }

  /** The two masked results: how much to cut, and the return value. */
  method MaskedResults(good: bv32, p: bv8) returns (cut: nat, r: int)
    requires good == 0 || good == 0xffff_ffff
    ensures cut == if good == 0 then 0 else p as int + 1
    ensures r == if good == 0 then -1 else 1
  {
    cut := (good & (p as bv32 + 1)) as int;
    r := AsSigned((good & 1) | (!good & 0xffff_ffff));
  }

  /** The scan over the largest possible padding, independent of the padding length. */
  method ScanPadding(buf: array<bv8>, off: nat, L: nat, macSize: u32) returns (good: bv32)
    requires 0 < L < 0x8000_0000 && off + L <= buf.Length && 1 + macSize <= L
    ensures good == if WellPadded(buf[off..off + L], macSize) then 0xffff_ffff else 0
  {
    var overhead := 1 + macSize;
    ghost var s := buf[off..off + L];
    var p := buf[off + L - 1];
    var pad: u32 := p as int;
    good := InitialGood(L, overhead + pad);
    var toCheck := 256;
    if toCheck > L {
      toCheck := L;
    }
    for i := 0 to toCheck
      invariant LowOnes(good) <==>
                  overhead + pad <= L && forall k :: L - i <= k < L && L - 1 - pad <= k ==> s[k] == p
    {
      var b := buf[off + L - 1 - i];
      assert b == s[L - 1 - i];
      good := AccumulateByte(good, p, pad, b, i);
    }
    assert LowOnes(good) <==> WellPadded(s, macSize);
    good := FoldGood(good);
  }

  /** The explicit IV is no part of the fragment. */
  method SkipIv(rec: Record, eivLen: u32)
    requires rec.Valid() && eivLen <= rec.length
    modifies rec`data, rec`input, rec`length
    ensures rec.Valid() && rec.Fragment() == old(rec.Fragment())[eivLen..]
    ensures rec.data == old(rec.data) + eivLen && rec.input == old(rec.input) + eivLen
    ensures rec.length == old(rec.length) - eivLen
  {
    rec.data := rec.data + eivLen;
    rec.input := rec.input + eivLen;
    rec.length := rec.length - eivLen;
  }

  method Cut(rec: Record, n: nat)
    requires rec.Valid() && n <= rec.length
    modifies rec`length, rec`paddingLength
    ensures rec.Valid() && rec.length == old(rec.length) - n && rec.paddingLength == n
    ensures rec.Fragment() == old(rec.Fragment())[..rec.length]
  {
    rec.length := rec.length - n;
    rec.paddingLength := n;
  }

  method RemovePadding(rec: Record, eivLen: u32, macSize: u32) returns (r: int)
    requires rec.Valid() && 1 + macSize + eivLen < 0x1_0000_0000
    modifies rec
    ensures rec.Valid()
    ensures r == 0 <==> old(rec.length) < 1 + macSize + eivLen
    ensures r == 0 ==> unchanged(rec)
    ensures r != 0 ==>
              var s := old(rec.Fragment())[eivLen..];
              && r == (if WellPadded(s, macSize) then 1 else -1)
              && rec.paddingLength == (if WellPadded(s, macSize) then s[|s| - 1] as int + 1 else 0)
              && rec.length == |s| - rec.paddingLength
              && rec.data == old(rec.data) + eivLen && rec.input == old(rec.input) + eivLen
              && rec.Fragment() == s[..rec.length]
  {
    var overhead := 1 + macSize;
    if overhead + eivLen > rec.length {
      return 0;
    }
    ghost var s := rec.Fragment()[eivLen..];
    SkipIv(rec, eivLen);

    var p := rec.buf[rec.data + rec.length - 1];
    assert p == s[|s| - 1];
    var good := ScanPadding(rec.buf, rec.data, rec.length, macSize);
    var paddingLength;
    paddingLength, r := MaskedResults(good, p);
    Cut(rec, paddingLength);
  }
}
