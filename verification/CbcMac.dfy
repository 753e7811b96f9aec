/** ssl3_cbc_copy_mac: the MAC is gathered into a rotated buffer while the whole window is
    scanned, and the rotation is then undone. */
module CbcMac {
  import opened Arith
  import opened ConstantTime
  import opened CbcPadding

  const MAX_MD_SIZE: nat := 64

  /** How far residue r lies after residue o, going round a ring of n places. */
  function Slot(r: nat, o: nat, n: nat): (k: nat)
    requires r < n && o < n
    ensures k < n
  {
    if r >= o then r - o else r - o + n
  }

  function Wrap(x: nat, n: nat): (r: nat)
    requires x < 2 * n
    ensures r < n
  {
    if x < n then x else x - n
  }

  /** A counter that runs round a ring of n places, after x steps. */
  function Ring(x: nat, n: nat): (r: nat)
    requires n > 0
    ensures r < n
  {
    if x == 0 then 0 else Wrap(Ring(x - 1, n) + 1, n)
  }

  lemma {:induction false} RingAdd(x: nat, m: nat, n: nat)
    requires m < n
    ensures Ring(x + m, n) == Wrap(Ring(x, n) + m, n)
  {
    if m > 0 {
      RingAdd(x, m - 1, n);
    }
  }

  lemma {:induction false} RingIsMod(x: nat, n: nat)
    requires n > 0
    ensures Ring(x, n) == x % n
  {
    if x == 0 {
      DivModUnique(0, 0, 0, n);
    } else {
      RingIsMod(x - 1, n);
      var q, r := (x - 1) / n, (x - 1) % n;
      assert x - 1 == q * n + r;
      if r + 1 < n {
        DivModUnique(x, q, r + 1, n);
      } else {
        assert (q + 1) * n == q * n + n;
        DivModUnique(x, q + 1, 0, n);
      }
    }
  }

  function DivSpoiler(md: u32): (r: u32) {
    (md / 2 * 0x100_0000) % 0x1_0000_0000
  }

  function RotateOffset(md: u32, macStart: u32, scanStart: u32): (r: nat)
    requires 0 < md <= MAX_MD_SIZE && scanStart <= macStart < 0x8000_0000
    ensures r < md
  {
    (DivSpoiler(md) + macStart - scanStart) % md
  }

  /** For the even digest sizes the spoiler is a multiple of md and changes nothing. */
  lemma SpoilerHarmless(md: u32, macStart: u32, scanStart: u32)
    requires 0 < md <= MAX_MD_SIZE && md % 2 == 0 && scanStart <= macStart < 0x8000_0000
    ensures RotateOffset(md, macStart, scanStart) == Ring(macStart - scanStart, md)
  {
    SpoilerExact(md, macStart, scanStart);
  }

  lemma OddTimesOdd(h: int, r: int)
    ensures (2 * h + 1) * (2 * r + 1) == 2 * (2 * (h * r) + h + r) + 1
  {
  }

  lemma TimesEven(m: int, r: int)
    ensures m * (2 * r) == 2 * (m * r)
  {
  }

  lemma NotOne(m: int, q: int)
    requires m >= 3
    ensures m * q != 1
  {
    if q >= 1 {
      MulMono(1, q, m);
    } else {
      MulMono(q, 0, m);
    }
  }

  /** An odd number from 3 on divides no power of two. */
  lemma {:induction false} OddDivides(md: nat, q: int, k: nat)
    requires md >= 3 && md % 2 == 1
    ensures md * q != Pow2(k)
    decreases k
  {
    if k == 0 {
      NotOne(md, q);
    } else if q % 2 == 1 {
      OddTimesOdd(md / 2, q / 2);
      assert md == 2 * (md / 2) + 1 && q == 2 * (q / 2) + 1;
    } else {
      assert q == 2 * (q / 2);
      TimesEven(md, q / 2);
      OddDivides(md, q / 2, k - 1);
    }
  }

  /** Odd sizes from 3 on: the spoiler leaves a remainder. */
  lemma OddSpoiler(md: u32)
    requires 3 <= md <= MAX_MD_SIZE && md % 2 == 1
    ensures DivSpoiler(md) % md != 0
  {
    var d := DivSpoiler(md);
    var q := d / md;
    assert Pow2(24) == 0x100_0000 by {
      assert Pow2(8) == 256;
      assert Pow2(16) == 65536;
    }
    assert d == md / 2 * 0x100_0000 && 2 * d == md * 0x100_0000 - 0x100_0000;
    if d % md == 0 {
      assert d == md * q;
      assert md * (0x100_0000 - 2 * q) == md * 0x100_0000 - 2 * (md * q);
      OddDivides(md, 0x100_0000 - 2 * q, 24);
      assert false;
    }
  }

  lemma EvenSpoiler(md: u32)
    requires 0 < md <= MAX_MD_SIZE && md % 2 == 0
    ensures DivSpoiler(md) % md == 0
  {
    assert DivSpoiler(md) == 0x80_0000 * md;
    DivModUnique(DivSpoiler(md), 0x80_0000, 0, md);
  }

  /** Adding d does not change the remainder exactly when d leaves none. */
  lemma RemainderKept(d: nat, x: nat, n: nat)
    requires n > 0
    ensures (d + x) % n == x % n <==> d % n == 0
  {
    var q, r := d / n, d % n;
    var p, t := x / n, x % n;
    assert d == q * n + r && x == p * n + t;
    assert (q + p) * n == q * n + p * n;
    if r + t < n {
      DivModUnique(d + x, q + p, r + t, n);
    } else {
      assert (q + p + 1) * n == (q + p) * n + n;
      DivModUnique(d + x, q + p + 1, r + t - n, n);
    }
  }

  /** The spoiler leaves the offset alone exactly for the even digest sizes, and for size 1; for any other size
      the offset is wrong whatever the record. */
  lemma SpoilerExact(md: u32, macStart: u32, scanStart: u32)
    requires 0 < md <= MAX_MD_SIZE && scanStart <= macStart < 0x8000_0000
    ensures RotateOffset(md, macStart, scanStart) == Ring(macStart - scanStart, md) <==> md % 2 == 0 || md == 1
  {
    RemainderKept(DivSpoiler(md), macStart - scanStart, md);
    RingIsMod(macStart - scanStart, md);
    if md % 2 == 0 {
      EvenSpoiler(md);
    } else if md > 1 {
      OddSpoiler(md);
    }
  }

  /** `j++; j &= constant_time_lt(j, n)`. */
  method NextIndex(j: nat, n: u32) returns (r: nat)
    requires j < n < 0x8000_0000
    ensures r == Wrap(j + 1, n)
  {
    LtExact(j + 1, n);
    r := AndMask(j + 1, Lt(j + 1, n));
  }

  method MaskedOr(cur: bv8, b: bv8, i: u32, macStart: u32, macEnd: u32) returns (r: bv8)
    requires i < 0x8000_0000 && macStart < 0x8000_0000 && macEnd < 0x8000_0000
    ensures r == if macStart <= i < macEnd then cur | b else cur
  {
    GeExact(i, macStart);
    GeExact(i, macEnd);
    Low8Mask(i >= macStart);
    Low8Mask(i >= macEnd);
    var macStarted := Low8(Ge(i, macStart));
    var macEnded := Low8(Ge(i, macEnd));
    r := cur | (b & macStarted & !macEnded);
  }

  /** What the rotated buffer holds once `m` bytes of the MAC have been seen. */
  ghost predicate Gathered(rot: seq<bv8>, mac: seq<bv8>, o: nat, m: int)
    requires o < |mac|
  {
    && |rot| == |mac|
    && forall r :: 0 <= r < |rot| ==> rot[r] == if Slot(r, o, |mac|) < m then mac[Slot(r, o, |mac|)] else 0
  }

  /** Placing the next MAC byte at its residue keeps the buffer as described. */
  lemma GatherStep(rot: seq<bv8>, mac: seq<bv8>, o: nat, m: nat, j: nat, b: bv8)
    requires o < |mac| && m < |mac| && Gathered(rot, mac, o, m)
    requires j == Wrap(o + m, |mac|) && b == rot[j] | mac[m]
    ensures Gathered(rot[j := b], mac, o, m + 1)
  {
    assert Slot(j, o, |mac|) == m;
    assert rot[j] == 0;
    assert (0 as bv8) | mac[m] == mac[m];
    var rot' := rot[j := b];
    forall r | 0 <= r < |rot'|
      ensures rot'[r] == if Slot(r, o, |mac|) < m + 1 then mac[Slot(r, o, |mac|)] else 0
    {
      if r != j {
        assert Slot(r, o, |mac|) != m;
      }
    }
  }

  /** The cleared buffer, before any MAC byte has been seen. */
  method EmptyMac(md: nat, ghost mac: seq<bv8>, ghost o: nat) returns (rot: array<bv8>)
    requires o < |mac| == md
    ensures fresh(rot) && rot.Length == md && forall m :: m <= 0 ==> Gathered(rot[..], mac, o, m)
  {
    rot := new bv8[md](_ => 0);
  }

  method Gather(buf: array<bv8>, off: nat, macStart: u32, md: u32, scanStart: u32, origLen: u32)
    returns (rot: array<bv8>)
    requires 0 < md <= MAX_MD_SIZE && off + origLen <= buf.Length && origLen < 0x8000_0000
    requires scanStart <= macStart && macStart + md <= origLen
    ensures fresh(rot) && rot.Length == md
    ensures Gathered(rot[..], buf[off + macStart..off + macStart + md], Ring(macStart - scanStart, md), md)
  {
    var macEnd := macStart + md;
    ghost var mac := buf[off + macStart..off + macEnd];
    ghost var o := Ring(macStart - scanStart, md);
    rot := EmptyMac(md, mac, o);
    var j := 0;
    for i := scanStart to origLen
      invariant j == Ring(i - scanStart, md)
      invariant Gathered(rot[..], mac, o, i - macStart)
    {
      if macStart <= i < macEnd {
        RingAdd(macStart - scanStart, i - macStart, md);
      }
      GatherByte(rot, buf[off + i], i, macStart, macEnd, j, mac, o);
      j := NextIndex(j, md);
      RingNext(i - scanStart, md);
    }
  }

  lemma RingNext(a: nat, md: nat)
    requires md > 0
    ensures Ring(a + 1, md) == Wrap(Ring(a, md) + 1, md)
  {
  }

  /** One byte of the scan is put at index j. */
  method GatherByte(rot: array<bv8>, b: bv8, i: u32, macStart: u32, macEnd: u32, j: nat, ghost mac: seq<bv8>,
                    ghost o: nat)
    requires i < 0x8000_0000 && macStart < 0x8000_0000 && macEnd < 0x8000_0000
    requires macEnd - macStart == |mac| == rot.Length
    requires o < |mac| && j < |mac| && Gathered(rot[..], mac, o, i - macStart)
    requires macStart <= i < macEnd ==> b == mac[i - macStart] && j == Wrap(o + (i - macStart), |mac|)
    modifies rot
    ensures Gathered(rot[..], mac, o, i - macStart + 1)
  {
    ghost var was := rot[..];
    var c := MaskedOr(rot[j], b, i, macStart, macEnd);
    rot[j] := c;
    assert rot[..] == was[j := c];
    if macStart <= i < macEnd {
      GatherStep(was, mac, o, i - macStart, j, c);
    } else {
      assert was[j := c] == was;
    }
  }

  /** Undoing the rotation with variable accesses (CBC_MAC_ROTATE_IN_PLACE). */
  method RotateInPlace(out: array<bv8>, rot: array<bv8>, offset: nat, ghost mac: seq<bv8>)
    requires 0 < rot.Length <= MAX_MD_SIZE && out.Length >= rot.Length && out != rot
    requires offset < rot.Length && |mac| == rot.Length && Gathered(rot[..], mac, offset, |mac|)
    modifies out
    ensures out[..rot.Length] == mac && out[rot.Length..] == old(out[rot.Length..])
  {
    var md := rot.Length;
    var ro := offset;
    for i := 0 to md
      invariant ro == Wrap(offset + i, md)
      invariant out[..i] == mac[..i] && out[md..] == old(out[md..])
      invariant Gathered(rot[..], mac, offset, md)
    {
      assert Slot(ro, offset, md) == i;
      assert rot[..][ro] == mac[i];
      out[i] := rot[ro];
      assert out[..i + 1] == out[..i] + [out[i]];
      ro := NextIndex(ro, md);
    }
  }

  method SelectOr(cur: bv8, b: bv8, j: u32, k: u32) returns (r: bv8)
    requires j < 0x8000_0000 && k < 0x8000_0000
    ensures r == if j == k then cur | b else cur
  {
    Eq8Small(j, k);
    r := cur | (b & Eq8(j, k));
  }

  method Clear(out: array<bv8>, n: nat)
    requires n <= out.Length
    modifies out
    ensures forall k :: 0 <= k < n ==> out[k] == 0
    ensures out[n..] == old(out[n..])
  {
    for i := 0 to n
      invariant forall k :: 0 <= k < i ==> out[k] == 0
      invariant out[n..] == old(out[n..])
    {
      out[i] := 0;
    }
  }

  /** ORs b into place `pos` of out, touching all n places. */
  method ScatterByte(out: array<bv8>, n: nat, pos: nat, b: bv8)
    requires pos < n <= out.Length && n <= MAX_MD_SIZE
    modifies out
    ensures out[..] == old(out[..])[pos := old(out[pos]) | b]
  {
    for j := 0 to n
      invariant out[..] == if pos < j then old(out[..])[pos := old(out[pos]) | b] else old(out[..])
    {
      out[j] := SelectOr(out[j], b, j, pos);
    }
  }

  /** What the output holds once the first i places of the rotated buffer have been copied. */
  ghost predicate Scattered(out: seq<bv8>, mac: seq<bv8>, o: nat, i: nat)
    requires o < |mac| <= |out|
  {
    forall k :: 0 <= k < |mac| ==> out[k] == if Wrap(o + k, |mac|) < i then mac[k] else 0
  }

  lemma ScatterStep(out: seq<bv8>, mac: seq<bv8>, o: nat, i: nat)
    requires o < |mac| <= |out| && i < |mac| && Scattered(out, mac, o, i)
    ensures var ro := Slot(i, o, |mac|);
            Scattered(out[ro := out[ro] | mac[ro]], mac, o, i + 1)
  {
    var ro := Slot(i, o, |mac|);
    assert Wrap(o + ro, |mac|) == i;
    assert (0 as bv8) | mac[ro] == mac[ro];
  }

  /** Undoing the rotation by touching every output byte each time (the other branch). */
  method RotateByMasks(out: array<bv8>, rot: array<bv8>, offset: nat, ghost mac: seq<bv8>)
    requires 0 < rot.Length <= MAX_MD_SIZE && out.Length >= rot.Length && out != rot
    requires offset < rot.Length && |mac| == rot.Length && Gathered(rot[..], mac, offset, |mac|)
    modifies out
    ensures out[..rot.Length] == mac && out[rot.Length..] == old(out[rot.Length..])
  {
    var md := rot.Length;
    Clear(out, md);
    var ro := NextIndex(md - offset - 1, md);
    for i := 0 to md
      invariant i < md ==> ro == Slot(i, offset, md)
      invariant Scattered(out[..], mac, offset, i) && out[md..] == old(out[md..])
    {
      assert rot[..][i] == mac[ro];
      ScatterStep(out[..], mac, offset, i);
      ScatterByte(out, md, ro, rot[i]);
      ro := NextIndex(ro, md);
    }
  }

  /** Copies the last md bytes of the unpadded record, wherever in the final 256 bytes they end. */
  method CopyMac(out: array<bv8>, rec: Record, md: u32, origLen: u32, inPlace: bool)
    requires 0 < md <= MAX_MD_SIZE && md % 2 == 0 && md <= out.Length
    requires md <= rec.length <= origLen <= rec.length + 256
    requires origLen < 0x8000_0000 && rec.data + origLen <= rec.buf.Length && out != rec.buf
    modifies out
    ensures out[..md] == rec.buf[rec.data + rec.length - md..rec.data + rec.length]
    ensures out[md..] == old(out[md..])
  {
    var macEnd: u32 := rec.length;
    var macStart: u32 := macEnd - md;
    var scanStart: u32 := 0;
    if origLen > md + 255 + 1 {
      scanStart := origLen - (md + 255 + 1);
    }
    var offset := RotateOffset(md, macStart, scanStart);
    SpoilerHarmless(md, macStart, scanStart);
    assert offset == Ring(macStart - scanStart, md);
    ghost var mac := rec.buf[rec.data + macStart..rec.data + macEnd];
    var rot := Gather(rec.buf, rec.data, macStart, md, scanStart, origLen);
    if inPlace {
      RotateInPlace(out, rot, offset, mac);
    } else {
      RotateByMasks(out, rot, offset, mac);
    }
  }
}
