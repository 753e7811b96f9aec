/** Reassembly of handshake fragments with a bitmask (d1_both.c). */
module Reassembly {
  import opened Encoding

  // --------------------------------------------------------------------------
  // Bits of a byte
  // --------------------------------------------------------------------------

  /** 1 << j. */
  function OneBit(j: nat): (r: bv8)
    requires j < 8
  {
    [0x01, 0x02, 0x04, 0x08, 0x10, 0x20, 0x40, 0x80][j]
  }

  predicate Bit(b: bv8, j: nat)
    requires j < 8
  {
    b & OneBit(j) != 0
  }

  lemma OnlyBit(j: nat)
    requires j < 8
    ensures forall i :: 0 <= i < 8 ==> (Bit(OneBit(j), i) <==> i == j)
  {
  }

  /** bitmask_start_values: the bits from j on. */
  function StartValue(j: nat): (r: bv8)
    requires j < 8
    ensures forall i :: 0 <= i < 8 ==> (Bit(r, i) <==> i >= j)
  {
    [0xff, 0xfe, 0xfc, 0xf8, 0xf0, 0xe0, 0xc0, 0x80][j]
  }

  /** bitmask_end_values: the bits below j, all of them for 0. */
  function EndValue(j: nat): (r: bv8)
    requires j < 8
    ensures forall i :: 0 <= i < 8 ==> (Bit(r, i) <==> j == 0 || i < j)
  {
    [0xff, 0x01, 0x03, 0x07, 0x0f, 0x1f, 0x3f, 0x7f][j]
  }

  lemma OrMask(a: bv8, b: bv8, m: bv8)
    ensures (a | b) & m != 0 <==> a & m != 0 || b & m != 0
  {
  }

  lemma OrBit(a: bv8, b: bv8, j: nat)
    requires j < 8
    ensures Bit(a | b, j) <==> Bit(a, j) || Bit(b, j)
  {
    OrMask(a, b, OneBit(j));
  }

  lemma SameBits(a: bv8, b: bv8)
    requires forall j :: 0 <= j < 8 ==> (Bit(a, j) <==> Bit(b, j))
    ensures a == b
  {
    assert Bit(a, 0) <==> Bit(b, 0);
    assert Bit(a, 1) <==> Bit(b, 1);
    assert Bit(a, 2) <==> Bit(b, 2);
    assert Bit(a, 3) <==> Bit(b, 3);
    assert Bit(a, 4) <==> Bit(b, 4);
    assert Bit(a, 5) <==> Bit(b, 5);
    assert Bit(a, 6) <==> Bit(b, 6);
    assert Bit(a, 7) <==> Bit(b, 7);
  }

  lemma NoBit(j: nat)
    requires j < 8
    ensures !Bit(0, j) && Bit(0xff, j)
  {
  }

  // --------------------------------------------------------------------------
  // Masks over a message
  // --------------------------------------------------------------------------

  /** Byte q of a mask after marking from start to end. */
  ghost predicate ByteMarked(now: bv8, was: bv8, q: nat, start: nat, end: nat) {
    forall j :: 0 <= j < 8 ==> (Bit(now, j) <==> Bit(was, j) || start <= 8 * q + j < end)
  }

  lemma OrMarks(was: bv8, bits: bv8, q: nat, start: nat, end: nat)
    requires forall j :: 0 <= j < 8 ==> (Bit(bits, j) <==> start <= 8 * q + j < end)
    ensures ByteMarked(was | bits, was, q, start, end)
  {
    forall j | 0 <= j < 8
      ensures Bit(was | bits, j) <==> Bit(was, j) || start <= 8 * q + j < end
    {
      OrBit(was, bits, j);
    }
  }

  lemma FullMarks(was: bv8, q: nat, start: nat, end: nat)
    requires start <= 8 * q && 8 * q + 8 <= end
    ensures ByteMarked(0xff, was, q, start, end)
  {
    forall j | 0 <= j < 8
      ensures Bit(0xff, j)
    {
      NoBit(j);
    }
  }

  /** Marking one more bit, r of byte p. */
  lemma MarkHere(now: bv8, was: bv8, p: nat, r: nat, start: nat)
    requires r < 8 && start <= 8 * p + r && ByteMarked(now, was, p, start, 8 * p + r)
    ensures ByteMarked(now | OneBit(r), was, p, start, 8 * p + r + 1)
  {
    OnlyBit(r);
    forall j | 0 <= j < 8
      ensures Bit(now | OneBit(r), j) <==> Bit(was, j) || start <= 8 * p + j < 8 * p + r + 1
    {
      OrBit(now, OneBit(r), j);
    }
  }

  lemma MarkElsewhere(now: bv8, was: bv8, q: nat, p: nat, r: nat, start: nat)
    requires r < 8 && q != p && ByteMarked(now, was, q, start, 8 * p + r)
    ensures ByteMarked(now, was, q, start, 8 * p + r + 1)
  {
  }

  ghost predicate MaskMarked(now: seq<bv8>, was: seq<bv8>, start: nat, end: nat) {
    |now| == |was| && forall q :: 0 <= q < |now| ==> ByteMarked(now[q], was[q], q, start, end)
  }

  method MarkBitByBit(mask: array<bv8>, start: nat, end: nat)
    requires start <= end <= 8 * mask.Length
    modifies mask
    ensures MaskMarked(mask[..], old(mask[..]), start, end)
  {
    ghost var was := mask[..];
    for i := start to end
      invariant MaskMarked(mask[..], was, start, i)
    {
      MarkBit(mask, i, was, start);
    }
  }

  method MarkBit(mask: array<bv8>, i: nat, ghost was: seq<bv8>, ghost start: nat)
    requires start <= i < 8 * mask.Length && MaskMarked(mask[..], was, start, i)
    modifies mask
    ensures MaskMarked(mask[..], was, start, i + 1)
  {
    var p, r := i / 8, i % 8;
    ghost var m := mask[..];
    MarkOne(m, was, p, r, start);
    mask[p] := mask[p] | OneBit(r);
    assert mask[..] == m[p := m[p] | OneBit(r)];
  }

  lemma MarkOne(m: seq<bv8>, was: seq<bv8>, p: nat, r: nat, start: nat)
    requires p < |m| && r < 8 && start <= 8 * p + r && MaskMarked(m, was, start, 8 * p + r)
    ensures MaskMarked(m[p := m[p] | OneBit(r)], was, start, 8 * p + r + 1)
  {
    MarkHere(m[p], was[p], p, r, start);
    forall q | 0 <= q < |m| && q != p
      ensures ByteMarked(m[q], was[q], q, start, 8 * p + r + 1)
    {
      MarkElsewhere(m[q], was[q], q, p, r, start);
    }
  }

  method MarkWholeBytes(mask: array<bv8>, start: nat, end: nat)
    requires start + 8 < end <= 8 * mask.Length
    modifies mask
    ensures MaskMarked(mask[..], old(mask[..]), start, end)
  {
    ghost var was := mask[..];
    var first, last := start / 8, (end - 1) / 8;
    StartMarks(mask[first], start, end);
    mask[first] := mask[first] | StartValue(start % 8);
    for i := first + 1 to last
      invariant forall q :: first <= q < i ==> ByteMarked(mask[q], was[q], q, start, end)
      invariant forall q :: 0 <= q < first || i <= q < mask.Length ==> mask[q] == was[q]
    {
      FullMarks(was[i], i, start, end);
      mask[i] := 0xff;
    }
    EndMarks(mask[last], start, end);
    mask[last] := mask[last] | EndValue(end % 8);
    forall q | 0 <= q < first || last < q < mask.Length
      ensures ByteMarked(mask[q], was[q], q, start, end)
    {
      Outside(mask[q], q, start, end);
    }
  }

  lemma StartMarks(was: bv8, start: nat, end: nat)
    requires start + 8 < end
    ensures ByteMarked(was | StartValue(start % 8), was, start / 8, start, end)
  {
    OrMarks(was, StartValue(start % 8), start / 8, start, end);
  }

  lemma EndMarks(was: bv8, start: nat, end: nat)
    requires start + 8 < end
    ensures ByteMarked(was | EndValue(end % 8), was, (end - 1) / 8, start, end)
  {
    OrMarks(was, EndValue(end % 8), (end - 1) / 8, start, end);
  }

  lemma Outside(was: bv8, q: nat, start: nat, end: nat)
    requires start < end && (q < start / 8 || q > (end - 1) / 8)
    ensures ByteMarked(was, was, q, start, end)
  {
  }

  /** RSMBLY_BITMASK_MARK. */
  method Mark(mask: array<bv8>, start: nat, end: nat)
    requires start <= end <= 8 * mask.Length
    modifies mask
    ensures MaskMarked(mask[..], old(mask[..]), start, end)
  {
    if end - start <= 8 {
      MarkBitByBit(mask, start, end);
    } else {
      MarkWholeBytes(mask, start, end);
    }
  }

  /** Byte q of a mask with the bits of got set. */
  ghost predicate ByteHolds(b: bv8, q: nat, got: set<nat>) {
    forall j :: 0 <= j < 8 ==> (Bit(b, j) <==> 8 * q + j in got)
  }

  /** The mask stands for the set of bytes received. */
  ghost predicate Holds(mask: seq<bv8>, got: set<nat>) {
    forall q :: 0 <= q < |mask| ==> ByteHolds(mask[q], q, got)
  }

  function Range(start: nat, end: nat): (r: set<nat>)
    ensures forall k :: k in r <==> start <= k < end
    decreases end
  {
    if end <= start then {} else Range(start, end - 1) + {end - 1}
  }

  lemma MarkHolds(now: seq<bv8>, was: seq<bv8>, start: nat, end: nat, got: set<nat>)
    requires MaskMarked(now, was, start, end) && Holds(was, got)
    ensures Holds(now, got + Range(start, end))
  {
    forall q | 0 <= q < |now|
      ensures ByteHolds(now[q], q, got + Range(start, end))
    {
      assert ByteHolds(was[q], q, got) && ByteMarked(now[q], was[q], q, start, end);
    }
  }

  ghost predicate HasAll(got: set<nat>, lo: nat, hi: nat) {
    forall k :: lo <= k < hi ==> k in got
  }

  /** The bits of a byte below n, against the bytes they stand for. */
  lemma BitsAndBytes(b: bv8, q: nat, got: set<nat>, n: nat)
    requires ByteHolds(b, q, got) && n <= 8
    ensures (forall j :: 0 <= j < n ==> Bit(b, j)) <==> HasAll(got, 8 * q, 8 * q + n)
  {
    if HasAll(got, 8 * q, 8 * q + n) {
      forall j | 0 <= j < n
        ensures Bit(b, j)
      {
        assert 8 * q + j in got;
      }
    } else {
      var k :| 8 * q <= k < 8 * q + n && k !in got;
      assert !Bit(b, k - 8 * q);
    }
  }

  lemma FullByte(b: bv8, q: nat, got: set<nat>)
    requires ByteHolds(b, q, got)
    ensures b == 0xff <==> HasAll(got, 8 * q, 8 * q + 8)
  {
    BitsAndBytes(b, q, got, 8);
    forall j | 0 <= j < 8
      ensures Bit(0xff, j)
    {
      NoBit(j);
    }
    if HasAll(got, 8 * q, 8 * q + 8) {
      SameBits(b, 0xff);
    }
  }

  lemma EndBits(q: nat, n: nat, e: bv8)
    requires 1 <= n <= 8 && e == EndValue((8 * q + n) % 8)
    ensures forall j :: 0 <= j < 8 ==> (Bit(e, j) <==> j < n)
  {
    assert (8 * q + n) % 8 == if n == 8 then 0 else n;
  }

  /** The last byte is compared with the bits below the end; nothing is ever marked beyond it. */
  lemma LastByte(b: bv8, q: nat, len: nat, got: set<nat>)
    requires len > 0 && q == (len - 1) / 8 && ByteHolds(b, q, got) && got <= Range(0, len)
    ensures b == EndValue(len % 8) <==> HasAll(got, 8 * q, len)
  {
    var n := len - 8 * q;
    BitsAndBytes(b, q, got, n);
    var e := EndValue(len % 8);
    EndBits(q, n, e);
    if HasAll(got, 8 * q, len) {
      forall j | 0 <= j < 8
        ensures Bit(b, j) <==> j < n
      {
        assert 8 * q + j in got ==> 8 * q + j in Range(0, len);
      }
      SameBits(b, e);
    }
  }

  lemma AllOrMissing(got: set<nat>, lo: nat, hi: nat, len: nat)
    requires lo <= hi <= len && got <= Range(0, len)
    ensures lo == 0 && hi == len ==> (HasAll(got, lo, hi) <==> got == Range(0, len))
    ensures !HasAll(got, lo, hi) ==> got != Range(0, len)
  {
    assert HasAll(Range(0, len), lo, hi);
  }

  /** RSMBLY_BITMASK_IS_COMPLETE. */
  method IsComplete(mask: array<bv8>, len: nat, ghost got: set<nat>) returns (complete: bool)
    requires 0 < len && mask.Length == (len + 7) / 8
    requires Holds(mask[..], got) && got <= Range(0, len)
    ensures complete <==> got == Range(0, len)
  {
    complete := true;
    var last := (len - 1) / 8;
    ghost var m := mask[..];
    LastByte(m[last], last, len, got);
    AllOrMissing(got, 8 * last, len, len);
    if mask[last] != EndValue(len % 8) {
      complete := false;
    }
    if complete {
      var i := last - 1;
      while i >= 0
        invariant -1 <= i < last
        invariant complete ==> HasAll(got, 8 * (i + 1), len)
        invariant !complete ==> i == -1 && got != Range(0, len)
      {
        FullByte(m[i], i, got);
        AllOrMissing(got, 8 * i, 8 * i + 8, len);
        if mask[i] != 0xff {
          complete := false;
          i := -1;
        } else {
          i := i - 1;
        }
      }
      AllOrMissing(got, 0, len, len);
    }
  }
}
