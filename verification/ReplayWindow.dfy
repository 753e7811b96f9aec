/** The DTLS anti-replay window (section 4.1.2.6 of RFC 6347): satsub64be, the replay check and
    the bitmap update of d1_pkt.c, refined to the set of marked record numbers. */
module ReplayWindow {
  import opened Arith
  import opened Encoding

  // --------------------------------------------------------------------------
  // Big-endian numbers and the saturating subtraction
  // --------------------------------------------------------------------------

  /** The difference of the numbers written by the first i bytes. */
  function Diff(v1: seq<byte>, v2: seq<byte>, i: nat): (d: int)
    requires i <= |v1| && i <= |v2|
  {
    if i == 0 then 0 else 256 * Diff(v1, v2, i - 1) + v1[i - 1] - v2[i - 1]
  }

  lemma {:induction false} DiffIsValue(v1: seq<byte>, v2: seq<byte>, i: nat)
    requires i <= |v1| && i <= |v2|
    ensures Diff(v1, v2, i) == Value(v1[..i]) - Value(v2[..i])
  {
    if i > 0 {
      DiffIsValue(v1, v2, i - 1);
      assert v1[..i][..i - 1] == v1[..i - 1] && v2[..i][..i - 1] == v2[..i - 1];
    }
  }

  /** The bytes from some i to 6 have been subtracted: e is what the bytes before i still have to
      contribute, borrow included, and e7 is the whole difference without its last byte. `sat` says
      that one of the subtracted bytes is not the sign extension of a last byte with top bit `high`. */
  ghost predicate Chain(e: int, e7: int, high: bool, sat: bool) {
    && (e >= 0 <==> e7 >= 0)
    && (!high && !sat && e == 0 ==> e7 == 0)
    && (!high && e >= 0 && (sat || e >= 1) ==> e7 >= 1)
    && (high && !sat && e == -1 ==> e7 == -1)
    && (high && e <= -1 && (sat || e <= -2) ==> e7 <= -2)
  }

  lemma ChainStep(e: int, m: int, e7: int, high: bool, sat: bool)
    requires 0 <= m < 256 && Chain(256 * e + m, e7, high, sat)
    ensures Chain(e, e7, high, sat || (if high then m != 255 else m != 0))
  {
  }

  /** Whether a C int has a nonzero low byte. */
  predicate LowByteSet(x: int) {
    x % 256 != 0
  }

  lemma ComplementLow(x: int)
    ensures LowByteSet(-x - 1) <==> x % 256 != 255
  {
  }

  function LastDifference(v1: seq<byte>, v2: seq<byte>): (d: int)
    requires |v1| == 8 && |v2| == 8
  {
    var a: int := v1[7];
    a - v2[7]
  }

  method BorrowChain(v1: seq<byte>, v2: seq<byte>) returns (brw: int, sat: bool)
    requires |v1| == 8 && |v2| == 8
    ensures var ret := LastDifference(v1, v2); var high := ret % 256 >= 128;
            && -1 <= brw <= 0 && Chain(brw, Diff(v1, v2, 7) + ret / 256, high, sat)
            && (v1[0] == v2[0] && !sat ==> (high <==> brw == -1))
  {
    var ret := LastDifference(v1, v2);
    var high := ret % 256 >= 128;
    sat, brw := false, ret / 256;
    ghost var e7 := Diff(v1, v2, 7) + brw;
    for i := 7 downto 0
      invariant -1 <= brw <= 0 && Chain(Diff(v1, v2, i) + brw, e7, high, sat)
      invariant i < 7 && v1[i] == v2[i] && !sat ==> (high <==> brw == -1)
    {
      brw := brw + v1[i] - v2[i];
      ChainStep(Diff(v1, v2, i) + brw / 256, brw % 256, e7, high, sat);
      ComplementLow(brw);
      // sat |= ~brw or sat |= brw; only the low byte of sat is ever read
      sat := sat || LowByteSet(if high then -brw - 1 else brw);
      brw := brw / 256;
    }
  }

  /** satsub64be, byte by byte. Small differences are exact; the others keep their sign and
      leave the interval. With equal leading bytes the result is the clamped difference. */
  method Satsub64be(v1: seq<byte>, v2: seq<byte>) returns (cmp: int)
    requires |v1| == 8 && |v2| == 8
    ensures var d := Value(v1) - Value(v2);
            && (-128 <= d <= 127 ==> cmp == d)
            && (d > 127 ==> 128 <= cmp <= 255)
            && (d < -128 ==> -256 <= cmp <= -128)
            && (v1[0] == v2[0] ==> cmp == Clamp(d))
  {
    var brw, sat := BorrowChain(v1, v2);
    DiffIsValue(v1, v2, 8);
    assert v1[..8] == v1 && v2[..8] == v2;
    if sat {
      cmp := if brw == 0 then 128 else -128;  // brw * 256 | 0x80
    } else {
      cmp := brw * 256 + LastDifference(v1, v2) % 256;
    }
  }

  function Clamp(d: int): (r: int) {
    if d > 128 then 128 else if d < -128 then -128 else d
  }

  const TWO_63: int := 0x8000_0000_0000_0000

  /** The branch for big-endian hosts with 64-bit long: subtract as signed words, then clamp. */
  function NativeSatsub(a: nat, b: nat): (cmp: int) {
    var w := (a - b) % (2 * TWO_63);
    Clamp(if w >= TWO_63 then w - 2 * TWO_63 else w)
  }

  lemma {:induction false} ValueBelow(v: seq<byte>)
    requires |v| <= 8
    ensures Value(v) < [1, 0x100, 0x1_0000, 0x100_0000, 0x1_0000_0000, 0x100_0000_0000,
                        0x1_0000_0000_0000, 0x100_0000_0000_0000, 0x1_0000_0000_0000_0000][|v|]
  {
    if v != [] {
      ValueBelow(v[..|v| - 1]);
    }
  }

  lemma NativeExact(a: nat, b: nat)
    requires a < 2 * TWO_63 && b < 2 * TWO_63
    ensures -TWO_63 <= a - b < TWO_63 ==> NativeSatsub(a, b) == Clamp(a - b)
    ensures a - b >= TWO_63 ==> NativeSatsub(a, b) < 0
    ensures a - b < -TWO_63 ==> NativeSatsub(a, b) > 0
  {
    var w := (a - b) % (2 * TWO_63);
    assert w == if a >= b then a - b else a - b + 2 * TWO_63;
  }

  /** On numbers with a zero leading byte, so on 48-bit record numbers, the native branch computes
      the same thing; it can only agree where the difference fits a signed word. */
  method NativeAgrees(v1: seq<byte>, v2: seq<byte>) returns (agree: bool)
    requires |v1| == 8 && |v2| == 8
    ensures v1[0] == v2[0] == 0 ==> agree
    ensures agree ==> -TWO_63 <= Value(v1) - Value(v2) < TWO_63
  {
    var cmp := Satsub64be(v1, v2);
    agree := cmp == NativeSatsub(Value(v1), Value(v2));
    ValueBelow(v1);
    ValueBelow(v2);
    NativeExact(Value(v1), Value(v2));
    if v1[0] == v2[0] == 0 {
      LeadingZero(v1);
      LeadingZero(v2);
    }
  }

  lemma LeadingZero(v: seq<byte>)
    requires |v| == 8 && v[0] == 0
    ensures Value(v) < 0x100_0000_0000_0000
  {
    DropLeadingZero(v);
    ValueBelow(v[1..]);
  }

  lemma {:induction false} DropLeadingZero(v: seq<byte>)
    requires v != [] && v[0] == 0
    ensures Value(v) == Value(v[1..])
  {
    if |v| == 1 {
      assert v[..0] == [] && v[1..] == [];
    } else {
      DropLeadingZero(v[..|v| - 1]);
      assert v[..|v| - 1][1..] == v[1..][..|v| - 2];
    }
  }

  // --------------------------------------------------------------------------
  // The bitmap word
  // --------------------------------------------------------------------------

  /** Bit k of an unsigned word: the test `m & (1UL << k)`. */
  predicate Bit(m: nat, k: nat) {
    if k == 0 then m % 2 == 1 else Bit(m / 2, k - 1)
  }

  /** `m << s` in a word of w bits. */
  function ShiftLeft(m: nat, s: nat, w: nat): (r: nat) {
    (m * Pow2(s)) % Pow2(w)
  }

  /** `m | 1UL << k`. */
  function SetBit(m: nat, k: nat): (r: nat) {
    if Bit(m, k) then m else m + Pow2(k)
  }

  lemma {:induction false} BitOfShifted(m: nat, s: nat, k: nat)
    ensures Bit(m * Pow2(s), k) <==> k >= s && Bit(m, k - s)
  {
    if s > 0 {
      var x := m * Pow2(s - 1);
      assert m * Pow2(s) == 2 * x;
      if k > 0 {
        BitOfShifted(m, s - 1, k - 1);
        assert 2 * x / 2 == x;
      }
    } else {
      assert m * Pow2(0) == m;
    }
  }

  lemma HalfOfTruncated(m: nat, P: nat)
    requires P > 0
    ensures m % (2 * P) % 2 == m % 2 && m % (2 * P) / 2 == m / 2 % P
  {
    var q, r := m / (2 * P), m % (2 * P);
    assert m == 2 * (P * q) + r;
    assert m / 2 == P * q + r / 2;
    DivModUnique(m / 2, q, r / 2, P);
  }

  lemma {:induction false} BitOfTruncated(m: nat, w: nat, k: nat)
    requires k < w
    ensures Bit(m % Pow2(w), k) <==> Bit(m, k)
  {
    HalfOfTruncated(m, Pow2(w - 1));
    if k > 0 {
      BitOfTruncated(m / 2, w - 1, k - 1);
    }
  }

  lemma {:induction false} BitOfAdded(m: nat, s: nat, k: nat)
    requires !Bit(m, s)
    ensures Bit(m + Pow2(s), k) <==> k == s || Bit(m, k)
  {
    if s == 0 {
      assert (m + 1) / 2 == m / 2;
    } else {
      assert (m + Pow2(s)) / 2 == m / 2 + Pow2(s - 1);
      if k > 0 {
        BitOfAdded(m / 2, s - 1, k - 1);
      }
    }
  }

  lemma BitOfSet(m: nat, s: nat, k: nat)
    ensures Bit(SetBit(m, s), k) <==> k == s || Bit(m, k)
  {
    if !Bit(m, s) {
      BitOfAdded(m, s, k);
    }
  }

  lemma BitOfMoved(m: nat, s: nat, w: nat, k: nat)
    requires k < w
    ensures Bit(ShiftLeft(m, s, w), k) <==> k >= s && Bit(m, k - s)
  {
    BitOfTruncated(m * Pow2(s), w, k);
    BitOfShifted(m, s, k);
  }

  lemma {:induction false} BitOfZero(k: nat)
    ensures !Bit(0, k)
  {
    if k > 0 {
      BitOfZero(k - 1);
    }
  }

  lemma BitOfOne(k: nat)
    ensures Bit(1, k) <==> k == 0
  {
    if k > 0 {
      BitOfZero(k - 1);
    }
  }

  // --------------------------------------------------------------------------
  // The window
  // --------------------------------------------------------------------------

  /** What the window stands for: the marked numbers and the largest of them (0 at first). */
  datatype Window = Window(marked: set<nat>, top: nat) {

    /** Section 4.1.2.6 of RFC 6347: newer than everything seen, or inside the window and not seen. */
    predicate Accepts(n: nat, width: nat) {
      n > top || (top - n < width && n !in marked)
    }

    function Mark(n: nat): (w: Window) {
      Window(marked + {n}, if n > top then n else top)
    }

    ghost predicate Valid() {
      forall n :: n in marked ==> n <= top
    }
  }

  /** DTLS1_BITMAP, on a host whose unsigned long has `width` bits. */
  class Bitmap {
    const width: nat
    var map_: nat
    var maxSeqNum: seq<byte>
    ghost var marked: set<nat>

    ghost predicate Valid()
      reads this
    {
      && 0 < width <= 64 && |maxSeqNum| == 8
      && (forall n :: n in marked ==> n <= Value(maxSeqNum))
      && (forall k: nat :: k < width ==>
            (Bit(map_, k) <==> k <= Value(maxSeqNum) && Value(maxSeqNum) - k in marked))
    }

    ghost function Abstract(): (w: Window)
      reads this
    {
      Window(marked, Value(maxSeqNum))
    }

    constructor (w: nat)
      requires 0 < w <= 64
      ensures Valid() && Abstract() == Window({}, 0) && width == w
    {
      width, map_, maxSeqNum, marked := w, 0, [0, 0, 0, 0, 0, 0, 0, 0], {};
      new;
      forall k: nat | k < width
        ensures !Bit(0, k)
      {
        BitOfZero(k);
      }
      assert Value(maxSeqNum) == 0 by {
        ZeroValue(maxSeqNum);
      }
    }

    /** dtls1_record_replay_check. */
    method ReplayCheck(seq64be: seq<byte>) returns (ok: bool)
      requires Valid() && |seq64be| == 8
      ensures ok == Abstract().Accepts(Value(seq64be), width)
      ensures ok <==> Value(seq64be) > Value(maxSeqNum)
                      || (Value(maxSeqNum) - Value(seq64be) < width && Value(seq64be) !in marked)
    {
      var cmp := Satsub64be(seq64be, maxSeqNum);
      if cmp > 0 {
        return true;
      }
      var shift := -cmp;
      if shift >= width {
        return false;
      } else if Bit(map_, shift) {
        return false;
      }
      return true;
    }

    /** dtls1_record_bitmap_update. Numbers that have left the window are not recorded in the
        word, and nothing that the check can see is lost by that. */
    method BitmapUpdate(seq64be: seq<byte>)
      requires Valid() && |seq64be| == 8
      modifies this
      ensures Valid() && Abstract() == old(Abstract()).Mark(Value(seq64be))
      ensures marked == old(marked) + {Value(seq64be)}
      ensures maxSeqNum == if Value(seq64be) > old(Value(maxSeqNum)) then seq64be else old(maxSeqNum)
    {
      var cmp := Satsub64be(seq64be, maxSeqNum);
      ghost var n, m := Value(seq64be), Value(maxSeqNum);
      ghost var was := map_;
      if cmp > 0 {
        var shift := cmp;
        if shift < width {
          map_ := SetBit(ShiftLeft(map_, shift, width), 0);
        } else {
          map_ := 1;
        }
        maxSeqNum := seq64be;
        marked := marked + {n};
        forall k: nat | k < width
          ensures Bit(map_, k) <==> k <= n && n - k in marked
        {
          if shift < width {
            BitOfSet(ShiftLeft(was, shift, width), 0, k);
            BitOfMoved(was, shift, width, k);
            assert k >= shift ==> n - k == m - (k - shift);
          } else {
            BitOfOne(k);
          }
        }
      } else {
        var shift := -cmp;
        marked := marked + {n};
        if shift < width {
          map_ := SetBit(map_, shift);
          forall k: nat | k < width
            ensures Bit(map_, k) <==> k <= m && m - k in marked
          {
            BitOfSet(was, shift, k);
          }
        }
      }
    }
  }

  // --------------------------------------------------------------------------
  // Runs
  // --------------------------------------------------------------------------

  /** One record: its number, and whether it is marked once the check has let it through. */
  datatype Event = Event(seq64be: seq<byte>, marks: bool)

  /** The window after a record: an accepted one may be marked. */
  function Next(w: Window, e: Event, width: nat): (r: Window) {
    var n := Value(e.seq64be);
    if w.Accepts(n, width) && e.marks then w.Mark(n) else w
  }

  function After(w: Window, events: seq<Event>, width: nat): (r: Window)
    decreases |events|
  {
    if events == [] then w else
      After(Next(w, events[0], width), events[1..], width)
  }

  function Verdicts(w: Window, events: seq<Event>, width: nat): (r: seq<bool>)
    ensures |r| == |events|
    decreases |events|
  {
    if events == [] then [] else
      [w.Accepts(Value(events[0].seq64be), width)] + Verdicts(Next(w, events[0], width), events[1..], width)
  }

  /** Record j was accepted and marked. */
  predicate Taken(events: seq<Event>, v: seq<bool>, j: nat)
    requires j < |events| == |v|
  {
    v[j] && events[j].marks
  }

  /** The largest number accepted and marked before record i, 0 if there is none. */
  function Largest(events: seq<Event>, v: seq<bool>, i: nat): (t: nat)
    requires i <= |events| == |v|
  {
    if i == 0 then 0 else
      var t, n := Largest(events, v, i - 1), Value(events[i - 1].seq64be);
      if Taken(events, v, i - 1) && n > t then n else t
  }

  /** A record of that number was accepted and marked before record i. */
  predicate Seen(events: seq<Event>, v: seq<bool>, i: nat, n: nat)
    requires i <= |events| == |v|
  {
    exists j: nat :: j < i && Taken(events, v, j) && Value(events[j].seq64be) == n
  }

  /** It bounds all of them, and is one of them or 0. */
  lemma {:induction false} LargestMeans(events: seq<Event>, v: seq<bool>, i: nat)
    requires i <= |events| == |v|
    ensures forall j: nat :: j < i && Taken(events, v, j) ==> Value(events[j].seq64be) <= Largest(events, v, i)
    ensures Largest(events, v, i) == 0 || Seen(events, v, i, Largest(events, v, i))
  {
    if i > 0 {
      LargestMeans(events, v, i - 1);
    }
  }

  /** A verdict as section 4.1.2.6 of RFC 6347 asks for it: new, or within the window and not seen. */
  predicate Rightly(events: seq<Event>, v: seq<bool>, width: nat, i: nat)
    requires i < |events| == |v|
  {
    var n, t := Value(events[i].seq64be), Largest(events, v, i);
    v[i] <==> n > t || (t - n < width && !Seen(events, v, i, n))
  }

  lemma {:induction false} VerdictAt(w: Window, events: seq<Event>, width: nat, i: nat)
    requires i < |events|
    ensures Verdicts(w, events, width)[i]
         == After(w, events[..i], width).Accepts(Value(events[i].seq64be), width)
    decreases i
  {
    if i > 0 {
      VerdictAt(Next(w, events[0], width), events[1..], width, i - 1);
      assert events[1..][..i - 1] == events[..i][1..];
    }
  }

  lemma {:induction false} AfterSnoc(w: Window, events: seq<Event>, width: nat, i: nat)
    requires i < |events|
    ensures After(w, events[..i + 1], width) == Next(After(w, events[..i], width), events[i], width)
    decreases i
  {
    if i > 0 {
      AfterSnoc(Next(w, events[0], width), events[1..], width, i - 1);
      assert events[1..][..i - 1] == events[..i][1..] && events[1..][..i] == events[..i + 1][1..];
    } else {
      assert events[..1][1..] == [];
    }
  }

  /** The window stands for the records taken before record i. */
  ghost predicate Stands(w: Window, events: seq<Event>, v: seq<bool>, i: nat)
    requires i <= |events| == |v|
  {
    w.top == Largest(events, v, i) && forall n: nat :: n in w.marked <==> Seen(events, v, i, n)
  }

  lemma RightExact(w: Window, events: seq<Event>, v: seq<bool>, width: nat, i: nat)
    requires i < |events| == |v| && Stands(w, events, v, i)
    ensures Rightly(events, v, width, i) <==> v[i] == w.Accepts(Value(events[i].seq64be), width)
  {
  }

  lemma SeenNext(events: seq<Event>, v: seq<bool>, i: nat, n: nat)
    requires i < |events| == |v|
    ensures Seen(events, v, i + 1, n) <==>
            Seen(events, v, i, n) || (Taken(events, v, i) && n == Value(events[i].seq64be))
  {
  }

  lemma StandsNext(w: Window, events: seq<Event>, v: seq<bool>, width: nat, i: nat)
    requires i < |events| == |v| && Stands(w, events, v, i)
    requires v[i] == w.Accepts(Value(events[i].seq64be), width)
    ensures Stands(Next(w, events[i], width), events, v, i + 1)
  {
    forall n: nat
      ensures n in Next(w, events[i], width).marked <==> Seen(events, v, i + 1, n)
    {
      SeenNext(events, v, i, n);
    }
  }

  /** While all verdicts are the right ones, they are those of the run, and the window stands for the
      records taken. */
  lemma {:induction false} WindowFollows(events: seq<Event>, v: seq<bool>, width: nat, i: nat)
    requires i <= |events| == |v| && forall j: nat :: j < i ==> Rightly(events, v, width, j)
    ensures Stands(After(Window({}, 0), events[..i], width), events, v, i)
    ensures i > 0 ==> v[i - 1] == Verdicts(Window({}, 0), events, width)[i - 1]
  {
    if i > 0 {
      var w := After(Window({}, 0), events[..i - 1], width);
      WindowFollows(events, v, width, i - 1);
      RightExact(w, events, v, width, i - 1);
      VerdictAt(Window({}, 0), events, width, i - 1);
      StandsNext(w, events, v, width, i - 1);
      AfterSnoc(Window({}, 0), events, width, i - 1);
    }
  }

  lemma {:induction false} VerdictsRight(events: seq<Event>, width: nat, i: nat)
    requires i < |events|
    ensures Rightly(events, Verdicts(Window({}, 0), events, width), width, i)
  {
    var v := Verdicts(Window({}, 0), events, width);
    forall j: nat | j < i
      ensures Rightly(events, v, width, j)
    {
      VerdictsRight(events, width, j);
    }
    WindowFollows(events, v, width, i);
    VerdictAt(Window({}, 0), events, width, i);
    RightExact(After(Window({}, 0), events[..i], width), events, v, width, i);
  }

  lemma AllRight(events: seq<Event>, width: nat)
    ensures forall i: nat :: i < |events| ==> Rightly(events, Verdicts(Window({}, 0), events, width), width, i)
  {
    forall i: nat | i < |events|
      ensures Rightly(events, Verdicts(Window({}, 0), events, width), width, i)
    {
      VerdictsRight(events, width, i);
    }
  }

  /** From a fresh bitmap, the verdicts of a run are the only ones for which a record is accepted
      exactly if its number is beyond the largest one accepted and marked before, or less than the
      width below it and not accepted and marked before. */
  lemma VerdictsExact(events: seq<Event>, v: seq<bool>, width: nat)
    requires |v| == |events|
    ensures v == Verdicts(Window({}, 0), events, width) <==>
            forall i: nat :: i < |events| ==> Rightly(events, v, width, i)
  {
    AllRight(events, width);
    if forall i: nat :: i < |events| ==> Rightly(events, v, width, i) {
      forall i: nat | i < |events|
        ensures v[i] == Verdicts(Window({}, 0), events, width)[i]
      {
        WindowFollows(events, v, width, i + 1);
      }
    }
  }

  /** Any run of check and update on one bitmap gives the verdicts of the set of marked numbers. */
  method Run(bitmap: Bitmap, events: seq<Event>) returns (verdicts: seq<bool>)
    requires bitmap.Valid() && forall i :: 0 <= i < |events| ==> |events[i].seq64be| == 8
    modifies bitmap
    ensures bitmap.Valid()
    ensures verdicts == Verdicts(old(bitmap.Abstract()), events, bitmap.width)
    ensures old(bitmap.marked) == {} && old(Value(bitmap.maxSeqNum)) == 0 ==>
              forall i: nat :: i < |events| ==> Rightly(events, verdicts, bitmap.width, i)
    ensures bitmap.Abstract() == After(old(bitmap.Abstract()), events, bitmap.width)
  {
    verdicts := [];
    ghost var w0 := bitmap.Abstract();
    for i := 0 to |events|
      invariant bitmap.Valid()
      invariant verdicts + Verdicts(bitmap.Abstract(), events[i..], bitmap.width)
             == Verdicts(w0, events, bitmap.width)
      invariant After(bitmap.Abstract(), events[i..], bitmap.width) == After(w0, events, bitmap.width)
    {
      ghost var w := bitmap.Abstract();
      assert events[i..][1..] == events[i + 1..];
      var ok := bitmap.ReplayCheck(events[i].seq64be);
      if ok && events[i].marks {
        bitmap.BitmapUpdate(events[i].seq64be);
      }
      verdicts := verdicts + [ok];
    }
    AllRight(events, bitmap.width);
  }

  lemma {:induction false} MarkedStays(w: Window, events: seq<Event>, width: nat, n: nat)
    requires w.Valid() && n in w.marked
    ensures forall i :: 0 <= i < |events| && Value(events[i].seq64be) == n ==> !Verdicts(w, events, width)[i]
    decreases |events|
  {
    if events != [] {
      MarkedStays(Next(w, events[0], width), events[1..], width, n);
    }
  }

  /** No record number is accepted again once it has been accepted and marked, however the run goes on. */
  lemma {:induction false} NeverAcceptedTwice(w: Window, events: seq<Event>, width: nat, i: nat, j: nat)
    requires w.Valid() && i < j < |events| && Value(events[i].seq64be) == Value(events[j].seq64be)
    requires Verdicts(w, events, width)[i] && events[i].marks
    ensures !Verdicts(w, events, width)[j]
    decreases |events|
  {
    var w' := Next(w, events[0], width);
    assert events[1..][j - 1] == events[j];
    if i == 0 {
      MarkedStays(w', events[1..], width, Value(events[0].seq64be));
    } else {
      assert events[1..][i - 1] == events[i];
      NeverAcceptedTwice(w', events[1..], width, i - 1, j - 1);
    }
  }
}
