/** A handshake message under reassembly: its bytes and which of them have arrived. */
module DtlsFragment {
  import opened Encoding
  import opened Reassembly

  /** hm_fragment as a value; pending while the reassembly mask exists. */
  datatype Partial = Partial(bytes: seq<byte>, got: set<nat>, pending: bool)

  function Zeros(n: nat): (r: seq<byte>)
    ensures |r| == n
  {
    if n == 0 then [] else Zeros(n - 1) + [0]
  }

  function Fresh(n: nat): (p: Partial) {
    Partial(Zeros(n), {}, true)
  }

  function Splice(b: seq<byte>, off: nat, data: seq<byte>): (r: seq<byte>)
    requires off + |data| <= |b|
    ensures |r| == |b|
    ensures forall k :: 0 <= k < |b| ==> r[k] == if off <= k < off + |data| then data[k - off] else b[k]
  {
    b[..off] + data + b[off + |data|..]
  }

  /** What dtls1_reassemble_fragment does with the body of a fragment: a message that is whole
      already stays as it is. */
  function Arrive(p: Partial, off: nat, data: seq<byte>): (r: Partial)
    requires off + |data| <= |p.bytes|
    ensures |r.bytes| == |p.bytes|
  {
    if !p.pending then p else
      var got := p.got + Range(off, off + |data|);
      Partial(Splice(p.bytes, off, data), got, got != Range(0, |p.bytes|))
  }

  // --------------------------------------------------------------------------
  // Slices of one message, in any order, with repeats and overlaps
  // --------------------------------------------------------------------------

  datatype Slice = Slice(off: nat, len: nat)

  predicate Proper(s: Slice, n: nat) {
    0 < s.len && s.off + s.len <= n
  }

  predicate ProperAt(slices: seq<Slice>, i: nat, n: nat)
    requires i < |slices|
  {
    Proper(slices[i], n)
  }

  ghost predicate AllProper(slices: seq<Slice>, n: nat) {
    forall i :: 0 <= i < |slices| ==> ProperAt(slices, i, n)
  }

  /** Slice i is within m and not empty. */
  lemma SliceProper(slices: seq<Slice>, i: nat, n: nat)
    requires AllProper(slices, n) && i < |slices|
    ensures Proper(slices[i], n)
  {
    assert ProperAt(slices, i, n);
  }

  predicate Has(s: Slice, k: nat) {
    s.off <= k < s.off + s.len
  }

  /** Byte k is in one of the first n slices. */
  ghost predicate Covered(slices: seq<Slice>, n: nat, k: nat)
    requires n <= |slices|
  {
    exists i :: 0 <= i < n && Has(slices[i], k)
  }

  /** The state after the first n slices of m have arrived one after the other. */
  ghost function Feed(m: seq<byte>, slices: seq<Slice>, n: nat): (p: Partial)
    requires AllProper(slices, |m|) && n <= |slices|
    ensures |p.bytes| == |m|
  {
    if n == 0 then Fresh(|m|) else
      var s := slices[n - 1];
      SliceProper(slices, n - 1, |m|);
      Arrive(Feed(m, slices, n - 1), s.off, m[s.off..s.off + s.len])
  }

  /** Everything that has arrived of m is right. */
  ghost predicate PartOf(p: Partial, m: seq<byte>) {
    && |p.bytes| == |m| && p.got <= Range(0, |m|) && (p.pending <==> p.got != Range(0, |m|))
    && forall k :: 0 <= k < |m| && k in p.got ==> p.bytes[k] == m[k]
  }

  lemma FreshPart(m: seq<byte>)
    requires m != []
    ensures PartOf(Fresh(|m|), m)
  {
    assert 0 in Range(0, |m|);
  }

  lemma {:induction false} ArrivePart(p: Partial, m: seq<byte>, off: nat, data: seq<byte>)
    requires PartOf(p, m) && off + |data| <= |m| && data == m[off..off + |data|]
    ensures PartOf(Arrive(p, off, data), m)
    ensures Arrive(p, off, data).got == p.got + Range(off, off + |data|)
  {
    if p.pending {
      var b := Splice(p.bytes, off, data);
      forall k | 0 <= k < |m| && k in p.got + Range(off, off + |data|)
        ensures b[k] == m[k]
      {
        if off <= k < off + |data| {
          assert m[off..off + |data|][k - off] == m[k];
        }
      }
    }
  }

  /** A whole message is the message. */
  lemma {:induction false} WholeIsMessage(p: Partial, m: seq<byte>)
    requires PartOf(p, m) && !p.pending
    ensures p.bytes == m
  {
    forall k | 0 <= k < |m|
      ensures p.bytes[k] == m[k]
    {
      assert k in Range(0, |m|);
    }
  }

  lemma {:induction false} FeedPart(m: seq<byte>, slices: seq<Slice>, n: nat)
    requires m != [] && AllProper(slices, |m|) && n <= |slices|
    ensures PartOf(Feed(m, slices, n), m)
  {
    if n == 0 {
      FreshPart(m);
    } else {
      FeedPart(m, slices, n - 1);
      FeedStep(m, slices, n);
    }
  }

  /** One more slice. */
  lemma FeedStep(m: seq<byte>, slices: seq<Slice>, n: nat)
    requires m != [] && AllProper(slices, |m|) && 0 < n <= |slices| && PartOf(Feed(m, slices, n - 1), m)
    ensures PartOf(Feed(m, slices, n), m)
    ensures var s := slices[n - 1];
            Feed(m, slices, n).got == Feed(m, slices, n - 1).got + Range(s.off, s.off + s.len)
  {
    var s := slices[n - 1];
    SliceProper(slices, n - 1, |m|);
    ArrivePart(Feed(m, slices, n - 1), m, s.off, m[s.off..s.off + s.len]);
  }

  lemma {:induction false} FeedCovers(m: seq<byte>, slices: seq<Slice>, n: nat, k: nat)
    requires m != [] && AllProper(slices, |m|) && n <= |slices|
    ensures k in Feed(m, slices, n).got <==> Covered(slices, n, k)
  {
    if n > 0 {
      FeedPart(m, slices, n - 1);
      FeedCovers(m, slices, n - 1, k);
      FeedStep(m, slices, n);
      if Covered(slices, n, k) && !Covered(slices, n - 1, k) {
        assert Has(slices[n - 1], k);
      }
    }
  }

  /** Complete exactly when every byte has arrived, and then the buffer is the message. */
  lemma {:induction false} ReassemblyExact(m: seq<byte>, slices: seq<Slice>)
    requires m != [] && AllProper(slices, |m|)
    ensures !Feed(m, slices, |slices|).pending <==> forall k :: 0 <= k < |m| ==> Covered(slices, |slices|, k)
    ensures !Feed(m, slices, |slices|).pending ==> Feed(m, slices, |slices|).bytes == m
  {
    var p := Feed(m, slices, |slices|);
    FeedPart(m, slices, |slices|);
    forall k: nat
      ensures k in p.got <==> Covered(slices, |slices|, k)
    {
      FeedCovers(m, slices, |slices|, k);
    }
    if !p.pending {
      WholeIsMessage(p, m);
      assert forall k :: 0 <= k < |m| ==> k in Range(0, |m|);
    }
    if forall k :: 0 <= k < |m| ==> Covered(slices, |slices|, k) {
      assert p.got == Range(0, |m|);
    }
  }

  // --------------------------------------------------------------------------
  // The bitmask keeps the same state
  // --------------------------------------------------------------------------

  /** hm_fragment. */
  class Fragment {
    const fragment: array<byte>
    var reassembly: array?<bv8>
    ghost var got: set<nat>
    ghost const foot: set<object>   // the object, its bytes and its mask

    ghost predicate Valid()
      reads this, foot
    {
      var n, f: object, m: object? := fragment.Length, fragment, reassembly;
      this in foot && f in foot && (m != null ==> m in foot) && f != m &&
      if reassembly == null then got == Range(0, n)
      else
        && reassembly.Length == (n + 7) / 8 && Holds(reassembly[..], got)
        && got <= Range(0, n) && got != Range(0, n)
    }

    ghost function View(): (p: Partial)
      reads this, fragment
    {
      Partial(fragment[..], got, reassembly != null)
    }

    /** dtls1_hm_fragment_new, for a message that comes in pieces. */
    constructor (n: nat)
      requires n > 0
      ensures Valid() && View() == Fresh(n) && fresh(foot)
    {
      fragment := new byte[n](_ => 0);
      var mask := new bv8[(n + 7) / 8](_ => 0);
      reassembly, got, foot := mask, {}, {this, fragment, mask};
      new;
      ZerosAre(fragment[..]);
      EmptyMask(reassembly[..]);
      assert 0 in Range(0, n);
    }

    /** dtls1_hm_fragment_new and the read, for a message that comes whole. */
    constructor Complete(data: seq<byte>)
      ensures Valid() && View() == Partial(data, Range(0, |data|), false) && fresh(foot)
    {
      fragment := new byte[|data|](i requires 0 <= i < |data| => data[i]);
      reassembly := null;
      got := Range(0, |data|);
      foot := {this, fragment};
      new;
      assert fragment[..] == data;
    }

    /** The read of a body into its place. */
    method CopyIn(off: nat, data: seq<byte>)
      requires off + |data| <= fragment.Length
      modifies fragment
      ensures fragment[..] == Splice(old(fragment[..]), off, data)
    {
      ghost var was := fragment[..];
      for i := 0 to |data|
        invariant fragment[..] == Splice(was, off, data[..i])
      {
        fragment[off + i] := data[i];
      }
      assert data[..|data|] == data;
    }

    /** The tail of dtls1_reassemble_fragment: read, mark, and drop the mask when complete. */
    method Arrived(off: nat, data: seq<byte>)
      requires Valid() && off + |data| <= fragment.Length && data != []
      modifies foot
      ensures Valid() && View() == Arrive(old(View()), off, data)
    {
      if reassembly != null {
        ghost var was := reassembly[..];
        CopyIn(off, data);
        assert reassembly[..] == was;
        Mark(reassembly, off, off + |data|);
        MarkHolds(reassembly[..], was, off, off + |data|, got);
        got := got + Range(off, off + |data|);
        var complete := IsComplete(reassembly, fragment.Length, got);
        if complete {
          reassembly := null;
        }
      }
    }
  }

  /** Slices of m arrive one after the other at one object, whose mask and buffer follow the account above. */
  method FeedAll(m: seq<byte>, slices: seq<Slice>) returns (f: Fragment)
    requires m != [] && AllProper(slices, |m|)
    ensures f.Valid() && f.View() == Feed(m, slices, |slices|)
    ensures f.reassembly == null <==> forall k :: 0 <= k < |m| ==> Covered(slices, |slices|, k)
    ensures f.reassembly == null ==> f.fragment[..] == m
  {
    f := new Fragment(|m|);
    for i := 0 to |slices|
      invariant f.Valid() && fresh(f.foot) && f.View() == Feed(m, slices, i)
    {
      SliceProper(slices, i, |m|);
      var s := slices[i];
      f.Arrived(s.off, m[s.off..s.off + s.len]);
    }
    ReassemblyExact(m, slices);
  }

  lemma {:induction false} ZerosAre(s: seq<byte>)
    requires forall i :: 0 <= i < |s| ==> s[i] == 0
    ensures s == Zeros(|s|)
  {
    if s != [] {
      ZerosAre(s[..|s| - 1]);
      assert s == s[..|s| - 1] + [0];
    }
  }

  lemma EmptyMask(mask: seq<bv8>)
    requires forall q :: 0 <= q < |mask| ==> mask[q] == 0
    ensures Holds(mask, {})
  {
    forall q | 0 <= q < |mask|
      ensures ByteHolds(mask[q], q, {})
    {
      forall j | 0 <= j < 8
        ensures !Bit(mask[q], j)
      {
        NoBit(j);
      }
    }
  }
}
