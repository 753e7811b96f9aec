/** CBS_asn1_indefinite_to_definite: the walk that decides whether to convert at all, and what it misses. */
module BerWrapper {
  import opened Encoding
  import opened ByteParser
  import opened ByteCursor
  import opened BerConvert
  import opened BerTrees
  import opened BerRewriter

  /** cbs_find_indefinite: what it finds inside an element is overwritten before it returns. */
  function Scan(s: seq<byte>, depth: nat): (r: Option<bool>)
    decreases |s|
  {
    if depth > MAX_DEPTH then None
    else if s == [] then Some(false)
    else
      match GetElement(s, false)
      case None => None
      case Some(f) =>
        if IsIndefinite(f) then Some(true)
        else if Constructed(f.tag) && Scan(f.Contents(), depth + 1).None? then None
        else Scan(f.rest, depth)
  }

  method FindIndefinite(s: seq<byte>, depth: nat) returns (r: Option<bool>)
    ensures r == Scan(s, depth)
    decreases |s|, 1
  {
    if depth > MAX_DEPTH {
      return None;
    }
    var inp := new Cbs(s);
    var done := false;
    r := Some(false);
    while |inp.data| > 0 && !done
      invariant if done then Scan(s, depth) == r else Scan(s, depth) == Scan(inp.data, depth) && r == Some(false)
      invariant |inp.data| <= |s|
      decreases |inp.data| + if done then 0 else 1
    {
      var e := inp.GetAnyElement(false);
      if e.None? {
        done, r := true, None;
      } else if IsIndefinite(e.value) {
        done, r := true, Some(true);
      } else if Constructed(e.value.tag) {
        var inside := FindIndefinite(e.value.Contents(), depth + 1);
        if inside.None? {
          done, r := true, None;
        }
      }
    }
  }

  /** What a successful call hands over: converted bytes, or a null pointer when the input can stay. */
  datatype Definite = AsItWas | Rewritten(bytes: seq<byte>)

  function ToDefiniteOf(s: seq<byte>): (r: Option<Definite>) {
    match Scan(s, 0)
    case None => None
    case Some(needed) =>
      if !needed then Some(AsItWas) else
        match Convert(s, false, false, 0)
        case None => None
        case Some(d) => Some(Rewritten(d.out))
  }

  /** The bytes the caller goes on with. */
  function InHand(s: seq<byte>, d: Definite): (r: seq<byte>) {
    if d.AsItWas? then s else d.bytes
  }

  method IndefiniteToDefinite(s: seq<byte>) returns (r: Option<Definite>)
    requires 3 * |s| <= SIZE_MAX
    ensures r == ToDefiniteOf(s)
  {
    var needed := FindIndefinite(s, 0);
    if needed.None? {
      return None;
    }
    if !needed.value {
      return Some(AsItWas);
    }
    var out := ToDefinite(s);
    r := match out case None => None case Some(bytes) => Some(Rewritten(bytes));
  }

  // --------------------------------------------------------------------------
  // On trees
  // --------------------------------------------------------------------------

  /** A tree of indefinite length at this level. */
  predicate Open(t: Ber) {
    t.Indefinite?
  }

  predicate AnyOpen(ts: seq<Ber>) {
    ts != [] && (Open(ts[0]) || AnyOpen(ts[1..]))
  }

  /** No indefinite length at any level. */
  predicate AllClosed(ts: seq<Ber>)
    decreases ts
  {
    ts == [] || (Closed(ts[0]) && AllClosed(ts[1..]))
  }

  predicate Closed(t: Ber)
    decreases t
  {
    t.Prim? || (t.Definite? && AllClosed(t.kids))
  }

  lemma PassedOver(s: seq<byte>, f: Found, depth: nat)
    requires depth <= MAX_DEPTH && GetElement(s, false) == Some(f) && !IsIndefinite(f)
    requires Constructed(f.tag) ==> Scan(f.Contents(), depth + 1).Some?
    ensures Scan(s, depth) == Scan(f.rest, depth)
  {
  }

  lemma ScanDefinite(tag: byte, c: seq<byte>, more: seq<byte>, depth: nat)
    requires depth <= MAX_DEPTH && tag % 32 != 31 && Short(c) && !(tag == 0 && c == [])
    requires Constructed(tag) ==> Scan(c, depth + 1).Some?
    ensures Scan(Header(tag, |c|) + c + more, depth) == Scan(more, depth)
  {
    var f := DefiniteFound(tag, c, more);
    PassedOver(Header(tag, |c|) + c + more, f, depth);
  }

  lemma Stopped(s: seq<byte>, depth: nat)
    requires depth <= MAX_DEPTH && GetElement(s, false).Some? && IsIndefinite(GetElement(s, false).value)
    ensures Scan(s, depth) == Some(true)
  {
  }

  /** The walk finds what is indefinite at the top, and nothing below. */
  lemma {:induction false} ScanFinds(ts: seq<Ber>, depth: nat, room: nat)
    requires AllWellFormed(ts, room) && depth + room <= MAX_DEPTH
    ensures Scan(BerAll(ts), depth) == Some(AnyOpen(ts))
    decreases ts, 1
  {
    if ts != [] {
      ScanFinds(ts[1..], depth, room);
      ScanTree(ts[0], BerAll(ts[1..]), depth, room);
    }
  }

  lemma {:induction false} ScanTree(t: Ber, more: seq<byte>, depth: nat, room: nat)
    requires WellFormed(t, room) && depth + room <= MAX_DEPTH
    ensures Scan(BerBytes(t) + more, depth) == if Open(t) then Some(true) else Scan(more, depth)
    decreases t, 0
  {
    if Open(t) {
      OpenFound(t, more, room);
      Stopped(BerBytes(t) + more, depth);
    } else if t.Prim? {
      ScanDefinite(t.tag, t.contents, more, depth);
    } else {
      ScanFinds(t.kids, depth + 1, room - 1);
      ScanDefinite(t.tag, BerAll(t.kids), more, depth);
    }
  }

  lemma OpenFound(t: Ber, more: seq<byte>, room: nat)
    requires Open(t) && WellFormed(t, room)
    ensures GetElement(BerBytes(t) + more, false).Some? && IsIndefinite(GetElement(BerBytes(t) + more, false).value)
    ensures GetElement(BerBytes(t) + more, true).None?
  {
    var s := BerAll(t.kids) + (EOC + more);
    assert BerBytes(t) + more == [t.tag, 0x80] + s;
    var f := IndefiniteFound(t.tag, s);
  }

  /** What the strict parser walks is closed. */
  lemma {:induction false} WalksClosed(ts: seq<Ber>, room: nat)
    requires AllWellFormed(ts, room) && Walks(BerAll(ts))
    ensures AllClosed(ts)
    decreases ts
  {
    if ts != [] {
      var t, more := ts[0], BerAll(ts[1..]);
      assert BerAll(ts) == BerBytes(t) + more && BerBytes(t) != [];
      if Open(t) {
        OpenFound(t, more, room);
        assert false;
      } else {
        var c := if t.Prim? then t.contents else BerAll(t.kids);
        ElementAccepted(t.tag, c, more, true);
        assert (Header(t.tag, |c|) + c)[2 + LongOctets(|c|)..] == c;
        if t.Definite? {
              WalksClosed(t.kids, room - 1);
        }
        WalksClosed(ts[1..], room);
      }
    }
  }

  lemma {:induction false} ClosedSame(ts: seq<Ber>)
    requires AllClosed(ts)
    ensures BerAll(ts) == DerAll(ts)
    decreases ts
  {
    if ts != [] {
      var t := ts[0];
      if t.Definite? {
        ClosedSame(t.kids);
      }
      ClosedSame(ts[1..]);
      assert BerBytes(t) == DerBytes(t) == Header(t.tag, |DerContents(t)|) + DerContents(t);
    }
  }

  /** What is indefinite inside definite elements only is overlooked: the caller goes on with the definite encoding
      exactly when some element is indefinite at the top, or none is anywhere. */
  lemma InHandExact(ts: seq<Ber>)
    requires AllWellFormed(ts, MAX_DEPTH)
    ensures ToDefiniteOf(BerAll(ts)).Some?
    ensures InHand(BerAll(ts), ToDefiniteOf(BerAll(ts)).value) == DerAll(ts) <==> AnyOpen(ts) || AllClosed(ts)
  {
    ScanFinds(ts, 0, MAX_DEPTH);
    ConvertMeansDer(ts);
    if AllClosed(ts) {
      ClosedSame(ts);
    } else if !AnyOpen(ts) && BerAll(ts) == DerAll(ts) {
      OutputWalks(BerAll(ts), false, 0);
      WalksClosed(ts, MAX_DEPTH);
      assert false;
    }
  }

  /** A SEQUENCE around an indefinite one: the call succeeds and the input stays as it was. */
  lemma Overlooked()
    ensures var ts := [Ber.Definite(0x30, [Indefinite(0x30, [])])];
            && ToDefiniteOf(BerAll(ts)) == Some(AsItWas) && AllWellFormed(ts, MAX_DEPTH) && BerAll(ts) != DerAll(ts)
  {
    var inner := [Indefinite(0x30, [])];
    var ts := [Ber.Definite(0x30, inner)];
    assert ts[1..] == [] && inner[1..] == [];
    assert BerAll(inner) == [0x30, 0x80, 0, 0];
    assert AllWellFormed(inner, MAX_DEPTH - 1);
    ScanFinds(ts, 0, MAX_DEPTH);
    InHandExact(ts);
  }
}
