/** The meaning of the conversion on BER trees: elements of any class, primitive, constructed with
    a definite length, or constructed with an indefinite one. */
module BerTrees {
  import opened Encoding
  import opened ByteParser
  import opened BerConvert

  datatype Ber =
    | Prim(tag: byte, contents: seq<byte>)
    | Definite(tag: byte, kids: seq<Ber>)
    | Indefinite(tag: byte, kids: seq<Ber>)

  function Header(tag: byte, n: nat): (r: seq<byte>) {
    [tag] + if n < 0x1_0000_0000 then DerLength(n) else []
  }

  const EOC: seq<byte> := [0, 0]

  /** The bytes of the tree as sent. */
  function BerBytes(t: Ber): (r: seq<byte>)
    decreases t
  {
    match t
    case Prim(tag, c) => Header(tag, |c|) + c
    case Definite(tag, kids) =>
      var c := BerAll(kids);
      Header(tag, |c|) + c
    case Indefinite(tag, kids) => [tag, 0x80] + BerAll(kids) + EOC
  }

  function BerAll(ts: seq<Ber>): (r: seq<byte>)
    decreases ts
  {
    if ts == [] then [] else BerBytes(ts[0]) + BerAll(ts[1..])
  }

  /** A universal type that is not SEQUENCE or SET: its values are strings of bytes. */
  predicate StringType(tag: byte) {
    tag < 0x40 && tag % 0x20 !in {0x10, 0x11}
  }

  /** A piece of a string: of such a type, with a definite length and not empty. */
  predicate IsPiece(t: Ber) {
    StringType(t.tag) && if t.Prim? then t.contents != [] else t.Definite? && BerAll(t.kids) != []
  }

  /** An indefinite element holds the fragments of one string: those of a string type do, and those
      with a context-specific tag whose first element is a piece of a string. */
  predicate Joins(tag: byte, kids: seq<Ber>) {
    StringType(tag) || (0x80 <= tag < 0xc0 && kids != [] && IsPiece(kids[0]))
  }

  /** The tag in the definite encoding: a string whose fragments are joined is primitive. */
  function DerTag(t: Ber): (tag: byte) {
    if t.Indefinite? && Joins(t.tag, t.kids) && t.tag >= 0x20 then t.tag - 0x20 else t.tag
  }

  /** The contents in the definite encoding. */
  function DerContents(t: Ber): (r: seq<byte>)
    decreases t, 0
  {
    match t
    case Prim(_, c) => c
    case Definite(_, kids) => DerAll(kids)
    case Indefinite(tag, kids) => if Joins(tag, kids) then JoinAll(kids) else DerAll(kids)
  }

  function DerBytes(t: Ber): (r: seq<byte>)
    decreases t, 1
  {
    Header(DerTag(t), |DerContents(t)|) + DerContents(t)
  }

  function DerAll(ts: seq<Ber>): (r: seq<byte>)
    decreases ts, 0
  {
    if ts == [] then [] else DerBytes(ts[0]) + DerAll(ts[1..])
  }

  /** The contents alone, one after the other. */
  function JoinAll(ts: seq<Ber>): (r: seq<byte>)
    decreases ts, 0
  {
    if ts == [] then [] else DerContents(ts[0]) + JoinAll(ts[1..])
  }

  predicate Short(c: seq<byte>) {
    |c| <= 0xffff_fffe
  }

  /** Short tags, no end-of-contents leaf, lengths within the builder's range, and at most `room`
      further levels of nesting. */
  predicate WellFormed(t: Ber, room: nat)
    decreases t
  {
    && t.tag % 32 != 31 && Constructed(t.tag) == !t.Prim? && Short(DerContents(t))
    && match t
       case Prim(tag, c) => !(tag == 0 && c == [])
       case Definite(_, kids) => Short(BerAll(kids)) && room > 0 && AllWellFormed(kids, room - 1)
       case Indefinite(_, kids) => room > 0 && AllWellFormed(kids, room - 1)
  }

  predicate AllWellFormed(ts: seq<Ber>, room: nat)
    decreases ts
  {
    ts == [] || (WellFormed(ts[0], room) && AllWellFormed(ts[1..], room))
  }

  /** What follows the elements of one level. */
  function Tail(eoc: bool, rest: seq<byte>): (r: seq<byte>) {
    if eoc then EOC + rest else []
  }

  lemma TailEnds(squash: bool, eoc: bool, rest: seq<byte>, depth: nat)
    requires depth <= MAX_DEPTH && (!eoc ==> rest == [])
    ensures Convert(Tail(eoc, rest), squash, eoc, depth) == Some(Done([], rest))
  {
    if eoc {
      var s := EOC + rest;
      assert s[..2] == EOC && s[2..] == rest;
    }
  }

  /** One definite element at the front, as the converter sees it. */
  lemma DefiniteUnfold(s: seq<byte>, f: Found, squash: bool, eoc: bool, depth: nat, c: seq<byte>, piece: seq<byte>)
    requires depth <= MAX_DEPTH && GetElement(s, false) == Some(f) && !IsEoc(f) && !IsIndefinite(f)
    requires Body(f, depth) == Some(c) && Emit(squash, f.tag, c) == Some(piece)
    ensures Convert(s, squash, eoc, depth) == Prepend(piece, Convert(f.rest, squash, eoc, depth))
  {
  }

  lemma IndefiniteUnfold(s: seq<byte>, f: Found, q: bool, squash: bool, eoc: bool, depth: nat,
                         inner: Done, piece: seq<byte>)
    requires depth <= MAX_DEPTH && GetElement(s, false) == Some(f) && !IsEoc(f) && IsIndefinite(f)
    requires SquashChildren(f) == Some(q) && Convert(f.rest, q, true, depth + 1) == Some(inner)
    requires Emit(squash, if q then ClearConstructed(f.tag) else f.tag, inner.out) == Some(piece)
    ensures Convert(s, squash, eoc, depth) == Prepend(piece, Convert(inner.rest, squash, eoc, depth))
  {
  }

  /** The element that a definite header announces. */
  lemma DefiniteFound(tag: byte, c: seq<byte>, more: seq<byte>) returns (f: Found)
    requires tag % 32 != 31 && Short(c) && !(tag == 0 && c == [])
    ensures f == Found(tag, 2 + LongOctets(|c|), Header(tag, |c|) + c, more) && f.Contents() == c
    ensures GetElement(Header(tag, |c|) + c + more, false) == Some(f) && !IsEoc(f) && !IsIndefinite(f)
  {
    var e := [tag] + DerLength(|c|) + c;
    f := Found(tag, 2 + LongOctets(|c|), e, more);
    ElementAccepted(tag, c, more, false);
    assert f.Contents() == c;
    if |c| == 0 {
      assert e == [tag, 0];
    }
  }

  lemma IndefiniteFound(tag: byte, s: seq<byte>) returns (f: Found)
    requires Constructed(tag) && tag % 32 != 31
    ensures f == Found(tag, 2, [tag, 0x80], s) && GetElement([tag, 0x80] + s, false) == Some(f)
    ensures !IsEoc(f) && IsIndefinite(f)
  {
    var all := [tag, 0x80] + s;
    f := Found(tag, 2, [tag, 0x80], s);
    assert all[..2] == [tag, 0x80] && all[2..] == s;
  }

  /** The element that a tree starts with. */
  lemma TreeFound(t: Ber, after: seq<byte>, room: nat) returns (f: Found)
    requires WellFormed(t, room)
    ensures GetElement(BerBytes(t) + after, false) == Some(f) && f.tag == t.tag
    ensures IsIndefinite(f) == t.Indefinite? && !IsEoc(f)
    ensures |f.element| > f.headerLen <==>
            if t.Prim? then t.contents != [] else t.Definite? && BerAll(t.kids) != []
  {
    if t.Indefinite? {
      var s := BerAll(t.kids) + EOC + after;
      assert BerBytes(t) + after == [t.tag, 0x80] + s;
      f := IndefiniteFound(t.tag, s);
    } else {
      f := DefiniteFound(t.tag, if t.Prim? then t.contents else BerAll(t.kids), after);
    }
  }

  /** What the converter learns from the first element inside an indefinite one. */
  lemma FirstSeen(kids: seq<Ber>, more: seq<byte>, room: nat) returns (inner: Found)
    requires AllWellFormed(kids, room)
    ensures GetElement(BerAll(kids) + (EOC + more), false) == Some(inner)
    ensures |inner.element| > inner.headerLen && IsPrimitiveType(inner.tag) <==> kids != [] && IsPiece(kids[0])
  {
    var tail := EOC + more;
    if kids == [] {
      inner := Found(0, 2, [0, 0], more);
      assert BerAll(kids) + tail == tail && tail[..2] == [0, 0] && tail[2..] == more;
    } else {
      FirstOfAll(kids, tail);
      inner := TreeFound(kids[0], BerAll(kids[1..]) + tail, room);
    }
  }

  lemma SquashJoins(tag: byte, kids: seq<Ber>, more: seq<byte>, room: nat)
    requires Constructed(tag) && AllWellFormed(kids, room)
    ensures SquashChildren(Found(tag, 2, [tag, 0x80], BerAll(kids) + (EOC + more))) == Some(Joins(tag, kids))
  {
    var inner := FirstSeen(kids, more, room);
  }

  function Piece(squash: bool, tag: byte, c: seq<byte>): (r: seq<byte>) {
    if squash then c else Header(tag, |c|) + c
  }

  lemma PieceEmitted(squash: bool, tag: byte, c: seq<byte>)
    requires tag % 32 != 31 && Short(c)
    ensures Emit(squash, tag, c) == Some(Piece(squash, tag, c))
  {
  }

  /** A definite element at the front. */
  lemma DefiniteStep(tag: byte, c: seq<byte>, more: seq<byte>, out: seq<byte>, squash: bool, eoc: bool, depth: nat)
    requires depth <= MAX_DEPTH && tag % 32 != 31 && Short(c) && Short(out) && !(tag == 0 && c == [])
    requires if Constructed(tag) then Convert(c, false, false, depth + 1) == Some(Done(out, [])) else out == c
    ensures Convert(Header(tag, |c|) + c + more, squash, eoc, depth)
         == Prepend(Piece(squash, tag, out), Convert(more, squash, eoc, depth))
  {
    var f := DefiniteFound(tag, c, more);
    assert Body(f, depth) == Some(out);
    PieceEmitted(squash, tag, out);
    DefiniteUnfold(Header(tag, |c|) + c + more, f, squash, eoc, depth, out, Piece(squash, tag, out));
  }

  lemma ClearedTag(t: Ber, room: nat)
    requires t.Indefinite? && WellFormed(t, room)
    ensures DerTag(t) == (if Joins(t.tag, t.kids) then ClearConstructed(t.tag) else t.tag) && DerTag(t) % 32 != 31
  {
  }

  /** An indefinite element at the front. */
  lemma IndefiniteStep(tag: byte, q: bool, outTag: byte, c: seq<byte>, more: seq<byte>, out: seq<byte>, squash: bool,
                       eoc: bool, depth: nat)
    requires depth <= MAX_DEPTH && Constructed(tag) && tag % 32 != 31 && Short(out) && outTag % 32 != 31
    requires SquashChildren(Found(tag, 2, [tag, 0x80], c + (EOC + more))) == Some(q)
    requires outTag == if q then ClearConstructed(tag) else tag
    requires Convert(c + (EOC + more), q, true, depth + 1) == Some(Done(out, more))
    ensures Convert([tag, 0x80] + c + EOC + more, squash, eoc, depth)
         == Prepend(Piece(squash, outTag, out), Convert(more, squash, eoc, depth))
  {
    var s := c + (EOC + more);
    assert [tag, 0x80] + c + EOC + more == [tag, 0x80] + s;
    var f := IndefiniteFound(tag, s);
    PieceEmitted(squash, outTag, out);
    IndefiniteUnfold([tag, 0x80] + s, f, q, squash, eoc, depth, Done(out, more), Piece(squash, outTag, out));
  }

  lemma FirstOfAll(ts: seq<Ber>, tail: seq<byte>)
    requires ts != []
    ensures BerAll(ts) + tail == BerBytes(ts[0]) + (BerAll(ts[1..]) + tail)
  {
  }

  /** The definite encodings of the trees, or their contents alone. */
  function Pieces(squash: bool, ts: seq<Ber>): (r: seq<byte>) {
    if squash then JoinAll(ts) else DerAll(ts)
  }

  lemma PiecesFirst(squash: bool, ts: seq<Ber>, r: Option<Done>)
    requires ts != []
    ensures Prepend(Piece(squash, DerTag(ts[0]), DerContents(ts[0])), Prepend(Pieces(squash, ts[1..]), r))
         == Prepend(Pieces(squash, ts), r)
  {
    if squash {
      assert JoinAll(ts) == DerContents(ts[0]) + JoinAll(ts[1..]);
    } else {
      assert DerAll(ts) == DerBytes(ts[0]) + DerAll(ts[1..]);
    }
    if r.Some? {
      Joined(Piece(squash, DerTag(ts[0]), DerContents(ts[0])), Pieces(squash, ts[1..]), r.value.out);
    }
  }

  lemma Joined(a: seq<byte>, b: seq<byte>, c: seq<byte>)
    ensures a + (b + c) == a + b + c
  {
  }

  /** Every well-formed tree is rewritten to its definite encoding, whatever follows. */
  lemma {:induction false} ConvertFront(ts: seq<Ber>, tail: seq<byte>, squash: bool, eoc: bool, depth: nat, room: nat)
    requires AllWellFormed(ts, room) && depth + room <= MAX_DEPTH
    ensures Convert(BerAll(ts) + tail, squash, eoc, depth)
         == Prepend(Pieces(squash, ts), Convert(tail, squash, eoc, depth))
    decreases ts, 0
  {
    if ts == [] {
      assert BerAll(ts) + tail == tail;
      PrependNothing(Convert(tail, squash, eoc, depth));
    } else {
      FirstOfAll(ts, tail);
      ConvertTree(ts[0], BerAll(ts[1..]) + tail, squash, eoc, depth, room);
      ConvertFront(ts[1..], tail, squash, eoc, depth, room);
      PiecesFirst(squash, ts, Convert(tail, squash, eoc, depth));
    }
  }

  lemma PrependNothing(r: Option<Done>)
    ensures Prepend([], r) == r
  {
    if r.Some? {
      assert [] + r.value.out == r.value.out;
    }
  }

  /** So are the trees up to the end-of-contents, and the rest is left. */
  lemma {:induction false} ConvertTrees(ts: seq<Ber>, squash: bool, eoc: bool, rest: seq<byte>, depth: nat, room: nat)
    requires AllWellFormed(ts, room) && depth + room <= MAX_DEPTH && (!eoc ==> rest == [])
    ensures Convert(BerAll(ts) + Tail(eoc, rest), squash, eoc, depth) == Some(Done(Pieces(squash, ts), rest))
    decreases ts, 1
  {
    ConvertFront(ts, Tail(eoc, rest), squash, eoc, depth, room);
    TailEnds(squash, eoc, rest, depth);
    assert Pieces(squash, ts) + [] == Pieces(squash, ts);
  }

  lemma {:induction false} ConvertAll(ts: seq<Ber>, depth: nat, room: nat)
    requires AllWellFormed(ts, room) && depth + room <= MAX_DEPTH
    ensures Convert(BerAll(ts), false, false, depth) == Some(Done(DerAll(ts), []))
    decreases ts, 2
  {
    assert BerAll(ts) + Tail(false, []) == BerAll(ts);
    ConvertTrees(ts, false, false, [], depth, room);
  }

  lemma {:induction false} ConvertTree(t: Ber, more: seq<byte>, squash: bool, eoc: bool, depth: nat, room: nat)
    requires WellFormed(t, room) && depth + room <= MAX_DEPTH
    ensures Convert(BerBytes(t) + more, squash, eoc, depth)
         == Prepend(Piece(squash, DerTag(t), DerContents(t)), Convert(more, squash, eoc, depth))
    decreases t, 1
  {
    match t
    case Prim(tag, c) => DefiniteStep(tag, c, more, c, squash, eoc, depth);
    case Definite(_, _) => ConvertDefinite(t, more, squash, eoc, depth, room);
    case Indefinite(_, _) => ConvertIndefinite(t, more, squash, eoc, depth, room);
  }

  lemma {:induction false} ConvertDefinite(t: Ber, more: seq<byte>, squash: bool, eoc: bool, depth: nat, room: nat)
    requires t.Definite? && WellFormed(t, room) && depth + room <= MAX_DEPTH
    ensures Convert(BerBytes(t) + more, squash, eoc, depth)
         == Prepend(Piece(squash, DerTag(t), DerContents(t)), Convert(more, squash, eoc, depth))
    decreases t, 0
  {
    ConvertAll(t.kids, depth + 1, room - 1);
    DefiniteStep(t.tag, BerAll(t.kids), more, DerContents(t), squash, eoc, depth);
  }

  lemma {:induction false} ConvertIndefinite(t: Ber, more: seq<byte>, squash: bool, eoc: bool, depth: nat, room: nat)
    requires t.Indefinite? && WellFormed(t, room) && depth + room <= MAX_DEPTH
    ensures Convert(BerBytes(t) + more, squash, eoc, depth)
         == Prepend(Piece(squash, DerTag(t), DerContents(t)), Convert(more, squash, eoc, depth))
    decreases t, 0
  {
    var q := Joins(t.tag, t.kids);
    ConvertTrees(t.kids, q, true, more, depth + 1, room - 1);
    SquashJoins(t.tag, t.kids, more, room - 1);
    ClearedTag(t, room);
    IndefiniteStep(t.tag, q, DerTag(t), BerAll(t.kids), more, DerContents(t), squash, eoc, depth);
  }

  /** The top-level call on a sequence of trees. */
  lemma ConvertMeansDer(ts: seq<Ber>)
    requires AllWellFormed(ts, MAX_DEPTH)
    ensures Convert(BerAll(ts), false, false, 0) == Some(Done(DerAll(ts), []))
  {
    ConvertAll(ts, 0, MAX_DEPTH);
  }

  lemma OneTree(t: Ber)
    requires WellFormed(t, MAX_DEPTH)
    ensures Convert(BerBytes(t), false, false, 0) == Some(Done(DerBytes(t), []))
  {
    assert BerAll([t]) == BerBytes(t) + BerAll([]) == BerBytes(t);
    assert DerAll([t]) == DerBytes(t) + DerAll([]) == DerBytes(t);
    ConvertMeansDer([t]);
  }

  /** A context-specific tag of indefinite length (number n below 31): it is taken for an implicit one,
      and the elements inside for fragments, exactly when the first is a piece of a string, that is
      definite, not empty, universal and neither SEQUENCE nor SET. */
  lemma ContextSpecificMeans(n: nat, kids: seq<Ber>, implicit: bool)
    requires n < 31 && WellFormed(Indefinite(0xa0 + n, kids), MAX_DEPTH)
    requires implicit <==> kids != [] && !kids[0].Indefinite?
                           && kids[0].tag < 0x40 && kids[0].tag % 0x20 != 0x10 && kids[0].tag % 0x20 != 0x11
                           && (if kids[0].Prim? then kids[0].contents else BerAll(kids[0].kids)) != []
    ensures Convert([0xa0 + n, 0x80] + BerAll(kids) + [0, 0], false, false, 0)
         == Some(Done(if implicit then Header(0x80 + n, |JoinAll(kids)|) + JoinAll(kids)
                      else Header(0xa0 + n, |DerAll(kids)|) + DerAll(kids), []))
  {
    var t := Indefinite(0xa0 + n, kids);
    assert Joins(t.tag, kids) == implicit;
    OneTree(t);
  }

  // --------------------------------------------------------------------------
  // What is refused
  // --------------------------------------------------------------------------

  /** End-of-contents with nothing to end, and an indefinite element without it. */
  lemma StrayEnd(ts: seq<Ber>, more: seq<byte>, squash: bool, depth: nat, room: nat)
    requires AllWellFormed(ts, room) && depth + room <= MAX_DEPTH
    ensures Convert(BerAll(ts) + (EOC + more), squash, false, depth).None?
    ensures Convert(BerAll(ts), squash, true, depth).None?
  {
    ConvertFront(ts, EOC + more, squash, false, depth, room);
    assert (EOC + more)[..2] == EOC;
    ConvertFront(ts, [], squash, true, depth, room);
    assert BerAll(ts) + [] == BerAll(ts);
  }

  lemma DefiniteFails(s: seq<byte>, f: Found, squash: bool, eoc: bool, depth: nat)
    requires GetElement(s, false) == Some(f) && !IsEoc(f) && !IsIndefinite(f) && Body(f, depth).None?
    ensures Convert(s, squash, eoc, depth).None?
  {
  }

  lemma IndefiniteFails(s: seq<byte>, f: Found, q: bool, squash: bool, eoc: bool, depth: nat)
    requires GetElement(s, false) == Some(f) && !IsEoc(f) && IsIndefinite(f) && SquashChildren(f) == Some(q)
    requires Convert(f.rest, q, true, depth + 1).None?
    ensures Convert(s, squash, eoc, depth).None?
  {
  }

  lemma {:induction false} TooDeep(ts: seq<Ber>, squash: bool, eoc: bool, tail: seq<byte>, depth: nat, room: nat)
    requires depth <= MAX_DEPTH && AllWellFormed(ts, room) && !AllWellFormed(ts, MAX_DEPTH - depth)
    ensures Convert(BerAll(ts) + tail, squash, eoc, depth).None?
    decreases ts, 0
  {
    var more := BerAll(ts[1..]) + tail;
    FirstOfAll(ts, tail);
    if WellFormed(ts[0], MAX_DEPTH - depth) {
      ConvertTree(ts[0], more, squash, eoc, depth, MAX_DEPTH - depth);
      TooDeep(ts[1..], squash, eoc, tail, depth, room);
    } else {
      TreeTooDeep(ts[0], more, squash, eoc, depth, room);
    }
  }

  lemma {:induction false} KidsTooDeep(ts: seq<Ber>, squash: bool, eoc: bool, tail: seq<byte>, depth: nat, room: nat)
    requires depth <= MAX_DEPTH + 1 && AllWellFormed(ts, room)
    requires depth <= MAX_DEPTH ==> !AllWellFormed(ts, MAX_DEPTH - depth)
    ensures Convert(BerAll(ts) + tail, squash, eoc, depth).None?
    decreases ts, 1
  {
    if depth <= MAX_DEPTH {
      TooDeep(ts, squash, eoc, tail, depth, room);
    }
  }

  lemma {:induction false} TreeTooDeep(t: Ber, more: seq<byte>, squash: bool, eoc: bool, depth: nat, room: nat)
    requires depth <= MAX_DEPTH && WellFormed(t, room) && !WellFormed(t, MAX_DEPTH - depth)
    ensures Convert(BerBytes(t) + more, squash, eoc, depth).None?
    decreases t, 0
  {
    hide WellFormed, Convert, BerBytes, Joins;
    DeepBelow(t, room, MAX_DEPTH - depth);
    if t.Definite? {
      KidsTooDeep(t.kids, false, false, [], depth + 1, room - 1);
      DefiniteTooDeep(t, more, squash, eoc, depth, room);
    } else {
      KidsTooDeep(t.kids, Joins(t.tag, t.kids), true, EOC + more, depth + 1, room - 1);
      IndefiniteTooDeep(t, more, squash, eoc, depth, room);
    }
  }

  lemma DeepBelow(t: Ber, room: nat, r: nat)
    requires WellFormed(t, room) && !WellFormed(t, r)
    ensures !t.Prim? && room > 0 && AllWellFormed(t.kids, room - 1) && (r > 0 ==> !AllWellFormed(t.kids, r - 1))
  {
  }

  lemma DefiniteTooDeep(t: Ber, more: seq<byte>, squash: bool, eoc: bool, depth: nat, room: nat)
    requires t.Definite? && WellFormed(t, room) && Convert(BerAll(t.kids) + [], false, false, depth + 1).None?
    ensures Convert(BerBytes(t) + more, squash, eoc, depth).None?
  {
    assert BerAll(t.kids) + [] == BerAll(t.kids);
    var f := DefiniteFound(t.tag, BerAll(t.kids), more);
    DefiniteFails(BerBytes(t) + more, f, squash, eoc, depth);
  }

  lemma IndefiniteTooDeep(t: Ber, more: seq<byte>, squash: bool, eoc: bool, depth: nat, room: nat)
    requires t.Indefinite? && WellFormed(t, room)
    requires Convert(BerAll(t.kids) + (EOC + more), Joins(t.tag, t.kids), true, depth + 1).None?
    ensures Convert(BerBytes(t) + more, squash, eoc, depth).None?
  {
    hide Convert;
    var s := BerAll(t.kids) + (EOC + more);
    SquashJoins(t.tag, t.kids, more, room - 1);
    assert BerBytes(t) + more == [t.tag, 0x80] + s;
    var f := IndefiniteFound(t.tag, s);
    IndefiniteFails(BerBytes(t) + more, f, Joins(t.tag, t.kids), squash, eoc, depth);
  }

  /** Trees of any depth: the conversion succeeds exactly when they nest no deeper than the limit. */
  lemma DepthExact(ts: seq<Ber>, room: nat)
    requires AllWellFormed(ts, room)
    ensures Convert(BerAll(ts), false, false, 0).Some? <==> AllWellFormed(ts, MAX_DEPTH)
  {
    if AllWellFormed(ts, MAX_DEPTH) {
      ConvertMeansDer(ts);
    } else {
      TooDeep(ts, false, false, [], 0, room);
      assert BerAll(ts) + [] == BerAll(ts);
    }
  }
}
