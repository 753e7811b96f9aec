/** cbs_convert_indefinite as it runs: a cursor over the input and a builder for the output,
    with one nested builder per element whose header is written. */
module BerRewriter {
  import opened Encoding
  import P = ByteParser
  import opened ByteCursor
  import opened ByteBuilder
  import opened BerConvert

  /** The innermost level has gained the given bytes, and nothing else changed. */
  ghost predicate Grown(l0: seq<Level>, l1: seq<Level>, out: seq<byte>) {
    && |l0| == |l1| > 0
    && l1[..|l1| - 1] == l0[..|l0| - 1]
    && var a := l0[|l0| - 1]; var b := l1[|l1| - 1];
       && a.kind == b.kind && a.start == b.start
       && Encode(b.done) == Encode(a.done) + out
  }

  lemma GrownImage(l0: seq<Level>, l1: seq<Level>, out: seq<byte>)
    requires Grown(l0, l1, out)
    ensures Image(l1) == Image(l0) + out
  {
    var a, h, e := Image(l0[..|l0| - 1]), Header(l0[|l0| - 1].kind), Encode(l0[|l0| - 1].done);
    assert a + h + (e + out) == a + h + e + out;
  }

  lemma GrownTwice(l0: seq<Level>, l1: seq<Level>, l2: seq<Level>, x: seq<byte>, y: seq<byte>)
    requires Grown(l0, l1, x) && Grown(l1, l2, y)
    ensures Grown(l0, l2, x + y)
  {
    var e := Encode(l0[|l0| - 1].done);
    assert e + x + y == e + (x + y);
  }

  lemma GrownByNode(l: seq<Level>, n: Node)
    requires l != []
    ensures Grown(l, Append(l, n), EncodeNode(n))
  {
    EncodeAppend(l[|l| - 1].done, n);
  }

  lemma GrownNothing(l: seq<Level>)
    requires l != []
    ensures Grown(l, l, [])
  {
    assert Encode(l[|l| - 1].done) + [] == Encode(l[|l| - 1].done);
  }

  /** Closing an element that was opened on l and filled with c adds the whole element to l. */
  lemma ClosedElement(l: seq<Level>, tag: byte, full: seq<Level>, c: seq<byte>, limit: nat)
    requires l != [] && Grown(Push(l, Asn1(tag)), full, c)
    requires |c| < 0x1_0000_0000 ==> |Image(l)| + |[tag] + DerLength(|c|) + c| <= limit
    ensures CloseOne(full, limit).Some? <==> |c| <= 0xffff_fffe
    ensures |c| <= 0xffff_fffe ==> Grown(l, CloseOne(full, limit).value, [tag] + DerLength(|c|) + c)
  {
    var n := |l|;
    var node := NodeOf(full[n]);
    assert full[..n] == Push(l, Asn1(tag))[..n] == l;
    assert Encode(full[n].done) == c by {
      assert Encode([]) + c == c;
    }
    assert full[|full| - 1] == full[n];
    ElementOf(full[n]);
    GrownByNode(l, node);
    ImageAppend(l, node);
    assert CloseLast(full) == Append(l, node);
  }

  /** What one element other than end-of-contents contributes, and what it leaves of the input. */
  function ConvertOne(f: P.Found, squash: bool, depth: nat): (r: Option<Done>)
    requires 2 <= f.headerLen <= |f.element|
  {
    if IsIndefinite(f) then
      match SquashChildren(f)
      case None => None
      case Some(q) =>
        match Convert(f.rest, q, true, depth + 1)
        case None => None
        case Some(inner) => Emitted(squash, if q then ClearConstructed(f.tag) else f.tag, inner.out, inner.rest)
    else
      match Body(f, depth)
      case None => None
      case Some(c) => Emitted(squash, f.tag, c, f.rest)
  }

  function Emitted(squash: bool, tag: byte, c: seq<byte>, rest: seq<byte>): (r: Option<Done>) {
    match Emit(squash, tag, c)
    case None => None
    case Some(piece) => Some(Done(piece, rest))
  }

  lemma ConvertByOne(s: seq<byte>, squash: bool, eoc: bool, depth: nat)
    requires s != [] && depth <= MAX_DEPTH && P.GetElement(s, false).Some? && !IsEoc(P.GetElement(s, false).value)
    ensures var f := P.GetElement(s, false).value;
            Convert(s, squash, eoc, depth) ==
            match ConvertOne(f, squash, depth)
            case None => None
            case Some(d) => Prepend(d.out, Convert(d.rest, squash, eoc, depth))
  {
  }

  lemma OneBound(f: P.Found, squash: bool, depth: nat)
    requires 2 <= f.headerLen <= |f.element| && ConvertOne(f, squash, depth).Some?
    ensures var d := ConvertOne(f, squash, depth).value;
            |d.rest| <= |f.rest| && |d.out| <= 3 * (|f.element| + |f.rest| - |d.rest|)
  {
    if IsIndefinite(f) {
      OutputBound(f.rest, SquashChildren(f).value, true, depth + 1);
    } else {
      BodyBound(f, depth);
    }
  }

  // --------------------------------------------------------------------------
  // Builder steps on the innermost builder
  // --------------------------------------------------------------------------

  ghost predicate Innermost(c: Cbb, b: Buffer)
    reads c, b, b.chain
  {
    On(c, b) && c.depth + 1 == |b.chain|
  }

  method AppendData(c: Cbb, b: Buffer, data: seq<byte>)
    requires Innermost(c, b) && |Image(b.levels)| + |data| <= b.Limit()
    modifies b, b.chain
    ensures Innermost(c, b) && b.chain == old(b.chain) && b.Limit() == old(b.Limit())
    ensures Grown(old(b.levels), b.levels, data)
  {
    GrownByNode(b.levels, Raw(data));
    assert b.chain[..c.depth + 1] == b.chain;
    var ok := AddBytes(c, b, data);
  }

  method Enter(c: Cbb, b: Buffer, tag: byte) returns (child: Cbb)
    requires Innermost(c, b) && |Image(b.levels)| + 2 <= b.Limit() && tag % 32 != 31
    modifies b, b.chain
    ensures Innermost(child, b) && b.chain == old(b.chain) + [child] && b.Limit() == old(b.Limit())
    ensures b.levels == Push(old(b.levels), Asn1(tag)) && fresh(child) && child.depth == c.depth + 1
  {
    assert b.chain[..c.depth + 1] == b.chain;
    var ok;
    ok, child := OpenChild(c, b, Asn1(tag));
  }

  method Leave(c: Cbb, b: Buffer, tag: byte, ghost l: seq<Level>, ghost content: seq<byte>) returns (ok: bool)
    requires On(c, b) && c.depth + 2 == |b.chain| && l != [] && Grown(Push(l, Asn1(tag)), b.levels, content)
    requires |content| < 0x1_0000_0000 ==>
               |Image(l)| + |[tag] + DerLength(|content|) + content| <= b.Limit()
    modifies b, b.chain
    ensures ok <==> |content| <= 0xffff_fffe
    ensures ok ==> Innermost(c, b) && b.chain == old(b.chain)[..c.depth + 1] && b.Limit() == old(b.Limit())
    ensures ok ==> Grown(l, b.levels, [tag] + DerLength(|content|) + content)
  {
    ClosedElement(l, tag, b.levels, content, b.Limit());
    ok := Flush(c, b);
  }

  // --------------------------------------------------------------------------
  // The converter
  // --------------------------------------------------------------------------

  /** The output of a nested stream with its header, if headers are written. */
  function Nested(s: seq<byte>, q: bool, eoc: bool, depth: nat, squash: bool, tag: byte): (r: Option<Done>) {
    match Convert(s, q, eoc, depth)
    case None => None
    case Some(d) => Emitted(squash, tag, d.out, d.rest)
  }

  /** Converts the stream `inner` as the contents of one element with the given tag. */
  method RewriteNested(inner: Cbs, c: Cbb, b: Buffer, squash: bool, tag: byte, q: bool, eoc: bool, depth: nat)
    returns (ok: bool, ghost piece: seq<byte>)
    requires Innermost(c, b) && |Image(b.levels)| + 6 + 3 * |inner.data| <= b.Limit() && tag % 32 != 31
    modifies inner, b, b.chain
    ensures (if ok then Some(Done(piece, inner.data)) else None)
         == Nested(old(inner.data), q, eoc, depth, squash, tag)
    ensures ok ==> Innermost(c, b) && b.chain == old(b.chain) && b.Limit() == old(b.Limit())
    ensures ok ==> Grown(old(b.levels), b.levels, piece)
    decreases |inner.data|, 4
  {
    ghost var s, l, chain := inner.data, b.levels, b.chain;
    if squash {
      ok, piece := Rewrite(inner, c, b, q, eoc, depth);
    } else {
      var child := Enter(c, b, tag);
      ImagePush(l, Asn1(tag));
      ok, piece := Rewrite(inner, child, b, q, eoc, depth);
      if ok {
        OutputBound(s, q, eoc, depth);
        assert b.chain[..c.depth + 1] == chain;
        ok := Leave(c, b, tag, l, piece);
        piece := if ok then [tag] + DerLength(|piece|) + piece else [];
      }
    }
  }

  /** One element that is not end-of-contents; the input stands just behind its header if it is
      indefinite, and behind the whole element otherwise. */
  method RewriteElement(inp: Cbs, c: Cbb, b: Buffer, f: P.Found, squash: bool, depth: nat)
    returns (ok: bool, ghost piece: seq<byte>)
    requires 2 <= f.headerLen <= |f.element| && f.tag % 32 != 31 && inp.data == f.rest
    requires Innermost(c, b) && |Image(b.levels)| + 3 * (|f.element| + |f.rest|) <= b.Limit()
    modifies inp, b, b.chain
    ensures (if ok then Some(Done(piece, inp.data)) else None) == ConvertOne(f, squash, depth)
    ensures ok ==> Innermost(c, b) && b.chain == old(b.chain) && b.Limit() == old(b.Limit())
    ensures ok ==> Grown(old(b.levels), b.levels, piece)
    decreases |f.element| + |f.rest|, 1
  {
    if IsIndefinite(f) {
      var q := SquashChildren(f);
      if q.None? {
        return false, [];
      }
      ok, piece := RewriteNested(inp, c, b, squash, if q.value then ClearConstructed(f.tag) else f.tag,
                                 q.value, true, depth + 1);
    } else if P.Constructed(f.tag) {
      var contents := new Cbs(f.element[f.headerLen..]);
      ok, piece := RewriteNested(contents, c, b, squash, f.tag, false, false, depth + 1);
    } else {
      ok, piece := RewritePrimitive(c, b, squash, f.tag, f.element[f.headerLen..]);
    }
  }

  method RewritePrimitive(c: Cbb, b: Buffer, squash: bool, tag: byte, data: seq<byte>)
    returns (ok: bool, ghost piece: seq<byte>)
    requires Innermost(c, b) && |Image(b.levels)| + 6 + |data| <= b.Limit() && tag % 32 != 31
    modifies b, b.chain
    ensures (if ok then Some(piece) else None) == Emit(squash, tag, data)
    ensures ok ==> Innermost(c, b) && b.chain == old(b.chain) && b.Limit() == old(b.Limit())
    ensures ok ==> Grown(old(b.levels), b.levels, piece)
  {
    ghost var l, chain := b.levels, b.chain;
    if squash {
      AppendData(c, b, data);
      ok, piece := true, data;
    } else {
      var child := Enter(c, b, tag);
      ImagePush(l, Asn1(tag));
      AppendData(child, b, data);
      assert b.chain[..c.depth + 1] == chain;
      ok := Leave(c, b, tag, l, data);
      piece := if ok then [tag] + DerLength(|data|) + data else [];
    }
  }

  lemma PrependNothing(r: Option<Done>)
    ensures Prepend([], r) == r
  {
    if r.Some? {
      assert [] + r.value.out == r.value.out;
    }
  }

  lemma PrependTwice(x: seq<byte>, y: seq<byte>, r: Option<Done>)
    ensures Prepend(x, Prepend(y, r)) == Prepend(x + y, r)
  {
    if r.Some? {
      assert x + (y + r.value.out) == x + y + r.value.out;
    }
  }

  /** How a pass over the input stands: more elements, stopped at end-of-contents, or failed. */
  datatype Status = More | AtEoc | Failed

  /** What the whole conversion comes to, once `out` has been written and `s` is left. */
  function Outlook(status: Status, out: seq<byte>, s: seq<byte>, squash: bool, eoc: bool,
                   depth: nat): (r: Option<Done>) {
    match status
    case More => Prepend(out, Convert(s, squash, eoc, depth))
    case AtEoc => if eoc then Some(Done(out, s)) else None
    case Failed => None
  }

  /** One turn of the loop, on a non-empty input. */
  method Turn(inp: Cbs, c: Cbb, b: Buffer, squash: bool, eoc: bool, depth: nat)
    returns (status: Status, ghost piece: seq<byte>)
    requires inp.data != [] && depth <= MAX_DEPTH
    requires Innermost(c, b) && |Image(b.levels)| + 3 * |inp.data| <= b.Limit()
    modifies inp, b, b.chain
    ensures Convert(old(inp.data), squash, eoc, depth)
         == Outlook(status, piece, inp.data, squash, eoc, depth)
    ensures status.AtEoc? ==> piece == []
    ensures !status.Failed? ==> Innermost(c, b) && b.chain == old(b.chain) && b.Limit() == old(b.Limit())
    ensures !status.Failed? ==> |inp.data| < |old(inp.data)| && Grown(old(b.levels), b.levels, piece)
    ensures !status.Failed? ==> |Image(b.levels)| + 3 * |inp.data| <= b.Limit()
    decreases |inp.data|, 2
  {
    ghost var s, l := inp.data, b.levels;
    status, piece := Failed, [];
    var r := inp.GetAnyElement(false);
    if r.Some? {
      var f := r.value;
      if |f.element| == f.headerLen && IsEoc(f) {
        status := AtEoc;
        GrownNothing(l);
      } else {
        ConvertByOne(s, squash, eoc, depth);
        var ok;
        ok, piece := RewriteElement(inp, c, b, f, squash, depth);
        if ok {
          status := More;
          OneBound(f, squash, depth);
          GrownImage(l, b.levels, piece);
        }
      }
    }
  }

  /** cbs_convert_indefinite, given room for three times the input: succeeds exactly when the
      conversion is defined, with its output appended and its rest left in the input. */
  method Rewrite(inp: Cbs, c: Cbb, b: Buffer, squash: bool, lookingForEoc: bool, depth: nat)
    returns (ok: bool, ghost out: seq<byte>)
    requires Innermost(c, b) && |Image(b.levels)| + 3 * |inp.data| <= b.Limit()
    modifies inp, b, b.chain
    ensures (if ok then Some(Done(out, inp.data)) else None)
         == Convert(old(inp.data), squash, lookingForEoc, depth)
    ensures ok ==> Innermost(c, b) && b.chain == old(b.chain) && b.Limit() == old(b.Limit())
    ensures ok ==> Grown(old(b.levels), b.levels, out)
    decreases |inp.data|, 3
  {
    out := [];
    if depth > MAX_DEPTH {
      return false, [];
    }
    ghost var s0, l0 := inp.data, b.levels;
    GrownNothing(l0);
    PrependNothing(Convert(s0, squash, lookingForEoc, depth));
    var status := More;
    while |inp.data| > 0 && status.More?
      invariant !status.Failed? ==> Innermost(c, b) && b.chain == old(b.chain) && b.Limit() == old(b.Limit())
      invariant !status.Failed? ==> Grown(l0, b.levels, out) && |inp.data| <= |s0|
      invariant !status.Failed? ==> |Image(b.levels)| + 3 * |inp.data| <= b.Limit()
      invariant Convert(s0, squash, lookingForEoc, depth)
             == Outlook(status, out, inp.data, squash, lookingForEoc, depth)
      decreases if status.More? then |inp.data| + 1 else 0
    {
      ghost var l, s, piece := b.levels, inp.data, [];
      status, piece := Turn(inp, c, b, squash, lookingForEoc, depth);
      if !status.Failed? {
        GrownTwice(l0, l, b.levels, out, piece);
        PrependTwice(out, piece, Convert(inp.data, squash, lookingForEoc, depth));
        assert piece == [] ==> out + piece == out;
        out := out + piece;
      }
    }
    assert out + [] == out;
    ok := if status.More? then !lookingForEoc else status.AtEoc? && lookingForEoc;
  }

  /** The conversion part of CBS_asn1_indefinite_to_definite: a fresh builder, one pass, and the bytes. */
  method ToDefinite(s: seq<byte>) returns (out: Option<seq<byte>>)
    requires 3 * |s| <= SIZE_MAX
    ensures out == match Convert(s, false, false, 0)
                   case None => None
                   case Some(d) => Some(d.out)
  {
    var inp := new Cbs(s);
    var c, b := Init(|s|, true);
    ImageTop(b.levels);
    var ok, bytes := Rewrite(inp, c, b, false, false, 0);
    if !ok {
      return None;
    }
    assert b.levels == [b.levels[0]];
    assert b.Linked(0);
    var r := Finish(c, b);
    assert Encode([]) + bytes == bytes;
    out := if r.Some? then Some(r.value) else None;
  }
}
