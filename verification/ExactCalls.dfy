/** Builder calls with their exact outcome: a node is added if and only if it is writable and fits. */
module ExactCalls {
  import opened Encoding
  import opened ByteBuilder
  import opened TreeCodec
  import opened IntegerBuilder
  import D = DerInteger

  /** Levels with one more node at the innermost one, if that can be written. */
  function AddNode(x: Option<seq<Level>>, n: Node, limit: nat): (r: Option<seq<Level>>) {
    if x.None? || x.value == [] then None
    else if Writable(n) && |Image(x.value)| + |EncodeNode(n)| <= limit then Some(Append(x.value, n))
    else None
  }

  function AddNodes(x: Option<seq<Level>>, ns: seq<Node>, limit: nat): (r: Option<seq<Level>>) {
    if ns == [] then x else AddNode(AddNodes(x, ns[..|ns| - 1], limit), ns[|ns| - 1], limit)
  }

  lemma AddNodesSnoc(x: Option<seq<Level>>, ns: seq<Node>, n: Node, limit: nat)
    ensures AddNodes(x, ns + [n], limit) == AddNode(AddNodes(x, ns, limit), n, limit)
  {
    assert (ns + [n])[..|ns|] == ns;
  }

  lemma AddOne(x: Option<seq<Level>>, n: Node, limit: nat)
    ensures AddNodes(x, [n], limit) == AddNode(x, n, limit)
  {
    assert [n][..0] == [];
  }

  /** Several nodes are added exactly when all are writable and together fit. */
  lemma {:induction false} AddNodesExact(m: seq<Level>, ns: seq<Node>, limit: nat)
    requires m != [] && |Image(m)| <= limit
    ensures AddNodes(Some(m), ns, limit) ==
            if AllWritable(ns) && |Image(m)| + |Encode(ns)| <= limit then Some(Extend(m, ns)) else None
  {
    if ns != [] {
      var t, n := ns[..|ns| - 1], ns[|ns| - 1];
      AddNodesExact(m, t, limit);
      ImageExtend(m, t);
    }
  }

  /** Closing an element whose body is complete. */
  lemma CloseExact(m: seq<Level>, tag: byte, body: seq<Node>, limit: nat)
    requires m != []
    ensures CloseOne(Extend(Push(m, Asn1(tag)), body), limit) ==
            if |Encode(body)| <= 0xffff_fffe && |Image(m)| + |EncodeNode(Tagged(tag, body))| <= limit
            then Some(Append(m, Tagged(tag, body))) else None
  {
    var n, entered := Tagged(tag, body), Push(m, Asn1(tag));
    var full := Extend(entered, body);
    ExtendLast(entered, body);
    assert full[..|m|] == m && full[|m|].kind == Asn1(tag) && full[|m|].done == body;
    assert NodeOf(full[|m|]) == n && CloseLast(full) == Append(m, n);
    ImageAppend(m, n);
  }

  lemma LongerThanBody(tag: byte, body: seq<Node>)
    ensures |EncodeNode(Tagged(tag, body))| >= 1 + |Encode(body)|
    ensures |Encode(body)| < 0x1_0000_0000 ==> |EncodeNode(Tagged(tag, body))| >= 2 + |Encode(body)|
  {
  }

  /** The levels after opening an element, given those before. */
  function Entered(x: Option<seq<Level>>, tag: byte, limit: nat): (r: Option<seq<Level>>) {
    if x.None? || tag % 32 == 31 || |Image(x.value)| + 2 > limit then None else Some(Push(x.value, Asn1(tag)))
  }

  function Left(x: Option<seq<Level>>, limit: nat): (r: Option<seq<Level>>) {
    if x.None? || |x.value| < 2 then None else CloseOne(x.value, limit)
  }

  /** Opening, filling and closing adds the element or fails, exactly as adding its node. */
  lemma WrapExact(m: seq<Level>, tag: byte, body: seq<Node>, limit: nat)
    requires m != [] && |Image(m)| <= limit
    ensures AddNode(Some(m), Tagged(tag, body), limit) ==
              Left(AddNodes(Entered(Some(m), tag, limit), body, limit), limit)
  {
    LongerThanBody(tag, body);
    var x := Entered(Some(m), tag, limit);
    if x.None? {
      NoneAdded(body, limit);
    } else {
      ImagePush(m, Asn1(tag));
      AddNodesExact(x.value, body, limit);
      CloseExact(m, tag, body, limit);
    }
  }

  lemma {:induction false} NoneAdded(ns: seq<Node>, limit: nat)
    ensures AddNodes(None, ns, limit).None?
  {
    if ns != [] {
      NoneAdded(ns[..|ns| - 1], limit);
    }
  }

  // --------------------------------------------------------------------------
  // Calls on the builder
  // --------------------------------------------------------------------------

  /** What a builder at depth d holds once everything nested in it is closed; nothing after a failed call. */
  function Held(ok: bool, levels: seq<Level>, d: nat, limit: nat): (r: Option<seq<Level>>) {
    if ok && d < |levels| then Close(levels, d, limit) else None
  }

  lemma {:induction false} CloseWithin(levels: seq<Level>, d: nat, limit: nat)
    requires d < |levels| && |Image(levels)| <= limit
    ensures Close(levels, d, limit).Some? ==> |Image(Close(levels, d, limit).value)| <= limit
    decreases |levels| - d
  {
    if d + 1 < |levels| {
      CloseWithin(levels, d + 1, limit);
    }
  }

  /** Opening a child is entering an element. */
  lemma OpenIsEntered(levels: seq<Level>, d: nat, limit: nat, tag: byte)
    requires d < |levels| && tag % 32 != 31
    ensures Open(levels, d, limit, Asn1(tag)) == Entered(Close(levels, d, limit), tag, limit)
  {
  }

  lemma ClosedEntered(x: Option<seq<Level>>, tag: byte, limit: nat)
    requires Entered(x, tag, limit).Some? && x.value != []
    ensures var e := Entered(x, tag, limit).value; Close(e, |x.value|, limit) == Some(e)
  {
    ClosedAlready(Entered(x, tag, limit).value, limit);
  }

  /** Once everything is closed at depth d + 1, one more level is closed for depth d. */
  lemma HeldFurther(ok: bool, levels: seq<Level>, d: nat, limit: nat)
    requires ok ==> d + 1 < |levels|
    ensures Held(ok, levels, d, limit) == Left(Held(ok, levels, d + 1, limit), limit)
  {
  }

  /** CBB_add_bytes, once more with its exact outcome. */
  method PutRaw(c: Cbb, b: Buffer, data: seq<byte>, ghost chain: seq<Cbb>) returns (ok: bool)
    requires Stands(c, b, chain)
    modifies b, b.chain
    ensures Held(ok, b.levels, c.depth, old(b.Limit())) ==
            AddNode(Close(old(b.levels), c.depth, old(b.Limit())), Raw(data), old(b.Limit()))
    ensures ok ==> Stands(c, b, chain) && b.Limit() == old(b.Limit())
    ensures ok ==> forall i :: c.depth < i < |b.chain| ==> fresh(b.chain[i])
  {
    RawExact(b.levels, c.depth, b.Limit(), data);
    PrefixIs(c, b, chain);
    ok := AddBytes(c, b, data);
  }

  lemma RawExact(levels: seq<Level>, d: nat, limit: nat, data: seq<byte>)
    requires d < |levels|
    ensures AddRaw(levels, d, limit, data) == AddNode(Close(levels, d, limit), Raw(data), limit)
    ensures AddRaw(levels, d, limit, data).Some? ==>
              Close(AddRaw(levels, d, limit, data).value, d, limit) == AddRaw(levels, d, limit, data)
  {
    if AddRaw(levels, d, limit, data).Some? {
      ClosedAlready(AddRaw(levels, d, limit, data).value, limit);
    }
  }

  /** CBB_add_asn1_uint64, once more with its exact outcome. */
  method PutInteger(c: Cbb, b: Buffer, v: nat, ghost chain: seq<Cbb>) returns (ok: bool)
    requires Stands(c, b, chain) && v < D.TWO_64
    modifies b, b.chain
    ensures Held(ok, b.levels, c.depth, old(b.Limit())) ==
            AddNode(Close(old(b.levels), c.depth, old(b.Limit())), IntNode(v), old(b.Limit()))
    ensures ok ==> Stands(c, b, chain) && b.Limit() == old(b.Limit())
    ensures ok ==> forall i :: c.depth < i < |b.chain| ==> fresh(b.chain[i])
  {
    IntegerExact(b.levels, c.depth, b.Limit(), v);
    PrefixIs(c, b, chain);
    ok := AddAsn1Uint64(c, b, v);
  }

  lemma IntegerExact(levels: seq<Level>, d: nat, limit: nat, v: nat)
    requires d < |levels| && v < D.TWO_64
    ensures AddInteger(levels, d, limit, v) == AddNode(Close(levels, d, limit), IntNode(v), limit)
    ensures AddInteger(levels, d, limit, v).Some? ==>
              Close(AddInteger(levels, d, limit, v).value, d, limit) == AddInteger(levels, d, limit, v)
  {
    IntNodeBytes(v);
    IntNodeLength(v);
    if AddInteger(levels, d, limit, v).Some? {
      ClosedAlready(AddInteger(levels, d, limit, v).value, limit);
    }
  }

  /** CBB_add_asn1, once more with its exact outcome. */
  method EnterElement(c: Cbb, b: Buffer, tag: byte, ghost chain: seq<Cbb>) returns (ok: bool, child: Cbb)
    requires Stands(c, b, chain) && tag % 32 != 31
    modifies b, b.chain
    ensures Outcome(ok, b.levels) == Entered(Close(old(b.levels), c.depth, old(b.Limit())), tag, old(b.Limit()))
    ensures ok ==>
              && Stands(child, b, chain + [child]) && child.depth == c.depth + 1
              && fresh(child) && b.Limit() == old(b.Limit())
    ensures ok ==> |b.chain| == child.depth + 1
  {
    OpenIsEntered(b.levels, c.depth, b.Limit(), tag);
    PrefixIs(c, b, chain);
    ok, child := OpenChild(c, b, Asn1(tag));
  }

  /** An element with one node inside, from its parts. */
  lemma ElementExact(x: Option<seq<Level>>, tag: byte, inner: Node, limit: nat)
    requires x.Some? ==> x.value != [] && |Image(x.value)| <= limit
    ensures AddNode(x, Tagged(tag, [inner]), limit) == Left(AddNode(Entered(x, tag, limit), inner, limit), limit)
  {
    if x.Some? {
      WrapExact(x.value, tag, [inner], limit);
      AddOne(Entered(x, tag, limit), inner, limit);
    }
  }

  lemma WithinLimit(b: Buffer, d: nat)
    requires b.Valid() && d < |b.levels|
    ensures var x := Close(b.levels, d, b.Limit()); x.Some? ==> x.value != [] && |Image(x.value)| <= b.Limit()
  {
    CloseWithin(b.levels, d, b.Limit());
  }

  /** The element is added exactly when opening it and filling it have succeeded and it can be closed. */
  lemma FinishElement(ok: bool, levels: seq<Level>, d: nat, limit: nat, x: Option<seq<Level>>, tag: byte, inner: Node)
    requires (ok ==> d + 1 < |levels|) && (x.Some? ==> x.value != [] && |Image(x.value)| <= limit)
    requires Held(ok, levels, d + 1, limit) == AddNode(Entered(x, tag, limit), inner, limit)
    ensures Held(ok, levels, d, limit) == AddNode(x, Tagged(tag, [inner]), limit)
  {
    ElementExact(x, tag, inner, limit);
    HeldFurther(ok, levels, d, limit);
  }

  lemma NotEntered(levels: seq<Level>, d: nat, limit: nat, x: Option<seq<Level>>, tag: byte, inner: Node)
    requires (x.Some? ==> x.value != [] && |Image(x.value)| <= limit) && Entered(x, tag, limit).None?
    ensures AddNode(x, Tagged(tag, [inner]), limit).None?
  {
    ElementExact(x, tag, inner, limit);
  }

  /** The builders of `chain` are open, outermost first, and c is the last of them. */
  ghost predicate Stands(c: Cbb, b: Buffer, chain: seq<Cbb>)
    reads c, b, b.chain
  {
    && b.Valid() && |chain| == c.depth + 1 <= |b.chain| && chain[c.depth] == c
    && forall i :: 0 <= i <= c.depth ==> b.chain[i] == chain[i]
  }

  lemma ParentStands(c: Cbb, child: Cbb, b: Buffer, chain: seq<Cbb>)
    requires Stands(child, b, chain + [child]) && |chain| == c.depth + 1 && chain[c.depth] == c
    requires child.depth == c.depth + 1
    ensures Stands(c, b, chain)
  {
    forall i | 0 <= i <= c.depth
      ensures b.chain[i] == chain[i]
    {
      assert (chain + [child])[i] == chain[i];
    }
  }

  lemma PrefixIs(c: Cbb, b: Buffer, chain: seq<Cbb>)
    requires Stands(c, b, chain)
    ensures On(c, b) && b.chain[..c.depth + 1] == chain
  {
  }

  /** CBB_add_u16, once more with its exact outcome. */
  method PutU16(c: Cbb, b: Buffer, v: nat, ghost chain: seq<Cbb>) returns (ok: bool)
    requires Stands(c, b, chain) && v < 0x1_0000
    modifies b, b.chain
    ensures Held(ok, b.levels, c.depth, old(b.Limit())) ==
            AddNode(Close(old(b.levels), c.depth, old(b.Limit())), Raw(BigEndian(v, 2)), old(b.Limit()))
    ensures ok ==> Stands(c, b, chain) && b.Limit() == old(b.Limit())
    ensures ok ==> forall i :: c.depth < i < |b.chain| ==> fresh(b.chain[i])
  {
    RawExact(b.levels, c.depth, b.Limit(), BigEndian(v, 2));
    PrefixIs(c, b, chain);
    assert Pow256(2) == 0x1_0000;
    ok := AddUint(c, b, v, 2);
  }

  /** What is put inside an element: bytes, a number of two bytes, an INTEGER, or another element around bytes. */
  datatype Content = Bytes(data: seq<byte>) | Short(v: nat) | Integer(v: nat) | Wrapped(tag: byte, data: seq<byte>)

  predicate Allowed(x: Content) {
    match x
    case Bytes(_) => true
    case Short(v) => v < 0x1_0000
    case Integer(v) => v < D.TWO_64
    case Wrapped(tag, _) => tag % 32 != 31
  }

  function NodeIn(x: Content): (n: Node) {
    match x
    case Bytes(data) => Raw(data)
    case Short(v) => Raw(BigEndian(v, 2))
    case Integer(v) => IntNode(v)
    case Wrapped(tag, data) => Tagged(tag, [Raw(data)])
  }

  method PutContent(c: Cbb, b: Buffer, x: Content, ghost chain: seq<Cbb>) returns (ok: bool)
    requires Stands(c, b, chain) && Allowed(x)
    modifies b, b.chain
    ensures Held(ok, b.levels, c.depth, old(b.Limit())) ==
            AddNode(Close(old(b.levels), c.depth, old(b.Limit())), NodeIn(x), old(b.Limit()))
    ensures ok ==> Stands(c, b, chain) && b.Limit() == old(b.Limit())
    ensures ok ==> forall i :: c.depth < i < |b.chain| ==> fresh(b.chain[i])
    decreases x.Wrapped?, 0
  {
    match x
    case Bytes(data) => ok := PutRaw(c, b, data, chain);
    case Short(v) => ok := PutU16(c, b, v, chain);
    case Integer(v) => ok := PutInteger(c, b, v, chain);
    case Wrapped(tag, data) => ok := PutElement(c, b, tag, Bytes(data), chain);
  }

  /** Opens an element, fills it, and leaves it to be closed by the next use of c. */
  method PutElement(c: Cbb, b: Buffer, tag: byte, x: Content, ghost chain: seq<Cbb>) returns (ok: bool)
    requires Stands(c, b, chain) && tag % 32 != 31 && Allowed(x)
    modifies b, b.chain
    ensures Held(ok, b.levels, c.depth, old(b.Limit())) ==
            AddNode(Close(old(b.levels), c.depth, old(b.Limit())), Tagged(tag, [NodeIn(x)]), old(b.Limit()))
    ensures ok ==> Stands(c, b, chain) && b.Limit() == old(b.Limit())
    ensures ok ==> forall i :: c.depth < i < |b.chain| ==> fresh(b.chain[i])
    decreases x.Wrapped?, 2
  {
    ghost var y, limit, d := Close(b.levels, c.depth, b.Limit()), b.Limit(), c.depth;
    WithinLimit(b, d);
    var child;
    ok, child := EnterElement(c, b, tag, chain);
    if ok {
      ok := FillElement(c, child, b, x, chain, y, tag);
      if ok {
        forall i | c.depth < i < |b.chain|
          ensures fresh(b.chain[i])
        {
          assert i == child.depth || child.depth < i;
        }
      }
    } else {
      NotEntered(b.levels, d, limit, y, tag, NodeIn(x));
    }
  }

  method FillElement(c: Cbb, child: Cbb, b: Buffer, x: Content, ghost chain: seq<Cbb>, ghost y: Option<seq<Level>>,
                     ghost tag: byte)
    returns (ok: bool)
    requires Stands(child, b, chain + [child]) && child.depth == c.depth + 1 == |chain| && chain[c.depth] == c
    requires Allowed(x)
    requires y.Some? && y.value != [] && |y.value| == child.depth && |Image(y.value)| <= b.Limit()
    requires Entered(y, tag, b.Limit()) == Some(b.levels)
    modifies b, b.chain
    ensures Held(ok, b.levels, c.depth, old(b.Limit())) == AddNode(y, Tagged(tag, [NodeIn(x)]), old(b.Limit()))
    ensures ok ==>
              && Stands(c, b, chain) && b.Limit() == old(b.Limit())
              && child.depth < |b.chain| && b.chain[child.depth] == child
    ensures ok ==> forall i :: child.depth < i < |b.chain| ==> fresh(b.chain[i])
    decreases x.Wrapped?, 1
  {
    ghost var limit := b.Limit();
    ClosedEntered(y, tag, limit);
    ok := PutContent(child, b, x, chain + [child]);
    FinishElement(ok, b.levels, c.depth, limit, y, tag, NodeIn(x));
    if ok {
      ParentStands(c, child, b, chain);
    }
  }
}
