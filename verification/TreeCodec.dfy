/** Whole trees: the parser recovers the tree that was encoded, and every writable tree is built
    byte for byte by the builder calls that spell it out. */
module TreeCodec {
  import opened Encoding
  import P = ByteParser
  import opened ByteBuilder
  import opened BuilderRuns

  /** Every length fits its field and every tag is a short-form one. */
  predicate Writable(n: Node)
    decreases n
  {
    match n
    case Raw(_) => true
    case Prefixed(k, body) => 1 <= k <= 4 && |Encode(body)| < Pow256(k) && AllWritable(body)
    case Tagged(tag, body) => tag % 32 != 31 && |Encode(body)| <= 0xffff_fffe && AllWritable(body)
  }

  predicate AllWritable(ns: seq<Node>)
    decreases ns
  {
    ns == [] || (AllWritable(ns[..|ns| - 1]) && Writable(ns[|ns| - 1]))
  }

  // --------------------------------------------------------------------------
  // Parsing a tree of known shape
  // --------------------------------------------------------------------------

  /** What a caller of the parser knows in advance: how long raw parts are, and the nesting. */
  datatype Shape = Take(n: nat) | Counted(lenLen: nat, body: seq<Shape>) | Marked(tag: byte, body: seq<Shape>)

  function ShapeOf(n: Node): (s: Shape)
    decreases n
  {
    match n
    case Raw(bytes) => Take(|bytes|)
    case Prefixed(k, body) => Counted(k, ShapesOf(body))
    case Tagged(tag, body) => Marked(tag, ShapesOf(body))
  }

  function ShapesOf(ns: seq<Node>): (r: seq<Shape>)
    ensures |r| == |ns|
    decreases ns
  {
    if ns == [] then [] else ShapesOf(ns[..|ns| - 1]) + [ShapeOf(ns[|ns| - 1])]
  }

  function ParseOne(sh: Shape, s: seq<byte>): (r: Option<P.Got<Node>>)
    decreases sh
  {
    match sh
    case Take(n) =>
      (match P.GetBytes(s, n)
       case None => None
       case Some(g) => Some(P.Got(Raw(g.v), g.rest)))
    case Counted(k, body) =>
      (match P.GetPrefixed(s, k)
       case None => None
       case Some(g) =>
         match ParseAll(body, g.v)
         case None => None
         case Some(b) => if b.rest == [] then Some(P.Got(Prefixed(k, b.v), g.rest)) else None)
    case Marked(tag, body) =>
      (match P.GetAsn1(s, tag)
       case None => None
       case Some(g) =>
         match ParseAll(body, g.v)
         case None => None
         case Some(b) => if b.rest == [] then Some(P.Got(Tagged(tag, b.v), g.rest)) else None)
  }

  /** Parses the shapes one after the other, in order. */
  function ParseAll(shs: seq<Shape>, s: seq<byte>): (r: Option<P.Got<seq<Node>>>)
    decreases shs
  {
    if shs == [] then Some(P.Got([], s)) else
      match ParseAll(shs[..|shs| - 1], s)
      case None => None
      case Some(g) =>
        match ParseOne(shs[|shs| - 1], g.rest)
        case None => None
        case Some(h) => Some(P.Got(g.v + [h.v], h.rest))
  }

  lemma ParseRaw(bytes: seq<byte>, rest: seq<byte>)
    ensures ParseOne(Take(|bytes|), bytes + rest) == Some(P.Got(Raw(bytes), rest))
  {
    assert (bytes + rest)[..|bytes|] == bytes && (bytes + rest)[|bytes|..] == rest;
  }

  lemma ParseCounted(k: nat, shs: seq<Shape>, body: seq<Node>, c: seq<byte>, rest: seq<byte>)
    requires 1 <= k <= 4 && |c| < Pow256(k) && ParseAll(shs, c) == Some(P.Got(body, []))
    ensures ParseOne(Counted(k, shs), BigEndian(|c|, k) + c + rest) == Some(P.Got(Prefixed(k, body), rest))
  {
    assert BigEndian(|c|, k) + c + rest == BigEndian(|c|, k) + (c + rest);
    P.PrefixedAccepted(k, c, rest);
  }

  lemma ParseMarked(tag: byte, shs: seq<Shape>, body: seq<Node>, c: seq<byte>, rest: seq<byte>)
    requires tag % 32 != 31 && |c| < 0x1_0000_0000 && ParseAll(shs, c) == Some(P.Got(body, []))
    ensures ParseOne(Marked(tag, shs), [tag] + DerLength(|c|) + c + rest) == Some(P.Got(Tagged(tag, body), rest))
  {
    P.Asn1Accepted(tag, c, rest);
  }

  lemma ParseSnoc(shs: seq<Shape>, init: seq<Node>, s: seq<byte>, sh: Shape, last: Node, mid: seq<byte>,
                  rest: seq<byte>)
    requires ParseAll(shs, s) == Some(P.Got(init, mid)) && ParseOne(sh, mid) == Some(P.Got(last, rest))
    ensures ParseAll(shs + [sh], s) == Some(P.Got(init + [last], rest))
  {
    var all := shs + [sh];
    assert all[..|all| - 1] == shs && all[|all| - 1] == sh;
  }

  lemma Regrouped(a: seq<byte>, b: seq<byte>, c: seq<byte>)
    ensures a + b + c == a + (b + c)
  {
  }

  /** The parser recovers the tree, whatever follows its encoding. */
  lemma {:induction false} ParseOneOfEncoding(n: Node, rest: seq<byte>)
    requires Writable(n)
    ensures ParseOne(ShapeOf(n), EncodeNode(n) + rest) == Some(P.Got(n, rest))
    decreases n
  {
    match n
    case Raw(bytes) =>
      ParseRaw(bytes, rest);
    case Prefixed(k, body) =>
      ParseAllOfEncoding(body, []);
      assert Encode(body) + [] == Encode(body);
      ParseCounted(k, ShapesOf(body), body, Encode(body), rest);
    case Tagged(tag, body) =>
      ParseAllOfEncoding(body, []);
      assert Encode(body) + [] == Encode(body);
      ParseMarked(tag, ShapesOf(body), body, Encode(body), rest);
  }

  lemma {:induction false} ParseAllOfEncoding(ns: seq<Node>, rest: seq<byte>)
    requires AllWritable(ns)
    ensures ParseAll(ShapesOf(ns), Encode(ns) + rest) == Some(P.Got(ns, rest))
    decreases ns
  {
    if ns == [] {
      assert Encode(ns) + rest == rest;
    } else {
      var init, last := ns[..|ns| - 1], ns[|ns| - 1];
      assert init + [last] == ns;
      ParseAllOfEncoding(init, EncodeNode(last) + rest);
      ParseOneOfEncoding(last, rest);
      var shs, sh, e1, e2 := ShapesOf(init), ShapeOf(last), Encode(init), EncodeNode(last);
      ParseSnoc(shs, init, e1 + (e2 + rest), sh, last, e2 + rest, rest);
      Regrouped(e1, e2, rest);
      assert ShapesOf(ns) == shs + [sh] && Encode(ns) == e1 + e2;
    }
  }

  // --------------------------------------------------------------------------
  // Building a tree
  // --------------------------------------------------------------------------

  function KindOf(n: Node): (k: Kind)
    requires !n.Raw?
  {
    if n.Prefixed? then LenPrefix(n.lenLen) else Asn1(n.tag)
  }

  /** The builder calls that spell out a node inside the builder open at depth d. */
  function Program(n: Node, d: nat): (r: seq<Op>)
    decreases n
  {
    match n
    case Raw(bytes) => [Bytes(d, bytes)]
    case Prefixed(k, body) => [Child(d, LenPrefix(k))] + Programs(body, d + 1)
    case Tagged(tag, body) => [Child(d, Asn1(tag))] + Programs(body, d + 1)
  }

  function Programs(ns: seq<Node>, d: nat): (r: seq<Op>)
    decreases ns
  {
    if ns == [] then [] else Programs(ns[..|ns| - 1], d) + Program(ns[|ns| - 1], d)
  }

  function Extend(levels: seq<Level>, ns: seq<Node>): (r: seq<Level>)
    requires levels != []
    ensures |r| == |levels|
  {
    if ns == [] then levels else Append(Extend(levels, ns[..|ns| - 1]), ns[|ns| - 1])
  }

  lemma {:induction false} StepsConcat(levels: seq<Level>, a: seq<Op>, b: seq<Op>, limit: nat)
    requires levels != []
    ensures Steps(levels, a + b, limit) ==
            match Steps(levels, a, limit) case None => None case Some(m) => Steps(m, b, limit)
    decreases |a|
  {
    if a == [] {
      assert a + b == b;
    } else {
      assert (a + b)[1..] == a[1..] + b;
      match Step(levels, a[0], limit)
      case None =>
      case Some(m) => StepsConcat(m, a[1..], b, limit);
    }
  }

  lemma {:induction false} ImageExtend(levels: seq<Level>, ns: seq<Node>)
    requires levels != []
    ensures Image(Extend(levels, ns)) == Image(levels) + Encode(ns)
  {
    if ns == [] {
      assert Image(levels) + [] == Image(levels);
    } else {
      var init, last := ns[..|ns| - 1], ns[|ns| - 1];
      var i0, e1, e2 := Image(levels), Encode(init), EncodeNode(last);
      ImageExtend(levels, init);
      ImageAppend(Extend(levels, init), last);
      assert i0 + e1 + e2 == i0 + (e1 + e2);
    }
  }

  lemma {:induction false} ExtendLast(levels: seq<Level>, ns: seq<Node>)
    requires levels != []
    ensures var r := Extend(levels, ns);
            && r[..|levels| - 1] == levels[..|levels| - 1]
            && r[|levels| - 1] == levels[|levels| - 1].(done := levels[|levels| - 1].done + ns)
  {
    if ns == [] {
    } else {
      var init, last := ns[..|ns| - 1], ns[|ns| - 1];
      ExtendLast(levels, init);
      assert levels[|levels| - 1].done + ns == levels[|levels| - 1].done + init + [last];
    }
  }

  /** Levels that end at depth d are already closed to depth d. */
  lemma ClosedAlready(levels: seq<Level>, limit: nat)
    requires levels != []
    ensures Close(levels, |levels| - 1, limit) == Some(levels)
  {
  }

  /** An element that has been opened and filled. */
  lemma {:induction false} FilledElement(m: seq<Level>, n: Node)
    requires m != [] && !n.Raw?
    ensures var full := Extend(Push(m, KindOf(n)), n.body);
            && full[|m|].kind == KindOf(n) && full[|m|].done == n.body && CloseLast(full) == Append(m, n)
  {
    var full := Extend(Push(m, KindOf(n)), n.body);
    ExtendLast(Push(m, KindOf(n)), n.body);
    assert full[..|m|] == m && full[|m|].kind == KindOf(n) && full[|m|].done == n.body;
    assert NodeOf(full[|m|]) == n;
  }

  lemma {:induction false} HeaderShorter(n: Node)
    requires !n.Raw? && Writable(n)
    ensures |Header(KindOf(n))| <= |EncodeNode(n)| && Fits(KindOf(n), |Encode(n.body)|)
  {
  }

  /** Opening an element, filling it and closing it appends its node. */
  lemma {:induction false} CloseElement(m: seq<Level>, n: Node, limit: nat)
    requires m != [] && !n.Raw? && Writable(n) && |Image(m)| + |EncodeNode(n)| <= limit
    ensures |Image(m)| + |Header(KindOf(n))| <= limit
    ensures CloseOne(Extend(Push(m, KindOf(n)), n.body), limit) == Some(Append(m, n))
  {
    FilledElement(m, n);
    HeaderShorter(n);
    ImageAppend(m, n);
  }

  /** Where a run stands after the calls for ns, once everything above depth d is closed. */
  ghost predicate Arrives(levels: seq<Level>, ops: seq<Op>, d: nat, limit: nat, target: seq<Level>)
    requires levels != []
  {
    var r := Steps(levels, ops, limit);
    r.Some? && d < |r.value| && Close(r.value, d, limit) == Some(target)
  }

  lemma {:induction false} ProgramArrives(levels: seq<Level>, n: Node, d: nat, limit: nat, m: seq<Level>)
    requires d < |levels| && Close(levels, d, limit) == Some(m) && Writable(n)
    requires |Image(m)| + |EncodeNode(n)| <= limit
    ensures Arrives(levels, Program(n, d), d, limit, Append(m, n))
    decreases n
  {
    if n.Raw? {
      RawArrives(levels, n, d, limit, m);
    } else {
      var entered := Push(m, KindOf(n));
      CloseElement(m, n, limit);
      ClosedAlready(entered, limit);
      ImagePush(m, KindOf(n));
      BodyFits(n);
      ProgramsArrive(entered, n.body, d + 1, limit, entered);
      ElementArrives(levels, n, d, limit, m);
    }
  }

  lemma RawArrives(levels: seq<Level>, n: Node, d: nat, limit: nat, m: seq<Level>)
    requires d < |levels| && Close(levels, d, limit) == Some(m) && n.Raw?
    requires |Image(m)| + |EncodeNode(n)| <= limit
    ensures Arrives(levels, Program(n, d), d, limit, Append(m, n))
  {
    var ops := [Bytes(d, n.bytes)];
    assert ops[1..] == [];
    ClosedAlready(Append(m, n), limit);
  }

  lemma ElementArrives(levels: seq<Level>, n: Node, d: nat, limit: nat, m: seq<Level>)
    requires d < |levels| && Close(levels, d, limit) == Some(m) && !n.Raw? && Writable(n)
    requires |Image(m)| + |Header(KindOf(n))| <= limit
    requires var entered := Push(m, KindOf(n));
             && CloseOne(Extend(entered, n.body), limit) == Some(Append(m, n))
             && Arrives(entered, Programs(n.body, d + 1), d + 1, limit, Extend(entered, n.body))
    ensures Arrives(levels, Program(n, d), d, limit, Append(m, n))
  {
    var body, entered := Programs(n.body, d + 1), Push(m, KindOf(n));
    var op := Child(d, KindOf(n));
    EnterStep(levels, n, d, limit, m);
    assert Program(n, d) == [op] + body;
    FirstStep(levels, op, body, limit, entered);
    CloseFurther(Steps(entered, body, limit).value, d, limit, Extend(entered, n.body));
  }

  lemma EnterStep(levels: seq<Level>, n: Node, d: nat, limit: nat, m: seq<Level>)
    requires d < |levels| && Close(levels, d, limit) == Some(m) && !n.Raw? && Writable(n)
    requires |Image(m)| + |Header(KindOf(n))| <= limit
    ensures Step(levels, Child(d, KindOf(n)), limit) == Some(Push(m, KindOf(n)))
  {
  }

  lemma CloseFurther(r: seq<Level>, d: nat, limit: nat, full: seq<Level>)
    requires d + 1 < |r| && Close(r, d + 1, limit) == Some(full)
    ensures Close(r, d, limit) == CloseOne(full, limit)
  {
  }

  lemma FirstStep(levels: seq<Level>, op: Op, rest: seq<Op>, limit: nat, m: seq<Level>)
    requires levels != [] && m != [] && Step(levels, op, limit) == Some(m)
    ensures Steps(levels, [op] + rest, limit) == Steps(m, rest, limit)
  {
    assert ([op] + rest)[0] == op && ([op] + rest)[1..] == rest;
  }

  lemma BodyFits(n: Node)
    requires !n.Raw? && Writable(n)
    ensures |Header(KindOf(n))| + |Encode(n.body)| <= |EncodeNode(n)|
  {
  }

  lemma {:induction false} ProgramsArrive(levels: seq<Level>, ns: seq<Node>, d: nat, limit: nat, m: seq<Level>)
    requires d < |levels| && Close(levels, d, limit) == Some(m) && AllWritable(ns)
    requires |Image(m)| + |Encode(ns)| <= limit
    ensures Arrives(levels, Programs(ns, d), d, limit, Extend(m, ns))
    decreases ns
  {
    if ns != [] {
      var init, last := ns[..|ns| - 1], ns[|ns| - 1];
      ProgramsArrive(levels, init, d, limit, m);
      var r := Steps(levels, Programs(init, d), limit).value;
      ImageExtend(m, init);
      ProgramArrives(r, last, d, limit, Extend(m, init));
      StepsConcat(levels, Programs(init, d), Program(last, d), limit);
    }
  }

  /** Every writable tree that fits the limit is what its own calls build. */
  lemma ProgramBuildsTree(ns: seq<Node>, limit: nat)
    requires AllWritable(ns) && |Encode(ns)| <= limit
    ensures Tree(Programs(ns, 0), limit) == Some(ns)
  {
    var start := [Level(Top, 0, [])];
    ImageTop(start);
    ClosedAlready(start, limit);
    ProgramsArrive(start, ns, 0, limit, start);
    ExtendLast(start, ns);
    assert [] + ns == ns;
  }
}
