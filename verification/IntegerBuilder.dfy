/** Writing an INTEGER byte by byte through the builder (CBB_add_asn1_uint64). */
module IntegerBuilder {
  import opened Encoding
  import opened ByteBuilder
  import opened BuilderRuns
  import opened TreeCodec
  import D = DerInteger

  /** One raw node for each byte. */
  function ByteNodes(s: seq<byte>): (r: seq<Node>) {
    if s == [] then [] else ByteNodes(s[..|s| - 1]) + [Raw([s[|s| - 1]])]
  }

  function IntNode(v: nat): (n: Node) {
    Tagged(D.INTEGER, ByteNodes(D.UintContent(v)))
  }

  lemma {:induction false} EncodeByteNodes(s: seq<byte>)
    ensures Encode(ByteNodes(s)) == s && AllWritable(ByteNodes(s))
  {
    if s != [] {
      var t := s[..|s| - 1];
      EncodeByteNodes(t);
      EncodeAppend(ByteNodes(t), Raw([s[|s| - 1]]));
      assert s == t + [s[|s| - 1]];
      assert ByteNodes(s)[..|ByteNodes(s)| - 1] == ByteNodes(t);
    }
  }

  /** The element is the DER encoding of the number. */
  lemma IntNodeBytes(v: nat)
    requires v < D.TWO_64
    ensures EncodeNode(IntNode(v)) == D.DerUint(v) && Writable(IntNode(v))
  {
    ContentShort(v);
    ElementOf(D.UintContent(v));
  }

  lemma ElementOf(c: seq<byte>)
    requires |c| <= 9
    ensures EncodeNode(Tagged(D.INTEGER, ByteNodes(c))) == EncodeNode(Tagged(D.INTEGER, [Raw(c)]))
    ensures Writable(Tagged(D.INTEGER, ByteNodes(c)))
  {
    EncodeByteNodes(c);
    assert Encode([Raw(c)]) == c by {
      EncodeAppend([], Raw(c));
      assert [] + [Raw(c)] == [Raw(c)];
    }
    SameElement(D.INTEGER, ByteNodes(c), [Raw(c)]);
  }

  lemma ContentShort(v: nat)
    requires v < D.TWO_64
    ensures |D.UintContent(v)| <= 9
  {
    assert Pow256(8) == D.TWO_64;
    D.MinBytesShort(v, 8);
  }

  lemma SameElement(tag: byte, a: seq<Node>, b: seq<Node>)
    requires Encode(a) == Encode(b)
    ensures EncodeNode(Tagged(tag, a)) == EncodeNode(Tagged(tag, b))
  {
  }

  /** What has been written when the leading bytes of v make the number p. */
  function Written(p: nat): (r: seq<byte>) {
    if p == 0 then [] else D.UintContent(p)
  }

  /** One more byte: nothing for a leading zero, a padding byte in front of a leading top bit. */
  lemma WrittenStep(p: nat, b: byte)
    ensures Written(256 * p + b) ==
            if p == 0 then (if b == 0 then [] else if b >= 0x80 then [0, b] else [b]) else Written(p) + [b]
  {
    if p > 0 {
      assert D.MinBytes(256 * p + b) == D.MinBytes(p) + [b];
    }
  }

  /** v >> 8 * k. */
  function Top(v: nat, k: nat): (r: nat) {
    if k == 0 then v else Top(v, k - 1) / 256
  }

  lemma {:induction false} TopBound(v: nat, k: nat, n: nat)
    requires k <= n && v < Pow256(n)
    ensures Top(v, k) < Pow256(n - k)
  {
    if k > 0 {
      TopBound(v, k - 1, n);
    }
  }

  ghost predicate IsPrefix(a: seq<byte>, b: seq<byte>) {
    |a| <= |b| && a == b[..|a|]
  }

  /** The bytes come in the order of the encoding. */
  lemma {:induction false} WrittenPrefix(v: nat, k: nat)
    ensures IsPrefix(Written(Top(v, k)), Written(v))
    decreases k
  {
    if k == 0 {
      assert Top(v, 0) == v;
    } else {
      var q := Top(v, k - 1);
      WrittenPrefix(v, k - 1);
      NextIsPrefix(q);
      PrefixOfPrefix(Written(q / 256), Written(q), Written(v));
    }
  }

  lemma NextIsPrefix(q: nat)
    ensures IsPrefix(Written(q / 256), Written(q))
  {
    WrittenStep(q / 256, q % 256);
    assert 256 * (q / 256) + q % 256 == q;
  }

  lemma PrefixOfPrefix(a: seq<byte>, b: seq<byte>, c: seq<byte>)
    requires IsPrefix(a, b) && IsPrefix(b, c)
    ensures IsPrefix(a, c)
  {
  }

  // --------------------------------------------------------------------------
  // Through the builder
  // --------------------------------------------------------------------------

  /** Levels with the first k bytes of c added, one node each. */
  function Filled(levels: seq<Level>, c: seq<byte>, k: nat): (r: seq<Level>)
    requires levels != [] && k <= |c|
    ensures |r| == |levels|
  {
    if k == 0 then levels else Append(Filled(levels, c, k - 1), Raw([c[k - 1]]))
  }

  lemma {:induction false} FilledIsExtended(levels: seq<Level>, c: seq<byte>, k: nat)
    requires levels != [] && k <= |c|
    ensures Filled(levels, c, k) == Extend(levels, ByteNodes(c[..k]))
  {
    if k > 0 {
      var t, x := c[..k - 1], c[k - 1];
      FilledIsExtended(levels, c, k - 1);
      assert c[..k] == t + [x];
      ByteNodesSnoc(t, x);
      ExtendSnoc(levels, ByteNodes(t), Raw([x]));
    }
  }

  lemma ByteNodesSnoc(t: seq<byte>, x: byte)
    ensures ByteNodes(t + [x]) == ByteNodes(t) + [Raw([x])]
  {
    assert (t + [x])[..|t|] == t;
  }

  lemma ExtendSnoc(levels: seq<Level>, ns: seq<Node>, n: Node)
    requires levels != []
    ensures Extend(levels, ns + [n]) == Append(Extend(levels, ns), n)
  {
    assert (ns + [n])[..|ns|] == ns;
  }

  lemma ByteEncoding(x: byte)
    ensures BigEndian(x, 1) == [x] && x < Pow256(1)
  {
    assert BigEndian(x / 256, 0) == [];
  }

  /** One byte for the innermost level. */
  function Grown(levels: seq<Level>, x: byte, limit: nat): (r: Option<seq<Level>>)
    requires levels != []
  {
    if |Image(levels)| + 1 <= limit then Some(Append(levels, Raw([x]))) else None
  }

  lemma RawGrows(levels: seq<Level>, x: byte, limit: nat)
    requires levels != []
    ensures AddRaw(levels, |levels| - 1, limit, BigEndian(x, 1)) == Grown(levels, x, limit) && x < Pow256(1)
  {
    ByteEncoding(x);
    ClosedAlready(levels, limit);
  }

  /** CBB_add_u8 of the next byte. */
  method PutByte(child: Cbb, b: Buffer, x: byte, ghost levels: seq<Level>, ghost c: seq<byte>, ghost k: nat)
    returns (ok: bool)
    requires On(child, b) && child.depth + 1 == |b.chain| && levels != [] && k < |c| && x == c[k]
    requires b.levels == Filled(levels, c, k)
    modifies b, b.chain
    ensures ok ==> On(child, b) && b.Limit() == old(b.Limit()) && b.chain == old(b.chain)
    ensures ok ==> b.levels == Filled(levels, c, k + 1)
    ensures ok <==> |Image(levels)| + k + 1 <= old(b.Limit())
  {
    FilledSize(levels, c, k);
    RawGrows(b.levels, x, b.Limit());
    TakeAll(b.chain);
    ok := AddUint(child, b, x, 1);
  }

  lemma GrowsByOne(levels: seq<Level>, x: byte)
    requires levels != []
    ensures |Image(Append(levels, Raw([x])))| == |Image(levels)| + 1
  {
    ImageAppend(levels, Raw([x]));
  }

  lemma {:induction false} FilledSize(levels: seq<Level>, c: seq<byte>, k: nat)
    requires levels != [] && k <= |c|
    ensures |Image(Filled(levels, c, k))| == |Image(levels)| + k
  {
    if k > 0 {
      var f := Filled(levels, c, k - 1);
      assert Filled(levels, c, k) == Append(f, Raw([c[k - 1]]));
      GrowsByOne(f, c[k - 1]);
      FilledSize(levels, c, k - 1);
    }
  }

  lemma TakeAll(s: seq<Cbb>)
    ensures s[..|s|] == s
  {
  }

  /** The first byte has its top bit set: a zero byte goes in front. */
  method PutPadded(child: Cbb, b: Buffer, x: byte, ghost levels: seq<Level>, ghost c: seq<byte>, ghost k: nat)
    returns (ok: bool)
    requires On(child, b) && child.depth + 1 == |b.chain| && levels != []
    requires k + 2 <= |c| && c[k] == 0 && c[k + 1] == x && b.levels == Filled(levels, c, k)
    modifies b, b.chain
    ensures ok ==> On(child, b) && b.Limit() == old(b.Limit()) && b.chain == old(b.chain)
    ensures ok ==> b.levels == Filled(levels, c, k + 2)
    ensures ok <==> |Image(levels)| + k + 2 <= old(b.Limit())
  {
    ok := PutByte(child, b, 0, levels, c, k);
    if ok {
      ok := PutByte(child, b, x, levels, c, k + 1);
    }
  }

  /** Byte x takes the contents octets from k of them to m. */
  ghost predicate Advances(k: nat, m: nat, x: byte, c: seq<byte>) {
    && k <= m <= |c|
    && m == (if k > 0 then k + 1 else if x == 0 then k else if x >= 0x80 then k + 2 else k + 1)
    && (m == k + 1 ==> c[k] == x) && (m == k + 2 ==> c[k] == 0 && c[k + 1] == x)
  }

  /** The place of the next byte in the encoding. */
  lemma NextByte(v: nat, j: nat, c: seq<byte>)
    requires c == D.UintContent(v)
    ensures Advances(|Written(Top(v, j + 1))|, |Written(Top(v, j))|, Top(v, j) % 256, c)
  {
    var p, q := Top(v, j + 1), Top(v, j);
    assert p == q / 256;
    WrittenStep(p, q % 256);
    assert q == 256 * p + q % 256;
    WrittenPrefix(v, j);
    var w := Written(q);
    assert v == 0 ==> w == [];
    assert v != 0 ==> Written(v) == c;
    assert forall m :: 0 <= m < |w| ==> w[m] == c[m];
  }

  /** How many contents octets are written after each of the n bytes. */
  lemma {:induction false} Counts(v: nat, n: nat, i: nat, c: seq<byte>) returns (ks: seq<nat>)
    requires Top(v, n) == 0 && c == D.UintContent(v) && i <= n
    ensures |ks| == i + 1 && ks[0] == 0 && ks[i] == |Written(Top(v, n - i))|
    ensures forall l :: 0 <= l < i ==> Advances(ks[l], ks[l + 1], Top(v, n - l - 1) % 256, c)
    ensures forall l :: 0 <= l <= i ==> ks[l] <= ks[i]
  {
    if i == 0 {
      ks := [0];
    } else {
      ks := Counts(v, n, i - 1, c);
      NextByte(v, n - i, c);
      ks := ks + [|Written(Top(v, n - i))|];
    }
  }

  /** One turn of the loop: a leading zero is skipped, a leading top bit padded. */
  method PutNext(child: Cbb, b: Buffer, x: byte, started: bool, ghost levels: seq<Level>, ghost c: seq<byte>,
                 ghost k: nat, ghost m: nat)
    returns (ok: bool, now: bool)
    requires On(child, b) && child.depth + 1 == |b.chain| && levels != [] && Advances(k, m, x, c)
    requires (started <==> k > 0) && b.levels == Filled(levels, c, k) && |Image(levels)| + k <= b.Limit()
    modifies b, b.chain
    ensures ok ==>
              On(child, b) && b.Limit() == old(b.Limit()) && b.chain == old(b.chain) && b.levels == Filled(levels, c, m)
    ensures (now <==> m > 0) && (ok <==> |Image(levels)| + m <= old(b.Limit()))
  {
    now := started || x != 0;
    if started || (x != 0 && x < 0x80) {
      ok := PutByte(child, b, x, levels, c, k);
    } else if x != 0 {
      ok := PutPadded(child, b, x, levels, c, k);
    } else {
      ok := true;
    }
  }

  lemma TopZero(v: nat)
    requires v < D.TWO_64
    ensures Top(v, 8) == 0
  {
    assert Pow256(8) == D.TWO_64;
    TopBound(v, 8, 8);
  }

  /** The loop over the n bytes of a word. */
  method PutBytes(child: Cbb, b: Buffer, v: nat, n: nat, ghost levels: seq<Level>, ghost c: seq<byte>,
                  ghost ks: seq<nat>)
    returns (ok: bool, started: bool)
    requires On(child, b) && child.depth + 1 == |b.chain| && levels != [] && b.levels == levels
    requires |Image(levels)| <= b.Limit()
    requires |ks| == n + 1 && ks[0] == 0 && (forall l :: 0 <= l <= n ==> ks[l] <= ks[n]) && ks[n] <= |c|
    requires forall l :: 0 <= l < n ==> Advances(ks[l], ks[l + 1], Top(v, n - l - 1) % 256, c)
    modifies b, b.chain
    ensures ok ==> On(child, b) && b.Limit() == old(b.Limit()) && b.chain == old(b.chain) && (started <==> ks[n] > 0)
    ensures ok ==> b.levels == Filled(levels, c, ks[n])
    ensures ok <==> |Image(levels)| + ks[n] <= old(b.Limit())
  {
    ghost var limit, size, chain := b.Limit(), |Image(levels)|, b.chain;
    var i := 0;
    ok, started := true, false;
    while i < n && ok
      invariant 0 <= i <= n && (ok <==> size + ks[i] <= limit)
      invariant ok ==> On(child, b) && b.chain == chain && b.Limit() == limit && b.levels == Filled(levels, c, ks[i])
      invariant ok ==> (started <==> ks[i] > 0)
    {
      ok, started := PutNext(child, b, Top(v, n - i - 1) % 256, started, levels, c, ks[i], ks[i + 1]);
      i := i + 1;
    }
  }

  lemma WholeContent(v: nat)
    ensures var c, k := D.UintContent(v), |Written(v)|;
            if v == 0 then |c| == k + 1 && c[k] == 0 else |c| == k
  {
  }

  /** The contents octets; zero is written as a single zero byte. */
  method PutContent(child: Cbb, b: Buffer, v: nat, n: nat, ghost levels: seq<Level>, ghost c: seq<byte>)
    returns (ok: bool)
    requires On(child, b) && child.depth + 1 == |b.chain| && levels != [] && b.levels == levels
    requires Top(v, n) == 0 && c == D.UintContent(v) && |Image(levels)| <= b.Limit()
    modifies b, b.chain
    ensures ok ==> On(child, b) && b.Limit() == old(b.Limit()) && b.chain == old(b.chain)
    ensures ok ==> b.levels == Filled(levels, c, |c|)
    ensures ok <==> |Image(levels)| + |c| <= old(b.Limit())
  {
    var started;
    WholeContent(v);
    ghost var ks := Counts(v, n, n, c);
    ok, started := PutBytes(child, b, v, n, levels, c, ks);
    if ok && !started {
      ok := PutByte(child, b, 0, levels, c, |Written(v)|);
    }
  }

  /** CBB_add_asn1_uint64: opens the element, fills and closes it; it succeeds exactly when the element fits. */
  method AddAsn1Uint64(c: Cbb, b: Buffer, v: nat) returns (ok: bool)
    requires On(c, b) && v < D.TWO_64
    modifies b, b.chain
    ensures Outcome(ok, b.levels) == AddInteger(old(b.levels), c.depth, old(b.Limit()), v)
    ensures ok ==> On(c, b) && b.Limit() == old(b.Limit()) && b.chain == old(b.chain)[..c.depth + 1]
  {
    ghost var goal := AddInteger(b.levels, c.depth, b.Limit(), v);
    ghost var opening := Open(b.levels, c.depth, b.Limit(), Asn1(D.INTEGER));
    IntegerFits(b.levels, c.depth, b.Limit(), v, goal, opening);
    TopZero(v);
    ok := OpenAndFill(c, b, Asn1(D.INTEGER), v, 8, D.UintContent(v), goal, opening);
  }

  /** What the levels after opening have to do with those in the end. */
  ghost predicate Leads(opening: Option<seq<Level>>, c: seq<byte>, d: nat, limit: nat, goal: Option<seq<Level>>) {
    && (opening.None? ==> goal.None?)
    && (opening.Some? ==>
          && opening.value != [] && |Image(opening.value)| <= limit
          && (|Image(opening.value)| + |c| > limit ==> goal.None?)
          && (|Image(opening.value)| + |c| <= limit ==>
                d < |opening.value| && Close(Filled(opening.value, c, |c|), d, limit) == goal))
  }

  method OpenAndFill(c: Cbb, b: Buffer, k: Kind, v: nat, n: nat, ghost content: seq<byte>,
                     ghost goal: Option<seq<Level>>,
                     ghost opening: Option<seq<Level>>)
    returns (ok: bool)
    requires On(c, b) && Top(v, n) == 0 && content == D.UintContent(v) && k.Asn1? && k.tag % 32 != 31
    requires opening == Open(b.levels, c.depth, b.Limit(), k) && Leads(opening, content, c.depth, b.Limit(), goal)
    modifies b, b.chain
    ensures Outcome(ok, b.levels) == goal
    ensures ok ==> On(c, b) && b.Limit() == old(b.Limit()) && b.chain == old(b.chain)[..c.depth + 1]
  {
    var child;
    ok, child := OpenChild(c, b, k);
    if ok {
      ok := FillAndClose(c, child, b, v, n, content, goal, opening);
    }
  }

  method FillAndClose(c: Cbb, child: Cbb, b: Buffer, v: nat, n: nat, ghost content: seq<byte>,
                      ghost goal: Option<seq<Level>>,
                      ghost opening: Option<seq<Level>>)
    returns (ok: bool)
    requires On(c, b) && On(child, b) && child.depth == c.depth + 1 && child.depth + 1 == |b.chain|
    requires Top(v, n) == 0 && content == D.UintContent(v)
    requires opening == Some(b.levels) && Leads(opening, content, c.depth, b.Limit(), goal)
    modifies b, b.chain
    ensures Outcome(ok, b.levels) == goal
    ensures ok ==> On(c, b) && b.Limit() == old(b.Limit()) && b.chain == old(b.chain)[..c.depth + 1]
  {
    ok := PutContent(child, b, v, n, b.levels, content);
    if ok {
      ok := Flush(c, b);
    }
  }

  /** Closes what is nested deeper and appends the element, if it fits. */
  function AddInteger(levels: seq<Level>, d: nat, limit: nat, v: nat): (r: Option<seq<Level>>)
    requires d < |levels|
  {
    match Close(levels, d, limit)
    case None => None
    case Some(m) => if |Image(m)| + 2 + |D.UintContent(v)| <= limit then Some(Append(m, IntNode(v))) else None
  }

  /** The steps of the call, against its outcome. */
  lemma IntegerFits(levels: seq<Level>, d: nat, limit: nat, v: nat, goal: Option<seq<Level>>,
                    opening: Option<seq<Level>>)
    requires d < |levels| && v < D.TWO_64
    requires goal == AddInteger(levels, d, limit, v) && opening == Open(levels, d, limit, Asn1(D.INTEGER))
    ensures Leads(opening, D.UintContent(v), d, limit, goal)
  {
    match Close(levels, d, limit)
    case None =>
    case Some(m) =>
      ImagePush(m, Asn1(D.INTEGER));
      if |Image(m)| + 2 + |D.UintContent(v)| <= limit {
        FillsAndCloses(m, limit, v);
        CloseTwo(Filled(Push(m, Asn1(D.INTEGER)), D.UintContent(v), |D.UintContent(v)|), d, limit,
                 Append(m, IntNode(v)));
      }
  }

  lemma IntNodeLength(v: nat)
    requires v < D.TWO_64
    ensures |EncodeNode(IntNode(v))| == 2 + |D.UintContent(v)|
  {
    ContentShort(v);
    ElementLength(D.UintContent(v));
  }

  lemma ElementLength(c: seq<byte>)
    requires |c| <= 9
    ensures |EncodeNode(Tagged(D.INTEGER, ByteNodes(c)))| == 2 + |c|
  {
    EncodeByteNodes(c);
  }

  lemma FillsAndCloses(m: seq<Level>, limit: nat, v: nat)
    requires m != [] && v < D.TWO_64 && |Image(m)| + 2 + |D.UintContent(v)| <= limit
    ensures var c := D.UintContent(v);
            CloseOne(Filled(Push(m, Asn1(D.INTEGER)), c, |c|), limit) == Some(Append(m, IntNode(v)))
  {
    var c, n := D.UintContent(v), IntNode(v);
    IntNodeBytes(v);
    IntNodeLength(v);
    CloseElement(m, n, limit);
    assert c[..|c|] == c && KindOf(n) == Asn1(D.INTEGER) && n.body == ByteNodes(c);
    FilledIsExtended(Push(m, Asn1(D.INTEGER)), c, |c|);
  }

  lemma CloseTwo(full: seq<Level>, d: nat, limit: nat, closed: seq<Level>)
    requires |full| == d + 2 && CloseOne(full, limit) == Some(closed) && |closed| == d + 1
    ensures Close(full, d, limit) == Some(closed)
  {
    ClosedAlready(closed, limit);
  }
}
