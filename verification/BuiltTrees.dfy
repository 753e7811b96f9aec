/** What any run of builder calls has built can be parsed again. */
module BuiltTrees {
  import opened Encoding
  import opened ByteBuilder
  import opened BuilderRuns
  import opened TreeCodec
  import P = ByteParser

  predicate GoodKind(k: Kind) {
    match k
    case Top => true
    case LenPrefix(n) => 1 <= n <= 4
    case Asn1(tag) => tag % 32 != 31
  }

  /** Everything completed so far is writable. */
  ghost predicate Sound(levels: seq<Level>) {
    forall i :: 0 <= i < |levels| ==> GoodKind(levels[i].kind) && AllWritable(levels[i].done)
  }

  lemma WritableSnoc(ns: seq<Node>, n: Node)
    requires AllWritable(ns) && Writable(n)
    ensures AllWritable(ns + [n])
  {
    assert (ns + [n])[..|ns|] == ns;
  }

  lemma AppendSound(levels: seq<Level>, n: Node)
    requires levels != [] && Sound(levels) && Writable(n)
    ensures Sound(Append(levels, n))
  {
    WritableSnoc(levels[|levels| - 1].done, n);
  }

  /** A level that could be closed has become a writable node. */
  lemma CloseOneSound(levels: seq<Level>, limit: nat)
    requires |levels| >= 2 && Sound(levels) && CloseOne(levels, limit).Some?
    ensures Sound(CloseOne(levels, limit).value)
  {
    var l := levels[|levels| - 1];
    assert GoodKind(l.kind) && AllWritable(l.done);
    AppendSound(levels[..|levels| - 1], NodeOf(l));
  }

  lemma {:induction false} CloseSound(levels: seq<Level>, i: nat, limit: nat)
    requires i < |levels| && Sound(levels) && Close(levels, i, limit).Some?
    ensures Sound(Close(levels, i, limit).value)
    decreases |levels| - i
  {
    if |levels| > i + 1 {
      CloseSound(levels, i + 1, limit);
      CloseOneSound(Close(levels, i + 1, limit).value, limit);
    }
  }

  lemma StepSound(levels: seq<Level>, op: Op, limit: nat)
    requires Sound(levels) && op.WellFormed() && Step(levels, op, limit).Some?
    ensures Sound(Step(levels, op, limit).value)
  {
    CloseSound(levels, op.depth, limit);
    var m := Close(levels, op.depth, limit).value;
    match op
    case Bytes(_, data) => AppendSound(m, Raw(data));
    case Uint(_, v, n) => AppendSound(m, Raw(BigEndian(v, n)));
    case Child(_, k) =>
  }

  ghost predicate AllWellFormed(ops: seq<Op>) {
    forall i :: 0 <= i < |ops| ==> ops[i].WellFormed()
  }

  lemma {:induction false} StepsSound(levels: seq<Level>, ops: seq<Op>, limit: nat)
    requires levels != [] && Sound(levels) && AllWellFormed(ops) && Steps(levels, ops, limit).Some?
    ensures Sound(Steps(levels, ops, limit).value)
    decreases |ops|
  {
    if ops != [] {
      StepSound(levels, ops[0], limit);
      StepsSound(Step(levels, ops[0], limit).value, ops[1..], limit);
    }
  }

  /** The tree of every successful run is writable. */
  lemma TreeWritable(ops: seq<Op>, limit: nat)
    requires AllWellFormed(ops) && Tree(ops, limit).Some?
    ensures AllWritable(Tree(ops, limit).value)
  {
    var start := [Level(Top, 0, [])];
    StepsSound(start, ops, limit);
    CloseSound(Steps(start, ops, limit).value, 0, limit);
  }

  /** Whatever calls built it, the parser recovers the tree from the bytes handed over. */
  lemma BuiltIsParsed(ops: seq<Op>, limit: nat, rest: seq<byte>)
    requires AllWellFormed(ops) && Tree(ops, limit).Some?
    ensures var t := Tree(ops, limit).value;
            ParseAll(ShapesOf(t), Encode(t) + rest) == Some(P.Got(t, rest))
  {
    TreeWritable(ops, limit);
    ParseAllOfEncoding(Tree(ops, limit).value, rest);
  }

  /** Builds, and parses what was built: success exactly when the run succeeds, and then its own tree. */
  method BuildAndParse(ops: seq<Op>, capacity: nat, resizable: bool, rest: seq<byte>)
    returns (out: Option<seq<byte>>, parsed: Option<P.Got<seq<Node>>>)
    requires capacity <= SIZE_MAX && AllWellFormed(ops)
    ensures var t := Tree(ops, if resizable then SIZE_MAX else capacity);
            if t.None? then out.None? && parsed.None?
            else out == Some(Encode(t.value)) && parsed == Some(P.Got(t.value, rest))
  {
    out := Build(ops, capacity, resizable);
    parsed := None;
    var t := Tree(ops, if resizable then SIZE_MAX else capacity);
    if out.Some? {
      BuiltIsParsed(ops, if resizable then SIZE_MAX else capacity, rest);
      parsed := ParseAll(ShapesOf(t.value), out.value + rest);
    }
  }
}
