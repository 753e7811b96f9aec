/** Whole runs of builder operations: any sequence of operations on any of the nested builders
    produces the bytes of the pure encoder. */
module BuilderRuns {
  import opened Encoding
  import opened ByteBuilder

  /** One call, on the builder open at the given depth. Using a builder closes everything nested in it. */
  datatype Op =
    | Bytes(depth: nat, data: seq<byte>)
    | Uint(depth: nat, v: nat, n: nat)
    | Child(depth: nat, kind: Kind)
  {
    predicate WellFormed() {
      match this
      case Bytes(_, _) => true
      case Uint(_, _, n) => 1 <= n <= 4
      case Child(_, k) => !k.Top? && (k.LenPrefix? ==> 1 <= k.n <= 4)
    }
  }

  /** The effect of one call on the open levels; a handle that is no longer open fails. */
  function Step(levels: seq<Level>, op: Op, limit: nat): (r: Option<seq<Level>>)
    ensures r.Some? ==> r.value != []
  {
    if op.depth >= |levels| then None else
      match op
      case Bytes(d, data) => AddRaw(levels, d, limit, data)
      case Uint(d, v, n) => if v < Pow256(n) then AddRaw(levels, d, limit, BigEndian(v, n)) else None
      case Child(d, k) => if k.Asn1? && k.tag % 32 == 31 then None else Open(levels, d, limit, k)
  }

  function Steps(levels: seq<Level>, ops: seq<Op>, limit: nat): (r: Option<seq<Level>>)
    requires levels != []
    ensures r.Some? ==> r.value != []
    decreases |ops|
  {
    if ops == [] then Some(levels) else
      match Step(levels, ops[0], limit)
      case None => None
      case Some(m) => Steps(m, ops[1..], limit)
  }

  /** The tree that a run builds, when every call of it succeeds. */
  function Tree(ops: seq<Op>, limit: nat): (r: Option<seq<Node>>) {
    match Steps([Level(Top, 0, [])], ops, limit)
    case None => None
    case Some(m) =>
      match Close(m, 0, limit)
      case None => None
      case Some(t) => Some(t[0].done)
  }

  /** Performs one call on the builder c at depth op.depth. */
  method Perform(c: Cbb, b: Buffer, op: Op) returns (ok: bool, child: Cbb)
    requires On(c, b) && c.depth == op.depth && op.WellFormed()
    modifies b, b.chain
    ensures Outcome(ok, b.levels) == Step(old(b.levels), op, old(b.Limit()))
    ensures ok ==> b.Valid() && b.Limit() == old(b.Limit())
    ensures ok ==> b.chain == old(b.chain)[..op.depth + 1] + (if op.Child? then [child] else [])
    ensures ok && op.Child? ==> fresh(child)
  {
    child := c;
    match op
    case Bytes(_, data) => ok := AddBytes(c, b, data);
    case Uint(_, v, n) => ok := AddUint(c, b, v, n);
    case Child(_, k) => ok, child := OpenChild(c, b, k);
  }

  lemma OpenAt(b: Buffer, d: nat)
    requires b.Valid() && d < |b.chain|
    ensures b.chain[d].depth == d
  {
    assert b.Linked(d);
  }

  /** What a run from the given levels hands over in the end. */
  function Result(levels: seq<Level>, ops: seq<Op>, limit: nat): (r: Option<seq<byte>>)
    requires levels != []
  {
    match Steps(levels, ops, limit)
    case None => None
    case Some(m) => FinalBytes(m, limit)
  }

  function FinalBytes(levels: seq<Level>, limit: nat): (r: Option<seq<byte>>)
    requires levels != []
  {
    match Close(levels, 0, limit)
    case None => None
    case Some(t) => Some(Encode(t[0].done))
  }

  /** The rest of a run; `handles` are the open builders, outermost first. */
  method Continue(handles: seq<Cbb>, b: Buffer, ops: seq<Op>) returns (out: Option<seq<byte>>)
    requires b.Valid() && handles == b.chain && forall i :: 0 <= i < |ops| ==> ops[i].WellFormed()
    modifies b, b.chain
    ensures out == Result(old(b.levels), ops, old(b.Limit()))
    decreases |ops|
  {
    if ops == [] {
      assert b.Linked(0);
      out := Finish(handles[0], b);
    } else if ops[0].depth >= |handles| {
      out := None;
    } else {
      out := Advance(handles, b, ops);
    }
  }

  method Advance(handles: seq<Cbb>, b: Buffer, ops: seq<Op>) returns (out: Option<seq<byte>>)
    requires b.Valid() && handles == b.chain && forall i :: 0 <= i < |ops| ==> ops[i].WellFormed()
    requires ops != [] && ops[0].depth < |handles|
    modifies b, b.chain
    ensures out == Result(old(b.levels), ops, old(b.Limit()))
    decreases |ops|, 0
  {
    var op := ops[0];
    OpenAt(b, op.depth);
    ghost var chain := b.chain;
    var ok, child := Perform(handles[op.depth], b, op);
    if ok {
      forall i | 0 <= i < |b.chain|
        ensures b.chain[i] in chain || fresh(b.chain[i])
      {
        assert i <= op.depth ==> b.chain[i] == chain[i];
      }
      var handles' := handles[..op.depth + 1] + (if op.Child? then [child] else []);
      out := Continue(handles', b, ops[1..]);
    } else {
      out := None;
    }
  }

  /** Starts a builder, performs the calls and finishes: the bytes are those of the tree, whatever
      lengths had to be patched and contents moved on the way; and there are bytes exactly when
      every length fits and the limit is kept throughout. */
  method Build(ops: seq<Op>, capacity: nat, resizable: bool) returns (out: Option<seq<byte>>)
    requires capacity <= SIZE_MAX && forall i :: 0 <= i < |ops| ==> ops[i].WellFormed()
    ensures var limit := if resizable then SIZE_MAX else capacity;
            out == match Tree(ops, limit)
                   case None => None
                   case Some(t) => Some(Encode(t))
  {
    var c, b := Init(capacity, resizable);
    out := Continue([c], b, ops);
  }
}
