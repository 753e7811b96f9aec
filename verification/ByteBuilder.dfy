/** The byte builder of bs_cbb.c: nested builders write into one buffer, lengths are patched in
    when a child is closed, and long-form DER lengths move the contents already written. */
module ByteBuilder {
  import opened Encoding

  // --------------------------------------------------------------------------
  // The open levels of a builder and the bytes they stand for
  // --------------------------------------------------------------------------

  datatype Kind = Top | LenPrefix(n: nat) | Asn1(tag: byte)

  /** One open builder: how and where it was opened, and what has been completed inside it. */
  datatype Level = Level(kind: Kind, start: nat, done: seq<Node>)

  /** The bytes reserved when a level is opened. */
  function Header(k: Kind): (r: seq<byte>) {
    match k
    case Top => []
    case LenPrefix(n) => seq(n, _ => 0)
    case Asn1(tag) => [tag, 0]
  }

  function Image(levels: seq<Level>): (r: seq<byte>) {
    if levels == [] then [] else
      var l := levels[|levels| - 1];
      Image(levels[..|levels| - 1]) + Header(l.kind) + Encode(l.done)
  }

  function NodeOf(l: Level): (n: Node) {
    match l.kind
    case Top => Raw(Encode(l.done))
    case LenPrefix(n) => Prefixed(n, l.done)
    case Asn1(tag) => Tagged(tag, l.done)
  }

  /** The finished bytes of an element with the given contents. */
  function Element(k: Kind, c: seq<byte>): (r: seq<byte>) {
    match k
    case Top => c
    case LenPrefix(n) => BigEndian(|c|, n) + c
    case Asn1(tag) => [tag] + (if |c| < 0x1_0000_0000 then DerLength(|c|) else []) + c
  }

  /** Whether the length of the contents can be written in the form the level was opened with. */
  predicate Fits(k: Kind, len: nat) {
    match k
    case Top => true
    case LenPrefix(n) => len < Pow256(n)
    case Asn1(_) => len <= 0xffff_fffe
  }

  function Append(levels: seq<Level>, n: Node): (r: seq<Level>)
    requires levels != []
    ensures |r| == |levels|
  {
    var l := levels[|levels| - 1];
    levels[..|levels| - 1] + [l.(done := l.done + [n])]
  }

  function CloseLast(levels: seq<Level>): (r: seq<Level>)
    requires |levels| >= 2
    ensures |r| == |levels| - 1
  {
    Append(levels[..|levels| - 1], NodeOf(levels[|levels| - 1]))
  }

  /** The outcome of an operation, from its return value and the state it leaves. */
  function Outcome<T>(ok: bool, x: T): (r: Option<T>) {
    if ok then Some(x) else None
  }

  /** Closes the innermost level; fails when its length does not fit its prefix or the buffer
      may not grow enough. */
  function CloseOne(levels: seq<Level>, limit: nat): (r: Option<seq<Level>>)
    requires |levels| >= 2
    ensures r.Some? ==> |r.value| == |levels| - 1
  {
    var l := levels[|levels| - 1];
    if Fits(l.kind, |Encode(l.done)|) && |Image(CloseLast(levels))| <= limit then Some(CloseLast(levels)) else None
  }

  /** Closes every level above level i, innermost first. */
  function Close(levels: seq<Level>, i: nat, limit: nat): (r: Option<seq<Level>>)
    requires i < |levels|
    ensures r.Some? ==> |r.value| == i + 1
    decreases |levels| - i
  {
    if |levels| == i + 1 then Some(levels) else
      match Close(levels, i + 1, limit)
      case None => None
      case Some(m) => CloseOne(m, limit)
  }

  /** Adding finished bytes to level i, and opening a level inside it. */
  function AddRaw(levels: seq<Level>, i: nat, limit: nat, data: seq<byte>): (r: Option<seq<Level>>)
    requires i < |levels|
    ensures r.Some? ==> |r.value| == i + 1
  {
    match Close(levels, i, limit)
    case None => None
    case Some(m) => if |Image(m)| + |data| <= limit then Some(Append(m, Raw(data))) else None
  }

  function Open(levels: seq<Level>, i: nat, limit: nat, k: Kind): (r: Option<seq<Level>>)
    requires i < |levels|
    ensures r.Some? ==> |r.value| == i + 2
  {
    match Close(levels, i, limit)
    case None => None
    case Some(m) => if |Image(m)| + |Header(k)| <= limit then Some(Push(m, k)) else None
  }

  lemma ImageAppend(levels: seq<Level>, n: Node)
    requires levels != []
    ensures Image(Append(levels, n)) == Image(levels) + EncodeNode(n)
  {
    var l := levels[|levels| - 1];
    EncodeAppend(l.done, n);
    assert Append(levels, n)[..|levels| - 1] == levels[..|levels| - 1];
  }

  function Push(levels: seq<Level>, k: Kind): (r: seq<Level>) {
    levels + [Level(k, |Image(levels)|, [])]
  }

  lemma ImagePush(levels: seq<Level>, k: Kind)
    ensures Image(Push(levels, k)) == Image(levels) + Header(k)
  {
    assert Push(levels, k)[..|levels|] == levels;
  }

  /** Every level starts where the levels below it end. */
  ghost predicate Placed(levels: seq<Level>) {
    levels == [] ||
    var t := levels[..|levels| - 1];
    Placed(t) && levels[|levels| - 1].start == |Image(t)|
  }

  lemma PlacedAppend(levels: seq<Level>, n: Node)
    requires levels != [] && Placed(levels)
    ensures Placed(Append(levels, n))
  {
    assert Append(levels, n)[..|levels| - 1] == levels[..|levels| - 1];
  }

  lemma PlacedPush(levels: seq<Level>, k: Kind)
    requires Placed(levels)
    ensures Placed(Push(levels, k))
  {
    assert Push(levels, k)[..|levels|] == levels;
  }

  lemma PlacedClose(levels: seq<Level>)
    requires |levels| >= 2 && Placed(levels)
    ensures Placed(CloseLast(levels))
  {
    PlacedAppend(levels[..|levels| - 1], NodeOf(levels[|levels| - 1]));
  }

  /** The bytes in use are those of the open levels. */
  ghost predicate Built(buf: seq<byte>, cap: nat, levels: seq<Level>) {
    |buf| <= cap <= SIZE_MAX && buf == Image(levels) && Placed(levels)
  }

  /** Closing a level replaces the reserved header by the element's own. */
  lemma ImageClose(levels: seq<Level>)
    requires |levels| >= 2
    ensures var l := levels[|levels| - 1];
            var A := Image(levels[..|levels| - 1]);
            && Image(levels) == A + Header(l.kind) + Encode(l.done)
            && Image(CloseLast(levels)) == A + Element(l.kind, Encode(l.done))
  {
    ImageAppend(levels[..|levels| - 1], NodeOf(levels[|levels| - 1]));
    ElementOf(levels[|levels| - 1]);
  }

  lemma ImageTop(levels: seq<Level>)
    requires |levels| == 1 && levels[0].kind == Top
    ensures Image(levels) == Encode(levels[0].done)
  {
    assert levels[..0] == [];
  }

  lemma CloseKeeps(levels: seq<Level>)
    requires |levels| >= 2
    ensures forall i :: 0 <= i < |levels| - 1 ==>
              CloseLast(levels)[i].kind == levels[i].kind && CloseLast(levels)[i].start == levels[i].start
  {
  }

  lemma ElementOf(l: Level)
    ensures EncodeNode(NodeOf(l)) == Element(l.kind, Encode(l.done))
  {
  }

  // --------------------------------------------------------------------------
  // In-place helpers
  // --------------------------------------------------------------------------

  function Splice(s: seq<byte>, off: nat, data: seq<byte>): (r: seq<byte>)
    requires off + |data| <= |s|
    ensures |r| == |s|
  {
    s[..off] + data + s[off + |data|..]
  }

  function Shift(s: seq<byte>, start: nat, n: nat, d: nat): (r: seq<byte>)
    requires start + n + d <= |s|
    ensures |r| == |s|
  {
    s[..start + d] + s[start..start + n] + s[start + n + d..]
  }

  /** Writes the low n bytes of v at off, last byte first, and returns what is left of v. */
  method WriteBigEndian(s: seq<byte>, off: nat, n: nat, v: nat) returns (r: seq<byte>, rest: nat)
    requires off + n <= |s|
    ensures r == Splice(s, off, BigEndian(v, n))
    ensures rest == 0 <==> v < Pow256(n)
  {
    r, rest := s, v;
    for i := n downto 0
      invariant |r| == |s| && r[..off + i] == s[..off + i] && r[off + n..] == s[off + n..]
      invariant BigEndian(v, n) == BigEndian(rest, i) + r[off + i..off + n]
      invariant v < Pow256(n) <==> rest < Pow256(i)
    {
      ghost var was := r;
      r := r[off + i := rest % 256];
      assert r[off + i..off + n] == [rest % 256] + was[off + i + 1..off + n];
      assert r[off + n..] == was[off + n..];
      rest := rest / 256;
    }
    assert r == r[..off] + r[off..off + n] + r[off + n..];
  }

  /** Moving the contents of a tagged element and filling the gap gives its long form. */
  lemma LongForm(s: seq<byte>, A: seq<byte>, tag: byte, C: seq<byte>, b: byte, octets: seq<byte>)
    requires s == A + [tag, 0] + C + seq(|octets|, _ => 0)
    ensures Splice(Shift(s, |A| + 2, |C|, |octets|)[|A| + 1 := b], |A| + 2, octets)
         == A + ([tag] + ([b] + octets) + C)
  {
    var n, e := |A| + 2, |octets|;
    assert s[n..n + |C|] == C && s[n + |C| + e..] == [];
    var m := Shift(s, n, |C|, e)[|A| + 1 := b];
    assert m[..n] == A + [tag, b];
    assert m[n + e..] == C;
  }

  /** Writing the length of a prefixed element over its placeholder. */
  lemma FixedForm(s: seq<byte>, A: seq<byte>, header: seq<byte>, C: seq<byte>, octets: seq<byte>)
    requires s == A + header + C && |octets| == |header|
    ensures Splice(s, |A|, octets) == A + (octets + C)
  {
  }

  // --------------------------------------------------------------------------
  // The builder objects
  // --------------------------------------------------------------------------

  /** cbb_buffer_st: `buf` holds the bytes in use, `cap` how many the allocation has room for.
      The ghost fields name the builders that are open on it, outermost first, and what they
      have built. */
  class Buffer {
    var buf: seq<byte>
    var cap: nat
    const canResize: bool
    ghost var chain: seq<Cbb>
    ghost var levels: seq<Level>

    ghost predicate Valid()
      reads this, chain
    {
      Built(buf, cap, levels) && Spine()
    }

    ghost predicate Spine()
      reads this`chain, this`levels, chain
    {
      |chain| == |levels| > 0 && levels[0].kind == Top && forall i :: 0 <= i < |chain| ==> Linked(i)
    }

    /** The builder at depth i: it points at the next one, whose length is pending. */
    ghost predicate Linked(i: nat)
      requires |chain| == |levels| && i < |chain|
      reads this`chain, this`levels, chain
    {
      var c := chain[i];
      && c.base == this && c.depth == i && (c.isTopLevel <==> i == 0)
      && c.child == (if i + 1 < |chain| then chain[i + 1] else null)
      && (i + 1 == |chain| ==> c.pendingLenLen == 0)
      && (i + 1 < |chain| ==> c.Pending(levels[i + 1].kind, levels[i + 1].start))
    }

    ghost function Limit(): (n: nat)
      reads this
    {
      if canResize then SIZE_MAX else cap
    }

    constructor (capacity: nat, resizable: bool)
      requires capacity <= SIZE_MAX
      ensures buf == [] && cap == capacity && canResize == resizable && chain == [] && levels == []
    {
      buf, cap, canResize, chain, levels := [], capacity, resizable, [], [];
    }

    /** cbb_buffer_add: claims n more bytes, growing the allocation if that is allowed. */
    method Add(n: nat) returns (ok: bool)
      requires |buf| <= cap <= SIZE_MAX
      modifies this`buf, this`cap
      ensures ok <==> |old(buf)| + n <= old(Limit())
      ensures !ok ==> buf == old(buf) && cap == old(cap)
      ensures ok ==> |buf| <= cap <= SIZE_MAX && Limit() == old(Limit())
      ensures ok ==> buf == old(buf) + seq(n, _ => 0)
    {
      var newlen := |buf| + n;
      if newlen > SIZE_MAX {
        return false;
      }
      if newlen > cap {
        if !canResize {
          return false;
        }
        var newcap := cap * 2;
        if newcap > SIZE_MAX || newcap < newlen {
          newcap := newlen;
        }
        cap := newcap;
      }
      buf := buf + seq(n, _ => 0);
      return true;
    }
  }

  /** CBB. */
  class Cbb {
    var base: Buffer?
    var offset: nat
    var child: Cbb?
    var pendingLenLen: nat
    var pendingIsAsn1: bool
    const isTopLevel: bool
    ghost const depth: nat

    constructor (b: Buffer, top: bool, ghost d: nat)
      ensures base == b && offset == 0 && child == null && pendingLenLen == 0 && !pendingIsAsn1
      ensures isTopLevel == top && depth == d
    {
      base, offset, child, pendingLenLen, pendingIsAsn1 := b, 0, null, 0, false;
      isTopLevel, depth := top, d;
    }

    ghost predicate Pending(k: Kind, at: nat)
      reads this
    {
      match k
      case Top => false
      case LenPrefix(n) => 1 <= n <= 4 && offset == at && pendingLenLen == n && !pendingIsAsn1
      case Asn1(_) => offset == at + 1 && pendingLenLen == 1 && pendingIsAsn1
    }
  }

  /** c is one of the builders open on b. */
  ghost predicate On(c: Cbb, b: Buffer)
    reads c, b, b.chain
  {
    b.Valid() && c.depth < |b.chain| && b.chain[c.depth] == c
  }

  /** Unlinks the innermost builder, whose parent is c. */
  method Detach(c: Cbb, b: Buffer)
    requires b.Spine() && c.depth + 2 == |b.chain| && b.chain[c.depth] == c
    modifies b`chain, b`levels, b.chain
    ensures b.Spine() && b.levels == CloseLast(old(b.levels))
    ensures b.chain == old(b.chain)[..c.depth + 1] && old(b.chain[c.depth + 1]).base == null
  {
    ghost var levels, chain := b.levels, b.chain;
    forall i | 0 <= i < |chain|
      ensures b.Linked(i) && chain[i].depth == i
    {
    }
    assert b.Linked(c.depth) && b.Linked(c.depth + 1);
    CloseKeeps(levels);
    label relink:
    c.child.base := null;
    c.child := null;
    c.pendingLenLen := 0;
    c.pendingIsAsn1 := false;
    c.offset := 0;
    b.levels := CloseLast(levels);
    b.chain := b.chain[..c.depth + 1];
    forall i | 0 <= i < c.depth
      ensures b.Linked(i)
    {
      assert old@relink(b.Linked(i)) && chain[i].depth == i;
    }
  }

  /** The last step of CBB_flush: the child of c is the innermost builder; write its length. */
  method PatchChild(c: Cbb, b: Buffer) returns (ok: bool)
    requires On(c, b) && c.depth + 2 == |b.chain|
    modifies b, b.chain
    ensures Outcome(ok, b.levels) == CloseOne(old(b.levels), old(b.Limit()))
    ensures ok ==> On(c, b) && b.Limit() == old(b.Limit()) && b.chain == old(b.chain)[..c.depth + 1]
  {
    assert b.Linked(c.depth) && b.Linked(c.depth + 1);
    ok := PatchBytes(b, c.offset, c.pendingLenLen, c.pendingIsAsn1, b.levels);
    if ok {
      Detach(c, b);
    }
  }

  /** CBB_flush: closes every builder nested in c, innermost first. */
  method Flush(c: Cbb, b: Buffer) returns (ok: bool)
    requires On(c, b)
    modifies b, b.chain
    ensures Outcome(ok, b.levels) == Close(old(b.levels), c.depth, old(b.Limit()))
    ensures ok ==> On(c, b) && b.Limit() == old(b.Limit()) && b.chain == old(b.chain)[..c.depth + 1]
    decreases |b.chain| - c.depth, 1
  {
    assert b.Linked(c.depth);
    ok := true;
    if c.child != null && c.pendingLenLen != 0 {
      ok := FlushChild(c, b);
    } else {
      assert b.chain[..c.depth + 1] == b.chain;
    }
  }

  /** The child of c is flushed, and then its length is written. */
  method FlushChild(c: Cbb, b: Buffer) returns (ok: bool)
    requires On(c, b) && c.depth + 1 < |b.chain|
    modifies b, b.chain
    ensures Outcome(ok, b.levels) == Close(old(b.levels), c.depth, old(b.Limit()))
    ensures ok ==> On(c, b) && b.Limit() == old(b.Limit()) && b.chain == old(b.chain)[..c.depth + 1]
    decreases |b.chain| - c.depth, 0
  {
    assert b.Linked(c.depth) && b.Linked(c.depth + 1);
    ghost var chain := b.chain;
    ok := Flush(c.child, b);
    if ok {
      Shortened(chain, c.depth);
      ok := PatchChild(c, b);
    }
  }

  lemma Shortened<T>(s: seq<T>, k: nat)
    requires k + 1 < |s|
    ensures |s[..k + 2]| == k + 2 && s[..k + 2][k] == s[k] && s[..k + 2][..k + 1] == s[..k + 1]
  {
  }

  /** Writes the length of the innermost element of `levels`, pending at `offset`. */
  method PatchBytes(base: Buffer, offset: nat, pendingLenLen: nat, asn1: bool, ghost levels: seq<Level>)
    returns (ok: bool)
    requires |levels| >= 2 && Built(base.buf, base.cap, levels)
    requires var l := levels[|levels| - 1];
             if asn1 then l.kind.Asn1? && offset == l.start + 1 && pendingLenLen == 1
             else l.kind == LenPrefix(pendingLenLen) && offset == l.start
    modifies base`buf, base`cap
    ensures Outcome(ok, CloseLast(levels)) == CloseOne(levels, old(base.Limit()))
    ensures ok ==> Built(base.buf, base.cap, CloseLast(levels)) && base.Limit() == old(base.Limit())
  {
    ghost var l := levels[|levels| - 1];
    ImageClose(levels);
    PlacedClose(levels);
    ok := PatchRaw(base, offset, pendingLenLen, asn1, Image(levels[..|levels| - 1]), Encode(l.done), l.kind);
  }

  method PatchRaw(base: Buffer, offset: nat, pendingLenLen: nat, asn1: bool,
                  ghost A: seq<byte>, ghost C: seq<byte>, ghost k: Kind) returns (ok: bool)
    requires |base.buf| <= base.cap <= SIZE_MAX && base.buf == A + Header(k) + C
    requires if asn1 then k.Asn1? && offset == |A| + 1 && pendingLenLen == 1
             else k == LenPrefix(pendingLenLen) && offset == |A|
    modifies base`buf, base`cap
    ensures ok <==> Fits(k, |C|) && |A + Element(k, C)| <= old(base.Limit())
    ensures ok ==> |base.buf| <= base.cap <= SIZE_MAX && base.Limit() == old(base.Limit())
    ensures ok ==> base.buf == A + Element(k, C)
  {
    var childStart := offset + pendingLenLen;
    var len := |base.buf| - childStart;
    if asn1 {
      ok := PatchAsn1(base, offset, childStart, len, A, C, k.tag);
    } else {
      FixedForm(base.buf, A, Header(k), C, BigEndian(len, pendingLenLen));
      var patched, rest := WriteBigEndian(base.buf, offset, pendingLenLen, len);
      base.buf := patched;
      ok := rest == 0;
    }
  }

  /** The length octets of a tagged element: long forms first make room by moving the contents. */
  method PatchAsn1(base: Buffer, offset: nat, childStart: nat, len: nat,
                   ghost A: seq<byte>, ghost C: seq<byte>, ghost tag: byte) returns (ok: bool)
    requires |base.buf| <= base.cap <= SIZE_MAX && |C| == len
    requires base.buf == A + [tag, 0] + C && offset == |A| + 1 && childStart == |A| + 2
    modifies base`buf, base`cap
    ensures ok <==> len <= 0xffff_fffe && |A| + 2 + LongOctets(len) + len <= old(base.Limit())
    ensures ok ==> |base.buf| <= base.cap <= SIZE_MAX && base.Limit() == old(base.Limit())
    ensures ok ==> base.buf == A + ([tag] + DerLength(len) + C)
  {
    if len > 0xffff_fffe {
      return false;
    }
    var extra := LongOctets(len);
    if extra == 0 {
      base.buf := base.buf[offset := len];
      return true;
    }
    var added := base.Add(extra);
    if !added {
      return false;
    }
    LongForm(base.buf, A, tag, C, 0x80 + extra, BigEndian(len, extra));
    base.buf := Shift(base.buf, childStart, len, extra);
    base.buf := base.buf[offset := 0x80 + extra];
    var patched, rest := WriteBigEndian(base.buf, offset + 1, extra, len);
    base.buf := patched;
    return true;
  }

  /** CBB_init and CBB_init_fixed. */
  method Init(capacity: nat, resizable: bool) returns (c: Cbb, b: Buffer)
    requires capacity <= SIZE_MAX
    ensures fresh(c) && fresh(b) && On(c, b) && c.depth == 0 && b.chain == [c]
    ensures b.levels == [Level(Top, 0, [])] && b.Limit() == if resizable then SIZE_MAX else capacity
  {
    b := new Buffer(if resizable && capacity == 0 then 64 else capacity, resizable);
    c := new Cbb(b, true, 0);
    b.chain := [c];
    b.levels := [Level(Top, 0, [])];
    assert b.levels[..0] == [];
  }

  /** Appends bytes to the innermost builder. */
  method AppendBytes(c: Cbb, b: Buffer, data: seq<byte>) returns (ok: bool)
    requires On(c, b) && c.depth + 1 == |b.chain|
    modifies b
    ensures ok <==> |Image(old(b.levels))| + |data| <= old(b.Limit())
    ensures b.chain == old(b.chain) && b.Limit() == old(b.Limit())
    ensures !ok ==> b.levels == old(b.levels) && On(c, b)
    ensures ok ==> On(c, b) && b.levels == Append(old(b.levels), Raw(data))
  {
    ghost var was := b.buf;
    ok := b.Add(|data|);
    if ok {
      b.buf := Splice(b.buf, |b.buf| - |data|, data);
      assert b.buf == was + data;
      ImageAppend(b.levels, Raw(data));
      PlacedAppend(b.levels, Raw(data));
      Record(b, Raw(data));
    }
  }

  /** Notes a finished node in the innermost level; no link depends on it. */
  ghost method Record(b: Buffer, n: Node)
    requires b.Spine()
    modifies b`levels
    ensures b.Spine() && b.levels == Append(old(b.levels), n)
  {
    ghost var levels := b.levels;
    b.levels := Append(levels, n);
    forall i | 0 <= i < |b.chain|
      ensures b.Linked(i)
    {
      assert old(b.Linked(i));
    }
  }

  /** CBB_add_bytes. */
  method AddBytes(c: Cbb, b: Buffer, data: seq<byte>) returns (ok: bool)
    requires On(c, b)
    modifies b, b.chain
    ensures Outcome(ok, b.levels) == AddRaw(old(b.levels), c.depth, old(b.Limit()), data)
    ensures ok ==> On(c, b) && b.Limit() == old(b.Limit()) && b.chain == old(b.chain)[..c.depth + 1]
  {
    ok := Flush(c, b);
    if ok {
      ok := AppendBytes(c, b, data);
    }
  }

  /** CBB_add_u8, CBB_add_u16, CBB_add_u24 and CBB_add_u32: n bytes, most significant first. */
  method AddUint(c: Cbb, b: Buffer, v: nat, n: nat) returns (ok: bool)
    requires On(c, b) && 1 <= n <= 4
    modifies b, b.chain
    ensures Outcome(ok, b.levels) ==
            if v < Pow256(n) then AddRaw(old(b.levels), c.depth, old(b.Limit()), BigEndian(v, n)) else None
    ensures ok ==> On(c, b) && b.Limit() == old(b.Limit()) && b.chain == old(b.chain)[..c.depth + 1]
  {
    if v >= Pow256(n) {
      return false;
    }
    ok := Flush(c, b);
    if ok {
      var bytes, rest := WriteBigEndian(seq(n, _ => 0), 0, n, v);
      assert bytes == BigEndian(v, n);
      ok := AppendBytes(c, b, bytes);
    }
  }

  /** Links a new child under the innermost builder c, which has just reserved its header. */
  method Attach(c: Cbb, b: Buffer, k: Kind, start: nat, ghost level: Level) returns (child: Cbb)
    requires b.Spine() && c.depth + 1 == |b.chain| && b.chain[c.depth] == c
    requires level == Level(k, start, []) && (k.LenPrefix? ==> 1 <= k.n <= 4) && !k.Top?
    modifies b`chain, b`levels, c
    ensures fresh(child) && child.depth == c.depth + 1
    ensures b.Spine() && b.chain == old(b.chain) + [child] && b.levels == old(b.levels) + [level]
  {
    ghost var levels, chain := b.levels, b.chain;
    forall i | 0 <= i < |chain|
      ensures b.Linked(i) && chain[i].depth == i
    {
    }
    label link:
    child := new Cbb(b, false, c.depth + 1);
    c.offset := if k.Asn1? then start + 1 else start;
    c.child := child;
    c.pendingLenLen := if k.Asn1? then 1 else k.n;
    c.pendingIsAsn1 := k.Asn1?;
    b.chain := b.chain + [child];
    b.levels := b.levels + [level];
    forall i | 0 <= i < |chain|
      ensures b.Linked(i)
    {
      assert old@link(b.Linked(i)) && chain[i].depth == i;
      assert b.levels[i] == levels[i];
    }
  }

  /** cbb_add_length_prefixed and CBB_add_asn1: opens a child whose length is written when it is closed. */
  method OpenChild(c: Cbb, b: Buffer, k: Kind) returns (ok: bool, child: Cbb)
    requires On(c, b) && !k.Top? && (k.LenPrefix? ==> 1 <= k.n <= 4)
    modifies b, b.chain
    ensures Outcome(ok, b.levels) ==
            if k.Asn1? && k.tag % 32 == 31 then None else Open(old(b.levels), c.depth, old(b.Limit()), k)
    ensures ok ==> On(c, b) && On(child, b) && child.depth == c.depth + 1 && fresh(child)
    ensures ok ==> b.Limit() == old(b.Limit()) && b.chain == old(b.chain)[..c.depth + 1] + [child]
  {
    child := c;
    if k.Asn1? && k.tag % 32 == 31 {
      return false, c;
    }
    ok := Flush(c, b);
    if ok {
      ok, child := Reserve(c, b, k);
    }
  }

  method Reserve(c: Cbb, b: Buffer, k: Kind) returns (ok: bool, child: Cbb)
    requires On(c, b) && c.depth + 1 == |b.chain| && !k.Top? && (k.LenPrefix? ==> 1 <= k.n <= 4)
    modifies b, c
    ensures Outcome(ok, b.levels) ==
            if |Image(old(b.levels))| + |Header(k)| <= old(b.Limit()) then Some(Push(old(b.levels), k)) else None
    ensures ok ==> On(c, b) && On(child, b) && child.depth == c.depth + 1 && fresh(child)
    ensures ok ==> b.Limit() == old(b.Limit()) && b.chain == old(b.chain) + [child]
  {
    ghost var levels, was := b.levels, b.buf;
    var start := |b.buf|;
    child := c;
    if k.Asn1? {
      ok := b.Add(1);
      if ok {
        b.buf := b.buf[start := k.tag];
        ok := b.Add(1);
      }
    } else {
      ok := b.Add(k.n);
    }
    if ok {
      assert b.buf == was + Header(k);
      ImagePush(levels, k);
      PlacedPush(levels, k);
      child := Attach(c, b, k, start, Level(k, start, []));
    }
  }

  /** CBB_finish on the outermost builder: everything is closed and the bytes are handed over. */
  method Finish(c: Cbb, b: Buffer) returns (out: Option<seq<byte>>)
    requires On(c, b)
    modifies b, b.chain
    ensures out == if !c.isTopLevel then None else
                     match Close(old(b.levels), 0, old(b.Limit()))
                     case None => None
                     case Some(m) => Some(Encode(m[0].done))
  {
    if !c.isTopLevel {
      return None;
    }
    ghost var levels := b.levels;
    assert b.Linked(c.depth);
    var ok := Flush(c, b);
    if !ok {
      return None;
    }
    ImageTop(b.levels);
    out := Some(b.buf);
    c.base := null;
  }
}
