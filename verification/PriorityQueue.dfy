/** The priority queue of pqueue.c: a singly linked list kept in order of 64-bit big-endian priorities. */
module PriorityQueue {
  import opened Encoding
  import Arith

  const WIDTH: nat := 8   // octets of a priority
  const SHORT: nat := 2   // those that callers use

  // --------------------------------------------------------------------------
  // memcmp on big-endian numbers
  // --------------------------------------------------------------------------

  function Memcmp(a: seq<byte>, b: seq<byte>): (r: int)
    requires |a| == |b|
  {
    if a == [] then 0 else if a[0] != b[0] then a[0] - b[0] else Memcmp(a[1..], b[1..])
  }

  lemma {:induction false} ValueHead(s: seq<byte>)
    requires s != []
    ensures Value(s) == s[0] * Pow256(|s| - 1) + Value(s[1..])
  {
    if |s| == 1 {
      assert s[..0] == [] && s[1..] == [];
    } else {
      var t := s[..|s| - 1];
      ValueHead(t);
      assert t[1..] == s[1..][..|s| - 2];
      assert s[0] * Pow256(|s| - 1) == 256 * (s[0] * Pow256(|s| - 2));
    }
  }

  lemma HeadDecides(a: seq<byte>, b: seq<byte>)
    requires |a| == |b| > 0 && a[0] < b[0]
    ensures Value(a) < Value(b)
  {
    ValueHead(a);
    ValueHead(b);
    ValueBound(a[1..]);
    OneMoreTimes(a[0], b[0], Pow256(|a| - 1));
  }

  lemma OneMoreTimes(x: nat, y: nat, p: nat)
    requires x < y && p > 0
    ensures x * p + p <= y * p
  {
    Arith.MulMono(x + 1, y, p);
    assert (x + 1) * p == x * p + p;
  }

  /** Comparing the bytes is comparing the numbers. */
  lemma {:induction false} MemcmpNumeric(a: seq<byte>, b: seq<byte>)
    requires |a| == |b|
    ensures Memcmp(a, b) < 0 <==> Value(a) < Value(b)
    ensures Memcmp(a, b) > 0 <==> Value(a) > Value(b)
    ensures Memcmp(a, b) == 0 <==> a == b
  {
    if a != [] {
      ValueHead(a);
      ValueHead(b);
      if a[0] < b[0] {
        HeadDecides(a, b);
      } else if a[0] > b[0] {
        HeadDecides(b, a);
      } else {
        MemcmpNumeric(a[1..], b[1..]);
        assert a == [a[0]] + a[1..] && b == [b[0]] + b[1..];
      }
    }
  }

  /** The eight bytes callers make of a sixteen-bit number. */
  function Priority64(p: nat): (r: seq<byte>)
    ensures |r| == WIDTH
  {
    [0, 0, 0, 0, 0, 0] + BigEndian(p, SHORT)
  }

  lemma PriorityValue(p: nat)
    requires p < 0x1_0000
    ensures Value(Priority64(p)) == p
  {
    var z := [0, 0, 0, 0, 0, 0];
    Pow256Short();
    ValueOfBigEndian(p, SHORT);
    ZeroValue(z);
    ValueBehind(z, BigEndian(p, SHORT));
  }

  lemma Pow256Short()
    ensures Pow256(SHORT) == 0x1_0000
  {
    assert Pow256(2) == 256 * Pow256(1);
  }

  /** Zeros in front change nothing. */
  lemma {:induction false} ValueBehind(z: seq<byte>, s: seq<byte>)
    requires Value(z) == 0
    ensures Value(z + s) == Value(s)
  {
    if s == [] {
      assert z + s == z;
    } else {
      var t := s[..|s| - 1];
      ValueBehind(z, t);
      assert (z + s)[..|z + s| - 1] == z + t;
    }
  }

  // --------------------------------------------------------------------------
  // The queue as a sequence
  // --------------------------------------------------------------------------

  datatype Entry<T> = Entry(priority: seq<byte>, data: T)

  function Number<T>(e: Entry<T>): (v: nat) { Value(e.priority) }

  predicate Before<T>(s: seq<Entry<T>>, i: nat, j: nat)
    requires i < |s| && j < |s|
  {
    Number(s[i]) < Number(s[j])
  }

  ghost predicate Ascending<T>(s: seq<Entry<T>>) {
    && (forall i :: 0 <= i < |s| ==> |s[i].priority| == WIDTH)
    && forall i, j :: 0 <= i < j < |s| ==> Before(s, i, j)
  }

  ghost predicate Holds<T>(s: seq<Entry<T>>, priority: seq<byte>) {
    exists i :: 0 <= i < |s| && s[i].priority == priority
  }

  /** How many entries come before a number. */
  function Below<T>(s: seq<Entry<T>>, v: nat): (k: nat)
    ensures k <= |s|
  {
    if s == [] || Number(s[0]) >= v then 0 else 1 + Below(s[1..], v)
  }

  /** A new priority goes to its place; one that is there already is refused. */
  function Inserted<T>(s: seq<Entry<T>>, e: Entry<T>): (r: seq<Entry<T>>) {
    if s == [] then [e]
    else if Number(s[0]) < Number(e) then [s[0]] + Inserted(s[1..], e)
    else if Number(s[0]) == Number(e) then s
    else [e] + s
  }

  lemma {:induction false} InsertedAtPlace<T>(s: seq<Entry<T>>, e: Entry<T>)
    ensures var k := Below(s, Number(e));
            Inserted(s, e) == if k < |s| && Number(s[k]) == Number(e) then s else s[..k] + [e] + s[k..]
  {
    if s != [] && Number(s[0]) < Number(e) {
      var t := s[1..];
      var k := Below(t, Number(e));
      InsertedAtPlace(t, e);
      SpliceBehind(s, e, k);
    }
  }

  lemma SpliceBehind<T>(s: seq<T>, e: T, k: nat)
    requires k < |s|
    ensures [s[0]] + (s[1..][..k] + [e] + s[1..][k..]) == s[..k + 1] + [e] + s[k + 1..]
    ensures [s[0]] + s[1..] == s
  {
    assert s[1..][k..] == s[k + 1..];
    assert [s[0]] + s[1..][..k] == s[..k + 1];
  }

  lemma {:induction false} BelowIs<T>(s: seq<Entry<T>>, v: nat, i: nat)
    requires i <= |s| && (forall j :: 0 <= j < i ==> Number(s[j]) < v) && (i < |s| ==> Number(s[i]) >= v)
    ensures Below(s, v) == i
  {
    if i > 0 {
      var t := s[1..];
      forall j | 0 <= j < i - 1
        ensures Number(t[j]) < v
      {
        assert t[j] == s[j + 1];
      }
      BelowIs(t, v, i - 1);
    }
  }

  lemma InsertedLast<T>(s: seq<Entry<T>>, e: Entry<T>)
    requires forall j :: 0 <= j < |s| ==> Number(s[j]) < Number(e)
    ensures Inserted(s, e) == s + [e]
  {
    BelowIs(s, Number(e), |s|);
    InsertedAtPlace(s, e);
    assert s[..|s|] == s && s[|s|..] == [];
  }

  lemma TailAscending<T>(s: seq<Entry<T>>)
    requires Ascending(s) && s != []
    ensures Ascending(s[1..])
  {
    var t := s[1..];
    forall i, j | 0 <= i < j < |t|
      ensures Before(t, i, j)
    {
      assert Before(s, i + 1, j + 1);
    }
  }

  lemma {:induction false} BelowSplits<T>(s: seq<Entry<T>>, v: nat)
    requires Ascending(s)
    ensures forall j :: 0 <= j < Below(s, v) ==> Number(s[j]) < v
    ensures forall j :: Below(s, v) <= j < |s| ==> Number(s[j]) >= v
  {
    if s == [] {
    } else if Number(s[0]) >= v {
      forall j | 0 < j < |s|
        ensures Number(s[j]) >= v
      {
        assert Before(s, 0, j);
      }
    } else {
      var t := s[1..];
      TailAscending(s);
      BelowSplits(t, v);
      forall j | 0 <= j < |s|
        ensures Number(s[j]) < v <==> j < Below(s, v)
      {
        if j > 0 {
          assert s[j] == t[j - 1];
        }
      }
    }
  }

  lemma SameNumber(a: seq<byte>, b: seq<byte>)
    requires |a| == |b|
    ensures Value(a) == Value(b) <==> a == b
  {
    MemcmpNumeric(a, b);
  }

  lemma SpliceAscending<T>(s: seq<Entry<T>>, e: Entry<T>, k: nat)
    requires Ascending(s) && |e.priority| == WIDTH && k <= |s|
    requires forall j :: 0 <= j < k ==> Number(s[j]) < Number(e)
    requires forall j :: k <= j < |s| ==> Number(s[j]) > Number(e)
    ensures Ascending(s[..k] + [e] + s[k..])
  {
    var r := s[..k] + [e] + s[k..];
    forall i, j | 0 <= i < j < |r|
      ensures Before(r, i, j)
    {
      var i', j' := if i <= k then i else i - 1, if j <= k then j else j - 1;
      assert (i != k ==> r[i] == s[i']) && (j != k ==> r[j] == s[j']);
      if i != k && j != k {
        assert Before(s, i', j');
      }
    }
  }

  /** A priority is taken exactly when it stands at its place. */
  lemma {:induction false} HoldsAtPlace<T>(s: seq<Entry<T>>, p: seq<byte>)
    requires Ascending(s) && |p| == WIDTH
    ensures var k := Below(s, Value(p)); Holds(s, p) <==> k < |s| && Number(s[k]) == Value(p)
  {
    var k := Below(s, Value(p));
    BelowSplits(s, Value(p));
    if k < |s| && Number(s[k]) == Value(p) {
      SameNumber(s[k].priority, p);
    }
    if Holds(s, p) {
      var i :| 0 <= i < |s| && s[i].priority == p;
      assert Number(s[i]) == Value(p);
      if i > k {
        assert Before(s, k, i);
      }
    }
  }

  /** The queue stays strictly ascending; exactly the new entry is added, or nothing when its
      priority is taken. */
  lemma InsertedOnce<T>(s: seq<Entry<T>>, e: Entry<T>)
    requires Ascending(s) && |e.priority| == WIDTH
    ensures Ascending(Inserted(s, e))
    ensures Holds(s, e.priority) ==> Inserted(s, e) == s
    ensures !Holds(s, e.priority) ==>
              |Inserted(s, e)| == |s| + 1 && multiset(Inserted(s, e)) == multiset(s) + multiset{e}
  {
    var k := Below(s, Number(e));
    HoldsAtPlace(s, e.priority);
    InsertedAtPlace(s, e);
    if !(k < |s| && Number(s[k]) == Number(e)) {
      BelowSplits(s, Number(e));
      forall j | k <= j < |s|
        ensures Number(s[j]) > Number(e)
      {
        assert k < j ==> Before(s, k, j);
      }
      SpliceAscending(s, e, k);
      SplicePermutes(s, e, k);
    }
  }

  lemma SplicePermutes<T>(s: seq<Entry<T>>, e: Entry<T>, k: nat)
    requires k <= |s|
    ensures multiset(s[..k] + [e] + s[k..]) == multiset(s) + multiset{e}
  {
    assert s == s[..k] + s[k..];
  }

  // --------------------------------------------------------------------------
  // The linked list
  // --------------------------------------------------------------------------

  /** pitem. */
  class Item<T> {
    const priority: seq<byte>
    const data: T
    var next: Item?<T>

    constructor (p: seq<byte>, d: T)
      ensures priority == p && data == d && next == null
    {
      priority, data, next := p, d, null;
    }
  }

  ghost function At<T>(nodes: seq<Item<T>>, i: int): (r: Item?<T>) {
    if 0 <= i < |nodes| then nodes[i] else null
  }

  /** What the items stand for. */
  ghost function Entries<T>(nodes: seq<Item<T>>): (r: seq<Entry<T>>)
    ensures |r| == |nodes| && forall i :: 0 <= i < |nodes| ==> r[i] == Entry(nodes[i].priority, nodes[i].data)
  {
    seq(|nodes|, i requires 0 <= i < |nodes| => Entry(nodes[i].priority, nodes[i].data))
  }

  class Queue<T> {
    var items: Item?<T>
    ghost var nodes: seq<Item<T>>
    ghost var Repr: set<Item<T>>   // where the items come from

    ghost predicate Valid()
      reads this, Repr
    {
      Owned() && Chained() && Ascending(Contents())
    }

    ghost predicate Owned()
      reads this
    {
      forall i :: 0 <= i < |nodes| ==> nodes[i] in Repr
    }

    ghost predicate Chained()
      requires Owned()
      reads this, Repr
    {
      items == At(nodes, 0) && forall i :: 0 <= i < |nodes| ==> Linked(i)
    }

    ghost predicate Linked(i: nat)
      requires i < |nodes|
      reads this`nodes, nodes`next
    {
      nodes[i].next == At(nodes, i + 1)
    }

    ghost function Contents(): (r: seq<Entry<T>>)
      reads this`nodes
    {
      Entries(nodes)
    }

    constructor ()
      ensures Valid() && Contents() == [] && nodes == [] && Repr == {}
    {
      items, nodes, Repr := null, [], {};
    }

    /** Splices an item in behind position k. */
    method Link(item: Item<T>, curr: Item?<T>, next: Item?<T>, ghost k: nat)
      requires Owned() && Chained() && k <= |nodes| && curr == At(nodes, k - 1) && next == At(nodes, k)
      requires item !in nodes
      requires forall j :: 0 <= j < |nodes| && j != k - 1 ==> nodes[j] != curr
      modifies this, Repr, item
      ensures Owned() && Chained() && nodes == old(nodes)[..k] + [item] + old(nodes)[k..] && Repr == old(Repr) + {item}
    {
      item.next := next;
      if curr == null {
        items := item;
      } else {
        curr.next := item;
      }
      nodes := nodes[..k] + [item] + nodes[k..];
      Repr := Repr + {item};
      forall i | 0 <= i < |nodes|
        ensures Linked(i)
      {
        if i < k {
          assert old(Linked(i));
        } else if i > k {
          assert old(Linked(i - 1));
        }
      }
    }

    /** Walks to the place of a priority. */
    method Place(p: seq<byte>) returns (curr: Item?<T>, next: Item?<T>, taken: bool, ghost k: nat)
      requires Valid() && |p| == WIDTH
      ensures k == Below(Contents(), Value(p)) && curr == At(nodes, k - 1) && next == At(nodes, k)
      ensures taken <==> Holds(Contents(), p)
    {
      curr, next, taken, k := null, items, false, 0;
      ghost var s := Contents();
      var stop := false;
      while next != null && !stop
        invariant k <= |nodes| && curr == At(nodes, k - 1) && next == At(nodes, k)
        invariant forall j :: 0 <= j < k ==> Number(s[j]) < Value(p)
        invariant stop ==> k < |nodes| && Number(s[k]) >= Value(p) && (taken <==> Number(s[k]) == Value(p))
        invariant !stop ==> !taken
        decreases |nodes| - k, !stop
      {
        assert s[k].priority == next.priority;
        var cmp := Memcmp(next.priority, p);
        MemcmpNumeric(next.priority, p);
        assert Linked(k);
        if cmp >= 0 {
          stop, taken := true, cmp == 0;
        } else {
          curr, next := next, next.next;
          k := k + 1;
        }
      }
      BelowIs(s, Value(p), k);
      HoldsAtPlace(s, p);
    }

    /** pqueue_insert. */
    method Insert(item: Item<T>) returns (ok: bool)
      requires Valid() && item !in nodes && |item.priority| == WIDTH
      modifies this, Repr, item
      ensures Repr <= old(Repr) + {item}
      ensures Valid() && Contents() == Inserted(old(Contents()), Entry(item.priority, item.data))
      ensures ok <==> !Holds(old(Contents()), item.priority)
      ensures nodes == if ok then Spliced(old(nodes), item) else old(nodes)
    {
      var curr, next, taken;
      ghost var k;
      curr, next, taken, k := Place(item.priority);
      ok := !taken;
      SplicedInserted(nodes, item);
      if ok {
        Link(item, curr, next, k);
      }
    }

    /** A new item, inserted. */
    method Add(p: seq<byte>, d: T) returns (ok: bool)
      requires Valid() && |p| == WIDTH
      modifies this, Repr
      ensures Valid() && Contents() == Inserted(old(Contents()), Entry(p, d))
      ensures (ok <==> !Holds(old(Contents()), p)) && fresh(Repr - old(Repr))
    {
      var item := new Item(p, d);
      ok := Insert(item);
    }

    /** pqueue_peek. */
    method Peek() returns (item: Item?<T>)
      requires Valid()
      ensures item == At(nodes, 0)
      ensures item != null ==> Contents() != [] && Contents()[0] == Entry(item.priority, item.data)
      ensures item == null <==> Contents() == []
    {
      item := items;
    }

    /** pqueue_pop: the entry with the smallest priority. */
    method Pop() returns (item: Item?<T>)
      requires Valid()
      modifies this
      ensures Valid() && (item == null <==> old(Contents()) == []) && Repr == old(Repr)
      ensures item != null ==> old(Contents()) == [Entry(item.priority, item.data)] + Contents()
      ensures item == null ==> Contents() == []
      ensures nodes == if item == null then old(nodes) else old(nodes)[1..]
    {
      item := items;
      if items != null {
        assert Linked(0);
        items := items.next;
        AscendingTail(nodes);
        nodes := nodes[1..];
        forall i | 0 <= i < |nodes|
          ensures Linked(i)
        {
          assert old(Linked(i + 1));
        }
      }
    }

    /** pqueue_find. */
    method Find(p: seq<byte>) returns (item: Item?<T>)
      requires Valid() && |p| == WIDTH
      ensures item == null <==> !Holds(Contents(), p)
      ensures item != null ==> item in nodes && item.priority == p && Entry(p, item.data) in Contents()
    {
      item := items;
      ghost var k := 0;
      while item != null && Memcmp(item.priority, p) != 0
        invariant 0 <= k <= |nodes| && item == At(nodes, k)
        invariant forall j :: 0 <= j < k ==> nodes[j].priority != p
        invariant k < |nodes| ==> |nodes[k].priority| == WIDTH
        decreases |nodes| - k
      {
        MemcmpNumeric(item.priority, p);
        assert Linked(k);
        item := item.next;
        k := k + 1;
        assert k < |nodes| ==> |Contents()[k].priority| == WIDTH;
      }
      if item != null {
        MemcmpNumeric(item.priority, p);
        assert Contents()[k] == Entry(item.priority, item.data);
      }
    }

    /** pqueue_size. */
    method Size() returns (count: nat)
      requires Valid()
      ensures count == |Contents()|
    {
      var item := items;
      count := 0;
      while item != null
        invariant count <= |nodes| && item == At(nodes, count)
        decreases |nodes| - count
      {
        assert Linked(count);
        count := count + 1;
        item := item.next;
      }
    }
  }

  lemma EntriesSplice<T>(nodes: seq<Item<T>>, item: Item<T>, k: nat)
    requires k <= |nodes|
    ensures Entries(nodes[..k] + [item] + nodes[k..])
         == Entries(nodes)[..k] + [Entry(item.priority, item.data)] + Entries(nodes)[k..]
  {
  }

  /** The items with a new one at its place. */
  ghost function Spliced<T>(nodes: seq<Item<T>>, item: Item<T>): (r: seq<Item<T>>) {
    var k := Below(Entries(nodes), Value(item.priority));
    nodes[..k] + [item] + nodes[k..]
  }

  lemma SplicedInserted<T>(nodes: seq<Item<T>>, item: Item<T>)
    requires Ascending(Entries(nodes)) && |item.priority| == WIDTH
    ensures var e := Entry(item.priority, item.data);
            var k := Below(Entries(nodes), Number(e));
            && (!Holds(Entries(nodes), e.priority) ==>
                  && Entries(Spliced(nodes, item)) == Inserted(Entries(nodes), e)
                  && Ascending(Entries(Spliced(nodes, item))))
            && (Holds(Entries(nodes), e.priority) ==> Inserted(Entries(nodes), e) == Entries(nodes))
            && (k > 0 ==> forall j :: 0 <= j < |nodes| && j != k - 1 ==> nodes[j] != nodes[k - 1])
  {
    var s, e := Entries(nodes), Entry(item.priority, item.data);
    var k := Below(s, Number(e));
    InsertedOnce(s, e);
    if !Holds(s, e.priority) {
      InsertedWhenNew(s, e);
      EntriesSplice(nodes, item, k);
    }
    if k > 0 {
      DistinctNodes(nodes, k - 1);
    }
  }

  lemma InsertedWhenNew<T>(s: seq<Entry<T>>, e: Entry<T>)
    requires Ascending(s) && |e.priority| == WIDTH && !Holds(s, e.priority)
    ensures var k := Below(s, Number(e)); Inserted(s, e) == s[..k] + [e] + s[k..]
  {
    InsertedAtPlace(s, e);
    HoldsAtPlace(s, e.priority);
  }

  lemma DistinctNodes<T>(nodes: seq<Item<T>>, k: nat)
    requires Ascending(Entries(nodes)) && k < |nodes|
    ensures forall j :: 0 <= j < |nodes| && j != k ==> nodes[j] != nodes[k]
  {
    var s := Entries(nodes);
    forall j | 0 <= j < |nodes| && j != k
      ensures nodes[j] != nodes[k]
    {
      assert if j < k then Before(s, j, k) else Before(s, k, j);
    }
  }

  lemma AscendingTail<T>(nodes: seq<Item<T>>)
    requires Ascending(Entries(nodes)) && nodes != []
    ensures Ascending(Entries(nodes[1..]))
    ensures Entries(nodes) == [Entry(nodes[0].priority, nodes[0].data)] + Entries(nodes[1..])
  {
    assert Entries(nodes)[1..] == Entries(nodes[1..]);
    TailAscending(Entries(nodes));
  }
}
