/** The messages waiting at the receiver as the code keeps them: fragments with their masks in a linked queue. */
module DtlsStore {
  import opened Encoding
  import opened ByteParser
  import opened DtlsHeader
  import opened Reassembly
  import opened DtlsFragment
  import opened DtlsInbound
  import PQ = PriorityQueue

  /** What a queue item points to. */
  datatype Stored = Stored(header: Header, frag: Fragment)

  ghost predicate Disjoint(c: seq<PQ.Entry<Stored>>, i: nat, j: nat)
    requires i < |c| && j < |c|
  {
    c[i].data.frag.foot !! c[j].data.frag.foot
  }

  ghost predicate AllDisjoint(c: seq<PQ.Entry<Stored>>) {
    forall i, j :: 0 <= i < |c| && 0 <= j < |c| && i != j ==> Disjoint(c, i, j)
  }

  /** The entry stands for the message that waits, and all it is made of lies in feet. */
  ghost predicate Shows(c: seq<PQ.Entry<Stored>>, w: Waiting, i: nat, feet: set<object>)
    requires i < |c| == |w|
    reads feet
  {
    var s := c[i].data;
    && s.frag.foot <= feet && s.frag in feet && (s.frag.fragment as object) in feet && s.frag.Valid()
    && w[i] == PQ.Entry(c[i].priority, Held(s.header, s.frag.View()))
  }

  /** The new entry goes to the same place in both accounts. */
  lemma {:induction false} SamePlace(c: seq<PQ.Entry<Stored>>, w: Waiting, v: nat)
    requires |c| == |w| && forall i :: 0 <= i < |c| ==> c[i].priority == w[i].priority
    ensures PQ.Below(c, v) == PQ.Below(w, v)
  {
    if c != [] {
      SamePlace(c[1..], w[1..], v);
    }
  }

  /** Where the entries of a queue are after one has been put in at k. */
  ghost predicate PutAt<T>(s: seq<T>, e: T, k: nat, r: seq<T>) {
    && k <= |s| && |r| == |s| + 1 && r[k] == e
    && (forall i :: 0 <= i < k ==> r[i] == s[i]) && forall i :: k < i <= |s| ==> r[i] == s[i - 1]
  }

  lemma {:induction false} InsertedAt<T>(s: seq<PQ.Entry<T>>, e: PQ.Entry<T>)
    requires PQ.Ascending(s) && |e.priority| == PQ.WIDTH && !PQ.Holds(s, e.priority)
    ensures PutAt(s, e, PQ.Below(s, PQ.Number(e)), PQ.Inserted(s, e))
  {
    PQ.InsertedWhenNew(s, e);
  }

  function From(k: nat, i: nat): (r: int) { if i < k then i else i - 1 }

  lemma DisjointPut(c: seq<PQ.Entry<Stored>>, e: PQ.Entry<Stored>, k: nat, r: seq<PQ.Entry<Stored>>, feet: set<object>)
    requires PutAt(c, e, k, r) && AllDisjoint(c) && e.data.frag.foot !! feet
    requires forall i :: 0 <= i < |c| ==> c[i].data.frag.foot <= feet
    ensures AllDisjoint(r)
  {
    forall i, j | 0 <= i < |r| && 0 <= j < |r| && i != j
      ensures Disjoint(r, i, j)
    {
      if i != k && j != k {
        assert Disjoint(c, From(k, i), From(k, j));
      }
    }
  }

  ghost predicate ShowsAll(c: seq<PQ.Entry<Stored>>, w: Waiting, feet: set<object>)
    reads feet
  {
    |c| == |w| && forall i :: 0 <= i < |w| ==> Shows(c, w, i, feet)
  }

  lemma {:induction false} LookupIs(q: Waiting, p: seq<byte>, k: nat)
    requires PQ.Ascending(q) && k < |q| && q[k].priority == p
    ensures Lookup(q, p) == Some(k)
  {
    if k > 0 {
      assert PQ.Before(q, 0, k);
      PQ.TailAscending(q);
      LookupIs(q[1..], p, k - 1);
    }
  }

  lemma LookupNone(q: Waiting, p: seq<byte>)
    requires !PQ.Holds(q, p)
    ensures Lookup(q, p).None?
  {
  }

  lemma DisjointTail(c: seq<PQ.Entry<Stored>>)
    requires AllDisjoint(c) && c != []
    ensures AllDisjoint(c[1..])
  {
    forall i, j | 0 <= i < |c| - 1 && 0 <= j < |c| - 1 && i != j
      ensures Disjoint(c[1..], i, j)
    {
      assert Disjoint(c, i + 1, j + 1);
    }
  }

  lemma ShowsTail(c: seq<PQ.Entry<Stored>>, w: Waiting, feet: set<object>)
    requires ShowsAll(c, w, feet) && c != []
    ensures ShowsAll(c[1..], w[1..], feet)
  {
    forall i | 0 <= i < |c| - 1
      ensures Shows(c[1..], w[1..], i, feet)
    {
      assert Shows(c, w, i + 1, feet);
    }
  }

  class Store {
    const items: PQ.Queue<Stored>
    ghost var waiting: Waiting
    ghost var Feet: set<object>   // what the fragments are made of
    ghost var Repr: set<object>

    ghost predicate Frame()
      reads this, items
    {
      && this in Repr && items in Repr && Feet <= Repr && this !in Feet && items !in Feet
      && forall x :: x in items.Repr ==> x in Repr && x !in Feet
    }

    ghost predicate Valid()
      reads this, Repr
    {
      && this in Repr && items in Repr && Frame() && items.Valid()
      && AllDisjoint(items.Contents()) && ShowsAll(items.Contents(), waiting, Feet)
    }

    constructor ()
      ensures Valid() && waiting == [] && fresh(Repr)
    {
      items := new PQ.Queue();
      waiting, Feet := [], {};
      new;
      Repr := {this, items};
    }

    /** More of a message that is there. */
    method Extend(item: PQ.Item<Stored>, off: nat, data: seq<byte>, ghost k: nat)
      requires Valid() && k < |items.nodes| && item == items.nodes[k] && data != []
      requires off + |data| <= |waiting[k].data.part.bytes|
      modifies this`waiting, Feet
      ensures Valid() && Feet == old(Feet)
      ensures waiting ==
                old(waiting)[k := PQ.Entry(old(waiting)[k].priority, Extended(old(waiting)[k].data, off, data))]
    {
      ghost var c, w := items.Contents(), waiting;
      assert Shows(c, w, k, Feet);
      item.data.frag.Arrived(off, data);
      waiting := w[k := PQ.Entry(w[k].priority, Extended(w[k].data, off, data))];
      forall i | 0 <= i < |w|
        ensures Shows(c, waiting, i, Feet)
      {
        if i != k {
          assert old(Shows(c, w, i, Feet)) && Disjoint(c, i, k);
        }
      }
    }

    lemma Parts()
      requires Valid()
      ensures forall i :: 0 <= i < |waiting| ==> items.Contents()[i].data.frag.foot <= Feet
      ensures forall i :: 0 <= i < |waiting| ==> items.Contents()[i].priority == waiting[i].priority
    {
      forall i | 0 <= i < |waiting|
        ensures items.Contents()[i].data.frag.foot <= Feet && items.Contents()[i].priority == waiting[i].priority
      {
        assert Shows(items.Contents(), waiting, i, Feet);
      }
    }

    /** The entry goes in; nothing happens to the other fragments. */
    method Enter(key: seq<byte>, s: Stored, ghost e: PQ.Entry<Held>)
      requires Valid() && |key| == PQ.WIDTH && !PQ.Holds(items.Contents(), key) && !PQ.Holds(waiting, key)
      requires PQ.Ascending(waiting)
      requires s.frag.Valid() && s.frag.foot !! Repr && e == PQ.Entry(key, Held(s.header, s.frag.View()))
      modifies items, items.Repr
      ensures items.Valid() && AllDisjoint(items.Contents()) && fresh(items.Repr - old(items.Repr))
      ensures ShowsAll(items.Contents(), PQ.Inserted(waiting, e), Feet + s.frag.foot)
    {
      ghost var c, k, w' := items.Contents(), PQ.Below(waiting, Value(key)), PQ.Inserted(waiting, e);
      Parts();
      SamePlace(c, waiting, Value(key));
      InsertedAt(c, PQ.Entry(key, s));
      InsertedAt(waiting, e);
      DisjointPut(c, PQ.Entry(key, s), k, PQ.Inserted(c, PQ.Entry(key, s)), Feet);
      var _ := items.Add(key, s);
      forall i | 0 <= i < |w'|
        ensures Shows(items.Contents(), w', i, Feet + s.frag.foot)
      {
        if i != k {
          assert old(Shows(c, waiting, From(k, i), Feet));
        }
      }
    }

    /** The objects of a new fragment and the items belong to the store. */
    ghost method Claim(foot: set<object>)
      requires this in Repr && items in Repr && Feet <= Repr && this !in Feet + foot && items !in Feet + foot
      requires forall x :: x in items.Repr ==> x !in Feet + foot
      modifies this`Feet, this`Repr
      ensures Feet == old(Feet) + foot && Repr == old(Repr) + foot + (set x | x in items.Repr) && Frame()
    {
      Feet := Feet + foot;
      Repr := Repr + foot + set x | x in items.Repr;
    }

    /** A message that was not there. */
    method Insert(key: seq<byte>, header: Header, frag: Fragment)
      requires Valid() && |key| == PQ.WIDTH && !PQ.Holds(items.Contents(), key) && !PQ.Holds(waiting, key)
      requires PQ.Ascending(waiting)
      requires frag.Valid() && frag.foot !! Repr
      modifies this, items, items.Repr
      ensures Valid() && fresh(Repr - old(Repr) - frag.foot)
      ensures waiting == PQ.Inserted(old(waiting), PQ.Entry(key, Held(header, frag.View())))
    {
      ghost var e := PQ.Entry(key, Held(header, frag.View()));
      Enter(key, Stored(header, frag), e);
      waiting := PQ.Inserted(waiting, e);
      Claim(frag.foot);
    }

    /** pqueue_find on the waiting messages. */
    method Locate(key: seq<byte>) returns (item: PQ.Item?<Stored>, ghost k: nat)
      requires Valid() && PQ.Ascending(waiting) && |key| == PQ.WIDTH
      ensures item == null <==> Lookup(waiting, key).None?
      ensures item == null ==> !PQ.Holds(items.Contents(), key) && !PQ.Holds(waiting, key)
      ensures item != null ==>
                && k < |items.nodes| && item == items.nodes[k] && Lookup(waiting, key) == Some(k)
                && item.data.header == waiting[k].data.header
    {
      k := 0;
      Parts();
      item := items.Find(key);
      if item != null {
        k :| 0 <= k < |items.nodes| && items.nodes[k] == item;
        assert Shows(items.Contents(), waiting, k, Feet);
        LookupIs(waiting, key, k);
      } else {
        LookupNone(waiting, key);
      }
    }

    /** The first fragment of a message: a buffer and a mask for it, and its place in the queue. */
    method AddNew(h: Header, data: seq<byte>)
      requires Valid() && PQ.Ascending(waiting) && data != [] && h.fragOff + |data| <= h.msgLen
      requires !PQ.Holds(items.Contents(), PQ.Priority64(h.number)) && !PQ.Holds(waiting, PQ.Priority64(h.number))
      modifies this, items, items.Repr
      ensures Valid() && fresh(Repr - old(Repr))
      ensures waiting ==
                PQ.Inserted(old(waiting), PQ.Entry(PQ.Priority64(h.number), Extended(Started(h), h.fragOff, data)))
    {
      var frag := new Fragment(h.msgLen);
      frag.Arrived(h.fragOff, data);
      Insert(PQ.Priority64(h.number), Whole(h.kind, h.number, h.msgLen), frag);
    }

    /** dtls1_reassemble_fragment. */
    method ReassembleFragment(a: Arrival, maxLen: nat) returns (o: Outcome)
      requires Valid() && Orderly(waiting)
      modifies Repr
      ensures Valid() && fresh(Repr - old(Repr)) && Step(waiting, o) == Reassemble(old(waiting), a, maxLen)
    {
      var h, read := a.h, Read(a);
      if h.fragOff + h.fragLen > h.msgLen || h.msgLen > maxLen {
        return Failed;
      }
      if h.fragLen == 0 {
        return Retry;
      }
      var item;
      ghost var k;
      item, k := Locate(PQ.Priority64(h.number));
      if item != null && item.data.header.msgLen != h.msgLen {
        return Failed;
      }
      if read.None? {
        return Failed;
      }
      if item == null {
        AddNew(h, read.value);
      } else {
        assert WellKept(waiting[k]);
        Extend(item, h.fragOff, read.value, k);
      }
      return Retry;
    }

    /** A message that comes whole. */
    method AddWhole(h: Header, data: seq<byte>)
      requires Valid() && PQ.Ascending(waiting) && |data| == h.msgLen
      requires !PQ.Holds(items.Contents(), PQ.Priority64(h.number)) && !PQ.Holds(waiting, PQ.Priority64(h.number))
      modifies this, items, items.Repr
      ensures Valid() && fresh(Repr - old(Repr))
      ensures waiting ==
                var m := Held(h, Partial(data, Range(0, h.msgLen), false));
                PQ.Inserted(old(waiting), PQ.Entry(PQ.Priority64(h.number), m))
    {
      var frag := new Fragment.Complete(data);
      Insert(PQ.Priority64(h.number), h, frag);
    }

    /** dtls1_process_out_of_seq_message. */
    method ProcessOutOfSequence(next: u16, a: Arrival, maxLen: nat) returns (o: Outcome)
      requires Valid() && Orderly(waiting)
      modifies Repr
      ensures Valid() && fresh(Repr - old(Repr)) && Step(waiting, o) == OutOfSequence(old(waiting), next, a, maxLen)
    {
      var h, read := a.h, Read(a);
      if h.fragOff + h.fragLen > h.msgLen {
        return Failed;
      }
      var item, _ := Locate(PQ.Priority64(h.number));
      var there := item != null && h.fragLen >= h.msgLen;
      if h.number <= next || h.number > next + 10 || there || (next == 0 && h.kind == FINISHED) {
        return if read.Some? then Retry else Failed;
      }
      if h.fragLen < h.msgLen {
        o := ReassembleFragment(a, maxLen);
        return;
      }
      if h.fragLen > maxLen || read.None? {
        return Failed;
      }
      AddWhole(h, read.value);
      return Retry;
    }

    /** Whether the head of the queue is whole and due. */
    method HeadReady(next: u16) returns (ready: bool)
      requires Valid()
      ensures ready <==> waiting != [] && !waiting[0].data.part.pending && waiting[0].data.header.number == next
    {
      var item := items.Peek();
      if item == null {
        return false;
      }
      assert Shows(items.Contents(), waiting, 0, Feet);
      return item.data.frag.reassembly == null && item.data.header.number == next;
    }

    /** Takes the head off the queue. */
    method TakeHead() returns (header: Header, bytes: seq<byte>)
      requires Valid() && waiting != []
      modifies this`waiting, items
      ensures Valid() && waiting == old(waiting)[1..] && Repr == old(Repr)
      ensures header == old(waiting)[0].data.header && bytes == old(waiting)[0].data.part.bytes
    {
      ghost var c := items.Contents();
      assert Shows(c, waiting, 0, Feet);
      DisjointTail(c);
      var item := items.Pop();
      header, bytes := item.data.header, item.data.frag.fragment[..];
      assert items.Contents() == c[1..];
      ShowsTail(c, waiting, Feet);
      waiting := waiting[1..];
    }
  }
}
