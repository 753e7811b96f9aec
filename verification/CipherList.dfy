/** The doubly linked list of ssl_ciph.c, relinked while it is being traversed. */
module CipherList {
  import opened CipherRules

  /** CIPHER_ORDER. */
  class Node {
    const cipher: Cipher
    var active: bool
    var next: Node?
    var prev: Node?

    constructor (c: Cipher)
      ensures cipher == c && !active && next == null && prev == null
    {
      cipher, active, next, prev := c, false, null, null;
    }
  }

  ghost function At(nodes: seq<Node>, i: int): (n: Node?) {
    if 0 <= i < |nodes| then nodes[i] else null
  }

  ghost predicate Distinct(nodes: seq<Node>) {
    forall i, j :: 0 <= i < j < |nodes| ==> nodes[i] != nodes[j]
  }

  /** Node i occurs only once. */
  ghost predicate Once(nodes: seq<Node>, i: nat)
    requires i < |nodes|
  {
    forall j :: 0 <= j < |nodes| && j != i ==> nodes[j] != nodes[i]
  }

  lemma DistinctOnce(nodes: seq<Node>, i: nat)
    requires Distinct(nodes) && i < |nodes|
    ensures Once(nodes, i)
  {
  }

  /** Back at the last, or the first, of the given nodes, all of them have been visited. */
  lemma AllVisited(nodes: seq<Node>, i: nat)
    requires Distinct(nodes) && i <= |nodes| && At(nodes, i - 1) == At(nodes, |nodes| - 1)
    ensures i == |nodes|
  {
  }

  lemma FirstReached(nodes: seq<Node>, i: nat)
    requires Distinct(nodes) && i <= |nodes| && At(nodes, i) == At(nodes, 0)
    ensures i == 0
  {
  }

  lemma DistinctWithout(nodes: seq<Node>, k: nat)
    requires Distinct(nodes) && k < |nodes|
    ensures Distinct(nodes[..k] + nodes[k + 1..])
  {
  }

  /** The entries that nodes stand for, given which nodes are active. */
  ghost function Entries(nodes: seq<Node>, active: set<Node>): (r: seq<Entry>)
    ensures |r| == |nodes|
  {
    if nodes == [] then [] else
      var n := nodes[|nodes| - 1];
      Entries(nodes[..|nodes| - 1], active) + [Entry(n.cipher, n in active)]
  }

  /** The nodes inside S (or outside it), in order. */
  ghost function Pick(nodes: seq<Node>, S: set<Node>, inside: bool): (r: seq<Node>)
    ensures |r| <= |nodes|
  {
    if nodes == [] then [] else
      var n := nodes[|nodes| - 1];
      Pick(nodes[..|nodes| - 1], S, inside) + (if (n in S) == inside then [n] else [])
  }

  lemma {:induction false} PickMembers(nodes: seq<Node>, S: set<Node>, inside: bool, n: Node)
    ensures n in Pick(nodes, S, inside) <==> n in nodes && (n in S) == inside
  {
    if nodes != [] {
      PickMembers(nodes[..|nodes| - 1], S, inside, n);
      assert nodes == nodes[..|nodes| - 1] + [nodes[|nodes| - 1]];
    }
  }

  lemma {:induction false} PickConcat(a: seq<Node>, b: seq<Node>, S: set<Node>, inside: bool)
    ensures Pick(a + b, S, inside) == Pick(a, S, inside) + Pick(b, S, inside)
  {
    if b == [] {
      assert a + b == a;
    } else {
      var t := b[..|b| - 1];
      PickConcat(a, t, S, inside);
      assert (a + b)[..|a + b| - 1] == a + t;
    }
  }

  ghost function One(n: Node, S: set<Node>, inside: bool): (r: seq<Node>) {
    if (n in S) == inside then [n] else []
  }

  /** One more node at the end of a prefix, or at the front of a suffix. */
  lemma PickStep(nodes: seq<Node>, i: nat, S: set<Node>, inside: bool)
    requires i < |nodes|
    ensures Pick(nodes[..i + 1], S, inside) == Pick(nodes[..i], S, inside) + One(nodes[i], S, inside)
    ensures Pick(nodes[i..], S, inside) == One(nodes[i], S, inside) + Pick(nodes[i + 1..], S, inside)
  {
    var x := [nodes[i]];
    assert nodes[..i + 1] == nodes[..i] + x;
    PickConcat(nodes[..i], x, S, inside);
    assert nodes[i..] == x + nodes[i + 1..];
    PickConcat(x, nodes[i + 1..], S, inside);
    assert x[..0] == [];
    assert Pick(x, S, inside) == One(nodes[i], S, inside);
  }

  /** The active flag that a rule leaves on an entry it takes. */
  function FlagAfter(rule: Rule, flag: bool): (r: bool) {
    match rule
    case Add => true
    case Ord => flag
    case _ => false
  }

  function Flagged(rule: Rule, taken: seq<Entry>): (r: seq<Entry>) {
    match rule
    case Add => SetActive(taken, true)
    case Ord => taken
    case _ => SetActive(taken, false)
  }

  lemma FlaggedSnoc(rule: Rule, s: seq<Entry>, e: Entry)
    ensures Flagged(rule, s + [e]) == Flagged(rule, s) + [e.(active := FlagAfter(rule, e.active))]
  {
  }

  lemma EntriesSnoc(a: seq<Node>, n: Node, active: set<Node>)
    ensures Entries(a + [n], active) == Entries(a, active) + [Entry(n.cipher, n in active)]
  {
    assert (a + [n])[..|a|] == a;
  }

  /** S is what a rule takes from nodes whose active ones are `was`, and `now` are the active ones afterwards. */
  ghost predicate Taking(nodes: seq<Node>, S: set<Node>, was: set<Node>, now: set<Node>, rule: Rule, k: Criteria) {
    forall i :: 0 <= i < |nodes| ==>
      var n := nodes[i];
      && (n in S <==> Takes(rule, k, Entry(n.cipher, n in was)))
      && (n in now <==> if n in S then FlagAfter(rule, n in was) else n in was)
  }

  /** Splitting the nodes by what a rule takes is filtering the entries. */
  lemma {:induction false} EntriesLeft(nodes: seq<Node>, S: set<Node>, was: set<Node>, now: set<Node>, rule: Rule,
                                       k: Criteria)
    requires Taking(nodes, S, was, now, rule, k)
    ensures Entries(Pick(nodes, S, false), now) == Part(Entries(nodes, was), rule, k, false)
  {
    if nodes != [] {
      var t, n := nodes[..|nodes| - 1], nodes[|nodes| - 1];
      assert Pick(t, S, false) + [] == Pick(t, S, false);
      EntriesLeft(t, S, was, now, rule, k);
      EntriesSnoc(Pick(t, S, false), n, now);
      PartSnoc(Entries(t, was), Entry(n.cipher, n in was), rule, k, false);
    }
  }

  lemma {:induction false} EntriesTaken(nodes: seq<Node>, S: set<Node>, was: set<Node>, now: set<Node>, rule: Rule,
                                        k: Criteria)
    requires Taking(nodes, S, was, now, rule, k)
    ensures Entries(Pick(nodes, S, true), now) == Flagged(rule, Part(Entries(nodes, was), rule, k, true))
  {
    if nodes != [] {
      var t, n := nodes[..|nodes| - 1], nodes[|nodes| - 1];
      var e, p, q := Entry(n.cipher, n in was), Pick(t, S, true), Part(Entries(t, was), rule, k, true);
      EntriesTaken(t, S, was, now, rule, k);
      PartSnoc(Entries(t, was), e, rule, k, true);
      if n in S {
        EntriesSnoc(p, n, now);
        FlaggedSnoc(rule, q, e);
      } else {
        assert p + [] == p && q + [] == q;
      }
    }
  }

  lemma {:induction false} EntriesConcat(a: seq<Node>, b: seq<Node>, active: set<Node>)
    ensures Entries(a + b, active) == Entries(a, active) + Entries(b, active)
  {
    if b == [] {
      assert a + b == a;
    } else {
      var t := b[..|b| - 1];
      EntriesConcat(a, t, active);
      assert (a + b)[..|a + b| - 1] == a + t;
    }
  }

  /** The list after the visit of the entry at pos. */
  ghost function Moved(nodes: seq<Node>, pos: nat, rule: Rule, takes: bool): (r: seq<Node>)
    requires pos < |nodes|
  {
    if !takes then nodes else
      match rule
      case Del => [nodes[pos]] + nodes[..pos] + nodes[pos + 1..]
      case Kill => nodes[..pos] + nodes[pos + 1..]
      case _ => nodes[..pos] + nodes[pos + 1..] + [nodes[pos]]
  }

  /** A traversal from the front: the untaken of the first i nodes, the rest, then the taken ones. */
  ghost function Forward(nodes: seq<Node>, S: set<Node>, i: nat, keep: bool): (r: seq<Node>)
    requires i <= |nodes|
  {
    Pick(nodes[..i], S, false) + nodes[i..] + (if keep then Pick(nodes[..i], S, true) else [])
  }

  lemma Middle(a: seq<Node>, x: Node, m: seq<Node>, c: seq<Node>)
    ensures var now := a + ([x] + m) + c;
            && now[|a|] == x && now[..|a|] == a && now[|a| + 1..] == m + c
            && (m != [] ==> now[|a| + 1] == m[0])
  {
  }

  lemma Regroup(a: seq<Node>, b: seq<Node>, c: seq<Node>, d: seq<Node>)
    ensures a + b + (c + d) == a + (b + c) + d
    ensures a + (b + c) + d == a + b + c + d
  {
  }

  lemma {:induction false} NoneAround(a: seq<Node>)
    ensures a + [] == a && [] + a == a
  {
  }

  lemma {:induction false} ForwardAt(nodes: seq<Node>, S: set<Node>, i: nat, keep: bool)
    requires i < |nodes|
    ensures var now := Forward(nodes, S, i, keep); var pos := |Pick(nodes[..i], S, false)|;
            && pos < |now| && now[pos] == nodes[i]
            && (i + 1 < |nodes| ==> At(now, pos + 1) == nodes[i + 1])
            && now[..pos] == Pick(nodes[..i], S, false)
            && now[pos + 1..] == nodes[i + 1..] + (if keep then Pick(nodes[..i], S, true) else [])
  {
    assert nodes[i..] == [nodes[i]] + nodes[i + 1..];
    Middle(Pick(nodes[..i], S, false), nodes[i], nodes[i + 1..], if keep then Pick(nodes[..i], S, true) else []);
  }

  lemma {:induction false} ForwardNext(nodes: seq<Node>, S: set<Node>, i: nat, keep: bool)
    requires i < |nodes|
    ensures var a := Pick(nodes[..i], S, false); var c := if keep then Pick(nodes[..i], S, true) else [];
            Forward(nodes, S, i + 1, keep) ==
            if nodes[i] in S then a + (nodes[i + 1..] + c) + (if keep then [nodes[i]] else [])
            else a + ([nodes[i]] + nodes[i + 1..]) + c
  {
    PickStep(nodes, i, S, false);
    PickStep(nodes, i, S, true);
    var a, x, m, c := Pick(nodes[..i], S, false), nodes[i], nodes[i + 1..],
                      if keep then Pick(nodes[..i], S, true) else [];
    if x in S {
      NoneAround(a);
      NoneAround(c);
      Regroup(a, m, c, if keep then [x] else []);
    } else {
      NoneAround(c);
      Regroup(a, [x], m, c);
    }
  }

  lemma {:induction false} ForwardStep(nodes: seq<Node>, S: set<Node>, i: nat, keep: bool)
    requires i < |nodes|
    ensures var now := Forward(nodes, S, i, keep); var pos := |Pick(nodes[..i], S, false)|;
            && pos < |now| && now[pos] == nodes[i]
            && (i + 1 < |nodes| ==> At(now, pos + 1) == nodes[i + 1])
            && Forward(nodes, S, i + 1, keep) ==
               if nodes[i] in S then now[..pos] + now[pos + 1..] + (if keep then [nodes[i]] else []) else now
  {
    ForwardAt(nodes, S, i, keep);
    ForwardNext(nodes, S, i, keep);
    if nodes[i] !in S {
      assert nodes[i..] == [nodes[i]] + nodes[i + 1..];
    }
  }

  lemma {:induction false} ForwardMoved(nodes: seq<Node>, S: set<Node>, i: nat, rule: Rule)
    requires i < |nodes| && !rule.Del?
    ensures var now := Forward(nodes, S, i, !rule.Kill?); var pos := |Pick(nodes[..i], S, false)|;
            && pos < |now| && now[pos] == nodes[i]
            && (i + 1 < |nodes| ==> At(now, pos + 1) == nodes[i + 1])
            && Forward(nodes, S, i + 1, !rule.Kill?) == Moved(now, pos, rule, nodes[i] in S)
  {
    ForwardStep(nodes, S, i, !rule.Kill?);
    var now, pos := Forward(nodes, S, i, !rule.Kill?), |Pick(nodes[..i], S, false)|;
    NoneAround(now[..pos] + now[pos + 1..]);
  }

  lemma {:induction false} ForwardEnds(nodes: seq<Node>, S: set<Node>, keep: bool)
    ensures Forward(nodes, S, 0, keep) == nodes
    ensures Forward(nodes, S, |nodes|, keep)
         == Pick(nodes, S, false) + (if keep then Pick(nodes, S, true) else [])
  {
    assert nodes[..|nodes|] == nodes && nodes[0..] == nodes;
  }

  /** A traversal from the back: the taken of the last nodes, the rest, then the untaken ones. */
  ghost function Backward(nodes: seq<Node>, S: set<Node>, i: nat): (r: seq<Node>)
    requires i <= |nodes|
  {
    Pick(nodes[i..], S, true) + nodes[..i] + Pick(nodes[i..], S, false)
  }

  lemma {:induction false} BackwardAt(nodes: seq<Node>, S: set<Node>, i: nat)
    requires i < |nodes|
    ensures var now := Backward(nodes, S, i + 1); var t := Pick(nodes[i + 1..], S, true);
            var pos := |t| + i;
            && pos < |now| && now[pos] == nodes[i]
            && (i > 0 ==> At(now, pos - 1) == nodes[i - 1])
            && now[..pos] == t + nodes[..i] && now[pos + 1..] == Pick(nodes[i + 1..], S, false)
  {
    var t, x, m, c := Pick(nodes[i + 1..], S, true), nodes[i], nodes[..i], Pick(nodes[i + 1..], S, false);
    assert nodes[..i + 1] == m + [x];
    Regroup(t, m, [x], c);
    NoneAround([x]);
    Middle(t + m, x, [], c);
    NoneAround(c);
    if i > 0 {
      assert (t + m)[|t| + i - 1] == m[i - 1];
    }
  }

  lemma {:induction false} BackwardNext(nodes: seq<Node>, S: set<Node>, i: nat)
    requires i < |nodes|
    ensures var t := Pick(nodes[i + 1..], S, true); var c := Pick(nodes[i + 1..], S, false);
            Backward(nodes, S, i) == if nodes[i] in S then [nodes[i]] + (t + nodes[..i]) + c
                                     else t + (nodes[..i] + [nodes[i]]) + c
  {
    PickStep(nodes, i, S, false);
    PickStep(nodes, i, S, true);
    var t, x, m, c := Pick(nodes[i + 1..], S, true), nodes[i], nodes[..i], Pick(nodes[i + 1..], S, false);
    if x in S {
      NoneAround(c);
      Regroup([x], t, m, c);
    } else {
      NoneAround(t);
      Regroup(t, m, [x], c);
    }
  }

  lemma {:induction false} BackwardStep(nodes: seq<Node>, S: set<Node>, i: nat, rule: Rule, now: seq<Node>)
    returns (pos: nat)
    requires i < |nodes| && rule.Del? && now == Backward(nodes, S, i + 1)
    ensures pos < |now| && now[pos] == nodes[i] && (i > 0 ==> At(now, pos - 1) == nodes[i - 1])
    ensures Moved(now, pos, rule, nodes[i] in S) == Backward(nodes, S, i)
  {
    pos := |Pick(nodes[i + 1..], S, true)| + i;
    BackwardAt(nodes, S, i);
    BackwardNext(nodes, S, i);
    hide Pick, At;
    if nodes[i] in S {
      assert Moved(now, pos, rule, true) == [now[pos]] + now[..pos] + now[pos + 1..];
    } else {
      assert nodes[..i + 1] == nodes[..i] + [nodes[i]];
    }
  }

  lemma {:induction false} BackwardEnds(nodes: seq<Node>, S: set<Node>)
    ensures Backward(nodes, S, |nodes|) == nodes
    ensures Backward(nodes, S, 0) == Pick(nodes, S, true) + Pick(nodes, S, false)
  {
    assert nodes[..|nodes|] == nodes && nodes[0..] == nodes;
  }

  /** Where the nodes end up, and what they then stand for. */
  lemma AppliedEntries(nodes: seq<Node>, S: set<Node>, was: set<Node>, now: set<Node>, rule: Rule, k: Criteria)
    requires Taking(nodes, S, was, now, rule, k)
    ensures var left := Pick(nodes, S, false); var taken := Pick(nodes, S, true);
            Apply(Entries(nodes, was), rule, k) ==
            Entries(match rule case Del => taken + left case Kill => left case _ => left + taken, now)
  {
    EntriesLeft(nodes, S, was, now, rule, k);
    EntriesTaken(nodes, S, was, now, rule, k);
    EntriesConcat(Pick(nodes, S, false), Pick(nodes, S, true), now);
    EntriesConcat(Pick(nodes, S, true), Pick(nodes, S, false), now);
  }

  /** The first n nodes are linked to their neighbours. */
  ghost predicate Chained(list: seq<Node>, n: nat)
    reads list`next, list`prev
  {
    forall i :: 0 <= i < n && i < |list| ==> list[i].next == At(list, i + 1) && list[i].prev == At(list, i - 1)
  }

  /** The head and the tail together with the nodes between them. */
  class Order {
    var head: Node?
    var tail: Node?
    ghost var nodes: seq<Node>
    ghost const pool: set<Node>  // where all nodes come from

    ghost predicate Valid()
      reads this, nodes`next, nodes`prev
    {
      && Distinct(nodes) && (forall i :: 0 <= i < |nodes| ==> nodes[i] in pool)
      && head == At(nodes, 0) && tail == At(nodes, |nodes| - 1)
      && forall i :: 0 <= i < |nodes| ==> Linked(i)
    }

    ghost predicate Linked(i: nat)
      requires i < |nodes|
      reads this`nodes, nodes`next, nodes`prev
    {
      nodes[i].next == At(nodes, i + 1) && nodes[i].prev == At(nodes, i - 1)
    }

    ghost function Active(): (s: set<Node>)
      reads this`nodes, nodes`active
    {
      set n | n in nodes && n.active
    }

    /** The list as a sequence of entries. */
    ghost function View(): (r: seq<Entry>)
      reads this`nodes, nodes`active
    {
      Entries(nodes, Active())
    }

    /** Takes over nodes that are linked to each other. */
    constructor (first: Node?, last: Node?, ghost list: seq<Node>)
      requires Distinct(list) && Chained(list, |list|) && first == At(list, 0) && last == At(list, |list| - 1)
      ensures Valid() && nodes == list && pool == set n | n in list
    {
      head, tail, nodes, pool := first, last, list, set n | n in list;
      new;
      assert Distinct(nodes);
    }

    /** Takes the node at position k out of the list. */
    method Unlink(curr: Node, ghost k: nat)
      requires Valid() && k < |nodes| && nodes[k] == curr
      modifies this, pool`next, pool`prev
      ensures Valid() && nodes == old(nodes)[..k] + old(nodes)[k + 1..]
    {
      assert Linked(k);
      DistinctWithout(nodes, k);
      if curr == head {
        head := curr.next;
      } else {
        curr.prev.next := curr.next;
      }
      if curr == tail {
        tail := curr.prev;
      }
      if curr.next != null {
        curr.next.prev := curr.prev;
      }
      nodes := nodes[..k] + nodes[k + 1..];
      forall i | 0 <= i < |nodes|
        ensures Linked(i)
      {
        assert old(Linked(if i < k then i else i + 1));
      }
    }

    /** Puts a node that is not in the list behind the last one. */
    method LinkLast(curr: Node)
      requires Valid() && nodes != [] && curr !in nodes && curr in pool
      modifies this, pool`next, pool`prev
      ensures Valid() && nodes == old(nodes) + [curr]
    {
      assert Linked(|nodes| - 1);
      tail.next := curr;
      curr.prev := tail;
      curr.next := null;
      tail := curr;
      nodes := nodes + [curr];
      forall i | 0 <= i < |nodes| - 1
        ensures Linked(i)
      {
        assert old(Linked(i));
      }
    }

    method LinkFirst(curr: Node)
      requires Valid() && nodes != [] && curr !in nodes && curr in pool
      modifies this, pool`next, pool`prev
      ensures Valid() && nodes == [curr] + old(nodes)
    {
      assert Linked(0);
      head.prev := curr;
      curr.next := head;
      curr.prev := null;
      head := curr;
      nodes := [curr] + nodes;
      forall i | 0 < i < |nodes|
        ensures Linked(i)
      {
        assert old(Linked(i - 1));
      }
    }

    /** ll_append_tail. */
    method AppendTail(curr: Node, ghost k: nat)
      requires Valid() && k < |nodes| && nodes[k] == curr
      modifies this, pool`next, pool`prev
      ensures Valid() && nodes == old(nodes)[..k] + old(nodes)[k + 1..] + [curr]
    {
      if curr == tail {
        return;
      }
      Unlink(curr, k);
      LinkLast(curr);
    }

    /** ll_append_head. */
    method AppendHead(curr: Node, ghost k: nat)
      requires Valid() && k < |nodes| && nodes[k] == curr
      modifies this, pool`next, pool`prev
      ensures Valid() && nodes == [curr] + old(nodes)[..k] + old(nodes)[k + 1..]
    {
      if curr == head {
        return;
      }
      Unlink(curr, k);
      LinkFirst(curr);
    }

    /** The KILL step: the entry leaves the list and is reset. */
    method Remove(curr: Node, ghost pos: nat)
      requires Valid() && pos < |nodes| && nodes[pos] == curr
      modifies this, pool`next, pool`prev, curr`active
      ensures Valid() && nodes == old(nodes)[..pos] + old(nodes)[pos + 1..] && !curr.active
    {
      Unlink(curr, pos);
      curr.active := false;
      curr.next := null;
      curr.prev := null;
    }

    /** What one visit does to the entry at pos. */
    method Visit(curr: Node, rule: Rule, k: Criteria, ghost pos: nat)
      requires Valid() && pos < |nodes| && nodes[pos] == curr
      modifies this, pool`next, pool`prev, curr`active
      ensures Valid()
      ensures nodes == Moved(old(nodes), pos, rule, Takes(rule, k, Entry(curr.cipher, old(curr.active))))
      ensures curr.active == (if Takes(rule, k, Entry(curr.cipher, old(curr.active)))
                              then FlagAfter(rule, old(curr.active)) else old(curr.active))
    {
      if Matches(k, curr.cipher) {
        if rule.Add? {
          if !curr.active {
            AppendTail(curr, pos);
            curr.active := true;
          }
        } else if rule.Ord? {
          if curr.active {
            AppendTail(curr, pos);
          }
        } else if rule.Del? {
          if curr.active {
            AppendHead(curr, pos);
            curr.active := false;
          }
        } else {
          Remove(curr, pos);
        }
      }
    }

    /** The flags when the nodes from lo to hi have been visited. */
    ghost predicate Flags(given: seq<Node>, S: set<Node>, was: set<Node>, rule: Rule, lo: nat, hi: nat)
      reads given`active
    {
      forall j :: 0 <= j < |given| ==>
        (given[j].active <==>
         if lo <= j < hi && given[j] in S then FlagAfter(rule, given[j] in was) else given[j] in was)
    }

    /** One turn of the loop from the head. */
    method TurnForward(curr: Node, rule: Rule, k: Criteria,
                       ghost given: seq<Node>, ghost S: set<Node>, ghost was: set<Node>, ghost i: nat)
      returns (next: Node?)
      requires Valid() && !rule.Del? && IsTaken(S, given, was, rule, k)
      requires i < |given| && Once(given, i) && curr == given[i] && nodes == Forward(given, S, i, !rule.Kill?)
      requires Flags(given, S, was, rule, 0, i)
      modifies this, pool`next, pool`prev, curr`active
      ensures Valid() && nodes == Forward(given, S, i + 1, !rule.Kill?) && Flags(given, S, was, rule, 0, i + 1)
      ensures i + 1 < |given| ==> next == given[i + 1]
    {
      ForwardMoved(given, S, i, rule);
      ghost var pos := |Pick(given[..i], S, false)|;
      assert Linked(pos);
      assert Takes(rule, k, Entry(curr.cipher, curr.active)) <==> curr in S;
      next := curr.next;
      Visit(curr, rule, k, pos);
    }

    /** One turn of the loop from the tail: the entry at pos, which is node i of the given ones. */
    method TurnBackward(curr: Node, rule: Rule, k: Criteria, ghost pos: nat,
                        ghost given: seq<Node>, ghost S: set<Node>, ghost was: set<Node>, ghost i: nat)
      returns (next: Node?)
      requires Valid() && rule.Del? && IsTaken(S, given, was, rule, k)
      requires i < |given| && Once(given, i) && curr == given[i] && pos < |nodes| && nodes[pos] == curr
      requires Flags(given, S, was, rule, i + 1, |given|)
      modifies this, pool`next, pool`prev, curr`active
      ensures Valid() && nodes == Moved(old(nodes), pos, rule, curr in S) && Flags(given, S, was, rule, i, |given|)
      ensures next == At(old(nodes), pos - 1)
    {
      assert Linked(pos);
      assert Takes(rule, k, Entry(curr.cipher, curr.active)) <==> curr in S;
      next := curr.prev;
      Visit(curr, rule, k, pos);
    }

    method StepBackward(curr: Node, rule: Rule, k: Criteria,
                        ghost given: seq<Node>, ghost S: set<Node>, ghost was: set<Node>, ghost i: nat)
      returns (next: Node?)
      requires Valid() && rule.Del? && IsTaken(S, given, was, rule, k)
      requires i < |given| && Once(given, i) && curr == given[i] && nodes == Backward(given, S, i + 1)
      requires Flags(given, S, was, rule, i + 1, |given|)
      modifies this, pool`next, pool`prev, curr`active
      ensures Valid() && nodes == Backward(given, S, i) && Flags(given, S, was, rule, i, |given|)
      ensures i > 0 ==> next == given[i - 1]
    {
      ghost var pos := BackwardStep(given, S, i, rule, nodes);
      next := TurnBackward(curr, rule, k, pos, given, S, was, i);
    }

    /** The loop of ADD, ORD and KILL. */
    method LoopForward(rule: Rule, k: Criteria, ghost given: seq<Node>, ghost S: set<Node>, ghost was: set<Node>)
      requires Valid() && !rule.Del? && nodes == given && IsTaken(S, given, was, rule, k)
      requires Flags(given, S, was, rule, 0, 0)
      modifies this, pool
      ensures Valid() && nodes == Forward(given, S, |given|, !rule.Kill?) && Flags(given, S, was, rule, 0, |given|)
    {
      ghost var i: nat := 0;
      ForwardEnds(given, S, !rule.Kill?);
      var last, next := tail, head;
      var curr: Node? := null;
      while curr != last
        invariant i <= |given| && Valid() && nodes == Forward(given, S, i, !rule.Kill?)
        invariant curr == At(given, i - 1) && (i < |given| ==> next == given[i])
        invariant Flags(given, S, was, rule, 0, i)
        decreases |given| - i
      {
        curr := next;
        DistinctOnce(given, i);
        next := TurnForward(curr, rule, k, given, S, was, i);
        i := i + 1;
      }
      AllVisited(given, i);
    }

    method ApplyForward(rule: Rule, k: Criteria)
      requires Valid() && !rule.Del?
      modifies this, pool
      ensures Valid() && View() == Apply(old(View()), rule, k)
    {
      ghost var given: seq<Node>, was: set<Node> := nodes, Active();
      ghost var S := TakenSet(given, was, rule, k);
      ForwardEnds(given, S, !rule.Kill?);
      LoopForward(rule, k, given, S, was);
      Applied(given, S, was, rule, k);
    }

    /** The loop of DEL, from the tail to the head. */
    method LoopBackward(rule: Rule, k: Criteria, ghost given: seq<Node>, ghost S: set<Node>, ghost was: set<Node>)
      requires Valid() && rule.Del? && nodes == given && IsTaken(S, given, was, rule, k)
      requires Flags(given, S, was, rule, |given|, |given|)
      modifies this, pool
      ensures Valid() && nodes == Backward(given, S, 0) && Flags(given, S, was, rule, 0, |given|)
    {
      ghost var i: nat := |given|;
      BackwardEnds(given, S);
      var last, next := head, tail;
      var curr: Node? := null;
      while curr != last
        invariant i <= |given| && Valid() && nodes == Backward(given, S, i)
        invariant curr == At(given, i) && (0 < i ==> next == given[i - 1])
        invariant Flags(given, S, was, rule, i, |given|)
        decreases i
      {
        curr := next;
        i := i - 1;
        DistinctOnce(given, i);
        next := StepBackward(curr, rule, k, given, S, was, i);
      }
      FirstReached(given, i);
    }

    method ApplyBackward(rule: Rule, k: Criteria)
      requires Valid() && rule.Del?
      modifies this, pool
      ensures Valid() && View() == Apply(old(View()), rule, k)
    {
      ghost var given: seq<Node>, was: set<Node> := nodes, Active();
      ghost var S := TakenSet(given, was, rule, k);
      BackwardEnds(given, S);
      LoopBackward(rule, k, given, S, was);
      Applied(given, S, was, rule, k);
    }

    /** ssl_cipher_apply_rule. */
    method ApplyRule(rule: Rule, k: Criteria)
      requires Valid()
      modifies this, pool
      ensures Valid() && View() == Apply(old(View()), rule, k)
    {
      if rule.Del? {
        ApplyBackward(rule, k);
      } else {
        ApplyForward(rule, k);
      }
    }

    /** The flags of all nodes are as the rule leaves them, and so is the order. */
    lemma Applied(given: seq<Node>, S: set<Node>, was: set<Node>, rule: Rule, k: Criteria)
      requires nodes == match rule
                        case Del => Pick(given, S, true) + Pick(given, S, false)
                        case Kill => Pick(given, S, false)
                        case _ => Pick(given, S, false) + Pick(given, S, true)
      requires IsTaken(S, given, was, rule, k) && Flags(given, S, was, rule, 0, |given|)
      ensures View() == Apply(Entries(given, was), rule, k)
    {
      var act := set n | n in given && n.active;
      assert Taking(given, S, was, act, rule, k);
      AppliedEntries(given, S, was, act, rule, k);
      forall i | 0 <= i < |nodes|
        ensures nodes[i] in Active() <==> nodes[i] in act
      {
        PickMembers(given, S, false, nodes[i]);
        PickMembers(given, S, true, nodes[i]);
        assert nodes[i] in nodes && nodes[i] in given;
      }
      EntriesSame(nodes, Active(), act);
    }
  }

  ghost predicate IsTaken(S: set<Node>, nodes: seq<Node>, was: set<Node>, rule: Rule, k: Criteria) {
    forall j :: 0 <= j < |nodes| ==> (nodes[j] in S <==> Takes(rule, k, Entry(nodes[j].cipher, nodes[j] in was)))
  }

  lemma TakenSet(nodes: seq<Node>, was: set<Node>, rule: Rule, k: Criteria) returns (S: set<Node>)
    ensures IsTaken(S, nodes, was, rule, k)
  {
    S := set n | n in nodes && Takes(rule, k, Entry(n.cipher, n in was));
  }

  lemma {:induction false} EntriesSame(nodes: seq<Node>, a: set<Node>, b: set<Node>)
    requires forall i :: 0 <= i < |nodes| ==> (nodes[i] in a <==> nodes[i] in b)
    ensures Entries(nodes, a) == Entries(nodes, b)
  {
    if nodes != [] {
      EntriesSame(nodes[..|nodes| - 1], a, b);
    }
  }
}
