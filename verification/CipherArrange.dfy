/** Collecting, sorting and arranging the cipher list in place. */
module CipherArrange {
  import opened CipherRules
  import opened StableOrder
  import opened CipherPreference
  import opened CipherList
  import opened CipherCommands

  /** Masks of unavailable algorithms. */
  datatype Disabled = Disabled(mkey: bv32, auth: bv32, enc: bv32, mac: bv32, ssl: bv32)

  predicate Available(d: Disabled, c: Cipher) {
    && c.mkey & d.mkey == 0 && c.auth & d.auth == 0 && c.enc & d.enc == 0
    && c.mac & d.mac == 0 && c.ssl & d.ssl == 0
  }

  /** The available ciphers, the last of the table first. */
  function Collected(table: seq<Cipher>, d: Disabled): (r: seq<Cipher>) {
    if table == [] then [] else
      Collected(table[1..], d) + (if Available(d, table[0]) then [table[0]] else [])
  }

  /** One more in the table is one more in front, if it is available. */
  lemma {:induction false} CollectedSnoc(table: seq<Cipher>, c: Cipher, d: Disabled)
    ensures Collected(table + [c], d) == (if Available(d, c) then [c] else []) + Collected(table, d)
  {
    hide Available;
    if table == [] {
      assert [c][1..] == [] && [] + [c] == [c];
    } else {
      assert (table + [c])[1..] == table[1..] + [c];
      CollectedSnoc(table[1..], c, d);
    }
  }

  /** Fresh, inactive nodes for the given ciphers. */
  ghost predicate NodesFor(list: seq<Node>, s: seq<Cipher>)
    reads list`active
  {
    && Distinct(list) && |list| == |s|
    && forall i :: 0 <= i < |list| ==> list[i].cipher == s[i] && !list[i].active
  }

  method MakeNodes(table: seq<Cipher>, d: Disabled) returns (list: seq<Node>)
    ensures NodesFor(list, Collected(table, d))
    ensures forall i :: 0 <= i < |list| ==> fresh(list[i])
  {
    list := [];
    var i := |table|;
    assert table[i..] == [];
    while i > 0
      invariant 0 <= i <= |table| && NodesFor(list, Collected(table[i..], d))
      invariant forall j :: 0 <= j < |list| ==> fresh(list[j])
    {
      i := i - 1;
      assert table[i..][1..] == table[i + 1..];
      if Available(d, table[i]) {
        var n := new Node(table[i]);
        list := list + [n];
      }
    }
    assert table[0..] == table;
  }

  method LinkNodes(list: seq<Node>)
    requires Distinct(list)
    modifies list`next, list`prev
    ensures Chained(list, |list|)
  {
    for i := 0 to |list|
      invariant Chained(list, i)
    {
      list[i].prev := if i > 0 then list[i - 1] else null;
      list[i].next := if i + 1 < |list| then list[i + 1] else null;
    }
  }

  lemma {:induction false} EntriesOfFresh(list: seq<Node>, s: seq<Cipher>, active: set<Node>)
    requires |list| == |s| && forall i :: 0 <= i < |list| ==> list[i].cipher == s[i] && list[i] !in active
    ensures Entries(list, active) == Tag(s, false)
  {
    if list != [] {
      EntriesOfFresh(list[..|list| - 1], s[..|s| - 1], active);
    }
  }

  lemma InactiveView(o: Order, s: seq<Cipher>)
    requires NodesFor(o.nodes, s)
    ensures o.View() == Tag(s, false)
  {
    EntriesOfFresh(o.nodes, s, o.Active());
  }

  /** ssl_cipher_collect_ciphers. */
  method CollectCiphers(table: seq<Cipher>, d: Disabled) returns (o: Order)
    ensures fresh(o) && fresh(o.pool) && o.Valid() && o.View() == Tag(Collected(table, d), false)
  {
    ghost var s := Collected(table, d);
    var list := MakeNodes(table, d);
    LinkNodes(list);
    assert NodesFor(list, s);
    var first, last: Node? := null, null;
    if list != [] {
      first, last := list[0], list[|list| - 1];
    }
    o := new Order(first, last, list);
    InactiveView(o, s);
  }

  // --------------------------------------------------------------------------
  // Strength
  // --------------------------------------------------------------------------

  predicate Uses(e: Entry, bits: nat) {
    e.active && e.cipher.strengthBits == bits
  }

  /** How many active entries have this strength. */
  function Count(e: seq<Entry>, bits: nat): (r: nat) {
    if e == [] then 0 else Count(e[..|e| - 1], bits) + (if Uses(e[|e| - 1], bits) then 1 else 0)
  }

  lemma {:induction false} NoneCounted(e: seq<Entry>, bits: nat, i: nat)
    requires Count(e, bits) == 0 && i < |e|
    ensures !Uses(e[i], bits)
  {
    if i < |e| - 1 {
      NoneCounted(e[..|e| - 1], bits, i);
    }
  }

  lemma {:induction false} CountConcat(a: seq<Entry>, b: seq<Entry>, bits: nat)
    ensures Count(a + b, bits) == Count(a, bits) + Count(b, bits)
  {
    if b == [] {
      assert a + b == a;
    } else {
      CountConcat(a, b[..|b| - 1], bits);
      assert (a + b)[..|a + b| - 1] == a + b[..|b| - 1];
    }
  }

  lemma {:induction false} CountParts(e: seq<Entry>, rule: Rule, k: Criteria, bits: nat)
    ensures Count(e, bits) == Count(Part(e, rule, k, false), bits) + Count(Part(e, rule, k, true), bits)
  {
    if e != [] {
      var q, x := e[..|e| - 1], e[|e| - 1];
      CountParts(q, rule, k, bits);
      var t := Takes(rule, k, x);
      CountConcat(Part(q, rule, k, t), [x], bits);
      assert Part(q, rule, k, !t) + [] == Part(q, rule, k, !t);
      assert [x][..0] == [];
    }
  }

  lemma OrdKeepsCounts(e: seq<Entry>, k: Criteria, bits: nat)
    ensures Count(Apply(e, Ord, k), bits) == Count(e, bits)
  {
    CountParts(e, Ord, k, bits);
    CountConcat(Part(e, Ord, k, false), Part(e, Ord, k, true), bits);
  }

  lemma UncountedUnmoved(e: seq<Entry>, bits: nat)
    requires Count(e, bits) == 0
    ensures Apply(e, Ord, StrengthRule(bits)) == e
  {
    forall i | 0 <= i < |e|
      ensures !Uses(e[i], bits)
    {
      NoneCounted(e, bits, i);
    }
    UnusedStrength(e, bits);
  }

  lemma {:induction false} EntryAt(list: seq<Node>, active: set<Node>, i: nat)
    requires i < |list|
    ensures Entries(list, active)[i] == Entry(list[i].cipher, list[i] in active)
  {
    if i < |list| - 1 {
      EntryAt(list[..|list| - 1], active, i);
    }
  }

  /** What a node of the list stands for, and where it leads. */
  lemma NodeEntry(o: Order, i: nat)
    requires o.Valid() && i < |o.nodes|
    ensures var n := o.nodes[i]; o.View()[i] == Entry(n.cipher, n.active) && n.next == At(o.nodes, i + 1)
  {
    EntryAt(o.nodes, o.Active(), i);
    assert o.Linked(i) && o.nodes[i] in o.nodes;
  }

  lemma PrefixStep(v: seq<Entry>, i: nat)
    requires i < |v|
    ensures v[..i + 1][..i] == v[..i]
  {
  }

  method FindMaxStrength(o: Order) returns (max: nat)
    requires o.Valid()
    ensures max == MaxStrength(o.View())
  {
    max := 0;
    var curr := o.head;
    ghost var i := 0;
    while curr != null
      invariant 0 <= i <= |o.nodes| && curr == At(o.nodes, i) && max == MaxStrength(o.View()[..i])
      decreases |o.nodes| - i
    {
      NodeEntry(o, i);
      PrefixStep(o.View(), i);
      if curr.active && curr.cipher.strengthBits > max {
        max := curr.cipher.strengthBits;
      }
      curr := curr.next;
      i := i + 1;
    }
    assert o.View()[..i] == o.View();
  }

  ghost predicate CountIs(uses: seq<nat>, e: seq<Entry>, b: nat)
    requires b < |uses|
  {
    uses[b] == Count(e, b)
  }

  ghost predicate Counted(uses: seq<nat>, e: seq<Entry>) {
    forall b :: 0 <= b < |uses| ==> CountIs(uses, e, b)
  }

  lemma CountedStep(uses: seq<nat>, v: seq<Entry>, i: nat)
    requires i < |v| && Counted(uses, v[..i]) && (v[i].active ==> v[i].cipher.strengthBits < |uses|)
    ensures var b := v[i].cipher.strengthBits;
            Counted(if v[i].active then uses[b := uses[b] + 1] else uses, v[..i + 1])
  {
    var bits, e := v[i].cipher.strengthBits, v[..i + 1];
    var now := if v[i].active then uses[bits := uses[bits] + 1] else uses;
    assert e[..i] == v[..i];
    forall b | 0 <= b < |now|
      ensures CountIs(now, e, b)
    {
      assert CountIs(uses, v[..i], b);
    }
  }

  method CountOne(uses: array<nat>, bits: nat)
    requires bits < uses.Length
    modifies uses
    ensures uses[..] == old(uses[..])[bits := old(uses[bits]) + 1]
  {
    uses[bits] := uses[bits] + 1;
  }

  method CountStrengths(o: Order, max: nat) returns (uses: array<nat>)
    requires o.Valid() && max == MaxStrength(o.View())
    ensures fresh(uses) && uses.Length == max + 1
    ensures Counted(uses[..], o.View())
  {
    uses := new nat[max + 1](_ => 0);
    ghost var v := o.View();
    var curr := o.head;
    ghost var i := 0;
    while curr != null
      invariant 0 <= i <= |o.nodes| && curr == At(o.nodes, i) && Counted(uses[..], v[..i])
      decreases |o.nodes| - i
    {
      NodeEntry(o, i);
      CountedStep(uses[..], v, i);
      if curr.active {
        CountOne(uses, curr.cipher.strengthBits);
      }
      curr := curr.next;
      i := i + 1;
    }
    assert v[..i] == v;
  }

  lemma StillCounted(uses: seq<nat>, v: seq<Entry>, n: nat)
    requires Counted(uses, v) && n < |uses|
    ensures Counted(uses, Apply(v, Ord, StrengthRule(n)))
    ensures uses[n] == 0 ==> Apply(v, Ord, StrengthRule(n)) == v
  {
    forall b | 0 <= b < |uses|
      ensures CountIs(uses, Apply(v, Ord, StrengthRule(n)), b)
    {
      assert CountIs(uses, v, b);
      OrdKeepsCounts(v, StrengthRule(n), b);
    }
    assert CountIs(uses, v, n);
    if uses[n] == 0 {
      UncountedUnmoved(v, n);
    }
  }

  /** One strength: nothing is done when it is not in use. */
  method SortTurn(o: Order, uses: array<nat>, n: nat)
    requires o.Valid() && n < uses.Length && Counted(uses[..], o.View())
    modifies o, o.pool
    ensures o.Valid() && o.View() == Apply(old(o.View()), Ord, StrengthRule(n)) && Counted(uses[..], o.View())
  {
    ghost var u := uses[..];
    StillCounted(u, o.View(), n);
    assert uses[n] == u[n];
    if uses[n] > 0 {
      o.ApplyRule(Ord, StrengthRule(n));
    }
  }

  /** From the largest strength down to none. */
  method SortDown(o: Order, uses: array<nat>, max: nat)
    requires o.Valid() && max < uses.Length && Counted(uses[..], o.View())
    modifies o, o.pool
    ensures o.Valid() && o.View() == SortStrength(old(o.View()), max)
  {
    ghost var goal := SortStrength(o.View(), max);
    var i: int := max;
    while i >= 0
      invariant -1 <= i <= max && o.Valid() && SortStrength(o.View(), i) == goal
      invariant Counted(uses[..], o.View())
    {
      SortTurn(o, uses, i);
      i := i - 1;
    }
  }

  /** ssl_cipher_strength_sort. */
  method StrengthSort(o: Order)
    requires o.Valid()
    modifies o, o.pool
    ensures o.Valid() && o.View() == SortStrength(old(o.View()), MaxStrength(old(o.View())))
  {
    hide SortStrength, MaxStrength, Counted;
    var max := FindMaxStrength(o);
    var uses := CountStrengths(o, max);
    SortDown(o, uses, max);
  }

  // --------------------------------------------------------------------------
  // The prefix of ssl_create_cipher_list
  // --------------------------------------------------------------------------

  method ActivateAll(o: Order, aesFirst: bool)
    requires o.Valid()
    modifies o, o.pool
    ensures o.Valid() && o.View() == Activate(old(o.View()), aesFirst)
  {
    o.ApplyRule(Add, KeyRule(Ecdhe));
    o.ApplyRule(Del, KeyRule(Ecdhe));
    o.ApplyRule(Add, BulkRule(aesFirst));
    o.ApplyRule(Add, BulkRule(!aesFirst));
    o.ApplyRule(Add, EVERYTHING);
  }

  method DemoteAll(o: Order)
    requires o.Valid()
    modifies o, o.pool
    ensures o.Valid() && o.View() == Demote(old(o.View()))
  {
    o.ApplyRule(Ord, KeyRule(Md5));
    o.ApplyRule(Ord, KeyRule(Anonymous));
    o.ApplyRule(Ord, KeyRule(Rsa));
    o.ApplyRule(Ord, KeyRule(Rc4));
  }

  method DeactivateAll(o: Order)
    requires o.Valid()
    modifies o, o.pool
    ensures o.Valid() && o.View() == Deactivate(old(o.View()))
  {
    o.ApplyRule(Del, EVERYTHING);
    o.ApplyRule(Add, KeyRule(Tls13));
    o.ApplyRule(Del, KeyRule(Tls13));
  }

  /** The list before the rule string is read: the stable order of preference of what was collected. */
  method CreateOrder(table: seq<Cipher>, d: Disabled, aesFirst: bool) returns (o: Order, ghost order: seq<Cipher>)
    ensures fresh(o) && fresh(o.pool) && o.Valid() && o.View() == Tag(order, false)
    ensures StablySorted(order, Collected(table, d), Preference(aesFirst))
    ensures multiset(order) == multiset(Collected(table, d))
  {
    o := CollectCiphers(table, d);
    ActivateAll(o, aesFirst);
    DemoteAll(o);
    StrengthSort(o);
    DeactivateAll(o);
    order := ArrangedStably(Collected(table, d), aesFirst);
  }

  /** The commands of a rule string, one after the other. */
  method ApplyCommands(o: Order, commands: seq<Command>)
    requires o.Valid()
    modifies o, o.pool
    ensures o.Valid() && o.View() == DoAll(old(o.View()), commands)
  {
    ghost var goal := DoAll(o.View(), commands);
    for i := 0 to |commands|
      invariant o.Valid() && DoAll(o.View(), commands[i..]) == goal
    {
      match commands[i] {
        case ByRule(rule, k) => o.ApplyRule(rule, k);
        case ByStrength => StrengthSort(o);
      }
      assert commands[i..][1..] == commands[i + 1..];
    }
  }
}
