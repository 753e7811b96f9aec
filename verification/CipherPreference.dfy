/** The preference order that ssl_create_cipher_list builds before it reads the rule string. */
module CipherPreference {
  import opened CipherRules
  import opened StableOrder

  // --------------------------------------------------------------------------
  // Rules on lists whose entries are all active or all inactive
  // --------------------------------------------------------------------------

  /** The same flag for every cipher. */
  function Tag(s: seq<Cipher>, flag: bool): (r: seq<Entry>)
    ensures |r| == |s|
  {
    seq(|s|, i requires 0 <= i < |s| => Entry(s[i], flag))
  }

  lemma TagConcat(a: seq<Cipher>, b: seq<Cipher>, flag: bool)
    ensures Tag(a + b, flag) == Tag(a, flag) + Tag(b, flag)
  {
  }

  lemma TagFlip(s: seq<Cipher>, flag: bool, other: bool)
    ensures SetActive(Tag(s, flag), other) == Tag(s, other)
  {
  }

  /** Whether a rule looks at entries with this flag. */
  predicate Sees(rule: Rule, flag: bool) {
    rule.Kill? || flag != rule.Add?
  }

  function Picked(k: Criteria, taken: bool): (t: Test) {
    if taken then Selected(k) else Not(Selected(k))
  }

  function TagPart(s: seq<Cipher>, flag: bool, rule: Rule, k: Criteria, taken: bool): (r: seq<Entry>) {
    if Sees(rule, flag) then Tag(Filter(s, Picked(k, taken)), flag)
    else if taken then [] else Tag(s, flag)
  }

  lemma TagFilterSnoc(q: seq<Cipher>, c: Cipher, flag: bool, t: Test)
    ensures Tag(Filter(q + [c], t), flag) == Tag(Filter(q, t), flag) + (if Holds(t, c) then [Entry(c, flag)] else [])
  {
    FilterSnoc(q, c, t);
    TagConcat(Filter(q, t), if Holds(t, c) then [c] else [], flag);
  }

  lemma {:induction false} PartTag(s: seq<Cipher>, flag: bool, rule: Rule, k: Criteria, taken: bool)
    ensures Part(Tag(s, flag), rule, k, taken) == TagPart(s, flag, rule, k, taken)
  {
    if s != [] {
      var q, c := s[..|s| - 1], s[|s| - 1];
      PartTag(q, flag, rule, k, taken);
      assert Tag(s, flag) == Tag(q, flag) + [Entry(c, flag)];
      PartSnoc(Tag(q, flag), Entry(c, flag), rule, k, taken);
      assert Takes(rule, k, Entry(c, flag)) <==> Sees(rule, flag) && Matches(k, c);
      if Sees(rule, flag) {
        TagFilterSnoc(q, c, flag, Picked(k, taken));
        assert Holds(Picked(k, taken), c) <==> (Matches(k, c) == taken);
        assert s == q + [c];
      }
    } else {
      assert Tag(s, flag) == [];
    }
  }

  lemma {:induction false} PartConcat(a: seq<Entry>, b: seq<Entry>, rule: Rule, k: Criteria, taken: bool)
    ensures Part(a + b, rule, k, taken) == Part(a, rule, k, taken) + Part(b, rule, k, taken)
  {
    if b == [] {
      assert a + b == a;
    } else {
      PartConcat(a, b[..|b| - 1], rule, k, taken);
      assert (a + b)[..|a + b| - 1] == a + b[..|b| - 1];
    }
  }

  /** Parts of a list with an inactive and an active half. */
  lemma PartHalves(a: seq<Cipher>, b: seq<Cipher>, rule: Rule, k: Criteria, taken: bool)
    ensures Part(Tag(a, false) + Tag(b, true), rule, k, taken)
         == TagPart(a, false, rule, k, taken) + TagPart(b, true, rule, k, taken)
  {
    PartConcat(Tag(a, false), Tag(b, true), rule, k, taken);
    PartTag(a, false, rule, k, taken);
    PartTag(b, true, rule, k, taken);
  }

  /** ADD splits the inactive half. */
  lemma {:induction false} AddHalves(a: seq<Cipher>, b: seq<Cipher>, k: Criteria)
    ensures Apply(Tag(a, false) + Tag(b, true), Add, k)
         == Tag(Filter(a, Not(Selected(k))), false) + Tag(b + Filter(a, Selected(k)), true)
  {
    PartHalves(a, b, Add, k, true);
    PartHalves(a, b, Add, k, false);
    TagFlip(Filter(a, Selected(k)), false, true);
    TagConcat(b, Filter(a, Selected(k)), true);
    var x, y, z := Tag(Filter(a, Not(Selected(k))), false), Tag(b, true), Tag(Filter(a, Selected(k)), true);
    assert TagPart(a, false, Add, k, true) + [] == TagPart(a, false, Add, k, true);
    assert x + y + z == x + (y + z);
  }

  lemma OrdActive(s: seq<Cipher>, k: Criteria)
    ensures Apply(Tag(s, true), Ord, k) == Tag(Filter(s, Not(Selected(k))) + Filter(s, Selected(k)), true)
  {
    PartTag(s, true, Ord, k, true);
    PartTag(s, true, Ord, k, false);
    TagConcat(Filter(s, Not(Selected(k))), Filter(s, Selected(k)), true);
  }

  /** DEL when all matching entries are active and only they. */
  lemma {:induction false} DelHalves(a: seq<Cipher>, b: seq<Cipher>, k: Criteria)
    requires forall i :: 0 <= i < |b| ==> Matches(k, b[i])
    ensures Apply(Tag(a, false) + Tag(b, true), Del, k) == Tag(b + a, false)
  {
    PartHalves(a, b, Del, k, true);
    PartHalves(a, b, Del, k, false);
    FilterAll(b, Selected(k));
    FilterNone(b, Not(Selected(k)));
    TagFlip(b, true, false);
    TagConcat(b, a, false);
    assert Tag([], true) == [];
    assert [] + Tag(b, true) == Tag(b, true) && Tag(a, false) + [] == Tag(a, false);
  }

  lemma ActiveOnly(s: seq<Cipher>)
    ensures Tag([], false) + Tag(s, true) == Tag(s, true)
    ensures Tag(s, false) + Tag([], true) == Tag(s, false)
  {
  }

  // --------------------------------------------------------------------------
  // Classes in order of rank
  // --------------------------------------------------------------------------

  ghost function ByRank(s: seq<Cipher>, key: Key, lo: int, hi: int): (r: seq<Cipher>)
    decreases hi - lo
  {
    if hi < lo then [] else ByRank(s, key, lo, hi - 1) + Filter(s, Ranked(key, hi))
  }

  lemma FilterClass(s: seq<Cipher>, key: Key, u: int, v: int)
    ensures Filter(Filter(s, Ranked(key, u)), Ranked(key, v)) == if u == v then Filter(s, Ranked(key, v)) else []
  {
    FilterTwice(s, Ranked(key, u), Ranked(key, v));
    if u == v {
      FilterSame(s, Both(Ranked(key, u), Ranked(key, v)), Ranked(key, v));
    } else {
      FilterNone(s, Both(Ranked(key, u), Ranked(key, v)));
    }
  }

  lemma {:induction false} ByRankClass(s: seq<Cipher>, key: Key, lo: int, hi: int, v: int)
    ensures Filter(ByRank(s, key, lo, hi), Ranked(key, v)) == if lo <= v <= hi then Filter(s, Ranked(key, v)) else []
    decreases hi - lo
  {
    if lo <= hi {
      ByRankClass(s, key, lo, hi - 1, v);
      FilterConcat(ByRank(s, key, lo, hi - 1), Filter(s, Ranked(key, hi)), Ranked(key, v));
      FilterClass(s, key, hi, v);
      assert Filter(s, Ranked(key, v)) + [] == Filter(s, Ranked(key, v));
    }
  }

  lemma {:induction false} ByRankBound(s: seq<Cipher>, key: Key, lo: int, hi: int, i: nat)
    requires i < |ByRank(s, key, lo, hi)|
    ensures lo <= Rank(key, ByRank(s, key, lo, hi)[i]) <= hi
    decreases hi - lo
  {
    if lo <= hi {
      var a, b := ByRank(s, key, lo, hi - 1), Filter(s, Ranked(key, hi));
      if i < |a| {
        ByRankBound(s, key, lo, hi - 1, i);
      } else {
        FilterMembers(s, Ranked(key, hi), b[i - |a|]);
      }
    }
  }

  lemma BeforeByOne(key: Key, c: Cipher, d: Cipher)
    requires Rank(key, c) <= Rank(key, d)
    ensures Before([key], c, d)
  {
    assert Before([key][1..], c, d);
  }

  lemma {:induction false} ByRankSorted(s: seq<Cipher>, key: Key, lo: int, hi: int)
    ensures Sorted([key], ByRank(s, key, lo, hi))
    decreases hi - lo
  {
    if lo <= hi {
      ByRankSorted(s, key, lo, hi - 1);
      var r, a := ByRank(s, key, lo, hi), ByRank(s, key, lo, hi - 1);
      forall i, j | 0 <= i < j < |r|
        ensures Before([key], r[i], r[j])
      {
        if j < |a| {
          assert r[i] == a[i] && r[j] == a[j];
        } else {
          ByRankBound(s, key, lo, hi, i);
          FilterMembers(s, Ranked(key, hi), r[j]);
          assert r[j] == Filter(s, Ranked(key, hi))[j - |a|];
          BeforeByOne(key, r[i], r[j]);
        }
      }
    }
  }

  /** The classes in order of rank are the stable sort. */
  lemma ByRankStable(s: seq<Cipher>, key: Key, lo: int, hi: int)
    requires forall i :: 0 <= i < |s| ==> lo <= Rank(key, s[i]) <= hi
    ensures StablySorted(ByRank(s, key, lo, hi), s, [key])
  {
    ByRankSorted(s, key, lo, hi);
    var p := ByRank(s, key, lo, hi);
    forall v
      ensures Filter(p, Ranked(key, v)) == Filter(s, Ranked(key, v))
    {
      ByRankClass(s, key, lo, hi, v);
      if !(lo <= v <= hi) {
        FilterNone(s, Ranked(key, v));
      }
    }
    FromClasses(p, s, key);
  }

  // --------------------------------------------------------------------------
  // One stage of the prefix at a time
  // --------------------------------------------------------------------------

  const EVERYTHING := Criteria(0, 0, 0, 0, 0, 0, 0, -1)

  /** The criteria of the rule that sorts by a two-valued key. */
  function KeyRule(key: Key): (k: Criteria) {
    match key
    case Tls13 => EVERYTHING.(ssl := TLSV1_3)
    case Rc4 => EVERYTHING.(enc := E_RC4)
    case Rsa => EVERYTHING.(mkey := K_RSA)
    case Anonymous => EVERYTHING.(auth := A_NULL)
    case Md5 => EVERYTHING.(mac := M_MD5)
    case Ecdhe => EVERYTHING.(mkey := K_ECDHE)
    case _ => EVERYTHING
  }

  lemma KeyRuleMeans(key: Key)
    requires !key.Strength? && !key.Bulk?
    ensures forall c :: Matches(KeyRule(key), c) <==> Rank(key, c) == Late(!key.Tls13? && !key.Ecdhe?)
    ensures forall c :: 0 <= Rank(key, c) <= 1
  {
  }

  lemma TwoClasses(s: seq<Cipher>, key: Key)
    ensures ByRank(s, key, 0, 1) == Filter(s, Ranked(key, 0)) + Filter(s, Ranked(key, 1))
  {
    assert ByRank(s, key, 0, -1) == [];
    assert ByRank(s, key, 0, 0) == Filter(s, Ranked(key, 0));
  }

  /** An ORD rule with everything active: those with the unwanted property go last. */
  lemma OrdStage(s: seq<Cipher>, key: Key) returns (p: seq<Cipher>)
    requires key.Rc4? || key.Rsa? || key.Anonymous? || key.Md5?
    ensures Apply(Tag(s, true), Ord, KeyRule(key)) == Tag(p, true) && StablySorted(p, s, [key])
  {
    p := ByRank(s, key, 0, 1);
    KeyRuleMeans(key);
    ByRankStable(s, key, 0, 1);
    TwoClasses(s, key);
    OrdActive(s, KeyRule(key));
    FilterSame(s, Selected(KeyRule(key)), Ranked(key, 1));
    FilterSame(s, Not(Selected(KeyRule(key))), Ranked(key, 0));
  }

  lemma SelectedMatch(s: seq<Cipher>, k: Criteria)
    ensures var hit := Filter(s, Selected(k)); forall i :: 0 <= i < |hit| ==> Matches(k, hit[i])
  {
    var hit := Filter(s, Selected(k));
    forall i | 0 <= i < |hit|
      ensures Matches(k, hit[i])
    {
      FilterMembers(s, Selected(k), hit[i]);
    }
  }

  /** ADD and then DEL with everything inactive: those with the wanted property go first. */
  lemma {:induction false} AddDelStage(s: seq<Cipher>, key: Key) returns (p: seq<Cipher>)
    requires key.Tls13? || key.Ecdhe?
    ensures Apply(Apply(Tag(s, false), Add, KeyRule(key)), Del, KeyRule(key)) == Tag(p, false)
    ensures StablySorted(p, s, [key])
  {
    p := ByRank(s, key, 0, 1);
    KeyRuleMeans(key);
    ByRankStable(s, key, 0, 1);
    TwoClasses(s, key);
    ActiveOnly(s);
    var k := KeyRule(key);
    AddHalves(s, [], k);
    var hit := Filter(s, Selected(k));
    assert [] + hit == hit;
    SelectedMatch(s, k);
    DelHalves(Filter(s, Not(Selected(k))), hit, k);
    FilterSame(s, Selected(k), Ranked(key, 0));
    FilterSame(s, Not(Selected(k)), Ranked(key, 1));
  }

  function BulkRule(aes: bool): (k: Criteria) {
    EVERYTHING.(enc := BulkMask(aes))
  }

  lemma ThreeClasses(s: seq<Cipher>, key: Key)
    ensures ByRank(s, key, 0, 2) == Filter(s, Ranked(key, 0)) + Filter(s, Ranked(key, 1)) + Filter(s, Ranked(key, 2))
  {
    TwoClasses(s, key);
  }

  lemma ThreeAdds(s: seq<Cipher>, k: Criteria, l: Criteria)
    ensures var rest := Filter(s, Not(Selected(k)));
            Apply(Apply(Apply(Tag(s, false), Add, k), Add, l), Add, EVERYTHING) ==
            Tag(Filter(s, Selected(k)) + Filter(rest, Selected(l)) + Filter(rest, Not(Selected(l))), true)
  {
    ActiveOnly(s);
    var b0, rest := Filter(s, Selected(k)), Filter(s, Not(Selected(k)));
    AddHalves(s, [], k);
    assert [] + b0 == b0;
    var b1, b2 := Filter(rest, Selected(l)), Filter(rest, Not(Selected(l)));
    AddHalves(rest, b0, l);
    AddEverything(b2, b0 + b1);
  }

  lemma AddEverything(a: seq<Cipher>, b: seq<Cipher>)
    ensures Apply(Tag(a, false) + Tag(b, true), Add, EVERYTHING) == Tag(b + a, true)
  {
    AddHalves(a, b, EVERYTHING);
    FilterAll(a, Selected(EVERYTHING));
    FilterNone(a, Not(Selected(EVERYTHING)));
    ActiveOnly(b + a);
  }

  lemma BulkMeans(aesFirst: bool)
    ensures forall c :: Holds(Selected(BulkRule(aesFirst)), c) <==> Rank(Bulk(aesFirst), c) == 0
    ensures forall c ::
              Holds(Selected(BulkRule(!aesFirst)), c) && Rank(Bulk(aesFirst), c) != 0 <==> Rank(Bulk(aesFirst), c) == 1
    ensures forall c :: 0 <= Rank(Bulk(aesFirst), c) <= 2
  {
    assert BulkMask(aesFirst) != 0 && BulkMask(!aesFirst) != 0;
  }

  lemma BulkClasses(s: seq<Cipher>, aesFirst: bool)
    ensures var key := Bulk(aesFirst); var k := BulkRule(aesFirst); var l := BulkRule(!aesFirst);
            var rest := Filter(s, Not(Selected(k)));
            && Filter(s, Selected(k)) == Filter(s, Ranked(key, 0))
            && Filter(rest, Selected(l)) == Filter(s, Ranked(key, 1))
            && Filter(rest, Not(Selected(l))) == Filter(s, Ranked(key, 2))
  {
    var key, k, l := Bulk(aesFirst), BulkRule(aesFirst), BulkRule(!aesFirst);
    BulkMeans(aesFirst);
    FilterSame(s, Selected(k), Ranked(key, 0));
    FilterInto(s, Not(Selected(k)), Selected(l), Ranked(key, 1));
    FilterInto(s, Not(Selected(k)), Not(Selected(l)), Ranked(key, 2));
  }

  /** Three ADD rules activate everything, by preference of the bulk cipher. */
  lemma BulkStage(s: seq<Cipher>, aesFirst: bool) returns (p: seq<Cipher>)
    ensures Apply(Apply(Apply(Tag(s, false), Add, BulkRule(aesFirst)), Add, BulkRule(!aesFirst)), Add, EVERYTHING)
         == Tag(p, true)
    ensures StablySorted(p, s, [Bulk(aesFirst)])
  {
    p := ByRank(s, Bulk(aesFirst), 0, 2);
    ByRankStable(s, Bulk(aesFirst), 0, 2);
    ThreeClasses(s, Bulk(aesFirst));
    ThreeAdds(s, BulkRule(aesFirst), BulkRule(!aesFirst));
    BulkClasses(s, aesFirst);
  }

  // --------------------------------------------------------------------------
  // Sorting by strength
  // --------------------------------------------------------------------------

  function StrengthRule(bits: nat): (k: Criteria) {
    Criteria(0, 0, 0, 0, 0, 0, 0, bits)
  }

  /** ORD by strength, from n bits down to none. */
  function SortStrength(e: seq<Entry>, n: int): (r: seq<Entry>)
    requires n >= -1
    decreases n
  {
    if n < 0 then e else SortStrength(Apply(e, Ord, StrengthRule(n)), n - 1)
  }

  /** The largest strength of an active entry, 0 when there is none. */
  function MaxStrength(e: seq<Entry>): (r: nat)
    ensures forall i :: 0 <= i < |e| && e[i].active ==> e[i].cipher.strengthBits <= r
  {
    if e == [] then 0 else
      var x, m := e[|e| - 1], MaxStrength(e[..|e| - 1]);
      if x.active && x.cipher.strengthBits > m then x.cipher.strengthBits else m
  }

  /** Ciphers already moved, strongest first, behind the weaker ones still to come. */
  ghost function SortedAbove(s: seq<Cipher>, max: nat, n: int): (r: seq<Cipher>) {
    Filter(s, Weaker(n + 1)) + ByRank(s, Strength, 0 - max, 0 - (n + 1))
  }

  lemma StrengthSelects(s: seq<Cipher>, max: nat, n: nat)
    requires n <= max
    ensures var k := Selected(StrengthRule(n));
            var x := Filter(s, Weaker(n + 1));
            var y := ByRank(s, Strength, 0 - max, 0 - (n + 1));
            && Filter(x, Not(k)) == Filter(s, Weaker(n)) && Filter(x, k) == Filter(s, Ranked(Strength, 0 - n))
            && Filter(y, Not(k)) == y && Filter(y, k) == []
  {
    var k, x, y := Selected(StrengthRule(n)), Filter(s, Weaker(n + 1)), ByRank(s, Strength, 0 - max, 0 - (n + 1));
    assert forall d :: Holds(k, d) <==> d.strengthBits == n;
    FilterInto(s, Weaker(n + 1), Not(k), Weaker(n));
    FilterInto(s, Weaker(n + 1), k, Ranked(Strength, 0 - n));
    forall i | 0 <= i < |y|
      ensures Rank(Strength, y[i]) < 0 - n
    {
      ByRankBound(s, Strength, 0 - max, 0 - (n + 1), i);
    }
    FilterAll(y, Not(k));
    FilterNone(y, k);
  }

  lemma MoveLast(w: seq<Cipher>, y: seq<Cipher>, b: seq<Cipher>)
    ensures w + y + (b + []) == w + (y + b)
  {
  }

  lemma StrengthStep(s: seq<Cipher>, max: nat, n: nat)
    requires n <= max
    ensures Apply(Tag(SortedAbove(s, max, n), true), Ord, StrengthRule(n)) == Tag(SortedAbove(s, max, n - 1), true)
  {
    var k, x, y := Selected(StrengthRule(n)), Filter(s, Weaker(n + 1)), ByRank(s, Strength, 0 - max, 0 - (n + 1));
    StrengthSelects(s, max, n);
    OrdActive(x + y, StrengthRule(n));
    FilterConcat(x, y, k);
    FilterConcat(x, y, Not(k));
    MoveLast(Filter(s, Weaker(n)), y, Filter(s, Ranked(Strength, 0 - n)));
  }

  lemma AllMoved(s: seq<Cipher>, max: nat)
    ensures SortedAbove(s, max, -1) == ByRank(s, Strength, 0 - max, 0)
  {
    FilterNone(s, Weaker(0));
    assert [] + ByRank(s, Strength, 0 - max, 0) == ByRank(s, Strength, 0 - max, 0);
  }

  lemma {:induction false} StrengthSteps(s: seq<Cipher>, max: nat, n: int)
    requires -1 <= n <= max
    ensures SortStrength(Tag(SortedAbove(s, max, n), true), n) == Tag(ByRank(s, Strength, 0 - max, 0), true)
    decreases n
  {
    if n >= 0 {
      StrengthStep(s, max, n);
      StrengthSteps(s, max, n - 1);
    } else {
      AllMoved(s, max);
    }
  }

  lemma TagStrength(s: seq<Cipher>)
    ensures forall i :: 0 <= i < |s| ==> s[i].strengthBits <= MaxStrength(Tag(s, true))
  {
    forall i | 0 <= i < |s|
      ensures s[i].strengthBits <= MaxStrength(Tag(s, true))
    {
      assert Tag(s, true)[i] == Entry(s[i], true);
    }
  }

  /** Sorting active ciphers by strength is the stable sort, strongest first. */
  lemma StrengthStage(s: seq<Cipher>) returns (p: seq<Cipher>)
    ensures SortStrength(Tag(s, true), MaxStrength(Tag(s, true))) == Tag(p, true) && StablySorted(p, s, [Strength])
  {
    var max: nat := MaxStrength(Tag(s, true));
    p := ByRank(s, Strength, 0 - max, 0);
    TagStrength(s);
    ByRankStable(s, Strength, 0 - max, 0);
    FilterAll(s, Weaker(max + 1));
    assert SortedAbove(s, max, max) == s;
    StrengthSteps(s, max, max);
  }

  /** A strength that no active entry has moves nothing. */
  lemma UnusedStrength(e: seq<Entry>, n: nat)
    requires forall i :: 0 <= i < |e| && e[i].active ==> e[i].cipher.strengthBits != n
    ensures Apply(e, Ord, StrengthRule(n)) == e
  {
    NothingTaken(e, Ord, StrengthRule(n));
    assert e + [] == e;
  }

  lemma {:induction false} NothingTaken(e: seq<Entry>, rule: Rule, k: Criteria)
    requires forall i :: 0 <= i < |e| ==> !Takes(rule, k, e[i])
    ensures Part(e, rule, k, true) == [] && Part(e, rule, k, false) == e
  {
    if e != [] {
      NothingTaken(e[..|e| - 1], rule, k);
    }
  }

  // --------------------------------------------------------------------------
  // The whole prefix
  // --------------------------------------------------------------------------

  /** Until everything is active, in order of the bulk cipher. */
  function Activate(e: seq<Entry>, aesFirst: bool): (r: seq<Entry>) {
    var ecdhe := Apply(Apply(e, Add, KeyRule(Ecdhe)), Del, KeyRule(Ecdhe));
    Apply(Apply(Apply(ecdhe, Add, BulkRule(aesFirst)), Add, BulkRule(!aesFirst)), Add, EVERYTHING)
  }

  /** The four ORD rules. */
  function Demote(e: seq<Entry>): (r: seq<Entry>) {
    Apply(Apply(Apply(Apply(e, Ord, KeyRule(Md5)), Ord, KeyRule(Anonymous)), Ord, KeyRule(Rsa)), Ord, KeyRule(Rc4))
  }

  /** Everything inactive again, TLSv1.3 first. */
  function Deactivate(e: seq<Entry>): (r: seq<Entry>) {
    Apply(Apply(Apply(e, Del, EVERYTHING), Add, KeyRule(Tls13)), Del, KeyRule(Tls13))
  }

  function Arranged(e: seq<Entry>, aesFirst: bool): (r: seq<Entry>) {
    var demoted := Demote(Activate(e, aesFirst));
    Deactivate(SortStrength(demoted, MaxStrength(demoted)))
  }

  lemma ActivateStable(t: seq<Cipher>, aesFirst: bool) returns (p: seq<Cipher>)
    ensures Activate(Tag(t, false), aesFirst) == Tag(p, true) && StablySorted(p, t, [Bulk(aesFirst), Ecdhe])
  {
    SortedByNothing(t);
    var p0 := AddDelStage(t, Ecdhe);
    assert [Ecdhe] + [] == [Ecdhe];
    p := BulkStage(p0, aesFirst);
    SortByOneMore(p, p0, t, Bulk(aesFirst), [Ecdhe]);
    assert [Bulk(aesFirst)] + [Ecdhe] == [Bulk(aesFirst), Ecdhe];
  }

  lemma DemoteStable(s: seq<Cipher>, t: seq<Cipher>, keys: seq<Key>) returns (p: seq<Cipher>)
    requires StablySorted(s, t, keys)
    ensures Demote(Tag(s, true)) == Tag(p, true) && StablySorted(p, t, [Rc4, Rsa, Anonymous, Md5] + keys)
  {
    var p1 := OrdStage(s, Md5);
    SortByOneMore(p1, s, t, Md5, keys);
    var p2 := OrdStage(p1, Anonymous);
    SortByOneMore(p2, p1, t, Anonymous, [Md5] + keys);
    var p3 := OrdStage(p2, Rsa);
    SortByOneMore(p3, p2, t, Rsa, [Anonymous] + ([Md5] + keys));
    p := OrdStage(p3, Rc4);
    SortByOneMore(p, p3, t, Rc4, [Rsa] + ([Anonymous] + ([Md5] + keys)));
    assert [Rc4] + ([Rsa] + ([Anonymous] + ([Md5] + keys))) == [Rc4, Rsa, Anonymous, Md5] + keys;
  }

  lemma DeactivateStable(s: seq<Cipher>, t: seq<Cipher>, keys: seq<Key>) returns (p: seq<Cipher>)
    requires StablySorted(s, t, keys)
    ensures Deactivate(Tag(s, true)) == Tag(p, false) && StablySorted(p, t, [Tls13] + keys)
  {
    ActiveOnly(s);
    DelHalves([], s, EVERYTHING);
    assert s + [] == s;
    p := AddDelStage(s, Tls13);
    SortByOneMore(p, s, t, Tls13, keys);
  }

  /** Most significant first. */
  function Preference(aesFirst: bool): (keys: seq<Key>) {
    [Tls13, Strength, Rc4, Rsa, Anonymous, Md5, Bulk(aesFirst), Ecdhe]
  }

  /** The middle of the prefix: everything stays active. */
  lemma SortStable(s: seq<Cipher>, t: seq<Cipher>, keys: seq<Key>) returns (p: seq<Cipher>)
    requires StablySorted(s, t, keys)
    ensures var demoted := Demote(Tag(s, true)); SortStrength(demoted, MaxStrength(demoted)) == Tag(p, true)
    ensures StablySorted(p, t, [Strength, Rc4, Rsa, Anonymous, Md5] + keys)
  {
    var q := DemoteStable(s, t, keys);
    p := StrengthStage(q);
    SortByOneMore(p, q, t, Strength, [Rc4, Rsa, Anonymous, Md5] + keys);
    assert [Strength] + ([Rc4, Rsa, Anonymous, Md5] + keys) == [Strength, Rc4, Rsa, Anonymous, Md5] + keys;
  }

  lemma PreferenceKeys(aesFirst: bool)
    ensures [Tls13] + ([Strength, Rc4, Rsa, Anonymous, Md5] + [Bulk(aesFirst), Ecdhe]) == Preference(aesFirst)
  {
  }

  /** For any table, the prefix leaves everything inactive, in the stable order of preference. */
  lemma ArrangedStably(t: seq<Cipher>, aesFirst: bool) returns (p: seq<Cipher>)
    ensures Arranged(Tag(t, false), aesFirst) == Tag(p, false)
    ensures StablySorted(p, t, Preference(aesFirst)) && multiset(p) == multiset(t)
  {
    var keys := [Bulk(aesFirst), Ecdhe];
    var p1 := ActivateStable(t, aesFirst);
    var p2 := SortStable(p1, t, keys);
    p := DeactivateStable(p2, t, [Strength, Rc4, Rsa, Anonymous, Md5] + keys);
    PreferenceKeys(aesFirst);
    StableSortPermutes(p, t, Preference(aesFirst));
  }
}
