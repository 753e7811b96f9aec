/** Stable lexicographic orders on cipher suites, and how sorting key by key builds them. */
module StableOrder {
  import opened CipherRules

  const K_RSA: bv32 := 0x1
  const K_ECDHE: bv32 := 0x80
  const A_NULL: bv32 := 0x4
  const E_RC4: bv32 := 0x4
  const E_AES: bv32 := 0x20 | 0x40 | 0x400 | 0x800
  const E_CHACHA20POLY1305: bv32 := 0x1000
  const M_MD5: bv32 := 0x1
  const TLSV1_3: bv32 := 0x8

  /** One thing ciphers are compared by. */
  datatype Key = Tls13 | Strength | Rc4 | Rsa | Anonymous | Md5 | Bulk(aesFirst: bool) | Ecdhe

  function Late(b: bool): (r: int) { if b then 1 else 0 }

  function BulkMask(aes: bool): (r: bv32) { if aes then E_AES else E_CHACHA20POLY1305 }

  /** Smaller is preferred. */
  function Rank(key: Key, c: Cipher): (r: int) {
    match key
    case Tls13 => Late(TLSV1_3 & c.ssl == 0)
    case Strength => 0 - c.strengthBits
    case Rc4 => Late(E_RC4 & c.enc != 0)
    case Rsa => Late(K_RSA & c.mkey != 0)
    case Anonymous => Late(A_NULL & c.auth != 0)
    case Md5 => Late(M_MD5 & c.mac != 0)
    case Bulk(aesFirst) =>
      if BulkMask(aesFirst) & c.enc != 0 then 0 else if BulkMask(!aesFirst) & c.enc != 0 then 1 else 2
    case Ecdhe => Late(K_ECDHE & c.mkey == 0)
  }

  /** c may stand before d, comparing by the first key first. */
  predicate Before(keys: seq<Key>, c: Cipher, d: Cipher) {
    keys == [] ||
    Rank(keys[0], c) < Rank(keys[0], d) ||
    (Rank(keys[0], c) == Rank(keys[0], d) && Before(keys[1..], c, d))
  }

  predicate Alike(keys: seq<Key>, c: Cipher, d: Cipher) {
    keys == [] || (Rank(keys[0], c) == Rank(keys[0], d) && Alike(keys[1..], c, d))
  }

  ghost predicate Sorted(keys: seq<Key>, s: seq<Cipher>) {
    forall i, j :: 0 <= i < j < |s| ==> Before(keys, s[i], s[j])
  }

  /** A way to select ciphers. */
  datatype Test = Selected(k: Criteria) | Ranked(key: Key, rank: int) | Weaker(bits: int)
                | Like(keys: seq<Key>, c: Cipher) | Not(t: Test) | Both(t: Test, u: Test)

  predicate Holds(t: Test, c: Cipher) {
    match t
    case Selected(k) => Matches(k, c)
    case Ranked(key, rank) => Rank(key, c) == rank
    case Weaker(bits) => c.strengthBits < bits
    case Like(keys, d) => Alike(keys, c, d)
    case Not(u) => !Holds(u, c)
    case Both(u, v) => Holds(u, c) && Holds(v, c)
  }

  function Filter(s: seq<Cipher>, t: Test): (r: seq<Cipher>)
    ensures |r| <= |s|
  {
    if s == [] then [] else
      var c := s[|s| - 1];
      Filter(s[..|s| - 1], t) + (if Holds(t, c) then [c] else [])
  }

  /** The stable sort of `given`: in order, with alike ciphers as they were given. */
  ghost predicate StablySorted(sorted: seq<Cipher>, given: seq<Cipher>, keys: seq<Key>) {
    && Sorted(keys, sorted)
    && forall c :: Filter(sorted, Like(keys, c)) == Filter(given, Like(keys, c))
  }

  // --------------------------------------------------------------------------
  // Filters
  // --------------------------------------------------------------------------

  lemma FilterSnoc(s: seq<Cipher>, c: Cipher, t: Test)
    ensures Filter(s + [c], t) == Filter(s, t) + (if Holds(t, c) then [c] else [])
  {
    assert (s + [c])[..|s|] == s;
  }

  lemma {:induction false} FilterConcat(a: seq<Cipher>, b: seq<Cipher>, t: Test)
    ensures Filter(a + b, t) == Filter(a, t) + Filter(b, t)
  {
    if b == [] {
      assert a + b == a;
    } else {
      FilterConcat(a, b[..|b| - 1], t);
      assert (a + b)[..|a + b| - 1] == a + b[..|b| - 1];
    }
  }

  lemma {:induction false} FilterSame(s: seq<Cipher>, t: Test, u: Test)
    requires forall c :: Holds(t, c) <==> Holds(u, c)
    ensures Filter(s, t) == Filter(s, u)
  {
    if s != [] {
      FilterSame(s[..|s| - 1], t, u);
    }
  }

  lemma {:induction false} FilterAll(s: seq<Cipher>, t: Test)
    requires forall i :: 0 <= i < |s| ==> Holds(t, s[i])
    ensures Filter(s, t) == s
  {
    if s != [] {
      FilterAll(s[..|s| - 1], t);
    }
  }

  lemma {:induction false} FilterNone(s: seq<Cipher>, t: Test)
    requires forall i :: 0 <= i < |s| ==> !Holds(t, s[i])
    ensures Filter(s, t) == []
  {
    if s != [] {
      FilterNone(s[..|s| - 1], t);
    }
  }

  lemma {:induction false} FilterTwice(s: seq<Cipher>, t: Test, u: Test)
    ensures Filter(Filter(s, t), u) == Filter(s, Both(t, u))
  {
    if s != [] {
      var q, c := s[..|s| - 1], s[|s| - 1];
      FilterTwice(q, t, u);
      FilterSnoc(Filter(q, t), c, u);
      assert Holds(Both(t, u), c) <==> Holds(t, c) && Holds(u, c);
      assert Filter(q, t) + [] == Filter(q, t);
    }
  }

  lemma FilterInto(s: seq<Cipher>, t: Test, u: Test, both: Test)
    requires forall c :: Holds(both, c) <==> Holds(t, c) && Holds(u, c)
    ensures Filter(Filter(s, t), u) == Filter(s, both)
  {
    FilterTwice(s, t, u);
    FilterSame(s, Both(t, u), both);
  }

  lemma {:induction false} FilterMembers(s: seq<Cipher>, t: Test, c: Cipher)
    ensures c in Filter(s, t) <==> c in s && Holds(t, c)
  {
    if s != [] {
      var q := s[..|s| - 1];
      FilterMembers(q, t, c);
      assert s == q + [s[|s| - 1]];
    }
  }

  lemma CountSnoc(s: seq<Cipher>, x: Cipher, c: Cipher)
    ensures multiset(s + [x])[c] == multiset(s)[c] + Late(x == c)
  {
  }

  lemma {:induction false} FilterCounts(s: seq<Cipher>, t: Test, c: Cipher)
    requires Holds(t, c)
    ensures multiset(Filter(s, t))[c] == multiset(s)[c]
  {
    if s != [] {
      var q, x := s[..|s| - 1], s[|s| - 1];
      assert s == q + [x];
      CountSnoc(q, x, c);
      FilterCounts(q, t, c);
      if Holds(t, x) {
        CountSnoc(Filter(q, t), x, c);
      } else {
        assert Filter(s, t) == Filter(q, t);
      }
    }
  }

  // --------------------------------------------------------------------------
  // Orders
  // --------------------------------------------------------------------------

  lemma {:induction false} AlikeSelf(keys: seq<Key>, c: Cipher)
    ensures Alike(keys, c, c)
  {
    if keys != [] {
      AlikeSelf(keys[1..], c);
    }
  }

  /** A stable sort is a permutation. */
  lemma StableSortPermutes(sorted: seq<Cipher>, given: seq<Cipher>, keys: seq<Key>)
    requires StablySorted(sorted, given, keys)
    ensures multiset(sorted) == multiset(given)
  {
    forall c: Cipher
      ensures multiset(sorted)[c] == multiset(given)[c]
    {
      AlikeSelf(keys, c);
      FilterCounts(sorted, Like(keys, c), c);
      FilterCounts(given, Like(keys, c), c);
    }
  }

  lemma {:induction false} FilterKeepsOrder(s: seq<Cipher>, keys: seq<Key>, t: Test)
    requires Sorted(keys, s)
    ensures Sorted(keys, Filter(s, t))
  {
    if s != [] {
      var q, c := s[..|s| - 1], s[|s| - 1];
      FilterKeepsOrder(q, keys, t);
      var f := Filter(q, t);
      forall i | 0 <= i < |f|
        ensures Before(keys, f[i], c)
      {
        FilterMembers(q, t, f[i]);
        var j :| 0 <= j < |q| && q[j] == f[i];
        assert s[j] == f[i];
      }
    }
  }

  /** Stable by one more significant key: enough that every class of that key is sorted. */
  lemma {:induction false} ClassesSorted(p: seq<Cipher>, key: Key, keys: seq<Key>)
    requires Sorted([key], p) && forall v :: Sorted(keys, Filter(p, Ranked(key, v)))
    ensures Sorted([key] + keys, p)
  {
    if p != [] {
      var q, x := p[..|p| - 1], p[|p| - 1];
      forall v
        ensures Sorted(keys, Filter(q, Ranked(key, v)))
      {
        var whole := Filter(p, Ranked(key, v));
        assert Filter(q, Ranked(key, v)) == whole[..|Filter(q, Ranked(key, v))|];
      }
      ClassesSorted(q, key, keys);
      forall i | 0 <= i < |q|
        ensures Before([key] + keys, q[i], x)
      {
        LastInOrder(p, key, keys, i);
      }
    }
  }

  lemma LastInOrder(p: seq<Cipher>, key: Key, keys: seq<Key>, i: nat)
    requires i < |p| - 1 && Sorted([key], p) && Sorted(keys, Filter(p, Ranked(key, Rank(key, p[|p| - 1]))))
    ensures Before([key] + keys, p[i], p[|p| - 1])
  {
    var q, x := p[..|p| - 1], p[|p| - 1];
    var t := Ranked(key, Rank(key, x));
    assert Before([key], p[i], x);
    assert ([key] + keys)[1..] == keys;
    if Rank(key, p[i]) == Rank(key, x) {
      assert q[i] == p[i];
      FilterMembers(q, t, p[i]);
      var f := Filter(q, t);
      var j :| 0 <= j < |f| && f[j] == p[i];
      assert Filter(p, t) == f + [x];
      assert Filter(p, t)[j] == p[i] && Filter(p, t)[|f|] == x;
    }
  }

  lemma LikeOne(key: Key, keys: seq<Key>, c: Cipher)
    ensures forall d :: Holds(Like([key] + keys, c), d) <==> Holds(Both(Ranked(key, Rank(key, c)), Like(keys, c)), d)
    ensures forall d :: Holds(Like([key] + keys, c), d) <==> Holds(Both(Like(keys, c), Ranked(key, Rank(key, c))), d)
  {
    assert ([key] + keys)[1..] == keys;
  }

  lemma LikeKey(key: Key, c: Cipher)
    ensures forall d :: Holds(Like([key], c), d) <==> Holds(Ranked(key, Rank(key, c)), d)
  {
    forall d
      ensures Holds(Like([key], c), d) <==> Holds(Ranked(key, Rank(key, c)), d)
    {
      assert [key][1..] == [] && Alike([], d, c);
    }
  }

  /** Classes of a key are kept by a stable sort by that key, for every rank. */
  lemma ClassKept(p: seq<Cipher>, s: seq<Cipher>, key: Key, v: int)
    requires StablySorted(p, s, [key])
    ensures Filter(p, Ranked(key, v)) == Filter(s, Ranked(key, v))
  {
    if c: Cipher :| Rank(key, c) == v {
      LikeKey(key, c);
      FilterSame(p, Like([key], c), Ranked(key, v));
      FilterSame(s, Like([key], c), Ranked(key, v));
    } else {
      FilterNone(p, Ranked(key, v));
      FilterNone(s, Ranked(key, v));
    }
  }

  /** Sorting stably by one key puts it in front of the keys sorted by before. */
  lemma SortByOneMore(p: seq<Cipher>, s: seq<Cipher>, t: seq<Cipher>, key: Key, keys: seq<Key>)
    requires StablySorted(p, s, [key]) && StablySorted(s, t, keys)
    ensures StablySorted(p, t, [key] + keys)
  {
    forall v
      ensures Sorted(keys, Filter(p, Ranked(key, v)))
    {
      ClassKept(p, s, key, v);
      FilterKeepsOrder(s, keys, Ranked(key, v));
    }
    ClassesSorted(p, key, keys);
    forall c
      ensures Filter(p, Like([key] + keys, c)) == Filter(t, Like([key] + keys, c))
    {
      LikeTransfers(p, s, t, key, keys, c);
    }
  }

  lemma LikeTransfers(p: seq<Cipher>, s: seq<Cipher>, t: seq<Cipher>, key: Key, keys: seq<Key>, c: Cipher)
    requires StablySorted(p, s, [key]) && StablySorted(s, t, keys)
    ensures Filter(p, Like([key] + keys, c)) == Filter(t, Like([key] + keys, c))
  {
    var r, l, all := Ranked(key, Rank(key, c)), Like(keys, c), Like([key] + keys, c);
    LikeOne(key, keys, c);
    calc {
      Filter(p, all);
      { FilterSame(p, all, Both(r, l)); FilterTwice(p, r, l); }
      Filter(Filter(p, r), l);
      { ClassKept(p, s, key, Rank(key, c)); }
      Filter(Filter(s, r), l);
      { FilterTwice(s, r, l); FilterSame(s, all, Both(r, l)); FilterSame(s, all, Both(l, r)); FilterTwice(s, l, r); }
      Filter(Filter(s, l), r);
      Filter(Filter(t, l), r);
      { FilterTwice(t, l, r); FilterSame(t, all, Both(l, r)); }
      Filter(t, all);
    }
  }

  /** A list is the stable sort of itself by nothing. */
  lemma SortedByNothing(s: seq<Cipher>)
    ensures StablySorted(s, s, [])
  {
  }

  /** Stable sorts by one key, said with classes. */
  lemma FromClasses(p: seq<Cipher>, s: seq<Cipher>, key: Key)
    requires Sorted([key], p) && forall v :: Filter(p, Ranked(key, v)) == Filter(s, Ranked(key, v))
    ensures StablySorted(p, s, [key])
  {
    forall c
      ensures Filter(p, Like([key], c)) == Filter(s, Like([key], c))
    {
      LikeKey(key, c);
      FilterSame(p, Like([key], c), Ranked(key, Rank(key, c)));
      FilterSame(s, Like([key], c), Ranked(key, Rank(key, c)));
    }
  }
}
