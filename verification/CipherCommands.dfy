/** The commands of a rule string: ordering rules and @STRENGTH, one after the other. */
module CipherCommands {
  import opened CipherRules
  import opened StableOrder
  import opened CipherPreference

  datatype Command = ByRule(rule: Rule, k: Criteria) | ByStrength

  function Do(s: seq<Entry>, c: Command): (r: seq<Entry>) {
    match c
    case ByRule(rule, k) => Apply(s, rule, k)
    case ByStrength => SortStrength(s, MaxStrength(s))
  }

  function DoAll(s: seq<Entry>, commands: seq<Command>): (r: seq<Entry>)
    decreases |commands|
  {
    if commands == [] then s else DoAll(Do(s, commands[0]), commands[1..])
  }

  // --------------------------------------------------------------------------
  // Nothing appears, and what is killed stays away
  // --------------------------------------------------------------------------

  lemma {:induction false} SortAddsNothing(s: seq<Entry>, n: int, e: Entry)
    requires n >= -1 && e in SortStrength(s, n)
    ensures exists x :: x in s && x.cipher == e.cipher
    decreases n
  {
    if n >= 0 {
      var s1 := Apply(s, Ord, StrengthRule(n));
      SortAddsNothing(s1, n - 1, e);
      var x :| x in s1 && x.cipher == e.cipher;
      ApplyShrinks(s, Ord, StrengthRule(n), x);
    }
  }

  lemma {:induction false} NothingAppears(s: seq<Entry>, commands: seq<Command>, e: Entry)
    requires e in DoAll(s, commands)
    ensures exists x :: x in s && x.cipher == e.cipher
    decreases |commands|
  {
    if commands != [] {
      var c, s1 := commands[0], Do(s, commands[0]);
      NothingAppears(s1, commands[1..], e);
      var x :| x in s1 && x.cipher == e.cipher;
      if c.ByRule? {
        ApplyShrinks(s, c.rule, c.k, x);
      } else {
        SortAddsNothing(s, MaxStrength(s), x);
      }
    }
  }

  /** A killed cipher never reappears, whatever commands follow. */
  lemma KilledStaysAway(s: seq<Entry>, k: Criteria, later: seq<Command>, e: Entry)
    requires e in DoAll(Apply(s, Kill, k), later)
    ensures !Matches(k, e.cipher)
  {
    var s1 := Apply(s, Kill, k);
    NothingAppears(s1, later, e);
    var x :| x in s1 && x.cipher == e.cipher;
    ApplyShrinks(s, Kill, k, x);
  }

  // --------------------------------------------------------------------------
  // Sorting by strength when some entries are inactive
  // --------------------------------------------------------------------------

  /** The ciphers with this flag, in order. */
  function Flagged(e: seq<Entry>, flag: bool): (r: seq<Cipher>) {
    if e == [] then [] else
      var x := e[|e| - 1];
      Flagged(e[..|e| - 1], flag) + (if x.active == flag then [x.cipher] else [])
  }

  /** Moving by strength concerns the active entries alone. */
  lemma {:induction false} LeftFlagged(e: seq<Entry>, n: nat)
    ensures var left := Part(e, Ord, StrengthRule(n), false);
            && Flagged(left, false) == Flagged(e, false)
            && Flagged(left, true) == Filter(Flagged(e, true), Not(Selected(StrengthRule(n))))
  {
    if e != [] {
      var t, x, k := e[..|e| - 1], e[|e| - 1], StrengthRule(n);
      LeftFlagged(t, n);
      var left := Part(t, Ord, k, false);
      if Takes(Ord, k, x) {
        assert Part(e, Ord, k, false) == left;
        FilterSnoc(Flagged(t, true), x.cipher, Not(Selected(k)));
      } else {
        FlaggedSnoc(left, x);
        if x.active {
          FilterSnoc(Flagged(t, true), x.cipher, Not(Selected(k)));
        } else {
          assert Flagged(e, true) == Flagged(t, true);
        }
      }
    }
  }

  lemma {:induction false} TakenFlagged(e: seq<Entry>, n: nat)
    ensures Part(e, Ord, StrengthRule(n), true) == Tag(Filter(Flagged(e, true), Selected(StrengthRule(n))), true)
  {
    if e != [] {
      var t, x, k := e[..|e| - 1], e[|e| - 1], StrengthRule(n);
      TakenFlagged(t, n);
      if x.active {
        TagFilterSnoc(Flagged(t, true), x.cipher, true, Selected(k));
      } else {
        assert Flagged(e, true) == Flagged(t, true);
      }
    }
  }

  lemma FlaggedSnoc(e: seq<Entry>, x: Entry)
    ensures forall flag :: Flagged(e + [x], flag) == Flagged(e, flag) + (if x.active == flag then [x.cipher] else [])
  {
    assert (e + [x])[..|e|] == e;
  }

  lemma {:induction false} NoneActive(e: seq<Entry>)
    requires Flagged(e, true) == []
    ensures e == Tag(Flagged(e, false), false)
  {
    if e != [] {
      NoneActive(e[..|e| - 1]);
    }
  }

  lemma OneStrength(left: seq<Entry>, s: seq<Cipher>, max: nat, n: nat) returns (rest: seq<Entry>)
    requires n <= max && Flagged(left, true) == Filter(s, Weaker(n + 1))
    ensures Flagged(rest, false) == Flagged(left, false) && Flagged(rest, true) == Filter(s, Weaker(n))
    ensures Apply(left + Tag(ByRank(s, Strength, 0 - max, 0 - (n + 1)), true), Ord, StrengthRule(n))
         == rest + Tag(ByRank(s, Strength, 0 - max, 0 - n), true)
  {
    var k, y, b := StrengthRule(n), ByRank(s, Strength, 0 - max, 0 - (n + 1)), Filter(s, Ranked(Strength, 0 - n));
    rest := Part(left, Ord, k, false);
    StrengthSelects(s, max, n);
    LeftFlagged(left, n);
    TakenFlagged(left, n);
    PartTag(y, true, Ord, k, true);
    PartTag(y, true, Ord, k, false);
    PartConcat(left, Tag(y, true), Ord, k, true);
    PartConcat(left, Tag(y, true), Ord, k, false);
    TagConcat(y, b, true);
    Reassociate(rest, Tag(y, true), Tag(b, true));
  }

  lemma Reassociate(a: seq<Entry>, b: seq<Entry>, c: seq<Entry>)
    ensures a + b + (c + []) == a + (b + c)
  {
  }

  lemma {:induction false} AllStrengths(left: seq<Entry>, s: seq<Cipher>, max: nat, n: int)
    requires -1 <= n <= max && Flagged(left, true) == Filter(s, Weaker(n + 1))
    ensures SortStrength(left + Tag(ByRank(s, Strength, 0 - max, 0 - (n + 1)), true), n)
         == Tag(Flagged(left, false), false) + Tag(ByRank(s, Strength, 0 - max, 0), true)
    decreases n
  {
    if n >= 0 {
      var rest := OneStrength(left, s, max, n);
      AllStrengths(rest, s, max, n - 1);
    } else {
      FilterNone(s, Weaker(0));
      NoneActive(left);
    }
  }

  lemma {:induction false} FlaggedWithin(e: seq<Entry>)
    ensures forall i :: 0 <= i < |Flagged(e, true)| ==> Flagged(e, true)[i].strengthBits <= MaxStrength(e)
  {
    if e != [] {
      FlaggedWithin(e[..|e| - 1]);
    }
  }

  /** @STRENGTH on any list: the inactive entries in front, in their old order, then the active ones in the stable
      order of descending strength. */
  lemma StrengthMeans(e: seq<Entry>) returns (p: seq<Cipher>)
    ensures Do(e, ByStrength) == Tag(Flagged(e, false), false) + Tag(p, true)
    ensures StablySorted(p, Flagged(e, true), [Strength])
  {
    var s, max: nat := Flagged(e, true), MaxStrength(e);
    p := ByRank(s, Strength, 0 - max, 0);
    FlaggedWithin(e);
    ByRankStable(s, Strength, 0 - max, 0);
    FilterAll(s, Weaker(max + 1));
    assert e + Tag(ByRank(s, Strength, 0 - max, 0 - (max + 1)), true) == e;
    AllStrengths(e, s, max, max);
  }
}
