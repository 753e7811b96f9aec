/** The cipher ordering rules of ssl_ciph.c as functions on sequences. */
module CipherRules {

  /** The fields of SSL_CIPHER that rules look at. */
  datatype Cipher = Cipher(value: nat, mkey: bv32, auth: bv32, enc: bv32, mac: bv32, ssl: bv32,
                           algoStrength: bv32, strengthBits: nat)

  datatype Rule = Add | Kill | Del | Ord

  /** What a rule selects; zero masks and value select everything, a nonnegative strengthBits
      selects by strength alone. */
  datatype Criteria = Criteria(value: nat, mkey: bv32, auth: bv32, enc: bv32, mac: bv32, ssl: bv32,
                               algoStrength: bv32, strengthBits: int)

  const STRONG_MASK: bv32 := 0x1fc

  predicate Allows(wanted: bv32, has: bv32) {
    wanted == 0 || wanted & has != 0
  }

  predicate Matches(k: Criteria, c: Cipher) {
    && (k.value == 0 || c.value == k.value)
    && if k.strengthBits >= 0 then k.strengthBits == c.strengthBits
       else
         && Allows(k.mkey, c.mkey) && Allows(k.auth, c.auth) && Allows(k.enc, c.enc)
         && Allows(k.mac, c.mac) && Allows(k.ssl, c.ssl)
         && Allows(k.algoStrength & STRONG_MASK, c.algoStrength)
  }

  datatype Entry = Entry(cipher: Cipher, active: bool)

  function SetActive(s: seq<Entry>, flag: bool): (r: seq<Entry>)
    ensures |r| == |s|
  {
    seq(|s|, i requires 0 <= i < |s| => s[i].(active := flag))
  }

  /** Which entries a rule takes out of their place. */
  predicate Takes(rule: Rule, k: Criteria, e: Entry) {
    Matches(k, e.cipher) &&
    match rule
    case Add => !e.active
    case Kill => true
    case Del => e.active
    case Ord => e.active
  }

  /** The entries a rule takes (or leaves), in order. */
  function Part(s: seq<Entry>, rule: Rule, k: Criteria, taken: bool): (r: seq<Entry>) {
    if s == [] then [] else
      var e := s[|s| - 1];
      Part(s[..|s| - 1], rule, k, taken) + (if Takes(rule, k, e) == taken then [e] else [])
  }

  lemma {:induction false} PartMembers(s: seq<Entry>, rule: Rule, k: Criteria, taken: bool, e: Entry)
    requires e in Part(s, rule, k, taken)
    ensures e in s && Takes(rule, k, e) == taken
  {
    var last := s[|s| - 1];
    if e in Part(s[..|s| - 1], rule, k, taken) {
      PartMembers(s[..|s| - 1], rule, k, taken, e);
    }
  }

  /** ADD and ORD move the taken entries to the end, DEL to the front, always in their old order;
      KILL drops them. */
  function Apply(s: seq<Entry>, rule: Rule, k: Criteria): (r: seq<Entry>) {
    var taken := Part(s, rule, k, true);
    var left := Part(s, rule, k, false);
    match rule
    case Add => left + SetActive(taken, true)
    case Ord => left + taken
    case Del => SetActive(taken, false) + left
    case Kill => left
  }

  function Ciphers(s: seq<Entry>): (r: seq<Cipher>)
    ensures |r| == |s| && forall i :: 0 <= i < |s| ==> r[i] == s[i].cipher
  {
    seq(|s|, i requires 0 <= i < |s| => s[i].cipher)
  }

  // --------------------------------------------------------------------------
  // Nothing appears
  // --------------------------------------------------------------------------

  lemma ApplyShrinks(s: seq<Entry>, rule: Rule, k: Criteria, e: Entry)
    requires e in Apply(s, rule, k)
    ensures exists x :: x in s && x.cipher == e.cipher && (rule.Kill? ==> !Matches(k, e.cipher))
  {
    var taken, left := Part(s, rule, k, true), Part(s, rule, k, false);
    if e in left {
      PartMembers(s, rule, k, false, e);
    } else if rule.Ord? {
      PartMembers(s, rule, k, true, e);
    } else {
      var t := SetActive(taken, rule.Add?);
      var i :| 0 <= i < |t| && t[i] == e;
      PartMembers(s, rule, k, true, taken[i]);
      assert taken[i].cipher == e.cipher;
    }
  }

  // --------------------------------------------------------------------------
  // Rules other than KILL permute the ciphers
  // --------------------------------------------------------------------------

  lemma PartSnoc(t: seq<Entry>, e: Entry, rule: Rule, k: Criteria, taken: bool)
    ensures Part(t + [e], rule, k, taken) == Part(t, rule, k, taken) + (if Takes(rule, k, e) == taken then [e] else [])
  {
    assert (t + [e])[..|t|] == t;
  }

  lemma CiphersConcat(a: seq<Entry>, b: seq<Entry>)
    ensures Ciphers(a + b) == Ciphers(a) + Ciphers(b)
  {
  }

  lemma {:induction false} SplitCiphers(s: seq<Entry>, rule: Rule, k: Criteria)
    ensures multiset(Ciphers(Part(s, rule, k, true))) + multiset(Ciphers(Part(s, rule, k, false)))
         == multiset(Ciphers(s))
  {
    if s != [] {
      var t, e := s[..|s| - 1], s[|s| - 1];
      var taken := Takes(rule, k, e);
      SplitCiphers(t, rule, k);
      assert s == t + [e];
      CiphersConcat(t, [e]);
      CiphersConcat(Part(t, rule, k, taken), [e]);
      assert Part(s, rule, k, !taken) == Part(t, rule, k, !taken);
      assert Ciphers([e]) == [e.cipher];
    }
  }

  /** ADD, ORD and DEL only reorder. */
  lemma ApplyPermutes(s: seq<Entry>, rule: Rule, k: Criteria)
    requires !rule.Kill?
    ensures multiset(Ciphers(Apply(s, rule, k))) == multiset(Ciphers(s))
  {
    var taken, left := Part(s, rule, k, true), Part(s, rule, k, false);
    SplitCiphers(s, rule, k);
    var moved := if rule.Ord? then taken else SetActive(taken, rule.Add?);
    assert Ciphers(moved) == Ciphers(taken);
    CiphersConcat(left, moved);
    CiphersConcat(moved, left);
  }

  // --------------------------------------------------------------------------
  // What is selected, kept and moved
  // --------------------------------------------------------------------------

  /** The entries for which hit is b, in order. */
  function Kept(s: seq<Entry>, hit: seq<bool>, b: bool): (r: seq<Entry>)
    requires |hit| == |s|
  {
    if s == [] then [] else
      Kept(s[..|s| - 1], hit[..|s| - 1], b) + (if hit[|s| - 1] == b then [s[|s| - 1]] else [])
  }

  lemma {:induction false} PartIsKept(s: seq<Entry>, rule: Rule, k: Criteria, hit: seq<bool>, b: bool)
    requires |hit| == |s| && forall i :: 0 <= i < |s| ==> hit[i] == Takes(rule, k, s[i])
    ensures Part(s, rule, k, b) == Kept(s, hit, b)
  {
    if s != [] {
      PartIsKept(s[..|s| - 1], rule, k, hit[..|s| - 1], b);
    }
  }

  /** A mask that is given shares a bit with what the cipher has. */
  predicate Meets(mask: bv32, bits: bv32) {
    mask != 0 ==> mask & bits != 0
  }

  lemma AllowsMeans(mask: bv32, bits: bv32)
    ensures Allows(mask, bits) == Meets(mask, bits)
  {
  }

  predicate Masked(k: Criteria, c: Cipher) {
    && Meets(k.mkey, c.mkey) && Meets(k.auth, c.auth) && Meets(k.enc, c.enc) && Meets(k.mac, c.mac)
    && Meets(k.ssl, c.ssl) && Meets(k.algoStrength & 0x1fc, c.algoStrength)
  }

  /** The cipher has the value, if one is given, and the strength in bits, if one is given, or else a bit of every
      mask that is given, of which the strength class is one of seven bits. */
  predicate Chosen(k: Criteria, c: Cipher) {
    && (k.value != 0 ==> c.value == k.value)
    && (k.strengthBits >= 0 ==> c.strengthBits == k.strengthBits)
    && (k.strengthBits < 0 ==> Masked(k, c))
  }

  /** ADD goes for the inactive ones of them, DEL and ORD for the active ones, KILL for all. */
  predicate Meant(rule: Rule, k: Criteria, e: Entry) {
    Chosen(k, e.cipher) && (rule.Add? ==> !e.active) && (rule.Del? || rule.Ord? ==> e.active)
  }

  /** ADD activates the entries it goes for and moves them to the end, ORD moves them to the end, DEL deactivates
      them and moves them to the front, KILL drops them; order is kept among them and among the others. */
  lemma RuleMeans(s: seq<Entry>, rule: Rule, k: Criteria, hit: seq<bool>)
    requires |hit| == |s| && forall i :: 0 <= i < |s| ==> hit[i] == Meant(rule, k, s[i])
    ensures rule.Add? ==> Apply(s, rule, k) == Kept(s, hit, false) + SetActive(Kept(s, hit, true), true)
    ensures rule.Ord? ==> Apply(s, rule, k) == Kept(s, hit, false) + Kept(s, hit, true)
    ensures rule.Del? ==> Apply(s, rule, k) == SetActive(Kept(s, hit, true), false) + Kept(s, hit, false)
    ensures rule.Kill? ==> Apply(s, rule, k) == Kept(s, hit, false)
  {
    forall i | 0 <= i < |s|
      ensures hit[i] == Takes(rule, k, s[i])
    {
      MeantTaken(rule, k, s[i]);
    }
    hide Meant, Takes;
    PartIsKept(s, rule, k, hit, true);
    PartIsKept(s, rule, k, hit, false);
  }

  lemma MasksMet(k: Criteria, c: Cipher)
    ensures Masked(k, c) <==>
            && Allows(k.mkey, c.mkey) && Allows(k.auth, c.auth) && Allows(k.enc, c.enc)
            && Allows(k.mac, c.mac) && Allows(k.ssl, c.ssl) && Allows(k.algoStrength & STRONG_MASK, c.algoStrength)
  {
    hide Allows, Meets;
    AllowsMeans(k.mkey, c.mkey);
    AllowsMeans(k.auth, c.auth);
    AllowsMeans(k.enc, c.enc);
    AllowsMeans(k.mac, c.mac);
    AllowsMeans(k.ssl, c.ssl);
    AllowsMeans(k.algoStrength & STRONG_MASK, c.algoStrength);
  }

  lemma ChosenMatches(k: Criteria, c: Cipher)
    ensures Chosen(k, c) <==> Matches(k, c)
  {
    hide Allows, Masked;
    MasksMet(k, c);
  }

  lemma MeantTaken(rule: Rule, k: Criteria, e: Entry)
    ensures Meant(rule, k, e) <==> Takes(rule, k, e)
  {
    hide Chosen, Matches;
    ChosenMatches(k, e.cipher);
  }
}
