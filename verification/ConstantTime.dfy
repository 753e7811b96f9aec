/** The branch-free comparators of the CBC record code, on 32-bit unsigned words.
    Words are integers with the wrap-around written out; bytes are `bv8`. */
module ConstantTime {
  import opened Arith

  type u32 = x: int | 0 <= x < 0x1_0000_0000

  const ONES: u32 := 0xffff_ffff

  function Sub(a: u32, b: u32): (r: u32) {
    (a - b) % 0x1_0000_0000
  }

  function Not(a: u32): (r: u32) {
    0xffff_ffff - a
  }

  /** The arithmetic right shift by 31: the top bit copied to every bit. */
  function DuplicateMsb(x: u32): (r: u32) {
    if x >= 0x8000_0000 then ONES else 0
  }

  function Lt(a: u32, b: u32): (r: u32) {
    DuplicateMsb(Sub(a, b))
  }

  function Ge(a: u32, b: u32): (r: u32) {
    DuplicateMsb(Not(Sub(a, b)))
  }

  function BoolMask(p: bool): (r: u32) {
    if p then ONES else 0
  }

  /** The comparator is right exactly when the operands differ by less than half the word range. */
  lemma LtExact(a: u32, b: u32)
    ensures Lt(a, b) == BoolMask(a < b) <==> -0x8000_0000 <= a - b < 0x8000_0000
  {
    assert Sub(a, b) == if a >= b then a - b else a - b + 0x1_0000_0000;
  }

  lemma GeExact(a: u32, b: u32)
    ensures Ge(a, b) == BoolMask(a >= b) <==> -0x8000_0000 <= a - b < 0x8000_0000
  {
    assert Sub(a, b) == if a >= b then a - b else a - b + 0x1_0000_0000;
  }

  /** Bitwise exclusive or of two words. */
  function Xor(a: nat, b: nat): (r: nat)
    ensures r == 0 <==> a == b
  {
    if a == 0 && b == 0 then 0 else
      assert a == 2 * (a / 2) + a % 2 && b == 2 * (b / 2) + b % 2;
      (if a % 2 == b % 2 then 0 else 1) + 2 * Xor(a / 2, b / 2)
  }

  lemma {:induction false} XorBound(a: nat, b: nat, n: nat)
    requires a < Pow2(n) && b < Pow2(n)
    ensures Xor(a, b) < Pow2(n)
  {
    if n > 0 && !(a == 0 && b == 0) {
      XorBound(a / 2, b / 2, n - 1);
    }
  }

  lemma Pow2Word()
    ensures Pow2(31) == 0x8000_0000 && Pow2(32) == 0x1_0000_0000
  {
    assert Pow2(8) == 256;
    assert Pow2(16) == 65536;
    assert Pow2(24) == 0x100_0000;
    assert Pow2(31) == 0x8000_0000;
  }

  lemma XorWord(a: u32, b: u32)
    ensures Xor(a, b) < 0x1_0000_0000
    ensures a < 0x8000_0000 && b < 0x8000_0000 ==> Xor(a, b) < 0x8000_0000
  {
    Pow2Word();
    XorBound(a, b, 32);
    if a < 0x8000_0000 && b < 0x8000_0000 {
      XorBound(a, b, 31);
    }
  }

  /** Truncation of a word to a byte. */
  function Low8(x: u32): (r: bv8) {
    (x % 256) as bv8
  }

  function Eq8(a: u32, b: u32): (r: bv8) {
    XorWord(a, b);
    Low8(DuplicateMsb(Sub(Xor(a, b), 1)))
  }

  function ByteMask(p: bool): (r: bv8) {
    if p then 0xff else 0
  }

  lemma Low8Mask(p: bool)
    ensures Low8(BoolMask(p)) == ByteMask(p)
  {
    assert ONES % 256 == 0xff;
  }

  /** Equality of words is decided correctly exactly when they agree in the top bit,
      or differ in the top bit alone. */
  lemma Eq8Exact(a: u32, b: u32)
    ensures Eq8(a, b) == ByteMask(a == b) <==> Xor(a, b) <= 0x8000_0000
  {
    XorWord(a, b);
    var x := Xor(a, b);
    assert Sub(x, 1) == if x == 0 then ONES else x - 1;
    Low8Mask(x == 0 || x > 0x8000_0000);
  }

  lemma Eq8Small(a: u32, b: u32)
    requires a < 0x8000_0000 && b < 0x8000_0000
    ensures Eq8(a, b) == ByteMask(a == b)
  {
    XorWord(a, b);
    Eq8Exact(a, b);
  }

  /** `x &= constant_time_lt(x, n)`: keep x below n, otherwise zero it. */
  function AndMask(x: u32, m: u32): (r: u32)
    requires m == 0 || m == ONES
  {
    if m == ONES then x else 0
  }
}
