/** Textbook definitions: Merkle-Damgard padding and iteration (section 5.1 and 6 of FIPS 180-4,
    section 3 of RFC 1321) over an uninterpreted compression function, and HMAC (section 2 of
    RFC 2104). */
module HmacSpec {
  import opened Arith
  import E = Encoding

  datatype Hash<!S(!new)> = Hash(
    mdSize: nat, blockSize: nat, lengthSize: nat, bigEndian: bool,
    init: S, transform: (S, seq<bv8>) -> S, finalRaw: S -> seq<bv8>)
  {
    /** The shapes of MD5, SHA-1, SHA-224, SHA-256, SHA-384 and SHA-512. */
    ghost predicate Supported() {
      && (|| (blockSize == 64 && lengthSize == 8 && !bigEndian && mdSize == 16)
          || (blockSize == 64 && lengthSize == 8 && bigEndian && mdSize in {20, 28, 32})
          || (blockSize == 128 && lengthSize == 16 && bigEndian && mdSize in {48, 64}))
      && forall s :: mdSize <= |finalRaw(s)| <= blockSize
    }

    predicate Shaped() {
      (blockSize == 64 && lengthSize == 8) || (blockSize == 128 && lengthSize == 16 && bigEndian)
    }
  }

  function Zeros(n: nat): (r: seq<bv8>)
    ensures |r| == n && forall k :: 0 <= k < n ==> r[k] == 0
  {
    seq(n, _ => 0)
  }

  function BigEndian(v: nat, n: nat): (r: seq<bv8>)
    ensures |r| == n
  {
    if n == 0 then [] else BigEndian(v / 256, n - 1) + [(v % 256) as bv8]
  }

  function LittleEndian(v: nat, n: nat): (r: seq<bv8>)
    ensures |r| == n
  {
    if n == 0 then [] else [(v % 256) as bv8] + LittleEndian(v / 256, n - 1)
  }

  function LengthField<S(!new)>(h: Hash<S>, bits: nat): (r: seq<bv8>)
    ensures |r| == h.lengthSize
  {
    if h.bigEndian then BigEndian(bits, h.lengthSize) else LittleEndian(bits, h.lengthSize)
  }

  /** The zero bytes that make message, 0x80, zeros and length field fill whole blocks. */
  function PadZeros<S(!new)>(h: Hash<S>, n: nat): (z: nat)
    requires h.blockSize > 0
    ensures z < h.blockSize
  {
    var r := (n + 1 + h.lengthSize) % h.blockSize;
    if r == 0 then 0 else h.blockSize - r
  }

  /** The terminated form of a message m that follows `before` bytes already hashed. */
  function PadAfter<S(!new)>(h: Hash<S>, before: nat, m: seq<bv8>): (r: seq<bv8>)
    requires h.Shaped()
  {
    m + [0x80] + Zeros(PadZeros(h, before + |m|)) + LengthField(h, 8 * (before + |m|))
  }

  function Absorb<S(!new)>(h: Hash<S>, s: S, m: seq<bv8>): (r: S)
    requires h.blockSize > 0
    decreases |m|
  {
    if |m| < h.blockSize then s else Absorb(h, h.transform(s, m[..h.blockSize]), m[h.blockSize..])
  }

  function Digest<S(!new)>(h: Hash<S>, m: seq<bv8>): (r: seq<bv8>)
    requires h.Shaped()
  {
    var out := h.finalRaw(Absorb(h, h.init, PadAfter(h, 0, m)));
    if h.mdSize <= |out| then out[..h.mdSize] else out
  }

  function XorPad(k: seq<bv8>, x: bv8): (r: seq<bv8>)
    ensures |r| == |k| && forall i :: 0 <= i < |k| ==> r[i] == k[i] ^ x
  {
    seq(|k|, i requires 0 <= i < |k| => k[i] ^ x)
  }

  function KeyBlock<S(!new)>(h: Hash<S>, key: seq<bv8>): (r: seq<bv8>)
    requires h.Shaped()
  {
    var k := if |key| > h.blockSize then Digest(h, key) else key;
    if |k| <= h.blockSize then k + Zeros(h.blockSize - |k|) else k
  }

  function Hmac<S(!new)>(h: Hash<S>, key: seq<bv8>, text: seq<bv8>): (r: seq<bv8>)
    requires h.Shaped()
  {
    var k := KeyBlock(h, key);
    Digest(h, XorPad(k, 0x5c) + Digest(h, XorPad(k, 0x36) + text))
  }

  /** Byte i of the number v, the least significant one being byte 0. */
  function ByteOf(v: nat, i: nat): (b: bv8) {
    (v / E.Pow256(i) % 256) as bv8
  }

  lemma ByteOfNext(v: nat, i: nat)
    requires i > 0
    ensures ByteOf(v, i) == ByteOf(v / 256, i - 1)
  {
    DivTwice(v, E.Pow256(i - 1));
  }

  lemma {:induction false} BigEndianAt(v: nat, n: nat, i: nat)
    requires i < n
    ensures BigEndian(v, n)[n - 1 - i] == ByteOf(v, i)
  {
    if i > 0 {
      BigEndianAt(v / 256, n - 1, i - 1);
      ByteOfNext(v, i);
    }
  }

  lemma {:induction false} LittleEndianAt(v: nat, n: nat, i: nat)
    requires i < n
    ensures LittleEndian(v, n)[i] == ByteOf(v, i)
  {
    if i > 0 {
      LittleEndianAt(v / 256, n - 1, i - 1);
      ByteOfNext(v, i);
    }
  }

  lemma LengthFieldAt<S(!new)>(h: Hash<S>, v: nat, i: nat)
    requires i < h.lengthSize
    ensures h.bigEndian ==> LengthField(h, v)[h.lengthSize - 1 - i] == (v / E.Pow256(i) % 256) as bv8
    ensures !h.bigEndian ==> LengthField(h, v)[i] == (v / E.Pow256(i) % 256) as bv8
  {
    if h.bigEndian {
      BigEndianAt(v, h.lengthSize, i);
    } else {
      LittleEndianAt(v, h.lengthSize, i);
    }
  }

  /** The padded message byte by byte: the message, 0x80, fewer zeros than a block, and the number
      of bits hashed in the byte order of the hash; with what was hashed before, it fills blocks. */
  lemma PaddedMeans<S(!new)>(h: Hash<S>, before: nat, m: seq<bv8>)
    requires h.Shaped()
    ensures var P, bits, L := PadAfter(h, before, m), 8 * (before + |m|), h.lengthSize;
            && |m| + 1 + L <= |P| < |m| + 1 + L + h.blockSize && (before + |P|) % h.blockSize == 0
            && P[..|m|] == m && P[|m|] == 0x80
            && (forall i :: |m| < i < |P| - L ==> P[i] == 0)
            && (h.bigEndian ==> forall i: nat :: i < L ==> P[|P| - 1 - i] == (bits / E.Pow256(i) % 256) as bv8)
            && (!h.bigEndian ==> forall i: nat :: i < L ==> P[|P| - L + i] == (bits / E.Pow256(i) % 256) as bv8)
  {
    var P, bits, L := PadAfter(h, before, m), 8 * (before + |m|), h.lengthSize;
    var F := LengthField(h, bits);
    assert P[|P| - L..] == F;
    forall i: nat | i < L
      ensures h.bigEndian ==> P[|P| - 1 - i] == (bits / E.Pow256(i) % 256) as bv8
      ensures !h.bigEndian ==> P[|P| - L + i] == (bits / E.Pow256(i) % 256) as bv8
    {
      LengthFieldAt(h, bits, i);
      assert P[|P| - 1 - i] == F[L - 1 - i] && P[|P| - L + i] == F[i];
    }
    PadFills(h, before + |m|);
  }

  lemma PadFills<S(!new)>(h: Hash<S>, n: nat)
    requires h.Shaped()
    ensures (n + 1 + h.lengthSize + PadZeros(h, n)) % h.blockSize == 0
  {
  }

  /** The digest is the finished last state of the chain that starts from the initial state and
      takes up the padded message block by block. */
  lemma DigestMeans<S(!new)>(h: Hash<S>, m: seq<bv8>, states: seq<S>)
    requires h.Supported() && |PadAfter(h, 0, m)| == (|states| - 1) * h.blockSize
    requires |states| > 0 && states[0] == h.init && IsChain(h, states, PadAfter(h, 0, m))
    ensures Digest(h, m) == h.finalRaw(states[|states| - 1])[..h.mdSize]
  {
    var P := PadAfter(h, 0, m);
    assert P[0 * h.blockSize..] == P;
    AbsorbChain(h, states, P, 0);
  }

  /** Each state is the one before it, transformed by the block in its place. */
  ghost predicate IsChain<S(!new)>(h: Hash<S>, states: seq<S>, P: seq<bv8>)
    requires h.blockSize > 0 && |states| > 0 && |P| == (|states| - 1) * h.blockSize
  {
    forall k: nat :: k + 1 < |states| ==> ChainedAt(h, states, P, k)
  }

  ghost predicate ChainedAt<S(!new)>(h: Hash<S>, states: seq<S>, P: seq<bv8>, k: nat)
    requires h.blockSize > 0 && k + 1 < |states| && |P| == (|states| - 1) * h.blockSize
  {
    BlockFits(k, |states| - 1, h.blockSize);
    states[k + 1] == h.transform(states[k], P[k * h.blockSize..k * h.blockSize + h.blockSize])
  }

  lemma BlockFits(k: nat, n: nat, B: nat)
    requires k < n && B > 0
    ensures k * B + B == (k + 1) * B <= n * B
  {
    MulMono(k + 1, n, B);
  }

  lemma {:induction false} AbsorbChain<S(!new)>(h: Hash<S>, states: seq<S>, P: seq<bv8>, k: nat)
    requires h.blockSize > 0 && k < |states| && |P| == (|states| - 1) * h.blockSize && IsChain(h, states, P)
    requires k * h.blockSize <= |P|
    ensures Absorb(h, states[k], P[k * h.blockSize..]) == states[|states| - 1]
    decreases |states| - k
  {
    if k + 1 < |states| {
      var B := h.blockSize;
      BlockFits(k, |states| - 1, B);
      assert ChainedAt(h, states, P, k);
      AbsorbChain(h, states, P, k + 1);
      assert P[k * B..][..B] == P[k * B..k * B + B] && P[k * B..][B..] == P[(k + 1) * B..];
    }
  }

  /** HMAC byte by byte: the key, or the digest of a longer one, filled up with zeros to a block,
      is combined with 0x36 in front of the text and with 0x5c in front of the inner digest. */
  lemma HmacMeans<S(!new)>(h: Hash<S>, key: seq<bv8>, text: seq<bv8>, used: seq<bv8>, i: seq<bv8>, o: seq<bv8>)
    requires h.Supported() && |i| == |o| == h.blockSize
    requires used == if |key| <= h.blockSize then key else Digest(h, key)
    requires forall k :: 0 <= k < h.blockSize ==> i[k] == 0x36 ^ (if k < |used| then used[k] else 0)
    requires forall k :: 0 <= k < h.blockSize ==> o[k] == 0x5c ^ (if k < |used| then used[k] else 0)
    ensures Hmac(h, key, text) == Digest(h, o + Digest(h, i + text))
  {
    var k := KeyBlock(h, key);
    XorSwaps(k, used, i, 0x36);
    XorSwaps(k, used, o, 0x5c);
  }

  lemma XorSwaps(k: seq<bv8>, used: seq<bv8>, r: seq<bv8>, x: bv8)
    requires |used| <= |k| == |r| && k == used + Zeros(|k| - |used|)
    requires forall j :: 0 <= j < |k| ==> r[j] == x ^ (if j < |used| then used[j] else 0)
    ensures r == XorPad(k, x)
  {
    forall j | 0 <= j < |k|
      ensures r[j] == XorPad(k, x)[j]
    {
      assert k[j] == if j < |used| then used[j] else 0;
      XorCommutes(k[j], x);
    }
  }

  lemma XorCommutes(a: bv8, b: bv8)
    ensures a ^ b == b ^ a
  {
  }
}
