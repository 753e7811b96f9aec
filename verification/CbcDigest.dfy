/** ssl3_cbc_digest_record: the HMAC of a record whose true length is secret. A public prefix
    is hashed directly; the last blocks are built byte by byte under masks. */
module CbcDigest {
  import opened Arith
  import opened ConstantTime
  import opened HmacSpec
  import E = Encoding

  const HEADER_LENGTH: nat := 13
  const VARIANCE_BLOCKS: nat := 6

  /** One byte of a masked block. */
  method MaskByte(b0: bv8, isA: bv8, isB: bv8, j: u32, c: u32, lengthByte: bv8, inLength: bool)
    returns (r: bv8)
    requires isA in {0, 0xff} && isB in {0, 0xff} && j < 128 && c < 128
    ensures r == if isB == 0xff && inLength then lengthByte
                 else if isA == 0xff then (if j < c then b0 else if j == c then 0x80 else 0)
                 else if isB == 0xff then 0 else b0
  {
    GeExact(j, c);
    GeExact(j, c + 1);
    Low8Mask(j >= c);
    Low8Mask(j >= c + 1);
    var isPastC := isA & Low8(Ge(j, c));
    var isPastCp1 := isA & Low8(Ge(j, c + 1));
    var b := (b0 & !isPastC) | (0x80 & isPastC);
    b := b & !isPastCp1;
    b := b & (!isB | isA);
    if inLength {
      b := (b & !isB) | (isB & lengthByte);
    }
    r := b;
  }

  /** The byte at offset x of header followed by data, zero past the end. */
  function PublicByte(header: seq<bv8>, data: seq<bv8>, x: nat): (b: bv8)
    requires |header| == HEADER_LENGTH
  {
    if x < HEADER_LENGTH then header[x]
    else if x < |data| + HEADER_LENGTH then data[x - HEADER_LENGTH]
    else 0
  }

  /** What the masked construction leaves at offset j of block number i. */
  function MaskedByte(header: seq<bv8>, data: seq<bv8>, lengthBytes: seq<bv8>, B: nat,
                      i: nat, k: nat, j: nat, indexA: nat, indexB: nat, c: nat): (b: bv8)
    requires |header| == HEADER_LENGTH && |lengthBytes| <= B && j < B
  {
    if i == indexB && j >= B - |lengthBytes| then lengthBytes[j - (B - |lengthBytes|)]
    else if i == indexA then (if j < c then PublicByte(header, data, k + j) else if j == c then 0x80 else 0)
    else if i == indexB then 0
    else PublicByte(header, data, k + j)
  }

  method BuildBlock(header: seq<bv8>, data: seq<bv8>, lengthBytes: seq<bv8>, B: nat,
                    i: u32, k: nat, indexA: u32, indexB: u32, c: u32)
    returns (block: seq<bv8>, k': nat)
    requires |header| == HEADER_LENGTH && |lengthBytes| <= B <= 128 && c < B
    requires i < 0x8000_0000 && indexA < 0x8000_0000 && indexB < 0x8000_0000
    ensures |block| == B && k' == k + B
    ensures forall j :: 0 <= j < B ==>
              block[j] == MaskedByte(header, data, lengthBytes, B, i, k, j, indexA, indexB, c)
  {
    Eq8Small(i, indexA);
    Eq8Small(i, indexB);
    var isA := Eq8(i, indexA);
    var isB := Eq8(i, indexB);
    var buf := new bv8[B](_ => 0);
    k' := k;
    for j := 0 to B
      invariant k' == k + j
      invariant forall t :: 0 <= t < j ==>
                  buf[t] == MaskedByte(header, data, lengthBytes, B, i, k, t, indexA, indexB, c)
    {
      var b: bv8 := 0;
      if k' < HEADER_LENGTH {
        b := header[k'];
      } else if k' < |data| + HEADER_LENGTH {
        b := data[k' - HEADER_LENGTH];
      }
      k' := k' + 1;
      var inLength := j >= B - |lengthBytes|;
      var lb := if inLength then lengthBytes[j - (B - |lengthBytes|)] else 0;
      buf[j] := MaskByte(b, isA, isB, j, c, lb, inLength);
    }
    block := buf[..];
  }

  /** The padded length is index_b + 1 blocks. */
  lemma PaddedLength<S(!new)>(h: Hash<S>, m: seq<bv8>)
    requires h.Shaped()
    ensures |PadAfter(h, h.blockSize, m)| == (|m| + h.lengthSize) / h.blockSize * h.blockSize + h.blockSize
  {
    var B, t := h.blockSize, |m| + h.lengthSize;
    var e, f := t / B, t % B;
    BlockOf(e, t, B);
    assert (e + 1) * B == e * B + B && (e + 2) * B == e * B + 2 * B;
    if f + 1 < B {
      DivModUnique(B + t + 1, e + 1, f + 1, B);
    } else {
      DivModUnique(B + t + 1, e + 2, 0, B);
    }
  }

  lemma PaddedByte<S(!new)>(h: Hash<S>, before: nat, m: seq<bv8>, x: nat)
    requires h.Shaped() && x < |PadAfter(h, before, m)|
    ensures var P := PadAfter(h, before, m);
            && |m| + h.lengthSize < |P|
            && P[x] == if x < |m| then m[x]
                       else if x == |m| then 0x80
                       else if x < |P| - h.lengthSize then 0
                       else LengthField(h, 8 * (before + |m|))[x - (|P| - h.lengthSize)]
  {
  }

  /** The positions that matter for block number i: it starts at k, the 0x80 byte belongs to
      block a at offset c, and block e is the last one. */
  ghost predicate Placed(i: nat, k: nat, B: nat, L: nat, macEnd: nat, a: nat, c: nat, e: nat, total: nat) {
    && (i == a ==> k <= macEnd < k + B && c == macEnd - k)
    && (i < a ==> k + B <= macEnd)
    && (i > a ==> macEnd < k)
    && a <= e
    && (i < e ==> k + B + L <= total)
    && (i == e ==> total == k + B)
  }

  lemma BlockPlaced<S(!new)>(h: Hash<S>, m: seq<bv8>, i: nat)
    requires h.Shaped() && i <= (|m| + h.lengthSize) / h.blockSize
    ensures var B := h.blockSize; var L := h.lengthSize;
            Placed(i, i * B, B, L, |m|, |m| / B, |m| % B, (|m| + L) / B, |PadAfter(h, B, m)|)
  {
    var B, n, L := h.blockSize, |m|, h.lengthSize;
    PaddedLength(h, m);
    var e := (n + L) / B;
    BlockOf(i, n, B);
    BlockOf(i, n + L, B);
    BlockOf(e, n, B);
    BlockOf(e, n + L, B);
  }

  /** The masked block number i equals block number i of the padded message. */
  lemma MaskedIsPadded<S(!new)>(h: Hash<S>, header: seq<bv8>, data: seq<bv8>, n: nat,
                                i: nat, k: nat, j: nat, a: nat, c: nat, e: nat)
    requires h.Shaped() && |header| == HEADER_LENGTH && n <= |data| && j < h.blockSize && i <= e
    requires Placed(i, k, h.blockSize, h.lengthSize, HEADER_LENGTH + n, a, c, e,
                    |PadAfter(h, h.blockSize, header + data[..n])|)
    ensures var B := h.blockSize;
            var P := PadAfter(h, B, header + data[..n]);
            && k + j < |P|
            && MaskedByte(header, data, LengthField(h, 8 * (B + HEADER_LENGTH + n)), B, i, k, j, a, e, c) == P[k + j]
  {
    var m := header + data[..n];
    PaddedByte(h, h.blockSize, m, k + j);
    if k + j < |m| {
      assert m[k + j] == PublicByte(header, data, k + j);
    }
  }

  lemma BlockMatches<S(!new)>(h: Hash<S>, header: seq<bv8>, data: seq<bv8>, n: nat,
                              i: nat, k: nat, block: seq<bv8>, a: nat, c: nat, e: nat)
    requires h.Shaped() && |header| == HEADER_LENGTH && n <= |data| && |block| == h.blockSize && i <= e
    requires Placed(i, k, h.blockSize, h.lengthSize, HEADER_LENGTH + n, a, c, e,
                    |PadAfter(h, h.blockSize, header + data[..n])|)
    requires forall j :: 0 <= j < h.blockSize ==>
               block[j] == MaskedByte(header, data, LengthField(h, 8 * (h.blockSize + HEADER_LENGTH + n)),
                                      h.blockSize, i, k, j, a, e, c)
    ensures var P := PadAfter(h, h.blockSize, header + data[..n]);
            && k + h.blockSize <= |P| && block == P[k..k + h.blockSize]
            && (i == e ==> k + h.blockSize == |P|)
  {
    var P := PadAfter(h, h.blockSize, header + data[..n]);
    forall j | 0 <= j < h.blockSize
      ensures k + j < |P| && block[j] == P[k + j]
    {
      MaskedIsPadded(h, header, data, n, i, k, j, a, c, e);
    }
  }

  function TruncByte(x: nat): (b: bv8) {
    (x % 256) as bv8
  }

  lemma {:induction false} BigEndianZero(n: nat)
    ensures BigEndian(0, n) == Zeros(n)
  {
    if n > 0 {
      BigEndianZero(n - 1);
      assert Zeros(n) == Zeros(n - 1) + [0];
    }
  }

  lemma {:induction false} LittleEndianZero(n: nat)
    ensures LittleEndian(0, n) == Zeros(n)
  {
    if n > 0 {
      LittleEndianZero(n - 1);
      assert Zeros(n) == [0] + Zeros(n - 1);
    }
  }

  lemma DivChain(v: u32)
    ensures v / 0x100 / 256 == v / 0x1_0000 && v / 0x1_0000 / 256 == v / 0x100_0000 && v / 0x100_0000 / 256 == 0
  {
  }

  lemma BigEndianChain(v: nat, v1: nat, v2: nat, v3: nat, n: nat)
    requires n >= 4 && v1 == v / 256 && v2 == v1 / 256 && v3 == v2 / 256 && v3 / 256 == 0
    ensures BigEndian(v, n) == Zeros(n - 4) + [TruncByte(v3), TruncByte(v2), TruncByte(v1), TruncByte(v)]
  {
    BigEndianZero(n - 4);
    assert BigEndian(v3, n - 3) == Zeros(n - 4) + [TruncByte(v3)];
    assert BigEndian(v2, n - 2) == BigEndian(v3, n - 3) + [TruncByte(v2)];
    assert BigEndian(v1, n - 1) == BigEndian(v2, n - 2) + [TruncByte(v1)];
    assert BigEndian(v, n) == BigEndian(v1, n - 1) + [TruncByte(v)];
  }

  lemma LittleEndianChain(v: nat, v1: nat, v2: nat, v3: nat, n: nat)
    requires n >= 4 && v1 == v / 256 && v2 == v1 / 256 && v3 == v2 / 256 && v3 / 256 == 0
    ensures LittleEndian(v, n) == [TruncByte(v), TruncByte(v1), TruncByte(v2), TruncByte(v3)] + Zeros(n - 4)
  {
    LittleEndianZero(n - 4);
    assert LittleEndian(v3, n - 3) == [TruncByte(v3)] + Zeros(n - 4);
    assert LittleEndian(v2, n - 2) == [TruncByte(v2)] + LittleEndian(v3, n - 3);
    assert LittleEndian(v1, n - 1) == [TruncByte(v1)] + LittleEndian(v2, n - 2);
    assert LittleEndian(v, n) == [TruncByte(v)] + LittleEndian(v1, n - 1);
  }

  /** The length field from one 32-bit bit count. */
  method LengthBytes<S(!new)>(h: Hash<S>, bits: u32) returns (r: seq<bv8>)
    requires h.Shaped()
    ensures r == LengthField(h, bits) && |r| == h.lengthSize
    ensures h.bigEndian ==> forall i: nat :: i < |r| ==> r[|r| - 1 - i] == (bits / E.Pow256(i) % 256) as bv8
    ensures !h.bigEndian ==> forall i: nat :: i < |r| ==> r[i] == (bits / E.Pow256(i) % 256) as bv8
  {
    forall i: nat | i < h.lengthSize
      ensures h.bigEndian ==> LengthField(h, bits)[h.lengthSize - 1 - i] == (bits / E.Pow256(i) % 256) as bv8
      ensures !h.bigEndian ==> LengthField(h, bits)[i] == (bits / E.Pow256(i) % 256) as bv8
    {
      LengthFieldAt(h, bits, i);
    }
    var b3, b2, b1 := bits / 0x100_0000, bits / 0x1_0000, bits / 0x100;
    DivChain(bits);
    if h.bigEndian {
      BigEndianChain(bits, b1, b2, b3, h.lengthSize);
      r := Zeros(h.lengthSize - 4) + [TruncByte(b3), TruncByte(b2), TruncByte(b1), TruncByte(bits)];
    } else {
      LittleEndianChain(bits, b1, b2, b3, h.lengthSize);
      r := [TruncByte(bits), TruncByte(b1), TruncByte(b2), TruncByte(b3)] + Zeros(h.lengthSize - 4);
    }
  }

  function NumBlocks(publicSize: nat, md: nat, B: nat, L: nat): (r: nat)
    requires md <= publicSize && B > 0
  {
    (publicSize + HEADER_LENGTH - md - 1 + 1 + L + B - 1) / B
  }

  function StartingBlocks(publicSize: nat, md: nat, B: nat, L: nat): (r: nat)
    requires md <= publicSize && B > 0
  {
    var n := NumBlocks(publicSize, md, B, L);
    if n > VARIANCE_BLOCKS then n - VARIANCE_BLOCKS else 0
  }

  /** Six variable blocks suffice: the directly hashed prefix never reaches past the message,
      and the last hash block always falls inside the masked loop. */
  lemma SixBlocksSuffice(publicSize: nat, secretSize: nat, md: nat, B: nat, L: nat)
    requires md <= secretSize <= publicSize <= secretSize + 256
    requires (B == 64 && L == 8) || (B == 128 && L == 16)
    ensures var n0 := StartingBlocks(publicSize, md, B, L);
            var macEnd := secretSize + HEADER_LENGTH - md;
            n0 * B <= macEnd && n0 <= (macEnd + L) / B <= n0 + VARIANCE_BLOCKS
  {
    var n := NumBlocks(publicSize, md, B, L);
    var macEnd := secretSize + HEADER_LENGTH - md;
    var t := publicSize + HEADER_LENGTH - md + L + B - 1;
    BlockOf(n, t, B);
    BlockOf(n, macEnd + L, B);
    var n0 := StartingBlocks(publicSize, md, B, L);
    assert n0 > 0 ==> n0 * B == n * B - 6 * B;
    BlockOf(n0, macEnd + L, B);
  }

  lemma AbsorbBlock<S(!new)>(h: Hash<S>, s: S, P: seq<bv8>, k: nat)
    requires h.blockSize > 0 && k + h.blockSize <= |P|
    ensures Absorb(h, s, P[k..]) == Absorb(h, h.transform(s, P[k..k + h.blockSize]), P[k + h.blockSize..])
  {
    assert P[k..][..h.blockSize] == P[k..k + h.blockSize];
    assert P[k..][h.blockSize..] == P[k + h.blockSize..];
  }

  /** Hashes the first n blocks of header followed by data. */
  method HashPrefix<S(!new)>(h: Hash<S>, s0: S, header: seq<bv8>, data: seq<bv8>, n: nat, ghost P: seq<bv8>)
    returns (s: S)
    requires h.Shaped() && |header| == HEADER_LENGTH
    requires n * h.blockSize <= |header + data| && n * h.blockSize <= |P|
    requires P[..n * h.blockSize] == (header + data)[..n * h.blockSize]
    ensures Absorb(h, s, P[n * h.blockSize..]) == Absorb(h, s0, P)
  {
    var B := h.blockSize;
    s := s0;
    if n > 0 {
      BlockAt(P, header + data, 0, n, B);
      assert P[0..] == P && header + data[..B - HEADER_LENGTH] == (header + data)[..B];
      AbsorbBlock(h, s, P, 0);
      s := h.transform(s, header + data[..B - HEADER_LENGTH]);
      for i := 1 to n
        invariant i * B <= n * B && Absorb(h, s, P[i * B..]) == Absorb(h, s0, P)
      {
        BlockAt(P, header + data, i, n, B);
        AbsorbBlock(h, s, P, i * B);
        var at := i * B - HEADER_LENGTH;
        SliceAfter(header, data, at, B);
        s := h.transform(s, data[at..at + B]);
      }
    } else {
      assert P[0..] == P;
    }
  }

  lemma SliceAfter(header: seq<bv8>, data: seq<bv8>, at: nat, B: nat)
    requires at + B <= |data|
    ensures data[at..at + B] == (header + data)[|header| + at..|header| + at + B]
  {
  }

  lemma BlockAt(P: seq<bv8>, m: seq<bv8>, i: nat, n: nat, B: nat)
    requires i < n && B > 0 && n * B <= |P| && n * B <= |m| && P[..n * B] == m[..n * B]
    ensures (i + 1) * B == i * B + B <= n * B && (i > 0 ==> i * B >= B)
    ensures P[i * B..i * B + B] == m[i * B..i * B + B]
  {
    MulMono(i + 1, n, B);
    if i > 0 {
      MulMono(1, i, B);
    }
    assert (i + 1) * B == i * B + B;
    assert P[..n * B][i * B..i * B + B] == P[i * B..i * B + B];
    assert m[..n * B][i * B..i * B + B] == m[i * B..i * B + B];
  }

  method SelectDigest(macOut: seq<bv8>, raw: seq<bv8>, i: u32, indexB: u32) returns (r: seq<bv8>)
    requires |macOut| <= |raw| && i < 0x8000_0000 && indexB < 0x8000_0000
    requires i == indexB ==> macOut == Zeros(|macOut|)
    ensures r == if i == indexB then raw[..|macOut|] else macOut
  {
    Eq8Small(i, indexB);
    var isB := Eq8(i, indexB);
    var out := new bv8[|macOut|](_ => 0);
    for j := 0 to |macOut|
      invariant forall t :: 0 <= t < j ==> out[t] == if i == indexB then raw[t] else macOut[t]
    {
      out[j] := macOut[j] | (raw[j] & isB);
    }
    r := out[..];
  }

  /** The positions computed from the secret length, for block size B. */
  ghost predicate Indices(B: nat, L: nat, macEnd: nat, a: nat, e: nat, c: nat)
    requires B > 0
  {
    a == macEnd / B && e == (macEnd + L) / B && c == macEnd % B
  }

  /** Builds block number i under masks; up to the last one it is block i of the padded message. */
  method MaskedBlock<S(!new)>(h: Hash<S>, header: seq<bv8>, data: seq<bv8>, ghost n: nat, lengthBytes: seq<bv8>,
                              i: u32, k: nat, indexA: u32, indexB: u32, c: u32, ghost P: seq<bv8>)
    returns (block: seq<bv8>, k': nat)
    requires h.Shaped() && |header| == HEADER_LENGTH && n <= |data|
    requires P == PadAfter(h, h.blockSize, header + data[..n])
    requires lengthBytes == LengthField(h, 8 * (h.blockSize + HEADER_LENGTH + n))
    requires Indices(h.blockSize, h.lengthSize, HEADER_LENGTH + n, indexA, indexB, c)
    requires k == i * h.blockSize
    requires i < 0x8000_0000 && indexA < 0x8000_0000 && indexB < 0x8000_0000
    ensures |block| == h.blockSize && k' == k + h.blockSize
    ensures i <= indexB ==> k' <= |P| && block == P[k..k']
    ensures i == indexB ==> k' == |P|
  {
    block, k' := BuildBlock(header, data, lengthBytes, h.blockSize, i, k, indexA, indexB, c);
    if i <= indexB {
      BlockPlaced(h, header + data[..n], i);
      BlockMatches(h, header, data, n, i, k, block, indexA, c, indexB);
    }
  }

  /** Before block number i: up to the last block the state is on the way to the target and
      nothing is selected; after it the selected digest is the target's. */
  ghost predicate OnTrack<S(!new)>(h: Hash<S>, s: S, macOut: seq<bv8>, i: nat, k: nat, e: nat, P: seq<bv8>, target: S)
    requires h.blockSize > 0
  {
    && |macOut| == h.mdSize
    && (i <= e ==> k <= |P| && Absorb(h, s, P[k..]) == target && macOut == Zeros(h.mdSize))
    && (i > e ==> h.mdSize <= |h.finalRaw(target)| && macOut == h.finalRaw(target)[..h.mdSize])
  }

  method TailStep<S(!new)>(h: Hash<S>, s: S, macOut: seq<bv8>, block: seq<bv8>, i: u32, ghost k: nat, e: u32,
                           ghost P: seq<bv8>, ghost target: S)
    returns (s': S, macOut': seq<bv8>)
    requires h.Supported() && OnTrack(h, s, macOut, i, k, e, P, target) && i < 0x8000_0000 && e < 0x8000_0000
    requires i <= e ==> k + h.blockSize <= |P| && block == P[k..k + h.blockSize]
    requires i == e ==> k + h.blockSize == |P|
    ensures OnTrack(h, s', macOut', i + 1, k + h.blockSize, e, P, target)
  {
    if i <= e {
      AbsorbBlock(h, s, P, k);
    }
    s' := h.transform(s, block);
    macOut' := SelectDigest(macOut, h.finalRaw(s'), i, e);
  }

  /** The masked loop over the last blocks, from block n0 on. */
  method HashTail<S(!new)>(h: Hash<S>, s0: S, header: seq<bv8>, data: seq<bv8>, ghost n: nat, n0: nat,
                           lengthBytes: seq<bv8>, indexA: u32, indexB: u32, c: u32, ghost P: seq<bv8>)
    returns (macOut: seq<bv8>)
    requires h.Supported() && |header| == HEADER_LENGTH && n <= |data|
    requires P == PadAfter(h, h.blockSize, header + data[..n])
    requires lengthBytes == LengthField(h, 8 * (h.blockSize + HEADER_LENGTH + n))
    requires Indices(h.blockSize, h.lengthSize, HEADER_LENGTH + n, indexA, indexB, c)
    requires indexA < 0x4000_0000 && indexB < 0x4000_0000
    requires n0 <= indexB <= n0 + VARIANCE_BLOCKS && n0 * h.blockSize <= |P|
    ensures macOut == h.finalRaw(Absorb(h, s0, P[n0 * h.blockSize..]))[..h.mdSize]
  {
    var k := n0 * h.blockSize;
    var s := s0;
    ghost var target := Absorb(h, s0, P[k..]);
    macOut := Zeros(h.mdSize);
    for i := n0 to n0 + VARIANCE_BLOCKS + 1
      invariant k == i * h.blockSize && OnTrack(h, s, macOut, i, k, indexB, P, target)
    {
      ghost var k0 := k;
      var block;
      block, k := MaskedBlock(h, header, data, n, lengthBytes, i, k, indexA, indexB, c, P);
      s, macOut := TailStep(h, s, macOut, block, i, k0, indexB, P, target);
      assert k == (i + 1) * h.blockSize;
    }
  }

  lemma DivSmall(x: nat, n: nat)
    requires n > 0
    ensures x / n <= x
  {
    BlockOf(x / n, x, n);
    if x / n > 0 {
      MulMono(1, n, x / n);
    }
  }

  /** The padded inner message is the masked key block followed by the padded record. */
  lemma InnerDigest<S(!new)>(h: Hash<S>, ipad: seq<bv8>, m: seq<bv8>)
    requires h.Supported() && |ipad| == h.blockSize
    ensures Digest(h, ipad + m)
         == h.finalRaw(Absorb(h, h.transform(h.init, ipad), PadAfter(h, h.blockSize, m)))[..h.mdSize]
  {
    var P := PadAfter(h, h.blockSize, m);
    PadAfterPrefix(h, ipad, m);
    assert (ipad + P)[..h.blockSize] == ipad && (ipad + P)[h.blockSize..] == P;
  }

  lemma PadAfterPrefix<S(!new)>(h: Hash<S>, a: seq<bv8>, m: seq<bv8>)
    requires h.Shaped()
    ensures PadAfter(h, 0, a + m) == a + PadAfter(h, |a|, m)
  {
    var t := |a| + |m|;
    var z, l := Zeros(PadZeros(h, t)), LengthField(h, 8 * t);
    Reassociate(a, m, [0x80], z, l);
  }

  lemma Reassociate(a: seq<bv8>, b: seq<bv8>, c: seq<bv8>, d: seq<bv8>, e: seq<bv8>)
    ensures a + b + c + d + e == a + (b + c + d + e)
  {
  }

  lemma InnerToOuter(b: bv8)
    ensures (b ^ 0x36) ^ 0x6a == b ^ 0x5c
  {
  }

  /** The inner hash, given the positions; n bytes of data are covered by the MAC. */
  method HashInner<S(!new)>(h: Hash<S>, ipad: seq<bv8>, header: seq<bv8>, data: seq<bv8>, ghost n: nat, n0: nat,
                            bits: u32, indexA: u32, indexB: u32, c: u32)
    returns (macOut: seq<bv8>)
    requires h.Supported() && |header| == HEADER_LENGTH && |ipad| == h.blockSize && n <= |data|
    requires Indices(h.blockSize, h.lengthSize, HEADER_LENGTH + n, indexA, indexB, c)
    requires indexA < 0x4000_0000 && indexB < 0x4000_0000 && bits == 8 * (h.blockSize + HEADER_LENGTH + n)
    requires n0 <= indexB <= n0 + VARIANCE_BLOCKS && n0 * h.blockSize <= HEADER_LENGTH + n
    ensures macOut == Digest(h, ipad + (header + data[..n]))
  {
    ghost var m := header + data[..n];
    ghost var P := PadAfter(h, h.blockSize, m);
    var lengthBytes := LengthBytes(h, bits);
    assert m <= P;
    PrefixIsMessage(header, data, n, n0 * h.blockSize, P);
    var s := HashPrefix(h, h.transform(h.init, ipad), header, data, n0, P);
    macOut := HashTail(h, s, header, data, n, n0, lengthBytes, indexA, indexB, c, P);
    InnerDigest(h, ipad, m);
  }

  /** The inner hash of the record, keyed by the already masked key block. */
  method InnerMac<S(!new)>(h: Hash<S>, ipad: seq<bv8>, header: seq<bv8>, data: seq<bv8>, dataPlusMacSize: nat)
    returns (macOut: seq<bv8>)
    requires h.Supported() && |header| == HEADER_LENGTH && |ipad| == h.blockSize
    requires h.mdSize <= dataPlusMacSize <= |data| <= dataPlusMacSize + 256 && |data| < 0x10_0000
    ensures macOut == Digest(h, ipad + (header + data[..dataPlusMacSize - h.mdSize]))
  {
    var B := h.blockSize;
    var macEnd := dataPlusMacSize + HEADER_LENGTH - h.mdSize;
    var c := macEnd % B;
    var indexA := macEnd / B;
    var indexB := (macEnd + h.lengthSize) / B;
    DivSmall(macEnd, B);
    DivSmall(macEnd + h.lengthSize, B);
    var n0 := StartingBlocks(|data|, h.mdSize, B, h.lengthSize);
    SixBlocksSuffice(|data|, dataPlusMacSize, h.mdSize, B, h.lengthSize);
    macOut := HashInner(h, ipad, header, data, dataPlusMacSize - h.mdSize, n0,
                        8 * macEnd + 8 * B, indexA, indexB, c);
  }

  lemma PrefixIsMessage(header: seq<bv8>, data: seq<bv8>, n: nat, k: nat, P: seq<bv8>)
    requires n <= |data| && k <= |header| + n && header + data[..n] <= P
    ensures k <= |P| && P[..k] == (header + data)[..k]
  {
    assert P[..k] == (header + data[..n])[..k];
  }

  /** The record MAC: for every supported hash and every split of the record into data, MAC and
      at most 256 bytes of padding, the masked computation is HMAC of header and data. Only the
      first block of an over-long key is used, so the result is textbook for keys of at most one block. */
  method DigestRecord<S(!new)>(h: Hash<S>, header: seq<bv8>, data: seq<bv8>, dataPlusMacSize: nat, key: seq<bv8>)
    returns (mdOut: seq<bv8>)
    requires h.Supported() && |header| == HEADER_LENGTH && |key| <= 128
    requires h.mdSize <= dataPlusMacSize <= |data| <= dataPlusMacSize + 256 && |data| < 0x10_0000
    ensures mdOut == Hmac(h, if |key| <= h.blockSize then key else key[..h.blockSize],
                          header + data[..dataPlusMacSize - h.mdSize])
  {
    ghost var used := if |key| <= h.blockSize then key else key[..h.blockSize];
    var pad := (key + Zeros(128))[..h.blockSize];
    assert pad == KeyBlock(h, used);
    var ipad := XorPad(pad, 0x36);
    var macOut := InnerMac(h, ipad, header, data, dataPlusMacSize);
    var opad := XorPad(ipad, 0x6a);
    forall i | 0 <= i < |pad|
      ensures opad[i] == XorPad(pad, 0x5c)[i]
    {
      InnerToOuter(pad[i]);
    }
    assert opad == XorPad(pad, 0x5c);
    mdOut := Digest(h, opad + macOut);
  }
}
