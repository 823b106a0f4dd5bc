// Jenkins's one-at-a-time hash and the pointer hash, in 32-bit wrap-around arithmetic.

module JenkinsHash {

  function AddWord(x: bv32, k: bv32): bv32 { x + k }

  function XorWord(x: bv32, k: bv32): bv32 { x ^ k }

  function AddShift10(x: bv32): bv32 { x + (x << 10) }

  function XorShift6(x: bv32): bv32 { x ^ (x >> 6) }

  function AddShift3(x: bv32): bv32 { x + (x << 3) }

  function XorShift1(x: bv32): bv32 { x ^ (x >> 1) }

  function AddShift15(x: bv32): bv32 { x + (x << 15) }

  /** One turn of the loop over the key bytes. */
  function MixByte(hash: bv32, b: bv8): bv32 {
    XorShift6(AddShift10(AddWord(hash, b as bv32)))
  }

  /** The three steps after the loop. */
  function Finish(hash: bv32): bv32 {
    AddShift15(XorShift1(AddShift3(hash)))
  }

  /** The state after all bytes of `key`, from an arbitrary start. */
  function MixFrom(start: bv32, key: seq<bv8>): bv32 {
    if key == [] then start else MixByte(MixFrom(start, key[..|key| - 1]), key[|key| - 1])
  }

  function Oaat(key: seq<bv8>): bv32 {
    Finish(MixFrom(0, key))
  }

  /** The loop counter of the source has 32 bits, so the loop ends only for lengths that fit. */
  method Hash32JenkinsOaat(key: seq<bv8>) returns (hash: bv32)
    requires |key| < 0x1_0000_0000
    ensures hash == Oaat(key)
  {
    hash := 0;
    var i := 0;
    while i != |key|
      invariant 0 <= i <= |key|
      invariant hash == MixFrom(0, key[..i])
    {
      assert key[..i + 1][..i] == key[..i];
      ghost var start := hash;
      hash := AddWord(hash, key[i] as bv32);
      hash := AddShift10(hash);
      hash := XorShift6(hash);
      assert hash == MixByte(start, key[i]);
      i := i + 1;
    }
    assert key[..i] == key;
    hash := AddShift3(hash);
    hash := XorShift1(hash);
    hash := AddShift15(hash);
  }

  // ---- every step is one-to-one: equality spreads from the bits a step leaves alone -------------

  lemma AddShift10Bits1(x: bv32, y: bv32)
    requires AddShift10(x) == AddShift10(y)
    ensures x & 0x3FF == y & 0x3FF
  {
  }

  lemma AddShift10Bits2(x: bv32, y: bv32)
    requires AddShift10(x) == AddShift10(y)
    requires x & 0x3FF == y & 0x3FF
    ensures x & 0xFFFFF == y & 0xFFFFF
  {
  }

  lemma AddShift10Bits3(x: bv32, y: bv32)
    requires AddShift10(x) == AddShift10(y)
    requires x & 0xFFFFF == y & 0xFFFFF
    ensures x & 0x3FFFFFFF == y & 0x3FFFFFFF
  {
  }

  lemma AddShift10Bits4(x: bv32, y: bv32)
    requires AddShift10(x) == AddShift10(y)
    requires x & 0x3FFFFFFF == y & 0x3FFFFFFF
    ensures x == y
  {
  }

  lemma AddShift10Injective(x: bv32, y: bv32)
    requires AddShift10(x) == AddShift10(y)
    ensures x == y
  {
    AddShift10Bits1(x, y);
    AddShift10Bits2(x, y);
    AddShift10Bits3(x, y);
    AddShift10Bits4(x, y);
  }

  lemma XorShift6Bits1(x: bv32, y: bv32)
    requires XorShift6(x) == XorShift6(y)
    ensures x >> 26 == y >> 26
  {
  }

  lemma XorShift6Bits2(x: bv32, y: bv32)
    requires XorShift6(x) == XorShift6(y)
    requires x >> 26 == y >> 26
    ensures x >> 20 == y >> 20
  {
  }

  lemma XorShift6Bits3(x: bv32, y: bv32)
    requires XorShift6(x) == XorShift6(y)
    requires x >> 20 == y >> 20
    ensures x >> 14 == y >> 14
  {
  }

  lemma XorShift6Bits4(x: bv32, y: bv32)
    requires XorShift6(x) == XorShift6(y)
    requires x >> 14 == y >> 14
    ensures x >> 8 == y >> 8
  {
  }

  lemma XorShift6Bits5(x: bv32, y: bv32)
    requires XorShift6(x) == XorShift6(y)
    requires x >> 8 == y >> 8
    ensures x >> 2 == y >> 2
  {
  }

  lemma XorShift6Bits6(x: bv32, y: bv32)
    requires XorShift6(x) == XorShift6(y)
    requires x >> 2 == y >> 2
    ensures x == y
  {
  }

  lemma XorShift6Injective(x: bv32, y: bv32)
    requires XorShift6(x) == XorShift6(y)
    ensures x == y
  {
    XorShift6Bits1(x, y);
    XorShift6Bits2(x, y);
    XorShift6Bits3(x, y);
    XorShift6Bits4(x, y);
    XorShift6Bits5(x, y);
    XorShift6Bits6(x, y);
  }

  lemma AddShift3Bits1(x: bv32, y: bv32)
    requires AddShift3(x) == AddShift3(y)
    ensures x & 0x3F == y & 0x3F
  {
  }

  lemma AddShift3Bits2(x: bv32, y: bv32)
    requires AddShift3(x) == AddShift3(y)
    requires x & 0x3F == y & 0x3F
    ensures x & 0xFFF == y & 0xFFF
  {
  }

  lemma AddShift3Bits3(x: bv32, y: bv32)
    requires AddShift3(x) == AddShift3(y)
    requires x & 0xFFF == y & 0xFFF
    ensures x & 0x3FFFF == y & 0x3FFFF
  {
  }

  lemma AddShift3Bits4(x: bv32, y: bv32)
    requires AddShift3(x) == AddShift3(y)
    requires x & 0x3FFFF == y & 0x3FFFF
    ensures x & 0xFFFFFF == y & 0xFFFFFF
  {
  }

  lemma AddShift3Bits5(x: bv32, y: bv32)
    requires AddShift3(x) == AddShift3(y)
    requires x & 0xFFFFFF == y & 0xFFFFFF
    ensures x == y
  {
  }

  lemma AddShift3Injective(x: bv32, y: bv32)
    requires AddShift3(x) == AddShift3(y)
    ensures x == y
  {
    AddShift3Bits1(x, y);
    AddShift3Bits2(x, y);
    AddShift3Bits3(x, y);
    AddShift3Bits4(x, y);
    AddShift3Bits5(x, y);
  }

  lemma XorShift1Bits1(x: bv32, y: bv32)
    requires XorShift1(x) == XorShift1(y)
    ensures x >> 28 == y >> 28
  {
  }

  lemma XorShift1Bits2(x: bv32, y: bv32)
    requires XorShift1(x) == XorShift1(y)
    requires x >> 28 == y >> 28
    ensures x >> 24 == y >> 24
  {
  }

  lemma XorShift1Bits3(x: bv32, y: bv32)
    requires XorShift1(x) == XorShift1(y)
    requires x >> 24 == y >> 24
    ensures x >> 20 == y >> 20
  {
  }

  lemma XorShift1Bits4(x: bv32, y: bv32)
    requires XorShift1(x) == XorShift1(y)
    requires x >> 20 == y >> 20
    ensures x >> 16 == y >> 16
  {
  }

  lemma XorShift1Bits5(x: bv32, y: bv32)
    requires XorShift1(x) == XorShift1(y)
    requires x >> 16 == y >> 16
    ensures x >> 12 == y >> 12
  {
  }

  lemma XorShift1Bits6(x: bv32, y: bv32)
    requires XorShift1(x) == XorShift1(y)
    requires x >> 12 == y >> 12
    ensures x >> 8 == y >> 8
  {
  }

  lemma XorShift1Bits7(x: bv32, y: bv32)
    requires XorShift1(x) == XorShift1(y)
    requires x >> 8 == y >> 8
    ensures x >> 4 == y >> 4
  {
  }

  lemma XorShift1Bits8(x: bv32, y: bv32)
    requires XorShift1(x) == XorShift1(y)
    requires x >> 4 == y >> 4
    ensures x == y
  {
  }

  lemma XorShift1Injective(x: bv32, y: bv32)
    requires XorShift1(x) == XorShift1(y)
    ensures x == y
  {
    XorShift1Bits1(x, y);
    XorShift1Bits2(x, y);
    XorShift1Bits3(x, y);
    XorShift1Bits4(x, y);
    XorShift1Bits5(x, y);
    XorShift1Bits6(x, y);
    XorShift1Bits7(x, y);
    XorShift1Bits8(x, y);
  }

  lemma AddShift15Bits1(x: bv32, y: bv32)
    requires AddShift15(x) == AddShift15(y)
    ensures x & 0x7FFF == y & 0x7FFF
  {
  }

  lemma AddShift15Bits2(x: bv32, y: bv32)
    requires AddShift15(x) == AddShift15(y)
    requires x & 0x7FFF == y & 0x7FFF
    ensures x & 0x3FFFFFFF == y & 0x3FFFFFFF
  {
  }

  lemma AddShift15Bits3(x: bv32, y: bv32)
    requires AddShift15(x) == AddShift15(y)
    requires x & 0x3FFFFFFF == y & 0x3FFFFFFF
    ensures x == y
  {
  }

  lemma AddShift15Injective(x: bv32, y: bv32)
    requires AddShift15(x) == AddShift15(y)
    ensures x == y
  {
    AddShift15Bits1(x, y);
    AddShift15Bits2(x, y);
    AddShift15Bits3(x, y);
  }

  lemma AddWordBits1(x: bv32, y: bv32, k: bv32)
    requires AddWord(x, k) == AddWord(y, k)
    ensures x & 0xFF == y & 0xFF
  {
  }

  lemma AddWordBits2(x: bv32, y: bv32, k: bv32)
    requires AddWord(x, k) == AddWord(y, k)
    requires x & 0xFF == y & 0xFF
    ensures x & 0xFFFF == y & 0xFFFF
  {
  }

  lemma AddWordBits3(x: bv32, y: bv32, k: bv32)
    requires AddWord(x, k) == AddWord(y, k)
    requires x & 0xFFFF == y & 0xFFFF
    ensures x & 0xFFFFFF == y & 0xFFFFFF
  {
  }

  lemma AddWordBits4(x: bv32, y: bv32, k: bv32)
    requires AddWord(x, k) == AddWord(y, k)
    requires x & 0xFFFFFF == y & 0xFFFFFF
    ensures x == y
  {
  }

  lemma AddWordCancels(x: bv32, y: bv32, k: bv32)
    requires AddWord(x, k) == AddWord(y, k)
    ensures x == y
  {
    AddWordBits1(x, y, k);
    AddWordBits2(x, y, k);
    AddWordBits3(x, y, k);
    AddWordBits4(x, y, k);
  }

  lemma AddWordCommutes(x: bv32, k: bv32)
    ensures AddWord(x, k) == AddWord(k, x)
  {
  }

  lemma XorWordCancels(x: bv32, y: bv32, k: bv32)
    requires XorWord(x, k) == XorWord(y, k)
    ensures x == y
  {
  }

  /** From different states, or for different bytes, the loop body yields different states. */
  lemma MixByteInjective(g: bv32, b: bv8, h: bv32, c: bv8)
    requires MixByte(g, b) == MixByte(h, c)
    ensures g == h <==> b == c
  {
    var u, v := b as bv32, c as bv32;
    XorShift6Injective(AddShift10(AddWord(g, u)), AddShift10(AddWord(h, v)));
    AddShift10Injective(AddWord(g, u), AddWord(h, v));
    if b == c {
      AddWordCancels(g, h, u);
    }
    if g == h {
      AddWordCommutes(g, u);
      AddWordCommutes(g, v);
      AddWordCancels(u, v, g);
    }
  }

  lemma FinishInjective(g: bv32, h: bv32)
    requires Finish(g) == Finish(h)
    ensures g == h
  {
    AddShift15Injective(XorShift1(AddShift3(g)), XorShift1(AddShift3(h)));
    XorShift1Injective(AddShift3(g), AddShift3(h));
    AddShift3Injective(g, h);
  }

  /** A whole key permutes the states: no two starts meet. */
  lemma {:induction false} MixFromInjective(g: bv32, h: bv32, key: seq<bv8>)
    requires MixFrom(g, key) == MixFrom(h, key)
    ensures g == h
  {
    if key != [] {
      var n := |key| - 1;
      MixByteInjective(MixFrom(g, key[..n]), key[n], MixFrom(h, key[..n]), key[n]);
      MixFromInjective(g, h, key[..n]);
    }
  }

  lemma {:induction false} MixFromSplit(start: bv32, a: seq<bv8>, b: seq<bv8>)
    ensures MixFrom(start, a + b) == MixFrom(MixFrom(start, a), b)
    decreases |b|
  {
    if b == [] {
      assert a + b == a;
    } else {
      var n := |b| - 1;
      assert (a + b)[..|a| + n] == a + b[..n];
      MixFromSplit(start, a, b[..n]);
    }
  }

  /** Two keys of the same length that differ in exactly one byte have different hashes. */
  lemma OneByteChangesHash(key: seq<bv8>, i: nat, b: bv8)
    requires i < |key| && key[i] != b
    ensures Oaat(key) != Oaat(key[i := b])
  {
    var other := key[i := b];
    var before, after := key[..i], key[i + 1..];
    assert key == before + [key[i]] + after && other == before + [b] + after;
    MixFromSplit(0, before + [key[i]], after);
    MixFromSplit(0, before + [b], after);
    assert (before + [key[i]])[..i] == before && (before + [b])[..i] == before;
    if Oaat(key) == Oaat(other) {
      FinishInjective(MixFrom(0, key), MixFrom(0, other));
      MixFromInjective(MixFrom(0, before + [key[i]]), MixFrom(0, before + [b]), after);
      MixByteInjective(MixFrom(0, before), key[i], MixFrom(0, before), b);
    }
  }

  // ---- combining words --------------------------------------------------------------------------

  /** What hash32_combine adds to the right word. */
  function Spread(lhs: bv32): bv32 {
    0x9e3779b9 + (lhs << 6) + (lhs >> 2)
  }

  function Hash32Combine(lhs: bv32, rhs: bv32): bv32 {
    XorWord(AddWord(rhs, Spread(lhs)), lhs)
  }

  lemma CombineInjective(lhs: bv32, r: bv32, s: bv32)
    requires Hash32Combine(lhs, r) == Hash32Combine(lhs, s)
    ensures r == s
  {
    XorWordCancels(AddWord(r, Spread(lhs)), AddWord(s, Spread(lhs)), lhs);
    AddWordCancels(r, s, Spread(lhs));
  }

  function LowWord(p: bv64): bv32 {
    (p & 0xFFFFFFFF) as bv32
  }

  function HighWord(p: bv64): bv32 {
    (p >> 32) as bv32
  }

  /** hash32_ptr on a 64-bit machine: the low word combined with the high word. */
  function Hash32Ptr(p: bv64): bv32 {
    Hash32Combine(LowWord(p), HighWord(p))
  }

  /** An address is its two words. */
  lemma WordsDetermine(p: bv64, q: bv64)
    requires p & 0xFFFFFFFF == q & 0xFFFFFFFF && p >> 32 == q >> 32
    ensures p == q
  {
  }

  lemma HighWordsDetermine(p: bv64, q: bv64)
    requires HighWord(p) == HighWord(q)
    ensures p >> 32 == q >> 32
  {
  }

  lemma SameLowWord(p: bv64, q: bv64)
    requires p & 0xFFFFFFFF == q & 0xFFFFFFFF
    ensures LowWord(p) == LowWord(q)
  {
  }

  /** Different addresses with the same low word never collide. */
  lemma SameLowWordNoCollision(p: bv64, q: bv64)
    requires p & 0xFFFFFFFF == q & 0xFFFFFFFF && p != q
    ensures Hash32Ptr(p) != Hash32Ptr(q)
  {
    SameLowWord(p, q);
    if Hash32Ptr(p) == Hash32Ptr(q) {
      CombineInjective(LowWord(p), HighWord(p), HighWord(q));
      HighWordsDetermine(p, q);
      WordsDetermine(p, q);
    }
  }

  // ---- the same in words of arithmetic ------------------------------------------------------------

  lemma ShiftsMultiply(x: bv32)
    ensures x << 10 == x * 1024 && x << 3 == x * 8 && x << 15 == x * 32768 && x << 6 == x * 64
  {
  }

  lemma ShiftsDivide(x: bv32)
    ensures x >> 6 == x / 64 && x >> 1 == x / 2 && x >> 2 == x / 4
  {
  }

  /** Adding a shifted copy multiplies, modulo 2^32. */
  lemma AddShift10Multiplies(x: bv32)
    ensures AddShift10(x) == x * 1025
  {
    ShiftsMultiply(x);
  }

  lemma AddShift3Multiplies(x: bv32)
    ensures AddShift3(x) == x * 9
  {
    ShiftsMultiply(x);
  }

  lemma AddShift15Multiplies(x: bv32)
    ensures AddShift15(x) == x * 32769
  {
    ShiftsMultiply(x);
  }

  /** Whatever bits `m` selects, those six places higher are added to them without carry. */
  lemma XorShift6Bits(x: bv32, m: bv32)
    ensures XorShift6(x) & m == (x & m) ^ ((x & (m << 6)) >> 6)
  {
  }

  lemma XorShift1Bits(x: bv32, m: bv32)
    ensures XorShift1(x) & m == (x & m) ^ ((x & (m << 1)) >> 1)
  {
  }

  lemma XorShiftsDivide(x: bv32)
    ensures XorShift6(x) == x ^ (x / 64)
    ensures XorShift1(x) == x ^ (x / 2)
  {
    ShiftsDivide(x);
  }

  // ---- known values -------------------------------------------------------------------------------

  lemma EmptyKey()
    ensures Oaat([]) == 0
  {
  }

  lemma KeyOfOne(b: bv8)
    ensures MixFrom(0, [b]) == MixByte(0, b)
    ensures Oaat([0x61]) == 0xAF8F5F08
  {
    var key: seq<bv8> := [b];
    assert key[..0] == [];
    var a: seq<bv8> := [0x61];
    assert a[..0] == [];
  }

  lemma KeyOfTwo(b: bv8, c: bv8)
    ensures MixFrom(0, [b, c]) == MixByte(MixByte(0, b), c)
  {
    var key: seq<bv8> := [b, c];
    assert key[..1] == [b];
    KeyOfOne(b);
  }

  /** The bytes are taken from the first to the last. */
  lemma KnownKeys()
    ensures Oaat([0x61, 0x62]) == 0x84732D21
    ensures Oaat([0x62, 0x61]) == 0x587ED729
    ensures Oaat([0x61, 0x62, 0x63]) == 0xA8FEAA53
  {
    KeyOfTwo(0x61, 0x62);
    KeyOfTwo(0x62, 0x61);
    var key: seq<bv8> := [0x61, 0x62, 0x63];
    assert key[..2] == [0x61, 0x62];
    assert MixFrom(0, key) == MixByte(MixFrom(0, [0x61, 0x62]), 0x63);
  }

  lemma SpreadArithmetic(lhs: bv32)
    ensures Spread(lhs) == 0x9E3779B9 + lhs * 64 + lhs / 4
  {
    ShiftsMultiply(lhs);
    ShiftsDivide(lhs);
  }

  lemma KnownCombinations()
    ensures Hash32Combine(0, 0) == 0x9E3779B9
    ensures Hash32Combine(0x12345678, 0x9ABCDEF0) == 0xD8A35A3F
    ensures Hash32Ptr(0x7FFF_1234_5678) == 0x3DEEFB2E
  {
  }

  /** The two words that an address is split into give it back. */
  lemma WordsOfAddress(p: bv64)
    ensures (HighWord(p) as bv64) * 0x1_0000_0000 + LowWord(p) as bv64 == p
  {
  }
}
