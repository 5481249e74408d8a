/**
  MurmurHash3 for 32-bit platforms (hash.c), and hash_key over it. Words are integers and arithmetic
  wraps explicitly. The exclusive or is defined bit by bit, so that a shift to the right is a division
  of the bits, and shifting and adding can be undone. A product with an odd factor is undone by the
  product with the factor's inverse modulo 2^32; a rotation by the rotation back; an exclusive or with
  a shifted copy of a word by repeating it. So is every step of the finalization and of a round that
  starts from a known state, and the hash of a four-octet key, which is one round and the
  finalization, is a permutation.
 */
module Murmur {
  import opened Bytes
  import opened Bits

  /** 32-bit products and sums wrap. */
  function Times(x: u32, c: u32): u32 { x * c % TWO32 }

  /** The exclusive or of two 32-bit words. */
  function Xor32(a: u32, b: u32): u32 {
    assert Pow2(32) == TWO32 by { Pow32(); }
    XorBound(a, b, 32);
    Xor(a, b)
  }

  lemma Pow32()
    ensures Pow2(13) == 0x2000 && Pow2(16) == 0x1_0000 && Pow2(26) == 0x400_0000 && Pow2(32) == TWO32
  {
    assert Pow2(8) == 256;
    assert Pow2(13) == 0x2000;
    assert Pow2(16) == 0x1_0000;
    assert Pow2(26) == 0x400_0000;
  }

  /**
    rotl32 by 15 and by 13: the bits that stay inside the word move up, those that leave it come in
    below. The two parts have no bit in common, so their union is their sum.
   */
  function Rotl15(x: u32): u32 { x % 0x2_0000 * 0x8000 + x / 0x2_0000 }

  function Rotl13(x: u32): u32 { x % 0x8_0000 * 0x2000 + x / 0x8_0000 }

  const C1: u32 := 0xcc9e2d51
  const C2: u32 := 0x1b873593

  /** What a block contributes before it is mixed into the state. */
  function Scramble(k: u32): u32 { Times(Rotl15(Times(k, C1)), C2) }

  /** The addition that ends a round; it wraps, so it commutes with the wrapping product before it. */
  function Plus(x: u32): u32 { (x + 0xe6546b64) % TWO32 }

  /** One round of the body. */
  function MixBlock(h: u32, k: u32): u32 {
    Plus(Times(Rotl13(Xor32(h, Scramble(k))), 5))
  }

  /** h ^ (h >> 16) and h ^ (h >> 13). */
  function Fold16(h: u32): u32 { Xor32(h, h / 0x1_0000) }

  function Fold13(h: u32): u32 { Xor32(h, h / 0x2000) }

  /** fmix_32. */
  function Fmix32(h: u32): u32 {
    Fold16(Times(Fold13(Times(Fold16(h), 0x85ebca6b)), 0xc2b2ae35))
  }

  /** getblock_32 on a little-endian host. */
  function Block(b: seq<byte>): u32
    requires |b| == 4
  {
    b[0] + b[1] as int * 0x100 + b[2] as int * 0x1_0000 + b[3] as int * 0x100_0000
  }

  /** The state after the first n blocks. */
  function Body(data: seq<byte>, n: nat, seed: u32): u32
    requires 4 * n <= |data|
  {
    if n == 0 then seed else MixBlock(Body(data, n - 1, seed), Block(data[4 * n - 4..4 * n]))
  }

  /** The last 1 to 3 octets, which the fall-through switch combines into one word. */
  function Tail(tail: seq<byte>): u32
    requires 0 < |tail| < 4
  {
    tail[0] + (if |tail| >= 2 then tail[1] as int * 0x100 else 0)
    + (if |tail| == 3 then tail[2] as int * 0x1_0000 else 0)
  }

  function Hash(data: seq<byte>, seed: u32): u32
    requires |data| < TWO32
  {
    var tail := data[|data| / 4 * 4..];
    var h := Body(data, |data| / 4, seed);
    Fmix32(Xor32(if tail == [] then h else Xor32(h, Scramble(Tail(tail))), |data|))
  }

  /** MurmurHash3_x86_32. */
  method MurmurHash3_x86_32(data: seq<byte>, seed: u32) returns (out: u32)
    requires |data| < 0x8000_0000
    ensures out == Hash(data, seed)
  {
    var nblocks := |data| / 4;
    var h1 := seed;
    var i := 0;
    while i < nblocks
      invariant 0 <= i <= nblocks
      invariant h1 == Body(data, i, seed)
    {
      var k1 := Block(data[4 * i..4 * i + 4]);
      k1 := Times(k1, C1);
      k1 := Rotl15(k1);
      k1 := Times(k1, C2);
      h1 := Xor32(h1, k1);
      h1 := Rotl13(h1);
      h1 := Plus(Times(h1, 5));
      i := i + 1;
    }
    var tail := data[nblocks * 4..];
    if tail != [] {
      var k1 := Tail(tail);
      k1 := Times(k1, C1);
      k1 := Rotl15(k1);
      k1 := Times(k1, C2);
      h1 := Xor32(h1, k1);
    }
    h1 := Xor32(h1, |data|);
    out := Fmix32(h1);
  }

  // ----- Keys

  /** The octets of a 32-bit variable of the little-endian host. */
  function Octets(k: u32): (b: seq<byte>)
    ensures |b| == 4
  {
    [k % 0x100, k / 0x100 % 0x100, k / 0x1_0000 % 0x100, k / 0x100_0000]
  }

  /** hash_key: the hash of the key's four octets with seed 0. */
  function HashKey(k: u32): u32 {
    Hash(Octets(k), 0)
  }

  lemma BlockOfOctets(k: u32)
    ensures Block(Octets(k)) == k
  {
    var q := k / 0x100;
    assert k / 0x1_0000 == q / 0x100 && k / 0x100_0000 == q / 0x100 / 0x100;
  }

  /** For a four-octet key the algorithm is one round and the finalization. */
  lemma HashKeyRound(k: u32)
    ensures HashKey(k) == Fmix32(Xor32(MixBlock(0, k), 4))
  {
    var b := Octets(k);
    BlockOfOctets(k);
    assert b[0..4] == b && b[4..] == [];
    assert Body(b, 1, 0) == MixBlock(Body(b, 0, 0), Block(b[0..4]));
  }

  // ----- Every step can be undone: odd factors have inverses, rotations turn back, xorshifts repeat

  /** Multiplying by c is undone by multiplying by its inverse modulo 2^32. */
  lemma TimesUndone(x: u32, c: u32, inverse: u32, k: int)
    requires c * inverse == 1 + k * TWO32
    ensures Times(Times(x, c), inverse) == x && Times(Times(x, inverse), c) == x
  {
    ProductUndone(x, c, inverse, k);
    ProductUndone(x, inverse, c, k);
  }

  lemma ProductUndone(x: u32, c: u32, inverse: u32, k: int)
    requires c * inverse == 1 + k * TWO32
    ensures (x * c % TWO32) * inverse % TWO32 == x
  {
    var q, r := x * c / TWO32, x * c % TWO32;
    calc {
      r * inverse;
      (x * c - q * TWO32) * inverse;
      x * c * inverse - q * TWO32 * inverse;
      { assert x * c * inverse == x * (c * inverse); }
      x * (1 + k * TWO32) - q * TWO32 * inverse;
      x + x * (k * TWO32) - q * TWO32 * inverse;
      { assert x * (k * TWO32) == x * k * TWO32 && q * TWO32 * inverse == q * inverse * TWO32; }
      x + x * k * TWO32 - q * inverse * TWO32;
      { assert (x * k - q * inverse) * TWO32 == x * k * TWO32 - q * inverse * TWO32; }
      (x * k - q * inverse) * TWO32 + x;
    }
    DivUnique(r * inverse, TWO32, x * k - q * inverse, x);
  }

  function Rotr15(x: u32): u32 { x % 0x8000 * 0x2_0000 + x / 0x8000 }

  function Rotr13(x: u32): u32 { x % 0x2000 * 0x8_0000 + x / 0x2000 }

  lemma Rotates15(x: u32)
    ensures Rotr15(Rotl15(x)) == x && Rotl15(Rotr15(x)) == x
  {
    DivUnique(Rotl15(x), 0x8000, x % 0x2_0000, x / 0x2_0000);
    DivUnique(Rotr15(x), 0x2_0000, x % 0x8000, x / 0x8000);
  }

  lemma Rotates13(x: u32)
    ensures Rotr13(Rotl13(x)) == x && Rotl13(Rotr13(x)) == x
  {
    DivUnique(Rotl13(x), 0x2000, x % 0x8_0000, x / 0x8_0000);
    DivUnique(Rotr13(x), 0x8_0000, x % 0x2000, x / 0x2000);
  }

  lemma Fold16Undone(h: u32)
    ensures Fold16(Fold16(h)) == h
  {
    Pow32();
    var s := h / 0x1_0000;
    ShrIsDiv(h, 16);
    ShrIsDiv(Xor(h, s), 16);
    ShrIsDiv(s, 16);
    XorShr(h, s, 16);
    XorZero(s);
    XorTwice(h, s);
    assert s / 0x1_0000 == 0;
  }

  function Unfold13(y: u32): u32 { Xor32(Fold13(y), y / 0x400_0000) }

  /** Shifting right by 13 and by 26, as functions of the bits. */
  lemma {:induction false} Shifts13(h: u32)
    ensures Shr(h, 13) == h / 0x2000 && Shr(h, 26) == h / 0x400_0000 && Shr(h / 0x2000, 13) == h / 0x400_0000
    ensures Shr(h / 0x400_0000, 13) == 0
  {
    Pow32();
    ShrIsDiv(h, 13);
    ShrIsDiv(h, 26);
    ShrShr(h, 13, 13);
    ShrIsDiv(h / 0x400_0000, 13);
  }

  lemma Fold13Undone(h: u32)
    ensures Unfold13(Fold13(h)) == h
  {
    var a, b := h / 0x2000, h / 0x400_0000;
    var y := Xor(h, a);
    assert y == Fold13(h);
    Shifts13(h);
    Shifts13(Fold13(h));
    XorShr(h, a, 13);
    XorShr(a, b, 13);
    XorZero(b);
    ShrShr(y, 13, 13);
    assert y / 0x2000 == Xor(a, b) && y / 0x400_0000 == b;
    XorCancel(h, a, b);
    XorTwice(h, b);
  }

  lemma Unfold13Undone(y: u32)
    ensures Fold13(Unfold13(y)) == y
  {
    var a, b := y / 0x2000, y / 0x400_0000;
    var p := Xor(y, a);
    var z := Xor(p, b);
    assert p == Fold13(y) && z == Unfold13(y);
    Shifts13(y);
    Shifts13(Unfold13(y));
    XorShr(p, b, 13);
    XorShr(y, a, 13);
    XorZero(Xor(a, b));
    assert z / 0x2000 == Xor(a, b);
    XorCommutes(a, b);
    XorCancel(p, b, a);
    XorTwice(y, a);
  }

  // ----- hash_key is a permutation of the 32-bit words

  /** The inverse of fmix_32. */
  function Unfmix32(h: u32): u32 {
    Fold16(Times(Unfold13(Times(Fold16(h), 0x7ed1b41d)), 0xa5cb9243))
  }

  function Unscramble(k: u32): u32 {
    Times(Rotr15(Times(k, 0x56ed309b)), 0xdee13bb1)
  }

  function Minus(x: u32): u32 { (x - 0xe6546b64) % TWO32 }

  /** The inverse of a round that starts from state 0. */
  function Unmix(h: u32): u32 {
    Unscramble(Rotr13(Times(Minus(h), 0xcccccccd)))
  }

  function UnhashKey(h: u32): u32 { Unmix(Xor32(Unfmix32(h), 4)) }

  lemma FmixUndone(h: u32)
    ensures Unfmix32(Fmix32(h)) == h && Fmix32(Unfmix32(h)) == h
  {
    var a := Fold16(h);
    var b := Times(a, 0x85ebca6b);
    var c := Fold13(b);
    var d := Times(c, 0xc2b2ae35);
    Fold16Undone(d);
    TimesUndone(c, 0xc2b2ae35, 0x7ed1b41d, 0x60736e9a);
    Fold13Undone(b);
    TimesUndone(a, 0x85ebca6b, 0xa5cb9243, 0x56bb77f4);
    Fold16Undone(h);
    var c' := Times(a, 0x7ed1b41d);
    var b' := Unfold13(c');
    var a' := Times(b', 0xa5cb9243);
    Fold16Undone(a');
    TimesUndone(b', 0x85ebca6b, 0xa5cb9243, 0x56bb77f4);
    Unfold13Undone(c');
    TimesUndone(a, 0xc2b2ae35, 0x7ed1b41d, 0x60736e9a);
  }

  lemma PlusUndone(x: u32)
    ensures Minus(Plus(x)) == x && Plus(Minus(x)) == x
  {
  }

  lemma MixUndone(k: u32)
    ensures Unmix(MixBlock(0, k)) == k && MixBlock(0, Unmix(k)) == k
  {
    // forth and back
    var a := Times(k, C1);
    var c := Scramble(k);
    var d := Rotl13(c);
    XorZero(c);
    PlusUndone(Times(d, 5));
    TimesUndone(d, 5, 0xcccccccd, 4);
    Rotates13(c);
    TimesUndone(Rotl15(a), C2, 0x56ed309b, 0x958ed66);
    Rotates15(a);
    TimesUndone(k, C1, 0xdee13bb1, 0xb2253208);
    // back and forth
    var d' := Times(Minus(k), 0xcccccccd);
    var c' := Rotr13(d');
    var b' := Times(c', 0x56ed309b);
    TimesUndone(Rotr15(b'), C1, 0xdee13bb1, 0xb2253208);
    Rotates15(b');
    TimesUndone(c', C2, 0x56ed309b, 0x958ed66);
    XorZero(c');
    Rotates13(d');
    TimesUndone(Minus(k), 5, 0xcccccccd, 4);
    PlusUndone(k);
  }

  /** Both ways round: every 32-bit word is the hash of exactly one key. */
  lemma HashKeyIsPermutation(k: u32)
    ensures UnhashKey(HashKey(k)) == k && HashKey(UnhashKey(k)) == k
  {
    HashKeyRound(k);
    FmixUndone(Xor32(MixBlock(0, k), 4));
    XorTwice(MixBlock(0, k), 4);
    MixUndone(k);
    var x := Xor32(Unfmix32(k), 4);
    HashKeyRound(Unmix(x));
    MixUndone(x);
    XorTwice(Unfmix32(k), 4);
    FmixUndone(k);
  }

  /** Distinct keys never share a full hash. */
  lemma HashKeyInjective(j: u32, k: u32)
    ensures HashKey(j) == HashKey(k) <==> j == k
  {
    HashKeyIsPermutation(j);
    HashKeyIsPermutation(k);
  }
}
