/** The word operations of murmurhash3.c and why none of them loses information. */
module MurmurWords {
  type Byte = bv8

  /** `rotl32`. */
  function Rotl32(x: bv32, r: bv6): bv32
    requires 0 < r < 32
  {
    (x << r) | (x >> (32 - r))
  }

  /** `rotl64`. */
  function Rotl64(x: bv64, r: bv7): bv64
    requires 0 < r < 64
  {
    (x << r) | (x >> (64 - r))
  }

  function Xorshift32(x: bv32, r: bv6): bv32
    requires r < 32
  {
    x ^ (x >> r)
  }

  function Xorshift64(x: bv64, r: bv7): bv64
    requires r < 64
  {
    x ^ (x >> r)
  }

  function Times32(x: bv32, c: bv32): bv32 {
    x * c
  }

  function Times64(x: bv64, c: bv64): bv64 {
    x * c
  }

  function Plus32(x: bv32, y: bv32): bv32 {
    x + y
  }

  function Plus64(x: bv64, y: bv64): bv64 {
    x + y
  }

  function Xor32(x: bv32, y: bv32): bv32 {
    x ^ y
  }

  function Xor64(x: bv64, y: bv64): bv64 {
    x ^ y
  }

  /** `fmix32`. */
  function Fmix32(h: bv32): bv32 {
    Xorshift32(Times32(Xorshift32(Times32(Xorshift32(h, 16), 0x85ebca6b), 13), 0xc2b2ae35), 16)
  }

  /** `fmix64`. */
  function Fmix64(k: bv64): bv64 {
    Xorshift64(Times64(Xorshift64(Times64(Xorshift64(k, 33), 0xff51afd7ed558ccd), 33), 0xc4ceb9fe1a85ec53), 33)
  }

  /** Four bytes as a little-endian word. */
  function Word32(b0: Byte, b1: Byte, b2: Byte, b3: Byte): bv32 {
    (b0 as bv32) ^ ((b1 as bv32) << 8) ^ ((b2 as bv32) << 16) ^ ((b3 as bv32) << 24)
  }

  /** Eight bytes as a little-endian word. */
  function Word64(b0: Byte, b1: Byte, b2: Byte, b3: Byte, b4: Byte, b5: Byte, b6: Byte, b7: Byte): bv64 {
    (b0 as bv64) ^ ((b1 as bv64) << 8) ^ ((b2 as bv64) << 16) ^ ((b3 as bv64) << 24)
    ^ ((b4 as bv64) << 32) ^ ((b5 as bv64) << 40) ^ ((b6 as bv64) << 48) ^ ((b7 as bv64) << 56)
  }

  // ---------- rotations, shifts and packing lose nothing ----------

  lemma Rotl32Back(x: bv32, r: bv6)
    requires 0 < r < 32
    ensures Rotl32(Rotl32(x, r), 32 - r) == x
  {
  }

  lemma Rotl64Back27(x: bv64)
    ensures Rotl64(Rotl64(x, 27), 37) == x
  {
  }

  lemma Rotl64Back31(x: bv64)
    ensures Rotl64(Rotl64(x, 31), 33) == x
  {
  }

  lemma Rotl64Back33(x: bv64)
    ensures Rotl64(Rotl64(x, 33), 31) == x
  {
  }

  lemma Word32Injective(a: Byte, b: Byte, c: Byte, d: Byte, a': Byte, b': Byte, c': Byte, d': Byte)
    ensures Word32(a, b, c, d) == Word32(a', b', c', d') ==> a == a' && b == b' && c == c' && d == d'
  {
  }

  lemma Word64Injective(a: Byte, b: Byte, c: Byte, d: Byte, e: Byte, f: Byte, g: Byte, h: Byte,
                        a': Byte, b': Byte, c': Byte, d': Byte, e': Byte, f': Byte, g': Byte, h': Byte)
    ensures Word64(a, b, c, d, e, f, g, h) == Word64(a', b', c', d', e', f', g', h') ==>
              a == a' && b == b' && c == c' && d == d' && e == e' && f == f' && g == g' && h == h'
  {
  }

  /** Multiplication by an odd constant is undone by its inverse modulo 2^32 or 2^64. */
  lemma Times32Back(x: bv32, c: bv32, d: bv32)
    requires c * d == 1
    ensures Times32(Times32(x, c), d) == x
  {
    hide Times32;
    Product32Back(x, c, d);
    assert Times32(x, c) == x * c by {
      Product32(x, c);
    }
  }

  lemma Product32(x: bv32, c: bv32)
    ensures Times32(x, c) == x * c
  {
  }

  lemma Product32Back(x: bv32, c: bv32, d: bv32)
    requires c * d == 1
    ensures Times32(x * c, d) == x
  {
  }

  lemma Times64Back(x: bv64, c: bv64, d: bv64)
    requires c * d == 1
    ensures Times64(Times64(x, c), d) == x
  {
    Product64(x, c);
    Product64(c, d);
    hide Times64;
    Grouped64(x, c, d);
    TimesOne64(x);
  }

  lemma Product64(x: bv64, c: bv64)
    ensures Times64(x, c) == x * c
  {
  }

  lemma Grouped64(x: bv64, c: bv64, d: bv64)
    ensures Times64(x * c, d) == Times64(x, c * d)
  {
  }

  lemma TimesOne64(x: bv64)
    ensures Times64(x, 1) == x
  {
  }

  function Minus32(x: bv32, y: bv32): bv32 {
    x - y
  }

  function Minus64(x: bv64, y: bv64): bv64 {
    x - y
  }

  lemma Plus32Back(x: bv32, y: bv32)
    ensures Minus32(Plus32(x, y), y) == x
  {
    hide Minus32, Plus32;
    Sum32Back(x, y);
    assert Plus32(x, y) == x + y by {
      Sum32(x, y);
    }
  }

  lemma Sum32(x: bv32, y: bv32)
    ensures Plus32(x, y) == x + y
  {
  }

  lemma Sum32Back(x: bv32, y: bv32)
    ensures Minus32(x + y, y) == x
  {
  }

  lemma Plus64Back(x: bv64, y: bv64)
    ensures Minus64(Plus64(x, y), y) == x
  {
    hide Minus64, Plus64;
    Sum64Back(x, y);
    assert Plus64(x, y) == x + y by {
      Sum64(x, y);
    }
  }

  lemma Sum64(x: bv64, y: bv64)
    ensures Plus64(x, y) == x + y
  {
  }

  lemma Sum64Back(x: bv64, y: bv64)
    ensures Minus64(x + y, y) == x
  {
  }

  lemma Xor32Cancel(x: bv32, y: bv32, z: bv32)
    requires Xor32(x, z) == Xor32(y, z)
    ensures x == y
  {
  }

  lemma Xor64Cancel(x: bv64, y: bv64, z: bv64)
    requires Xor64(x, z) == Xor64(y, z)
    ensures x == y
  {
  }

  lemma Xor32Swap(x: bv32, y: bv32)
    ensures Xor32(x, y) == Xor32(y, x)
  {
  }

  lemma Xor64Swap(x: bv64, y: bv64)
    ensures Xor64(x, y) == Xor64(y, x)
  {
  }

  lemma Xorshift16Back(x: bv32)
    ensures Xorshift32(Xorshift32(x, 16), 16) == x
  {
    hide Xorshift32;
    Shifted16(x);
    Unshifted16(x);
  }

  lemma Xorshift13Back(x: bv32)
    ensures Unshift13(Xorshift32(x, 13)) == x
  {
    hide Xorshift32, Unshift13;
    Shifted13(x);
    Unshifted13(x);
  }

  lemma Xorshift33Back(x: bv64)
    ensures Xorshift64(Xorshift64(x, 33), 33) == x
  {
    hide Xorshift64;
    Shifted33(x);
    Unshifted33(x);
  }

  function Unshift13(z: bv32): bv32 {
    z ^ (z >> 13) ^ (z >> 26)
  }

  lemma Shifted16(x: bv32)
    ensures Xorshift32(x, 16) == x ^ (x >> 16)
  {
  }

  lemma Shifted13(x: bv32)
    ensures Xorshift32(x, 13) == x ^ (x >> 13)
  {
  }

  lemma Shifted33(x: bv64)
    ensures Xorshift64(x, 33) == x ^ (x >> 33)
  {
  }

  lemma Unshifted16(x: bv32)
    ensures Xorshift32(x ^ (x >> 16), 16) == x
  {
  }

  lemma Unshifted13(x: bv32)
    ensures Unshift13(x ^ (x >> 13)) == x
  {
  }

  lemma Unshifted33(x: bv64)
    ensures Xorshift64(x ^ (x >> 33), 33) == x
  {
  }

  /** `fmix32` and `fmix64` undone. */
  function Unfmix32(h: bv32): bv32 {
    Xorshift32(Times32(Unshift13(Times32(Xorshift32(h, 16), 0x7ed1b41d)), 0xa5cb9243), 16)
  }

  function Unfmix64(k: bv64): bv64 {
    Xorshift64(Times64(Xorshift64(Times64(Xorshift64(k, 33), 0x9cb4b2f8129337db), 33), 0x4f74430c22a54005), 33)
  }

  lemma FmixBack(h: bv32, k: bv64)
    ensures Unfmix32(Fmix32(h)) == h
    ensures Unfmix64(Fmix64(k)) == k
  {
    hide Times32, Times64, Xorshift32, Xorshift64, Unshift13;
    var h1, k1 := Xorshift32(h, 16), Xorshift64(k, 33);
    var h2, k2 := Times32(h1, 0x85ebca6b), Times64(k1, 0xff51afd7ed558ccd);
    var h3, k3 := Xorshift32(h2, 13), Xorshift64(k2, 33);
    var h4, k4 := Times32(h3, 0xc2b2ae35), Times64(k3, 0xc4ceb9fe1a85ec53);
    Xorshift16Back(h);
    Xorshift13Back(h2);
    Xorshift16Back(h4);
    Times32Back(h1, 0x85ebca6b, 0xa5cb9243);
    Times32Back(h3, 0xc2b2ae35, 0x7ed1b41d);
    Xorshift33Back(k);
    Xorshift33Back(k2);
    Xorshift33Back(k4);
    Times64Back(k1, 0xff51afd7ed558ccd, 0x4f74430c22a54005);
    Times64Back(k3, 0xc4ceb9fe1a85ec53, 0x9cb4b2f8129337db);
  }

  /** The finalizers are one-to-one. */
  lemma FmixInjective(g: bv32, h: bv32, j: bv64, k: bv64)
    ensures Fmix32(g) == Fmix32(h) ==> g == h
    ensures Fmix64(j) == Fmix64(k) ==> j == k
  {
    hide *;
    FmixBack(g, j);
    FmixBack(h, k);
  }

  // ---------- folding blocks into a state ----------

  ghost function Fold<S, B>(round: (S, B) -> S, s: S, bs: seq<B>): S {
    if bs == [] then s else round(Fold(round, s, bs[..|bs| - 1]), bs[|bs| - 1])
  }

  lemma FoldNext<S, B>(round: (S, B) -> S, s: S, bs: seq<B>, i: nat)
    requires i < |bs|
    ensures Fold(round, s, bs[..i + 1]) == round(Fold(round, s, bs[..i]), bs[i])
  {
    assert bs[..i + 1][..i] == bs[..i];
  }

  lemma FoldEnds<S, B>(round: (S, B) -> S, s: S, bs: seq<B>)
    ensures Fold(round, s, bs[..0]) == s && bs[..|bs|] == bs
  {
  }

  /** For a fixed block the state can be recovered, for a fixed state the block. */
  ghost predicate Lossless<S(!new), B(!new), R(!new)>(f: (S, B) -> R) {
    && (forall s, t, b :: f(s, b) == f(t, b) ==> s == t)
    && (forall s, b, c :: f(s, b) == f(s, c) ==> b == c)
  }

  /** Different states stay different. */
  lemma {:induction false} FoldInjective<S(!new), B(!new)>(round: (S, B) -> S, s: S, t: S, bs: seq<B>)
    requires Lossless(round) && Fold(round, s, bs) == Fold(round, t, bs)
    ensures s == t
  {
    if bs != [] {
      FoldInjective(round, s, t, bs[..|bs| - 1]);
    }
  }

  /** One different block is enough. */
  lemma {:induction false} FoldOneBlock<S(!new), B(!new)>(round: (S, B) -> S, s: S, bs: seq<B>, cs: seq<B>, i: nat)
    requires Lossless(round) && i < |bs| == |cs| && bs[i] != cs[i]
    requires forall j | 0 <= j < |bs| && j != i :: bs[j] == cs[j]
    ensures Fold(round, s, bs) != Fold(round, s, cs)
  {
    var n := |bs| - 1;
    if i == n {
      assert bs[..n] == cs[..n];
    } else {
      FoldOneBlock(round, s, bs[..n], cs[..n], i);
    }
  }

  // ---------- keys ----------

  /** The byte at `p`, or zero past the end. */
  function ByteAt(key: seq<Byte>, p: nat): Byte {
    if p < |key| then key[p] else 0
  }

  function Word32At(key: seq<Byte>, p: nat): bv32 {
    Word32(ByteAt(key, p), ByteAt(key, p + 1), ByteAt(key, p + 2), ByteAt(key, p + 3))
  }

  function Word64At(key: seq<Byte>, p: nat): bv64 {
    Word64(ByteAt(key, p), ByteAt(key, p + 1), ByteAt(key, p + 2), ByteAt(key, p + 3),
           ByteAt(key, p + 4), ByteAt(key, p + 5), ByteAt(key, p + 6), ByteAt(key, p + 7))
  }

  lemma Word32AtInjective(key: seq<Byte>, key': seq<Byte>, p: nat, q: nat)
    requires p <= q < p + 4 && Word32At(key, p) == Word32At(key', p)
    ensures ByteAt(key, q) == ByteAt(key', q)
  {
    hide Word32, ByteAt;
    Word32Injective(ByteAt(key, p), ByteAt(key, p + 1), ByteAt(key, p + 2), ByteAt(key, p + 3),
                    ByteAt(key', p), ByteAt(key', p + 1), ByteAt(key', p + 2), ByteAt(key', p + 3));
  }

  lemma Word64AtInjective(key: seq<Byte>, key': seq<Byte>, p: nat, q: nat)
    requires p <= q < p + 8 && Word64At(key, p) == Word64At(key', p)
    ensures ByteAt(key, q) == ByteAt(key', q)
  {
    hide Word64, ByteAt;
    Word64Injective(ByteAt(key, p), ByteAt(key, p + 1), ByteAt(key, p + 2), ByteAt(key, p + 3),
                    ByteAt(key, p + 4), ByteAt(key, p + 5), ByteAt(key, p + 6), ByteAt(key, p + 7),
                    ByteAt(key', p), ByteAt(key', p + 1), ByteAt(key', p + 2), ByteAt(key', p + 3),
                    ByteAt(key', p + 4), ByteAt(key', p + 5), ByteAt(key', p + 6), ByteAt(key', p + 7));
  }

  /** Two keys of the same length that differ, but only inside chunk `i` of `u` bytes; the
      last chunk may be shorter. */
  ghost predicate OneChunk(key: seq<Byte>, key': seq<Byte>, u: nat, i: nat)
    requires u > 0
  {
    |key| == |key'| && key != key' && forall p | 0 <= p < |key| && key[p] != key'[p] :: p / u == i
  }

  lemma SomeByte(key: seq<Byte>, key': seq<Byte>, u: nat, i: nat) returns (p: nat)
    requires u > 0 && OneChunk(key, key', u, i)
    ensures p < |key| && p / u == i && ByteAt(key, p) != ByteAt(key', p)
  {
    assert (forall p | 0 <= p < |key| :: key[p] == key'[p]) ==> key == key';
    p :| 0 <= p < |key| && key[p] != key'[p];
  }

  lemma OtherWord(key: seq<Byte>, key': seq<Byte>, u: nat, i: nat, p: nat)
    requires u > 0 && OneChunk(key, key', u, i)
    requires p / u != i && (p + 1) / u != i && (p + 2) / u != i && (p + 3) / u != i
    ensures Word32At(key, p) == Word32At(key', p)
  {
  }

  lemma OtherWord64(key: seq<Byte>, key': seq<Byte>, u: nat, i: nat, p: nat)
    requires u > 0 && OneChunk(key, key', u, i) && forall q | p <= q < p + 8 :: q / u != i
    ensures Word64At(key, p) == Word64At(key', p)
  {
    hide Word64;
    forall q | p <= q < p + 8
      ensures ByteAt(key, q) == ByteAt(key', q)
    {
      assert q / u != i;
    }
  }

  /** Blocks of two keys that differ in one of the blocks or in the tail. */
  ghost predicate DifferAt<B>(bs: seq<B>, tail: B, cs: seq<B>, tail': B, i: nat) {
    && |bs| == |cs| && i <= |bs|
    && (forall j | 0 <= j < |bs| && j != i :: bs[j] == cs[j])
    && if i < |bs| then bs[i] != cs[i] && tail == tail' else tail != tail'
  }

  /** Hashing blocks and then a tail: a difference in one of them is never lost. */
  lemma OneDifference<S(!new), B(!new), R(!new)>(round: (S, B) -> S, finish: (S, B) -> R, s: S,
                                                 bs: seq<B>, tail: B, cs: seq<B>, tail': B, i: nat)
    requires Lossless(round) && Lossless(finish) && DifferAt(bs, tail, cs, tail', i)
    ensures finish(Fold(round, s, bs), tail) != finish(Fold(round, s, cs), tail')
  {
    if i < |bs| {
      FoldOneBlock(round, s, bs, cs, i);
    } else {
      assert bs == cs;
    }
  }

  /** Nor is a difference of the seeds. */
  lemma SeedsMatter<S(!new), B(!new), R(!new)>(round: (S, B) -> S, finish: (S, B) -> R, s: S, t: S, bs: seq<B>, tail: B)
    requires Lossless(round) && Lossless(finish) && s != t
    ensures finish(Fold(round, s, bs), tail) != finish(Fold(round, t, bs), tail)
  {
    if Fold(round, s, bs) == Fold(round, t, bs) {
      FoldInjective(round, s, t, bs);
    }
  }

  /** The tail of a key, taken for itself. */
  lemma TailWord(key: seq<Byte>, from: nat, at: nat)
    requires from <= |key|
    ensures Word32At(key[from..], at) == Word32At(key, from + at)
    ensures Word64At(key[from..], at) == Word64At(key, from + at)
  {
    hide Word32, Word64;
    assert forall q: nat :: ByteAt(key[from..], q) == ByteAt(key, from + q);
  }

  lemma NoWord(key: seq<Byte>, at: nat)
    requires |key| <= at
    ensures Word32At(key, at) == 0
    ensures Word64At(key, at) == 0
  {
  }

  lemma Nothing32(x: bv32)
    ensures Plus32(x, 0) == x
    ensures Xor32(x, 0) == x
  {
  }

  lemma Nothing64(x: bv64)
    ensures Xor64(x, 0) == x
  {
  }

  /** The bytes of the tail from `at` on, at most four, as the groups of the `switch` put them
      together. */
  method Gather32(tail: seq<Byte>, at: nat) returns (k: bv32)
    ensures k == Word32At(tail, at)
  {
    k := 0;
    if |tail| > at + 3 {
      k := k ^ ((tail[at + 3] as bv32) << 24);
    }
    if |tail| > at + 2 {
      k := k ^ ((tail[at + 2] as bv32) << 16);
    }
    if |tail| > at + 1 {
      k := k ^ ((tail[at + 1] as bv32) << 8);
    }
    if |tail| > at {
      k := k ^ (tail[at] as bv32);
    }
  }

  method Gather64(tail: seq<Byte>, at: nat) returns (k: bv64)
    ensures k == Word64At(tail, at)
  {
    k := 0;
    if |tail| > at + 7 {
      k := k ^ ((tail[at + 7] as bv64) << 56);
    }
    if |tail| > at + 6 {
      k := k ^ ((tail[at + 6] as bv64) << 48);
    }
    if |tail| > at + 5 {
      k := k ^ ((tail[at + 5] as bv64) << 40);
    }
    if |tail| > at + 4 {
      k := k ^ ((tail[at + 4] as bv64) << 32);
    }
    if |tail| > at + 3 {
      k := k ^ ((tail[at + 3] as bv64) << 24);
    }
    if |tail| > at + 2 {
      k := k ^ ((tail[at + 2] as bv64) << 16);
    }
    if |tail| > at + 1 {
      k := k ^ ((tail[at + 1] as bv64) << 8);
    }
    if |tail| > at {
      k := k ^ (tail[at] as bv64);
    }
  }
}
