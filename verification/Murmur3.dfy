/** The three hash functions of murmurhash3.c. */
module Murmur3 {
  import opened MurmurWords

  /** Keys whose length is an `int` of the source. */
  ghost predicate Fits(key: seq<Byte>) {
    |key| < 0x8000_0000
  }

  /** A hexadecimal digit. */
  function Digit(d: nat): bv32
    requires d < 16
  {
    if d < 8 then
      if d < 4 then (if d == 0 then 0 else if d == 1 then 1 else if d == 2 then 2 else 3)
      else if d == 4 then 4 else if d == 5 then 5 else if d == 6 then 6 else 7
    else if d < 12 then (if d == 8 then 8 else if d == 9 then 9 else if d == 10 then 10 else 11)
    else if d == 12 then 12 else if d == 13 then 13 else if d == 14 then 14 else 15
  }

  /** The word for a number, modulo 2^32. */
  function Word(n: nat): bv32 {
    if n < 16 then Digit(n) else (Word(n / 16) << 4) | Digit(n % 16)
  }

  function Length32(key: seq<Byte>): bv32
    requires Fits(key)
  {
    Word(|key|)
  }

  // ---------- blocks of 32-bit words ----------

  /** A word of the key before it enters the state. */
  function Mix32(k: bv32, c: bv32, r: bv6, d: bv32): bv32
    requires 0 < r < 32
  {
    Times32(Rotl32(Times32(k, c), r), d)
  }

  lemma Mix32Injective(k: bv32, k': bv32, c: bv32, r: bv6, d: bv32, c': bv32, d': bv32)
    requires 0 < r < 32 && c * c' == 1 && d * d' == 1
    requires Mix32(k, c, r, d) == Mix32(k', c, r, d)
    ensures k == k'
  {
    hide Times32, Rotl32;
    Times32Back(Rotl32(Times32(k, c), r), d, d');
    Times32Back(Rotl32(Times32(k', c), r), d, d');
    Rotl32Back(Times32(k, c), r);
    Rotl32Back(Times32(k', c), r);
    Times32Back(k, c, c');
    Times32Back(k', c, c');
  }

  lemma Mix32Zero(c: bv32, r: bv6, d: bv32)
    requires 0 < r < 32
    ensures Mix32(0, c, r, d) == 0
  {
  }

  /** How a mixed word enters a word of the state. */
  function Stir32(h: bv32, k: bv32, r: bv6, next: bv32, c: bv32): bv32
    requires 0 < r < 32
  {
    Plus32(Times32(Plus32(Rotl32(Xor32(h, k), r), next), 5), c)
  }

  /** For a fixed word the state can be recovered, for a fixed state the word. */
  lemma Stir32Injective(h: bv32, k: bv32, h': bv32, k': bv32, r: bv6, next: bv32, c: bv32)
    requires 0 < r < 32 && Stir32(h, k, r, next, c) == Stir32(h', k', r, next, c)
    ensures h == h' <==> k == k'
  {
    hide Times32, Rotl32, Plus32, Xor32;
    Unstir32(h, k, r, next, c);
    Unstir32(h', k', r, next, c);
    if h == h' {
      Xor32Swap(h, k);
      Xor32Swap(h, k');
      Xor32Cancel(k, k', h);
    } else if k == k' {
      Xor32Cancel(h, h', k);
    }
  }

  lemma Unstir32(h: bv32, k: bv32, r: bv6, next: bv32, c: bv32)
    requires 0 < r < 32
    ensures Rotl32(Minus32(Times32(Minus32(Stir32(h, k, r, next, c), c), 0xcccccccd), next), 32 - r) == Xor32(h, k)
  {
    hide Times32, Rotl32, Plus32, Xor32, Minus32;
    var x := Rotl32(Xor32(h, k), r);
    Plus32Back(Times32(Plus32(x, next), 5), c);
    Times32Back(Plus32(x, next), 5, 0xcccccccd);
    Plus32Back(x, next);
    Rotl32Back(Xor32(h, k), r);
  }

  // ---------- murmurhash3_x86_32 ----------

  function MixX86(k: bv32): bv32 {
    Mix32(k, 0xcc9e2d51, 15, 0x1b873593)
  }

  function RoundX86(h: bv32, k: bv32): bv32 {
    Stir32(h, MixX86(k), 13, 0, 0xe6546b64)
  }

  function FinishX86(h: bv32, k: bv32, n: bv32): bv32 {
    Fmix32(Xor32(Xor32(h, MixX86(k)), n))
  }

  ghost function BlocksX86(key: seq<Byte>): seq<bv32> {
    seq(|key| / 4, i requires 0 <= i < |key| / 4 => Word32At(key, 4 * i))
  }

  /** What `murmurhash3_x86_32` computes: the tail is a block filled up with zeros. */
  ghost function HashX86(key: seq<Byte>, seed: bv32): bv32
    requires Fits(key)
  {
    FinishX86(Fold(RoundX86, seed, BlocksX86(key)), Word32At(key, |key| / 4 * 4), Length32(key))
  }

  lemma MixX86Injective(k: bv32, k': bv32)
    requires MixX86(k) == MixX86(k')
    ensures k == k'
  {
    hide Mix32;
    Mix32Injective(k, k', 0xcc9e2d51, 15, 0x1b873593, 0xdee13bb1, 0x56ed309b);
  }

  lemma RoundX86Lossless()
    ensures Lossless(RoundX86)
  {
    hide Stir32, MixX86;
    forall s, t, b | RoundX86(s, b) == RoundX86(t, b)
      ensures s == t
    {
      Stir32Injective(s, MixX86(b), t, MixX86(b), 13, 0, 0xe6546b64);
    }
    forall s, b, c | RoundX86(s, b) == RoundX86(s, c)
      ensures b == c
    {
      Stir32Injective(s, MixX86(b), s, MixX86(c), 13, 0, 0xe6546b64);
      MixX86Injective(b, c);
    }
  }

  lemma FinishX86Lossless(h: bv32, k: bv32, h': bv32, k': bv32, n: bv32)
    requires FinishX86(h, k, n) == FinishX86(h', k', n)
    ensures h == h' <==> k == k'
  {
    hide Fmix32, MixX86, Xor32;
    var m, m' := MixX86(k), MixX86(k');
    FmixInjective(Xor32(Xor32(h, m), n), Xor32(Xor32(h', m'), n), 0, 0);
    Xor32Cancel(Xor32(h, m), Xor32(h', m'), n);
    if h == h' {
      Xor32Swap(h, m);
      Xor32Swap(h, m');
      Xor32Cancel(m, m', h);
      MixX86Injective(k, k');
    } else if k == k' {
      Xor32Cancel(h, h', m);
    }
  }

  lemma HashX86Lossless(n: bv32)
    ensures Lossless(RoundX86) && Lossless((h, k) => FinishX86(h, k, n))
  {
    hide RoundX86, FinishX86;
    RoundX86Lossless();
    forall s, t, b, c | FinishX86(s, b, n) == FinishX86(t, c, n)
      ensures s == t <==> b == c
    {
      FinishX86Lossless(s, b, t, c, n);
    }
  }

  /** For a fixed key different seeds give different hashes. */
  lemma SeedsX86(key: seq<Byte>, seed: bv32, seed': bv32)
    requires Fits(key) && seed != seed'
    ensures HashX86(key, seed) != HashX86(key, seed')
  {
    hide FinishX86, RoundX86, Word32At;
    HashX86Lossless(Length32(key));
    var finish := (h, k) => FinishX86(h, k, Length32(key));
    SeedsMatter(RoundX86, finish, seed, seed', BlocksX86(key), Word32At(key, |key| / 4 * 4));
  }

  /** Keys that differ in one block, or only in the tail, never collide. */
  lemma NoCollisionX86(key: seq<Byte>, key': seq<Byte>, seed: bv32, i: nat)
    requires Fits(key) && OneChunk(key, key', 4, i)
    ensures HashX86(key, seed) != HashX86(key', seed)
  {
    hide FinishX86, RoundX86, Word32At, BlocksX86;
    HashX86Lossless(Length32(key));
    WordsX86(key, key', i);
    var n, finish := |key| / 4, (h, k) => FinishX86(h, k, Length32(key));
    OneDifference(RoundX86, finish, seed, BlocksX86(key), Word32At(key, 4 * n), BlocksX86(key'),
      Word32At(key', 4 * n), i);
  }

  /** The words of two such keys. */
  lemma WordsX86(key: seq<Byte>, key': seq<Byte>, i: nat)
    requires OneChunk(key, key', 4, i)
    ensures DifferAt(BlocksX86(key), Word32At(key, |key| / 4 * 4), BlocksX86(key'), Word32At(key', |key| / 4 * 4), i)
  {
    hide Word32At;
    var p := SomeByte(key, key', 4, i);
    if Word32At(key, 4 * i) == Word32At(key', 4 * i) {
      Word32AtInjective(key, key', 4 * i, p);
    }
    forall j | 0 <= j <= |key| / 4 && j != i
      ensures Word32At(key, 4 * j) == Word32At(key', 4 * j)
    {
      OtherWord(key, key', 4, i, 4 * j);
    }
    assert |key| / 4 * 4 == 4 * (|key| / 4) && i <= |key| / 4;
  }

  /** `murmurhash3_x86_32`, without its `printf`. */
  method MurmurX86(key: seq<Byte>, seed: bv32) returns (out: bv32)
    requires Fits(key)
    ensures out == HashX86(key, seed)
  {
    hide Times32, Rotl32, Xor32, Plus32, Word32, Fmix32, Fold;
    var c1: bv32, c2: bv32 := 0xcc9e2d51, 0x1b873593;
    var h1, i, nblocks := seed, 0, |key| / 4;
    ghost var blocks := BlocksX86(key);
    FoldEnds(RoundX86, seed, blocks);
    while i < nblocks
      invariant i <= nblocks && h1 == Fold(RoundX86, seed, blocks[..i])
    {
      var k1 := Times32(Rotl32(Times32(Word32At(key, 4 * i), c1), 15), c2);
      Nothing32(Rotl32(Xor32(h1, k1), 13));
      h1 := Plus32(Times32(Rotl32(Xor32(h1, k1), 13), 5), 0xe6546b64);
      FoldNext(RoundX86, seed, blocks, i);
      i := i + 1;
    }
    h1 := TailWord32(key, 4 * nblocks, 0, c1, 15, c2, h1);
    out := Fmix32(Xor32(h1, Length32(key)));
  }

  // ---------- murmurhash3_x86_128 ----------

  /** Four words of the state, of a block or of the result. */
  datatype Four = Four(w1: bv32, w2: bv32, w3: bv32, w4: bv32)

  function MixFour(k: Four): Four {
    Four(Mix32(k.w1, 0x239b961b, 15, 0xab0e9789), Mix32(k.w2, 0xab0e9789, 16, 0x38b34ae5),
         Mix32(k.w3, 0x38b34ae5, 17, 0xa1e38b93), Mix32(k.w4, 0xa1e38b93, 18, 0x239b961b))
  }

  function StirFour(h: Four, m: Four): Four {
    var h1 := Stir32(h.w1, m.w1, 19, h.w2, 0x561ccd1b);
    Four(h1, Stir32(h.w2, m.w2, 17, h.w3, 0x0bcaa747), Stir32(h.w3, m.w3, 15, h.w4, 0x96cd1c35),
         Stir32(h.w4, m.w4, 13, h1, 0x32ac3b17))
  }

  function RoundX86Four(h: Four, k: Four): Four {
    StirFour(h, MixFour(k))
  }

  function XorFour(h: Four, m: Four): Four {
    Four(Xor32(h.w1, m.w1), Xor32(h.w2, m.w2), Xor32(h.w3, m.w3), Xor32(h.w4, m.w4))
  }

  /** murmurhash3.c:190-195 and 200-205. */
  function SpreadFour(h: Four): Four {
    var h1 := Plus32(Plus32(Plus32(h.w1, h.w2), h.w3), h.w4);
    Four(h1, Plus32(h.w2, h1), Plus32(h.w3, h1), Plus32(h.w4, h1))
  }

  function FmixFour(h: Four): Four {
    Four(Fmix32(h.w1), Fmix32(h.w2), Fmix32(h.w3), Fmix32(h.w4))
  }

  function FinishFour(h: Four, k: Four, n: bv32): Four {
    SpreadFour(FmixFour(SpreadFour(XorFour(XorFour(h, MixFour(k)), Four(n, n, n, n)))))
  }

  ghost function FourAt(key: seq<Byte>, p: nat): Four {
    Four(Word32At(key, p), Word32At(key, p + 4), Word32At(key, p + 8), Word32At(key, p + 12))
  }

  ghost function BlocksFour(key: seq<Byte>): seq<Four> {
    seq(|key| / 16, i requires 0 <= i < |key| / 16 => FourAt(key, 16 * i))
  }

  /** What `murmurhash3_x86_128` computes. */
  ghost function HashX86Four(key: seq<Byte>, seed: bv32): Four
    requires Fits(key)
  {
    FinishFour(Fold(RoundX86Four, Four(seed, seed, seed, seed), BlocksFour(key)), FourAt(key, |key| / 16 * 16),
      Length32(key))
  }

  lemma MixFourInjective(k: Four, k': Four)
    requires MixFour(k) == MixFour(k')
    ensures k == k'
  {
    hide Mix32;
    Mix32Injective(k.w1, k'.w1, 0x239b961b, 15, 0xab0e9789, 0x89c95413, 0xdf130eb9);
    Mix32Injective(k.w2, k'.w2, 0xab0e9789, 16, 0x38b34ae5, 0xdf130eb9, 0x747862ed);
    Mix32Injective(k.w3, k'.w3, 0x38b34ae5, 17, 0xa1e38b93, 0x747862ed, 0x58d64a9b);
    Mix32Injective(k.w4, k'.w4, 0xa1e38b93, 18, 0x239b961b, 0x58d64a9b, 0x89c95413);
  }

  lemma StirFourLossless(h: Four, m: Four, h': Four, m': Four)
    requires StirFour(h, m) == StirFour(h', m')
    ensures h == h' <==> m == m'
  {
    hide Stir32;
    var g1 := StirFour(h, m).w1;
    if h == h' || m == m' {
      Stir32Injective(h.w4, m.w4, h'.w4, m'.w4, 13, g1, 0x32ac3b17);
      Stir32Injective(h.w3, m.w3, h'.w3, m'.w3, 15, h.w4, 0x96cd1c35);
      Stir32Injective(h.w2, m.w2, h'.w2, m'.w2, 17, h.w3, 0x0bcaa747);
      Stir32Injective(h.w1, m.w1, h'.w1, m'.w1, 19, h.w2, 0x561ccd1b);
    }
  }

  lemma SpreadFourInjective(h: Four, h': Four)
    requires SpreadFour(h) == SpreadFour(h')
    ensures h == h'
  {
    hide Plus32, Minus32;
    var s := SpreadFour(h).w1;
    Plus32Back(h.w2, s);
    Plus32Back(h'.w2, s);
    Plus32Back(h.w3, s);
    Plus32Back(h'.w3, s);
    Plus32Back(h.w4, s);
    Plus32Back(h'.w4, s);
    Plus32Back(Plus32(Plus32(h.w1, h.w2), h.w3), h.w4);
    Plus32Back(Plus32(Plus32(h'.w1, h.w2), h.w3), h.w4);
    Plus32Back(Plus32(h.w1, h.w2), h.w3);
    Plus32Back(Plus32(h'.w1, h.w2), h.w3);
    Plus32Back(h.w1, h.w2);
    Plus32Back(h'.w1, h.w2);
  }

  lemma XorFourCancel(h: Four, m: Four, h': Four, m': Four)
    requires XorFour(h, m) == XorFour(h', m')
    ensures h == h' <==> m == m'
  {
    XorWord(h.w1, m.w1, h'.w1, m'.w1);
    XorWord(h.w2, m.w2, h'.w2, m'.w2);
    XorWord(h.w3, m.w3, h'.w3, m'.w3);
    XorWord(h.w4, m.w4, h'.w4, m'.w4);
    hide Xor32;
  }

  lemma XorWord(h: bv32, m: bv32, h': bv32, m': bv32)
    requires Xor32(h, m) == Xor32(h', m')
    ensures h == h' <==> m == m'
  {
    hide Xor32;
    if h == h' {
      Xor32Swap(h, m);
      Xor32Swap(h, m');
      Xor32Cancel(m, m', h);
    } else if m == m' {
      Xor32Cancel(h, h', m);
    }
  }

  lemma FinishFourLossless(h: Four, k: Four, h': Four, k': Four, n: bv32)
    requires FinishFour(h, k, n) == FinishFour(h', k', n)
    ensures h == h' <==> k == k'
  {
    hide SpreadFour, XorFour, Fmix32, MixFour;
    var x, x' := XorFour(h, MixFour(k)), XorFour(h', MixFour(k'));
    var y, y' := XorFour(x, Four(n, n, n, n)), XorFour(x', Four(n, n, n, n));
    var z, z' := SpreadFour(y), SpreadFour(y');
    SpreadFourInjective(FmixFour(z), FmixFour(z'));
    FmixInjective(z.w1, z'.w1, 0, 0);
    FmixInjective(z.w2, z'.w2, 0, 0);
    FmixInjective(z.w3, z'.w3, 0, 0);
    FmixInjective(z.w4, z'.w4, 0, 0);
    SpreadFourInjective(y, y');
    XorFourCancel(x, Four(n, n, n, n), x', Four(n, n, n, n));
    XorFourCancel(h, MixFour(k), h', MixFour(k'));
    if h == h' {
      MixFourInjective(k, k');
    }
  }

  lemma HashX86FourLossless(n: bv32)
    ensures Lossless(RoundX86Four) && Lossless((h, k) => FinishFour(h, k, n))
  {
    hide StirFour, MixFour, FinishFour;
    forall s, t, b, c | RoundX86Four(s, b) == RoundX86Four(t, c)
      ensures s == t <==> b == c
    {
      StirFourLossless(s, MixFour(b), t, MixFour(c));
      if s == t {
        MixFourInjective(b, c);
      }
    }
    forall s, t, b, c | FinishFour(s, b, n) == FinishFour(t, c, n)
      ensures s == t <==> b == c
    {
      FinishFourLossless(s, b, t, c, n);
    }
  }

  lemma SeedsX86Four(key: seq<Byte>, seed: bv32, seed': bv32)
    requires Fits(key) && seed != seed'
    ensures HashX86Four(key, seed) != HashX86Four(key, seed')
  {
    hide FinishFour, RoundX86Four, FourAt, BlocksFour;
    HashX86FourLossless(Length32(key));
    var finish := (h, k) => FinishFour(h, k, Length32(key));
    SeedsMatter(RoundX86Four, finish, Four(seed, seed, seed, seed), Four(seed', seed', seed', seed'),
                BlocksFour(key), FourAt(key, |key| / 16 * 16));
  }

  lemma NoCollisionX86Four(key: seq<Byte>, key': seq<Byte>, seed: bv32, i: nat)
    requires Fits(key) && OneChunk(key, key', 16, i)
    ensures HashX86Four(key, seed) != HashX86Four(key', seed)
  {
    hide FinishFour, RoundX86Four, FourAt, BlocksFour;
    HashX86FourLossless(Length32(key));
    WordsFour(key, key', i);
    var at, finish := |key| / 16 * 16, (h, k) => FinishFour(h, k, Length32(key));
    OneDifference(RoundX86Four, finish, Four(seed, seed, seed, seed),
                  BlocksFour(key), FourAt(key, at), BlocksFour(key'), FourAt(key', at), i);
  }

  lemma WordsFour(key: seq<Byte>, key': seq<Byte>, i: nat)
    requires OneChunk(key, key', 16, i)
    ensures DifferAt(BlocksFour(key), FourAt(key, |key| / 16 * 16), BlocksFour(key'), FourAt(key', |key| / 16 * 16), i)
  {
    hide Word32At;
    var p := SomeByte(key, key', 16, i);
    var q := 16 * i + (p - 16 * i) / 4 * 4;
    if Word32At(key, q) == Word32At(key', q) {
      Word32AtInjective(key, key', q, p);
    }
    assert FourAt(key, 16 * i) != FourAt(key', 16 * i);
    forall j | 0 <= j <= |key| / 16 && j != i
      ensures FourAt(key, 16 * j) == FourAt(key', 16 * j)
    {
      OtherWord(key, key', 16, i, 16 * j);
      OtherWord(key, key', 16, i, 16 * j + 4);
      OtherWord(key, key', 16, i, 16 * j + 8);
      OtherWord(key, key', 16, i, 16 * j + 12);
    }
    assert |key| / 16 * 16 == 16 * (|key| / 16) && i <= |key| / 16;
  }

  /** `murmurhash3_x86_128`. */
  method MurmurX86Four(key: seq<Byte>, seed: bv32) returns (out: Four)
    requires Fits(key)
    ensures out == HashX86Four(key, seed)
  {
    hide Xor32, Fmix32, Word32At, RoundX86Four, SpreadFour, MixFour, Fold;
    var nblocks := |key| / 16;
    var h1, h2, h3, h4 := seed, seed, seed, seed;
    var blocks := 16 * nblocks;
    ghost var bs := BlocksFour(key);
    FoldEnds(RoundX86Four, Four(seed, seed, seed, seed), bs);
    var i := -nblocks;
    while i != 0
      invariant -nblocks <= i <= 0
      invariant Four(h1, h2, h3, h4) == Fold(RoundX86Four, Four(seed, seed, seed, seed), bs[..nblocks + i])
      decreases -i
    {
      var j := blocks + 16 * i;
      var k1, k2, k3, k4 := Word32At(key, j), Word32At(key, j + 4), Word32At(key, j + 8), Word32At(key, j + 12);
      FoldNext(RoundX86Four, Four(seed, seed, seed, seed), bs, nblocks + i);
      h1, h2, h3, h4 := BlockFour(h1, h2, h3, h4, k1, k2, k3, k4);
      i := i + 1;
    }
    h1, h2, h3, h4 := TailFour(key, blocks, h1, h2, h3, h4);
    out := FinalFour(h1, h2, h3, h4, Length32(key));
  }

  /** murmurhash3.c:186-210. */
  method FinalFour(g1: bv32, g2: bv32, g3: bv32, g4: bv32, len: bv32) returns (out: Four)
    ensures out == SpreadFour(FmixFour(SpreadFour(XorFour(Four(g1, g2, g3, g4), Four(len, len, len, len)))))
  {
    hide Xor32, Fmix32, SpreadFour;
    var h1, h2, h3, h4 := g1, g2, g3, g4;
    h1 := Xor32(h1, len);
    h2 := Xor32(h2, len);
    h3 := Xor32(h3, len);
    h4 := Xor32(h4, len);
    h1, h2, h3, h4 := Spread(h1, h2, h3, h4);
    h1 := Fmix32(h1);
    h2 := Fmix32(h2);
    h3 := Fmix32(h3);
    h4 := Fmix32(h4);
    h1, h2, h3, h4 := Spread(h1, h2, h3, h4);
    out := Four(h1, h2, h3, h4);
  }

  /** murmurhash3.c:125-144. */
  method BlockFour(g1: bv32, g2: bv32, g3: bv32, g4: bv32, l1: bv32, l2: bv32, l3: bv32, l4: bv32)
    returns (h1: bv32, h2: bv32, h3: bv32, h4: bv32)
    ensures Four(h1, h2, h3, h4) == RoundX86Four(Four(g1, g2, g3, g4), Four(l1, l2, l3, l4))
  {
    hide Times32, Rotl32, Xor32, Plus32;
    var c1: bv32, c2: bv32, c3: bv32, c4: bv32 := 0x239b961b, 0xab0e9789, 0x38b34ae5, 0xa1e38b93;
    h1, h2, h3, h4 := g1, g2, g3, g4;
    var k1, k2, k3, k4 := l1, l2, l3, l4;
    k1 := Rotl32(Times32(k1, c1), 15);
    k1 := Times32(k1, c2);
    h1 := Rotl32(Xor32(h1, k1), 19);
    h1 := Plus32(h1, h2);
    h1 := Plus32(Times32(h1, 5), 0x561ccd1b);
    k2 := Rotl32(Times32(k2, c2), 16);
    k2 := Times32(k2, c3);
    h2 := Rotl32(Xor32(h2, k2), 17);
    h2 := Plus32(h2, h3);
    h2 := Plus32(Times32(h2, 5), 0x0bcaa747);
    k3 := Rotl32(Times32(k3, c3), 17);
    k3 := Times32(k3, c4);
    h3 := Rotl32(Xor32(h3, k3), 15);
    h3 := Plus32(h3, h4);
    h3 := Plus32(Times32(h3, 5), 0x96cd1c35);
    k4 := Rotl32(Times32(k4, c4), 18);
    k4 := Times32(k4, c1);
    h4 := Rotl32(Xor32(h4, k4), 13);
    h4 := Plus32(h4, h1);
    h4 := Plus32(Times32(h4, 5), 0x32ac3b17);
}

  /** murmurhash3.c:190-195 and 200-205. */
  method Spread(g1: bv32, g2: bv32, g3: bv32, g4: bv32) returns (h1: bv32, h2: bv32, h3: bv32, h4: bv32)
    ensures Four(h1, h2, h3, h4) == SpreadFour(Four(g1, g2, g3, g4))
  {
    hide Plus32;
    h1, h2, h3, h4 := g1, g2, g3, g4;
    h1 := Plus32(h1, h2);
    h1 := Plus32(h1, h3);
    h1 := Plus32(h1, h4);
    h2 := Plus32(h2, h1);
    h3 := Plus32(h3, h1);
    h4 := Plus32(h4, h1);
  }

  /** murmurhash3.c:147-184. */
  method TailFour(key: seq<Byte>, from: nat, g1: bv32, g2: bv32, g3: bv32, g4: bv32)
    returns (h1: bv32, h2: bv32, h3: bv32, h4: bv32)
    requires from <= |key| < from + 16
    ensures Four(h1, h2, h3, h4) == XorFour(Four(g1, g2, g3, g4), MixFour(FourAt(key, from)))
  {
    var c1: bv32, c2: bv32, c3: bv32, c4: bv32 := 0x239b961b, 0xab0e9789, 0x38b34ae5, 0xa1e38b93;
    var tail := key[from..];
    hide Times32, Rotl32, Xor32, Word32At;
    h4 := TailWord32(key, from, 12, c4, 18, c1, g4);
    h3 := TailWord32(key, from, 8, c3, 17, c4, g3);
    h2 := TailWord32(key, from, 4, c2, 16, c3, g2);
    h1 := TailWord32(key, from, 0, c1, 15, c2, g1);
  }

  /** One group of the `switch` on the length of the tail: the bytes from `at` on, at most four,
      if there are any. */
  method TailWord32(key: seq<Byte>, from: nat, at: nat, c: bv32, r: bv6, d: bv32, g: bv32) returns (h: bv32)
    requires from <= |key| && 0 < r < 32
    ensures h == Xor32(g, Mix32(Word32At(key, from + at), c, r, d))
  {
    hide Times32, Rotl32, Xor32, Word32At;
    var tail := key[from..];
    TailWord(key, from, at);
    Mix32Zero(c, r, d);
    Nothing32(g);
    h := g;
    if |tail| > at {
      var k := Gather32(tail, at);
      k := Times32(k, c);
      k := Rotl32(k, r);
      k := Times32(k, d);
      h := Xor32(h, k);
    } else {
      NoWord(tail, at);
    }
  }

  // ---------- murmurhash3_x64_128 ----------

  /** Two words of the state, of a block or of the result. */
  datatype Two = Two(w1: bv64, w2: bv64)

  function MixTwo(k: Two): Two {
    Two(Times64(Rotl64(Times64(k.w1, 0x87c37b91114253d5), 31), 0x4cf5ad432745937f),
        Times64(Rotl64(Times64(k.w2, 0x4cf5ad432745937f), 33), 0x87c37b91114253d5))
  }

  function StirTwo(h: Two, m: Two): Two {
    var h1 := Plus64(Times64(Plus64(Rotl64(Xor64(h.w1, m.w1), 27), h.w2), 5), 0x52dce729);
    Two(h1, Plus64(Times64(Plus64(Rotl64(Xor64(h.w2, m.w2), 31), h1), 5), 0x38495ab5))
  }

  function RoundTwo(h: Two, k: Two): Two {
    StirTwo(h, MixTwo(k))
  }

  function XorTwo(h: Two, m: Two): Two {
    Two(Xor64(h.w1, m.w1), Xor64(h.w2, m.w2))
  }

  /** murmurhash3.c:284-285 and 288-289. */
  function SpreadTwo(h: Two): Two {
    var h1 := Plus64(h.w1, h.w2);
    Two(h1, Plus64(h.w2, h1))
  }

  function FmixTwo(h: Two): Two {
    Two(Fmix64(h.w1), Fmix64(h.w2))
  }

  function FinishTwo(h: Two, k: Two, n: bv64): Two {
    SpreadTwo(FmixTwo(SpreadTwo(XorTwo(XorTwo(h, MixTwo(k)), Two(n, n)))))
  }

  ghost function TwoAt(key: seq<Byte>, p: nat): Two {
    Two(Word64At(key, p), Word64At(key, p + 8))
  }

  ghost function BlocksTwo(key: seq<Byte>): seq<Two> {
    seq(|key| / 16, i requires 0 <= i < |key| / 16 => TwoAt(key, 16 * i))
  }

  function Length64(key: seq<Byte>): bv64
    requires Fits(key)
  {
    Word(|key|) as bv64
  }

  /** What `murmurhash3_x64_128` computes. */
  ghost function HashX64(key: seq<Byte>, seed: bv32): Two
    requires Fits(key)
  {
    var s := seed as bv64;
    FinishTwo(Fold(RoundTwo, Two(s, s), BlocksTwo(key)), TwoAt(key, |key| / 16 * 16), Length64(key))
  }

  lemma MixTwoInjective(k: Two, k': Two)
    requires MixTwo(k) == MixTwo(k')
    ensures k == k'
  {
    UnmixTwo(k);
    UnmixTwo(k');
    hide *;
  }

  /** `MixTwo` undone. */
  function Unmixed(m: Two): Two {
    Two(Times64(Rotl64(Times64(m.w1, 0xa81e14edd9de2c7f), 33), 0xa98409e882ce4d7d),
        Times64(Rotl64(Times64(m.w2, 0xa98409e882ce4d7d), 31), 0xa81e14edd9de2c7f))
  }

  lemma UnmixTwo(k: Two)
    ensures Unmixed(MixTwo(k)) == k
  {
    hide Times64, Rotl64;
    var x, y := Times64(k.w1, 0x87c37b91114253d5), Times64(k.w2, 0x4cf5ad432745937f);
    Times64Back(Rotl64(x, 31), 0x4cf5ad432745937f, 0xa81e14edd9de2c7f);
    Rotl64Back31(x);
    Times64Back(k.w1, 0x87c37b91114253d5, 0xa98409e882ce4d7d);
    Times64Back(Rotl64(y, 33), 0x87c37b91114253d5, 0xa98409e882ce4d7d);
    Rotl64Back33(y);
    Times64Back(k.w2, 0x4cf5ad432745937f, 0xa81e14edd9de2c7f);
  }

  /** `StirTwo` undone, up to the exclusive or. */
  function Unstirred(g: Two, h2: bv64): Two {
    Two(Rotl64(Minus64(Times64(Minus64(g.w1, 0x52dce729), 0xcccccccccccccccd), h2), 37),
        Rotl64(Minus64(Times64(Minus64(g.w2, 0x38495ab5), 0xcccccccccccccccd), g.w1), 33))
  }

  lemma UnstirTwo(h: Two, m: Two)
    ensures Unstirred(StirTwo(h, m), h.w2) == XorTwo(h, m)
  {
    hide Times64, Rotl64, Plus64, Minus64, Xor64;
    var x, y, g1 := Rotl64(Xor64(h.w1, m.w1), 27), Rotl64(Xor64(h.w2, m.w2), 31), StirTwo(h, m).w1;
    Plus64Back(Times64(Plus64(x, h.w2), 5), 0x52dce729);
    Times64Back(Plus64(x, h.w2), 5, 0xcccccccccccccccd);
    Plus64Back(x, h.w2);
    Rotl64Back27(Xor64(h.w1, m.w1));
    Plus64Back(Times64(Plus64(y, g1), 5), 0x38495ab5);
    Times64Back(Plus64(y, g1), 5, 0xcccccccccccccccd);
    Plus64Back(y, g1);
    Rotl64Back31(Xor64(h.w2, m.w2));
  }

  lemma StirTwoLossless(h: Two, m: Two, h': Two, m': Two)
    requires StirTwo(h, m) == StirTwo(h', m')
    ensures h == h' <==> m == m'
  {
    hide StirTwo, Xor64, Times64, Rotl64, Minus64;
    UnstirTwo(h, m);
    UnstirTwo(h', m');
    assert Unstirred(StirTwo(h, m), h.w2).w2 == Unstirred(StirTwo(h', m'), h'.w2).w2;
    XorWord64(h.w2, m.w2, h'.w2, m'.w2);
    if h.w2 == h'.w2 {
      XorWord64(h.w1, m.w1, h'.w1, m'.w1);
    }
  }

  lemma XorWord64(h: bv64, m: bv64, h': bv64, m': bv64)
    requires Xor64(h, m) == Xor64(h', m')
    ensures h == h' <==> m == m'
  {
    hide Xor64;
    if h == h' {
      Xor64Swap(h, m);
      Xor64Swap(h, m');
      Xor64Cancel(m, m', h);
    } else if m == m' {
      Xor64Cancel(h, h', m);
    }
  }

  lemma SpreadTwoInjective(h: Two, h': Two)
    requires SpreadTwo(h) == SpreadTwo(h')
    ensures h == h'
  {
    hide Plus64, Minus64;
    var s := SpreadTwo(h).w1;
    Plus64Back(h.w2, s);
    Plus64Back(h'.w2, s);
    Plus64Back(h.w1, h.w2);
    Plus64Back(h'.w1, h.w2);
  }

  lemma FinishTwoLossless(h: Two, k: Two, h': Two, k': Two, n: bv64)
    requires FinishTwo(h, k, n) == FinishTwo(h', k', n)
    ensures h == h' <==> k == k'
  {
    hide SpreadTwo, Fmix64, MixTwo, Xor64;
    var x, x' := XorTwo(h, MixTwo(k)), XorTwo(h', MixTwo(k'));
    var y, y' := XorTwo(x, Two(n, n)), XorTwo(x', Two(n, n));
    var z, z' := SpreadTwo(y), SpreadTwo(y');
    SpreadTwoInjective(FmixTwo(z), FmixTwo(z'));
    FmixInjective(0, 0, z.w1, z'.w1);
    FmixInjective(0, 0, z.w2, z'.w2);
    SpreadTwoInjective(y, y');
    XorWord64(x.w1, n, x'.w1, n);
    XorWord64(x.w2, n, x'.w2, n);
    XorWord64(h.w1, MixTwo(k).w1, h'.w1, MixTwo(k').w1);
    XorWord64(h.w2, MixTwo(k).w2, h'.w2, MixTwo(k').w2);
    if h == h' {
      MixTwoInjective(k, k');
    }
  }

  lemma HashX64Lossless(n: bv64)
    ensures Lossless(RoundTwo) && Lossless((h, k) => FinishTwo(h, k, n))
  {
    hide StirTwo, MixTwo, FinishTwo;
    forall s, t, b, c | RoundTwo(s, b) == RoundTwo(t, c)
      ensures s == t <==> b == c
    {
      StirTwoLossless(s, MixTwo(b), t, MixTwo(c));
      if s == t {
        MixTwoInjective(b, c);
      }
    }
    forall s, t, b, c | FinishTwo(s, b, n) == FinishTwo(t, c, n)
      ensures s == t <==> b == c
    {
      FinishTwoLossless(s, b, t, c, n);
    }
  }

  lemma SeedsX64(key: seq<Byte>, seed: bv32, seed': bv32)
    requires Fits(key) && seed != seed'
    ensures HashX64(key, seed) != HashX64(key, seed')
  {
    hide FinishTwo, RoundTwo, TwoAt, BlocksTwo;
    HashX64Lossless(Length64(key));
    var finish := (h, k) => FinishTwo(h, k, Length64(key));
    Widened(seed, seed');
    SeedsMatter(RoundTwo, finish, Two(seed as bv64, seed as bv64), Two(seed' as bv64, seed' as bv64),
                BlocksTwo(key), TwoAt(key, |key| / 16 * 16));
  }

  lemma Widened(x: bv32, y: bv32)
    ensures x as bv64 == y as bv64 ==> x == y
  {
  }

  lemma NoCollisionX64(key: seq<Byte>, key': seq<Byte>, seed: bv32, i: nat)
    requires Fits(key) && OneChunk(key, key', 16, i)
    ensures HashX64(key, seed) != HashX64(key', seed)
  {
    hide FinishTwo, RoundTwo, TwoAt, BlocksTwo;
    HashX64Lossless(Length64(key));
    WordsTwo(key, key', i);
    var at, finish, s := |key| / 16 * 16, (h, k) => FinishTwo(h, k, Length64(key)), seed as bv64;
    OneDifference(RoundTwo, finish, Two(s, s), BlocksTwo(key), TwoAt(key, at), BlocksTwo(key'), TwoAt(key', at), i);
  }

  lemma WordsTwo(key: seq<Byte>, key': seq<Byte>, i: nat)
    requires OneChunk(key, key', 16, i)
    ensures DifferAt(BlocksTwo(key), TwoAt(key, |key| / 16 * 16), BlocksTwo(key'), TwoAt(key', |key| / 16 * 16), i)
  {
    hide Word64At;
    var p := SomeByte(key, key', 16, i);
    var q := 16 * i + (p - 16 * i) / 8 * 8;
    if Word64At(key, q) == Word64At(key', q) {
      Word64AtInjective(key, key', q, p);
    }
    assert TwoAt(key, 16 * i) != TwoAt(key', 16 * i);
    forall j | 0 <= j <= |key| / 16 && j != i
      ensures TwoAt(key, 16 * j) == TwoAt(key', 16 * j)
    {
      OtherWord64(key, key', 16, i, 16 * j);
      OtherWord64(key, key', 16, i, 16 * j + 8);
    }
    assert |key| / 16 * 16 == 16 * (|key| / 16) && i <= |key| / 16;
  }

  /** `murmurhash3_x64_128`. */
  method MurmurX64(key: seq<Byte>, seed: bv32) returns (out: Two)
    requires Fits(key)
    ensures out == HashX64(key, seed)
  {
    hide Xor64, Fmix64, Word64At, RoundTwo, SpreadTwo, Times64, Rotl64, Fold, BlocksTwo;
    var nblocks := |key| / 16;
    var h1, h2 := AllBlocksTwo(key, seed as bv64);
    h2 := TailWord64(key, 16 * nblocks, 8, 0x4cf5ad432745937f, 33, 0x87c37b91114253d5, h2);
    h1 := TailWord64(key, 16 * nblocks, 0, 0x87c37b91114253d5, 31, 0x4cf5ad432745937f, h1);
    out := FinalTwo(h1, h2, Length64(key));
  }

  /** murmurhash3.c:230-250. */
  method AllBlocksTwo(key: seq<Byte>, seed: bv64) returns (h1: bv64, h2: bv64)
    ensures Two(h1, h2) == Fold(RoundTwo, Two(seed, seed), BlocksTwo(key))
  {
    hide Word64At, RoundTwo, Fold;
    var nblocks := |key| / 16;
    h1, h2 := seed, seed;
    ghost var bs, s := BlocksTwo(key), Two(seed, seed);
    FoldEnds(RoundTwo, s, bs);
    var i := 0;
    while i < nblocks
      invariant i <= nblocks && Two(h1, h2) == Fold(RoundTwo, s, bs[..i])
    {
      var k1, k2 := Word64At(key, 16 * i), Word64At(key, 16 * i + 8);
      FoldNext(RoundTwo, s, bs, i);
      h1, h2 := BlockTwo(h1, h2, k1, k2);
      i := i + 1;
    }
  }

  /** murmurhash3.c:237-250. */
  method BlockTwo(g1: bv64, g2: bv64, l1: bv64, l2: bv64) returns (h1: bv64, h2: bv64)
    ensures Two(h1, h2) == RoundTwo(Two(g1, g2), Two(l1, l2))
  {
    hide Times64, Rotl64, Xor64, Plus64;
    var c1: bv64, c2: bv64 := 0x87c37b91114253d5, 0x4cf5ad432745937f;
    h1, h2 := g1, g2;
    var k1, k2 := l1, l2;
    k1 := Times64(k1, c1);
    k1 := Rotl64(k1, 31);
    k1 := Times64(k1, c2);
    h1 := Xor64(h1, k1);
    h1 := Rotl64(h1, 27);
    h1 := Plus64(h1, h2);
    h1 := Plus64(Times64(h1, 5), 0x52dce729);
    k2 := Times64(k2, c2);
    k2 := Rotl64(k2, 33);
    k2 := Times64(k2, c1);
    h2 := Xor64(h2, k2);
    h2 := Rotl64(h2, 31);
    h2 := Plus64(h2, h1);
    h2 := Plus64(Times64(h2, 5), 0x38495ab5);
  }

  /** murmurhash3.c:282-292. */
  method FinalTwo(g1: bv64, g2: bv64, len: bv64) returns (out: Two)
    ensures out == SpreadTwo(FmixTwo(SpreadTwo(XorTwo(Two(g1, g2), Two(len, len)))))
  {
    hide Xor64, Fmix64, Plus64;
    var h1, h2 := g1, g2;
    h1 := Xor64(h1, len);
    h2 := Xor64(h2, len);
    h1 := Plus64(h1, h2);
    h2 := Plus64(h2, h1);
    h1 := Fmix64(h1);
    h2 := Fmix64(h2);
    h1 := Plus64(h1, h2);
    h2 := Plus64(h2, h1);
    out := Two(h1, h2);
  }

  /** One group of that `switch`. */
  method TailWord64(key: seq<Byte>, from: nat, at: nat, c: bv64, r: bv7, d: bv64, g: bv64) returns (h: bv64)
    requires from <= |key| && 0 < r < 64
    ensures h == Xor64(g, Times64(Rotl64(Times64(Word64At(key, from + at), c), r), d))
  {
    hide Times64, Rotl64, Xor64, Word64At;
    var tail := key[from..];
    TailWord(key, from, at);
    h := g;
    if |tail| > at {
      var k := Gather64(tail, at);
      k := Times64(k, c);
      k := Rotl64(k, r);
      k := Times64(k, d);
      h := Xor64(h, k);
    } else {
      NoWord(tail, at);
      Mix64Zero(c, r, d);
      Nothing64(g);
    }
  }

  lemma Mix64Zero(c: bv64, r: bv7, d: bv64)
    requires 0 < r < 64
    ensures Times64(Rotl64(Times64(0, c), r), d) == 0
  {
  }
}
