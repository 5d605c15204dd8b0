/** Known answers of the three hash functions, which fix constants, rotations and the order of the
  * bytes; and that the length of the key matters. */
module MurmurAnswers {
  import opened MurmurWords
  import opened Murmur3

  lemma FoldOne<S, B>(round: (S, B) -> S, s: S, b: B)
    ensures Fold(round, s, [b]) == round(s, b)
  {
    assert [b][..0] == [];
    assert Fold(round, s, []) == s;
  }

  /** A key of one block and a tail. */
  lemma OneBlockX86(key: seq<Byte>, seed: bv32, b: bv32, t: bv32, n: bv32)
    requires 4 <= |key| < 8 && Word32At(key, 0) == b && Word32At(key, 4) == t && Length32(key) == n
    ensures HashX86(key, seed) == FinishX86(RoundX86(seed, b), t, n)
  {
    hide Word32At, RoundX86, FinishX86, Length32;
    assert BlocksX86(key) == [b];
    FoldOne(RoundX86, seed, b);
  }

  /** "test". */
  lemma TestX86()
    ensures HashX86([0x74, 0x65, 0x73, 0x74], 0) == 0xba6bd213
  {
    var key: seq<Byte> := [0x74, 0x65, 0x73, 0x74];
    OneBlockX86(key, 0, 0x74736574, 0, 4);
    assert RoundX86(0, 0x74736574) == 0x7985975b;
  }

  /** Four zero bytes. */
  lemma ZerosX86()
    ensures HashX86([0, 0, 0, 0], 0) == 0x2362f9de
  {
    var key: seq<Byte> := [0, 0, 0, 0];
    OneBlockX86(key, 0, 0, 0, 4);
    assert RoundX86(0, 0) == 0xe6546b64;
  }

  /** No byte, and one. */
  lemma ShortX86()
    ensures HashX86([], 0) == 0 && HashX86([0], 0) == 0x514e28b7
  {
    assert BlocksX86([]) == [] && BlocksX86([0]) == [];
    assert Fold(RoundX86, 0, []) == 0;
    assert Length32([]) == 0 && Length32([0]) == 1;
  }

  /** One block and a tail of three bytes. */
  lemma TailX86()
    ensures HashX86([1, 2, 3, 4, 5, 6, 7], 1) == 0x954f44b2
  {
    var key: seq<Byte> := [1, 2, 3, 4, 5, 6, 7];
    OneBlockX86(key, 1, 0x04030201, 0x00070605, 7);
    assert RoundX86(1, 0x04030201) == 0x4eb1c727;
  }

  /** Two blocks, in this order. */
  lemma TwoBlocksX86()
    ensures HashX86([1, 2, 3, 4, 5, 6, 7, 8], 1) == 0x7e8e88df
  {
    var key: seq<Byte> := [1, 2, 3, 4, 5, 6, 7, 8];
    assert Word32At(key, 0) == 0x04030201 && Word32At(key, 4) == 0x08070605 && Word32At(key, 8) == 0;
    assert Length32(key) == 8;
    TwoRounds();
    hide Word32At, RoundX86, FinishX86, Length32;
    assert BlocksX86(key) == [0x04030201, 0x08070605];
    assert [0x04030201, 0x08070605][..1] == [0x04030201];
    FoldOne(RoundX86, 1, 0x04030201);
  }

  lemma TwoRounds()
    ensures RoundX86(1, 0x04030201) == 0x4eb1c727 && RoundX86(0x4eb1c727, 0x08070605) == 0x6714a3c9
    ensures FinishX86(0x6714a3c9, 0, 8) == 0x7e8e88df
  {
  }

  /** 1, 2, ..., 31. */
  ghost function Counted(): seq<Byte> {
    seq(31, i requires 0 <= i < 31 => (i + 1) as Byte)
  }

  lemma CountedFour()
    ensures |Counted()| == 31
    ensures FourAt(Counted(), 0) == Four(0x04030201, 0x08070605, 0x0c0b0a09, 0x100f0e0d)
    ensures FourAt(Counted(), 16) == Four(0x14131211, 0x18171615, 0x1c1b1a19, 0x001f1e1d)
  {
    CountedBytes();
    hide Counted;
  }

  lemma CountedTwo()
    ensures |Counted()| == 31
    ensures TwoAt(Counted(), 0) == Two(0x0807060504030201, 0x100f0e0d0c0b0a09)
    ensures TwoAt(Counted(), 16) == Two(0x1817161514131211, 0x001f1e1d1c1b1a19)
  {
    CountedBytes();
    hide Counted;
  }

  lemma CountedBytes()
    ensures |Counted()| == 31
    ensures Counted()[0] == 1 && Counted()[1] == 2 && Counted()[2] == 3 && Counted()[3] == 4
    ensures Counted()[4] == 5 && Counted()[5] == 6 && Counted()[6] == 7 && Counted()[7] == 8
    ensures Counted()[8] == 9 && Counted()[9] == 10 && Counted()[10] == 11 && Counted()[11] == 12
    ensures Counted()[12] == 13 && Counted()[13] == 14 && Counted()[14] == 15 && Counted()[15] == 16
    ensures Counted()[16] == 17 && Counted()[17] == 18 && Counted()[18] == 19 && Counted()[19] == 20
    ensures Counted()[20] == 21 && Counted()[21] == 22 && Counted()[22] == 23 && Counted()[23] == 24
    ensures Counted()[24] == 25 && Counted()[25] == 26 && Counted()[26] == 27 && Counted()[27] == 28
    ensures Counted()[28] == 29 && Counted()[29] == 30 && Counted()[30] == 31
  {
  }

  /** One block and a tail of 15 bytes. */
  lemma AnswerX86Four()
    ensures HashX86Four(Counted(), 1) == Four(0x09c4365e, 0xb3fdfb02, 0xc02a53b7, 0xafec1062)
  {
    CountedFour();
    FourRound();
    FourFinish();
    FourLength();
    hide Counted, RoundX86Four, FinishFour, FourAt, Length32;
    var s, b := Four(1, 1, 1, 1), FourAt(Counted(), 0);
    assert BlocksFour(Counted()) == [b];
    FoldOne(RoundX86Four, s, b);
  }

  lemma FourLength()
    ensures |Counted()| == 31 && Length32(Counted()) == 31 && Length64(Counted()) == 31
  {
  }

  lemma FourRound()
    ensures RoundX86Four(Four(1, 1, 1, 1), Four(0x04030201, 0x08070605, 0x0c0b0a09, 0x100f0e0d))
         == Four(0xcb4ccb5e, 0x7aa4895b, 0x7889c13f, 0x84bac008)
  {
    var k := MixFour(Four(0x04030201, 0x08070605, 0x0c0b0a09, 0x100f0e0d));
    assert k == Four(0xfff4c2ec, 0xfd01be49, 0x42032719, 0xacfbc27c);
  }

  lemma FourFinish()
    ensures FinishFour(Four(0xcb4ccb5e, 0x7aa4895b, 0x7889c13f, 0x84bac008),
                       Four(0x14131211, 0x18171615, 0x1c1b1a19, 0x001f1e1d), 31)
         == Four(0x09c4365e, 0xb3fdfb02, 0xc02a53b7, 0xafec1062)
  {
  }

  lemma AnswerX64()
    ensures HashX64(Counted(), 1) == Two(0x59be3211384069fd, 0xc057840b27ec1dd8)
  {
    CountedTwo();
    TwoRound();
    TwoFinish();
    FourLength();
    hide Counted, RoundTwo, FinishTwo, TwoAt, Length64;
    var s, b := Two(1, 1), TwoAt(Counted(), 0);
    assert BlocksTwo(Counted()) == [b];
    FoldOne(RoundTwo, s, b);
  }

  lemma TwoRound()
    ensures RoundTwo(Two(1, 1), Two(0x0807060504030201, 0x100f0e0d0c0b0a09))
         == Two(0x178124fd57939677, 0x561de10cb54574a0)
  {
  }

  lemma TwoFinish()
    ensures FinishTwo(Two(0x178124fd57939677, 0x561de10cb54574a0),
                      Two(0x1817161514131211, 0x001f1e1d1c1b1a19), 31)
         == Two(0x59be3211384069fd, 0xc057840b27ec1dd8)
  {
  }

  // ---------- zero bytes at the end count ----------

  /** `key` and `m` zero bytes. */
  function Padded(key: seq<Byte>, m: nat): seq<Byte> {
    key + seq(m, i => 0)
  }

  /** Numbers that differ in the last hexadecimal digit only. */
  lemma WordsDiffer(m: nat, n: nat)
    requires m != n && m / 16 == n / 16
    ensures Word(m) != Word(n)
  {
    assert m % 16 != n % 16;
    assert Word(m) == (Word(m / 16) << 4) | Digit(m % 16) by {
      WordIs(m);
    }
    assert Word(n) == (Word(n / 16) << 4) | Digit(n % 16) by {
      WordIs(n);
    }
    DigitsDiffer(m % 16, n % 16);
    hide Word, Digit;
    LastDigit(Word(m / 16), Digit(m % 16), Digit(n % 16));
  }

  lemma WordIs(n: nat)
    ensures Word(n) == (Word(n / 16) << 4) | Digit(n % 16)
  {
    if n < 16 {
      hide Digit;
      assert Word(0) == 0;
    }
  }

  lemma DigitIs(d: nat)
    requires d < 16
    ensures Digit(d) as int == d
  {
  }

  lemma DigitsDiffer(c: nat, d: nat)
    requires c < 16 && d < 16 && c != d
    ensures Digit(c) != Digit(d) && Digit(c) < 16 && Digit(d) < 16
  {
  }

  lemma LastDigit(w: bv32, c: bv32, d: bv32)
    requires c < 16 && d < 16 && c != d
    ensures (w << 4) | c != (w << 4) | d
  {
  }

  lemma LengthsDiffer(a: seq<Byte>, b: seq<Byte>)
    requires Fits(a) && Fits(b) && |a| != |b| && |a| / 16 == |b| / 16
    ensures Length32(a) != Length32(b) && Length64(a) != Length64(b)
  {
    WordsDiffer(|a|, |b|);
    hide Word;
  }

  lemma PaddedWords(key: seq<Byte>, m: nat, p: nat)
    ensures Word32At(Padded(key, m), p) == Word32At(key, p) && Word64At(Padded(key, m), p) == Word64At(key, p)
  {
    hide Word32, Word64;
    assert forall q: nat :: ByteAt(Padded(key, m), q) == ByteAt(key, q);
  }

  lemma FinishX86Length(h: bv32, k: bv32, n: bv32, n': bv32)
    requires FinishX86(h, k, n) == FinishX86(h, k, n')
    ensures n == n'
  {
    hide Fmix32, MixX86, Xor32;
    var x := Xor32(h, MixX86(k));
    FmixInjective(Xor32(x, n), Xor32(x, n'), 0, 0);
    XorWord(x, n, x, n');
  }

  /** A key and the same key with zero bytes behind it in the same tail hash differently. */
  lemma LengthX86(key: seq<Byte>, m: nat, seed: bv32)
    requires m > 0 && Fits(Padded(key, m)) && (|key| + m) / 4 == |key| / 4
    ensures HashX86(key, seed) != HashX86(Padded(key, m), seed)
  {
    hide FinishX86, RoundX86, Word32At, Length32;
    var n, key' := |key| / 4, Padded(key, m);
    forall i | 0 <= i <= n
      ensures Word32At(key', 4 * i) == Word32At(key, 4 * i)
    {
      PaddedWords(key, m, 4 * i);
    }
    assert BlocksX86(key') == BlocksX86(key);
    assert |key'| / 4 * 4 == 4 * n == |key| / 4 * 4 && |key'| / 16 == |key| / 16;
    var h, t := Fold(RoundX86, seed, BlocksX86(key)), Word32At(key, 4 * n);
    LengthsDiffer(key, key');
    if FinishX86(h, t, Length32(key)) == FinishX86(h, t, Length32(key')) {
      FinishX86Length(h, t, Length32(key), Length32(key'));
    }
  }

  lemma FinishFourLength(h: Four, k: Four, n: bv32, n': bv32)
    requires FinishFour(h, k, n) == FinishFour(h, k, n')
    ensures n == n'
  {
    hide SpreadFour, XorFour, Fmix32, MixFour;
    var x := XorFour(h, MixFour(k));
    var y, y' := XorFour(x, Four(n, n, n, n)), XorFour(x, Four(n', n', n', n'));
    var z, z' := SpreadFour(y), SpreadFour(y');
    SpreadFourInjective(FmixFour(z), FmixFour(z'));
    FmixInjective(z.w1, z'.w1, 0, 0);
    FmixInjective(z.w2, z'.w2, 0, 0);
    FmixInjective(z.w3, z'.w3, 0, 0);
    FmixInjective(z.w4, z'.w4, 0, 0);
    SpreadFourInjective(y, y');
    XorFourCancel(x, Four(n, n, n, n), x, Four(n', n', n', n'));
  }

  lemma LengthX86Four(key: seq<Byte>, m: nat, seed: bv32)
    requires m > 0 && Fits(Padded(key, m)) && (|key| + m) / 16 == |key| / 16
    ensures HashX86Four(key, seed) != HashX86Four(Padded(key, m), seed)
  {
    var n, key', s := |key| / 16, Padded(key, m), Four(seed, seed, seed, seed);
    forall i | 0 <= i <= n
      ensures FourAt(key', 16 * i) == FourAt(key, 16 * i)
    {
      hide Word32At;
      PaddedWords(key, m, 16 * i);
      PaddedWords(key, m, 16 * i + 4);
      PaddedWords(key, m, 16 * i + 8);
      PaddedWords(key, m, 16 * i + 12);
    }
    hide FinishFour, RoundX86Four, FourAt, Length32;
    assert BlocksFour(key') == BlocksFour(key);
    assert |key'| / 16 * 16 == 16 * n == |key| / 16 * 16;
    LengthsDiffer(key, key');
    var h, t := Fold(RoundX86Four, s, BlocksFour(key)), FourAt(key, 16 * n);
    if FinishFour(h, t, Length32(key)) == FinishFour(h, t, Length32(key')) {
      FinishFourLength(h, t, Length32(key), Length32(key'));
    }
  }

  lemma FinishTwoLength(h: Two, k: Two, n: bv64, n': bv64)
    requires FinishTwo(h, k, n) == FinishTwo(h, k, n')
    ensures n == n'
  {
    hide SpreadTwo, Fmix64, MixTwo, Xor64;
    var x := XorTwo(h, MixTwo(k));
    var y, y' := XorTwo(x, Two(n, n)), XorTwo(x, Two(n', n'));
    var z, z' := SpreadTwo(y), SpreadTwo(y');
    SpreadTwoInjective(FmixTwo(z), FmixTwo(z'));
    FmixInjective(0, 0, z.w1, z'.w1);
    FmixInjective(0, 0, z.w2, z'.w2);
    SpreadTwoInjective(y, y');
    XorWord64(x.w1, n, x.w1, n');
  }

  lemma LengthX64(key: seq<Byte>, m: nat, seed: bv32)
    requires m > 0 && Fits(Padded(key, m)) && (|key| + m) / 16 == |key| / 16
    ensures HashX64(key, seed) != HashX64(Padded(key, m), seed)
  {
    var n, key', s := |key| / 16, Padded(key, m), seed as bv64;
    forall i | 0 <= i <= n
      ensures TwoAt(key', 16 * i) == TwoAt(key, 16 * i)
    {
      hide Word64At;
      PaddedWords(key, m, 16 * i);
      PaddedWords(key, m, 16 * i + 8);
    }
    hide FinishTwo, RoundTwo, TwoAt, Length64;
    assert BlocksTwo(key') == BlocksTwo(key);
    assert |key'| / 16 * 16 == 16 * n == |key| / 16 * 16;
    LengthsDiffer(key, key');
    var h, t := Fold(RoundTwo, Two(s, s), BlocksTwo(key)), TwoAt(key, 16 * n);
    if FinishTwo(h, t, Length64(key)) == FinishTwo(h, t, Length64(key')) {
      FinishTwoLength(h, t, Length64(key), Length64(key'));
    }
  }
}
