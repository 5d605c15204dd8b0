/** Laws of concatenation, products and powers that several of the models use. */
module Sequences {
  lemma Four<T>(a: seq<T>, b: seq<T>, c: seq<T>, d: seq<T>)
    ensures (a + b) + c + d == a + (b + c + d)
    ensures a + b + (c + d) == (a + b + c) + d
  {
  }

  lemma Five<T>(a: seq<T>, b: seq<T>, c: seq<T>, d: seq<T>, e: seq<T>)
    ensures (a + b) + c + (d + e) == a + (b + c + d) + e
    ensures a + b + (c + d + e) == a + (b + c + d) + e
    ensures (a + b + c) + d + e == a + b + (c + d + e)
  {
  }

  /** The members of `a + [x] + b`. */
  lemma Between<T>(a: seq<T>, x: T, b: seq<T>, j: nat)
    requires j <= |a| + |b|
    ensures (a + [x] + b)[j] == if j < |a| then (a + b)[j] else if j == |a| then x else (a + b)[j - 1]
  {
  }

  /** One member moves from what is left to what is done. */
  lemma Step<T>(s: seq<T>, i: nat)
    requires i < |s|
    ensures s[i..] != [] && s[i..][0] == s[i] && s[i..][1..] == s[i + 1..]
    ensures s[..i] + [s[i]] == s[..i + 1]
  {
  }

  lemma TimesMonotone(x: int, y: int, z: int)
    requires x <= y && 0 <= z
    ensures x * z <= y * z
  {
  }

  lemma OneMoreTimes(x: int, z: int)
    ensures (x + 1) * z == x * z + z
  {
  }

  ghost function Pow(b: nat, k: nat): nat {
    if k == 0 then 1 else b * Pow(b, k - 1)
  }

  lemma {:induction false} PowSum(b: nat, k: nat, l: nat)
    ensures Pow(b, k + l) == Pow(b, k) * Pow(b, l)
  {
    if k > 0 {
      PowSum(b, k - 1, l);
      Swap(b, Pow(b, k - 1), Pow(b, l));
    }
  }

  lemma Swap(x: int, y: int, z: int)
    ensures x * (y * z) == x * y * z
  {
  }

  lemma {:induction false} PowMonotone(b: nat, k: nat, l: nat)
    requires b > 0 && k <= l
    ensures Pow(b, k) <= Pow(b, l)
  {
    if k < l {
      PowMonotone(b, k, l - 1);
      Grows(b, Pow(b, l - 1));
    }
  }

  lemma Grows(b: int, x: int)
    requires b > 0 && x >= 0
    ensures x <= b * x
  {
  }
}
