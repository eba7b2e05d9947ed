/**
 Machine words as bit sequences, least significant bit first: `w >> 8` drops the first eight bits,
 `w & 0xff` keeps them, and four bytes loaded little-endian are their concatenation.
 */
module Bits {
  type Word = seq<bool>
  type Byte = w: Word | |w| == 8 witness Zeros(8)

  function Zeros(n: nat): (z: Word)
    ensures |z| == n
  {
    seq(n, _ => false)
  }

  function Xor(a: Word, b: Word): (x: Word)
    requires |a| == |b|
    ensures |x| == |a|
    ensures forall i :: 0 <= i < |a| ==> x[i] == (a[i] != b[i])
  {
    seq(|a|, i requires 0 <= i < |a| => a[i] != b[i])
  }

  /** `~a` */
  function Not(a: Word): (x: Word)
    ensures |x| == |a|
    ensures forall i :: 0 <= i < |a| ==> x[i] == !a[i]
  {
    seq(|a|, i requires 0 <= i < |a| => !a[i])
  }

  /** `a >> n` */
  function Shr(a: Word, n: nat): (x: Word)
    requires n <= |a|
    ensures |x| == |a|
  {
    a[n..] + Zeros(n)
  }

  /** `a << n`, truncated to the width of `a` */
  function Shl(a: Word, n: nat): (x: Word)
    requires n <= |a|
    ensures |x| == |a|
  {
    Zeros(n) + a[..|a| - n]
  }

  /** The low `w` bits of the number `n`. */
  function FromNat(n: nat, w: nat): (x: Word)
    ensures |x| == w
  {
    seq(w, i requires 0 <= i < w => n / Power2(i) % 2 == 1)
  }

  function Power2(n: nat): (p: nat)
    ensures p > 0
  {
    if n == 0 then 1 else 2 * Power2(n - 1)
  }

  /** The carry into position `i` of the sum `a + b`. */
  predicate Carry(a: Word, b: Word, i: nat)
    requires |a| == |b| && i <= |a|
  {
    i > 0 && if a[i - 1] == b[i - 1] then a[i - 1] else Carry(a, b, i - 1)
  }

  /** `a + b`, wrapping around at the width of the words. */
  function Add(a: Word, b: Word): (x: Word)
    requires |a| == |b|
    ensures |x| == |a|
  {
    seq(|a|, i requires 0 <= i < |a| => (a[i] != b[i]) != Carry(a, b, i))
  }

  /** The bits of `a` in the opposite order. */
  function Mirror(a: Word): (x: Word)
    ensures |x| == |a|
    ensures forall i :: 0 <= i < |a| ==> x[i] == a[|a| - 1 - i]
  {
    seq(|a|, i requires 0 <= i < |a| => a[|a| - 1 - i])
  }

  lemma NotIsInjective(a: Word, b: Word)
    ensures Not(a) == Not(b) ==> a == b
  {
    assert Not(Not(a)) == a && Not(Not(b)) == b;
  }

  lemma XorComm(a: Word, b: Word)
    requires |a| == |b|
    ensures Xor(a, b) == Xor(b, a)
  {
  }

  lemma XorAssoc(a: Word, b: Word, c: Word)
    requires |a| == |b| == |c|
    ensures Xor(Xor(a, b), c) == Xor(a, Xor(b, c))
  {
  }

  lemma XorZero(a: Word)
    ensures Xor(a, Zeros(|a|)) == a
    ensures Xor(Zeros(|a|), a) == a
  {
  }

  /** `(a ^ b) ^ (c ^ d) == (a ^ c) ^ (b ^ d)` */
  lemma XorSwap(a: Word, b: Word, c: Word, d: Word)
    requires |a| == |b| == |c| == |d|
    ensures Xor(Xor(a, b), Xor(c, d)) == Xor(Xor(a, c), Xor(b, d))
  {
  }

  lemma XorCancel(a: Word, b: Word, c: Word)
    requires |a| == |b| == |c|
    requires Xor(a, c) == Xor(b, c)
    ensures a == b
  {
    forall i | 0 <= i < |a| ensures a[i] == b[i] {
      assert Xor(a, c)[i] == Xor(b, c)[i];
    }
  }

  lemma ShrTwice(a: Word, n: nat)
    requires 0 < n <= |a|
    ensures Shr(Shr(a, 1), n - 1) == Shr(a, n)
  {
  }

  lemma ShlTwice(a: Word, n: nat)
    requires 0 < n <= |a|
    ensures Shl(Shl(a, 1), n - 1) == Shl(a, n)
  {
  }

  lemma ShiftNone(a: Word)
    ensures Shr(a, 0) == a && Shl(a, 0) == a
  {
  }

  lemma ShrXor(a: Word, b: Word, n: nat)
    requires n <= |a| == |b|
    ensures Shr(Xor(a, b), n) == Xor(Shr(a, n), Shr(b, n))
  {
  }
}
