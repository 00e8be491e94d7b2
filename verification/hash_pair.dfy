/**
 The pair hash that the NTT cache's hash map is declared with (`HashPair` and its
 `hash_combine`). `size_t` is taken to be 64 bits wide. Values are naturals below
 2^64; the wrap-around of unsigned C++ arithmetic is written out as reduction modulo
 2^64, shifts as multiplication and division by powers of two, and `^` as the
 bitwise exclusive or of the binary expansions.
 */
module HashPair {

  const WordModulus: nat := 0x1_0000_0000_0000_0000

  /** A 64-bit `size_t`. */
  type SizeT = x: int | 0 <= x < WordModulus

  /** The additive constant of `hash_combine` (the 32-bit golden-ratio value). */
  const GoldenRatio: SizeT := 0x9e3779b9

  function Pow2(n: nat): (r: nat)
    ensures r >= 1
  {
    if n == 0 then 1 else 2 * Pow2(n - 1)
  }

  lemma {:induction false} Pow2Add(a: nat, b: nat)
    ensures Pow2(a + b) == Pow2(a) * Pow2(b)
    decreases a
  {
    if a > 0 {
      Pow2Add(a - 1, b);
    }
  }

  lemma Pow2Of16()
    ensures Pow2(16) == 0x1_0000
  {
    assert Pow2(8) == 0x100;
    Pow2Add(8, 8);
  }

  lemma Pow2Of32()
    ensures Pow2(32) == 0x1_0000_0000
  {
    Pow2Of16();
    Pow2Add(16, 16);
  }

  lemma Pow2Word()
    ensures Pow2(64) == WordModulus
  {
    Pow2Of32();
    Pow2Add(32, 32);
  }

  /** Unsigned wrap-around: the value modulo 2^64. */
  function Wrap(x: int): SizeT
  {
    x % WordModulus
  }

  /** `x << n` on a 64-bit unsigned value: bits shifted past bit 63 are lost. */
  function ShiftLeft(x: SizeT, n: nat): SizeT
  {
    Wrap(x * Pow2(n))
  }

  /** `x >> n` on an unsigned value: halving `n` times, rounding down. */
  function ShiftRight(x: SizeT, n: nat): SizeT
  {
    if n == 0 then x else ShiftRight(x / 2, n - 1)
  }

  /** Bit `i` of the binary expansion of `x`. */
  predicate Bit(x: nat, i: nat)
  {
    if i == 0 then x % 2 == 1 else Bit(x / 2, i - 1)
  }

  /** Bitwise exclusive or, one binary digit at a time from the least significant. */
  function Xor(a: nat, b: nat): nat
    decreases a + b
  {
    if a == 0 && b == 0 then 0 else 2 * Xor(a / 2, b / 2) + (a + b) % 2
  }

  /** `Xor` is the operator `^`: each bit of the result is set exactly when the two
      operands differ in that bit. */
  lemma {:induction false} XorBit(a: nat, b: nat, i: nat)
    ensures Bit(Xor(a, b), i) <==> Bit(a, i) != Bit(b, i)
    decreases i
  {
    var x := Xor(a, b);
    assert x / 2 == Xor(a / 2, b / 2) && x % 2 == (a + b) % 2;
    if i > 0 {
      XorBit(a / 2, b / 2, i - 1);
    }
  }

  lemma {:induction false} XorCommutes(a: nat, b: nat)
    ensures Xor(a, b) == Xor(b, a)
    decreases a + b
  {
    if a != 0 || b != 0 {
      XorCommutes(a / 2, b / 2);
    }
  }

  /** One step of the definition of `Xor`, also when both operands are zero. */
  lemma XorUnfold(a: nat, b: nat)
    ensures Xor(a, b) == 2 * Xor(a / 2, b / 2) + (a + b) % 2
  {
  }

  /** Exclusive or with the same value twice is the identity. */
  lemma {:induction false} XorCancel(a: nat, b: nat)
    ensures Xor(Xor(a, b), b) == a
    decreases a + b
  {
    if a != 0 || b != 0 {
      var x, y := Xor(a, b), Xor(a / 2, b / 2);
      XorUnfold(a, b);
      assert x / 2 == y && (x + b) % 2 == a % 2 by {
        HalfOfDouble(y, (a + b) % 2);
        SumParity(a, b, x);
      }
      XorUnfold(x, b);
      XorCancel(a / 2, b / 2);
    }
  }

  lemma HalfOfDouble(y: nat, bit: nat)
    requires bit < 2
    ensures (2 * y + bit) / 2 == y && (2 * y + bit) % 2 == bit
  {
  }

  /** Adding `b` twice does not change the parity of `a`. */
  lemma SumParity(a: nat, b: nat, x: nat)
    requires x % 2 == (a + b) % 2
    ensures (x + b) % 2 == a % 2
  {
    if b % 2 == 0 {
      assert (x + b) % 2 == x % 2 && (a + b) % 2 == a % 2;
    } else {
      assert (x + b) % 2 == (x % 2 + 1) % 2 && (a + b) % 2 == (a % 2 + 1) % 2;
    }
  }

  /** Exclusive or of two values below 2^n is below 2^n. */
  lemma {:induction false} XorBelow(a: nat, b: nat, n: nat)
    requires a < Pow2(n) && b < Pow2(n)
    ensures Xor(a, b) < Pow2(n)
    decreases n
  {
    if n > 0 && (a != 0 || b != 0) {
      XorBelow(a / 2, b / 2, n - 1);
    }
  }

  /** `^` on two 64-bit values. */
  function Xor64(a: SizeT, b: SizeT): (r: SizeT)
    ensures Xor(r, b) == a
  {
    Pow2Word();
    XorBelow(a, b, 64);
    XorCancel(a, b);
    Xor(a, b)
  }

  /** The value XOR-ed into `lhs` by `hash_combine`; every addition wraps. */
  function MixTerm(lhs: SizeT, rhs: SizeT): SizeT
  {
    Wrap(Wrap(Wrap(rhs + GoldenRatio) + ShiftLeft(lhs, 6)) + ShiftRight(lhs, 2))
  }

  /** `hash_combine`: mixes the hash `rhs` into the hash `lhs`. For a fixed `lhs` no
      information about `rhs` is lost: it can be read back from the result. */
  function HashCombine(lhs: SizeT, rhs: SizeT): (h: SizeT)
    ensures UnmixRhs(lhs, h) == rhs
  {
    UnmixInverts(lhs, rhs);
    Xor64(lhs, MixTerm(lhs, rhs))
  }

  lemma UnmixInverts(lhs: SizeT, rhs: SizeT)
    ensures UnmixRhs(lhs, Xor64(lhs, MixTerm(lhs, rhs))) == rhs
  {
    var t := MixTerm(lhs, rhs);
    var h := Xor64(lhs, t);
    assert Xor64(h, lhs) == t by {
      XorCommutes(lhs, t);
      XorCancel(t, lhs);
    }
    var a := Wrap(rhs + GoldenRatio);
    var b := Wrap(a + ShiftLeft(lhs, 6));
    assert t == Wrap(b + ShiftRight(lhs, 2));
    WrapSubtractAdded(b, ShiftRight(lhs, 2));
    WrapSubtractAdded(a, ShiftLeft(lhs, 6));
    WrapSubtractAdded(rhs, GoldenRatio);
  }

  /** Inverse of `HashCombine` in its second argument: given the first hash and the
      combined hash, the second hash. */
  function UnmixRhs(lhs: SizeT, h: SizeT): (rhs: SizeT)
  {
    var t := Xor64(h, lhs);
    Wrap(Wrap(Wrap(t - ShiftRight(lhs, 2)) - ShiftLeft(lhs, 6)) - GoldenRatio)
  }

  /** Undoing a wrapping addition by a wrapping subtraction. */
  lemma WrapSubtractAdded(y: SizeT, s: SizeT)
    ensures Wrap(Wrap(y + s) - s) == y
  {
    if y + s >= WordModulus {
      assert Wrap(y + s) == y + s - WordModulus;
    }
  }

  /** Every hash value is reached from any first hash: the combine is onto in its
      second argument, with `UnmixRhs` choosing the preimage. */
  lemma CombineAfterUnmix(lhs: SizeT, h: SizeT)
    ensures HashCombine(lhs, UnmixRhs(lhs, h)) == h
  {
    var t := Xor64(h, lhs);
    var b := Wrap(t - ShiftRight(lhs, 2));
    var a := Wrap(b - ShiftLeft(lhs, 6));
    var rhs := Wrap(a - GoldenRatio);
    assert UnmixRhs(lhs, h) == rhs;
    assert MixTerm(lhs, rhs) == t by {
      WrapAddSubtracted(a, GoldenRatio);
      WrapAddSubtracted(b, ShiftLeft(lhs, 6));
      WrapAddSubtracted(t, ShiftRight(lhs, 2));
    }
    assert Xor64(lhs, t) == h by {
      XorCommutes(lhs, t);
      XorCancel(h, lhs);
    }
  }

  /** Undoing a wrapping subtraction by a wrapping addition. */
  lemma WrapAddSubtracted(y: SizeT, s: SizeT)
    ensures Wrap(Wrap(y - s) + s) == y
  {
    if y - s < 0 {
      assert Wrap(y - s) == y - s + WordModulus;
    }
  }

  /** `HashPair::operator()`: hashes a pair by combining the first component's hash
      (as `lhs`) with the second's (as `rhs`). `hash1` and `hash2` stand for
      `std::hash<T1>` and `std::hash<T2>`, whose results the language leaves to the
      implementation. */
  function HashPair<T1, T2>(hash1: T1 -> SizeT, hash2: T2 -> SizeT, p: (T1, T2)): (h: SizeT)
    ensures UnmixRhs(hash1(p.0), h) == hash2(p.1)
  {
    HashCombine(hash1(p.0), hash2(p.1))
  }

  /** Two pairs with the same first component collide only when the hashes of their
      second components collide. */
  lemma SameFirstCollision<T1, T2>(hash1: T1 -> SizeT, hash2: T2 -> SizeT, p: (T1, T2), q: (T1, T2))
    requires p.0 == q.0
    requires HashPair(hash1, hash2, p) == HashPair(hash1, hash2, q)
    ensures hash2(p.1) == hash2(q.1)
  {
  }
}
