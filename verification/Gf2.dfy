/** Polynomials over GF(2), written as numbers: bit i is the coefficient of x^i. */
module Gf2 {
  import opened Words

  // ---------- addition ----------

  lemma {:induction false} XorParts(a: nat, b: nat)
    ensures Xor(a, b) / 2 == Xor(a / 2, b / 2)
    ensures Xor(a, b) % 2 == if a % 2 != b % 2 then 1 else 0
  {
    XorZero(a / 2);
    XorZero(b / 2);
  }

  lemma {:induction false} XorSelf(a: nat)
    ensures Xor(a, a) == 0
  {
    if a > 0 {
      XorSelf(a / 2);
    }
  }

  lemma {:induction false} XorSymmetric(a: nat, b: nat)
    ensures Xor(a, b) == Xor(b, a)
    decreases a + b
  {
    if a > 0 && b > 0 {
      XorSymmetric(a / 2, b / 2);
    }
  }

  lemma {:induction false} XorAssociative(a: nat, b: nat, c: nat)
    ensures Xor(Xor(a, b), c) == Xor(a, Xor(b, c))
    decreases a + b + c
  {
    if a + b + c > 0 {
      hide Xor;
      XorAssociative(a / 2, b / 2, c / 2);
      XorParts(a, b);
      XorParts(b, c);
      XorParts(Xor(a, b), c);
      XorParts(a, Xor(b, c));
    } else {
      XorZero(0);
    }
  }

  /** Exchanging the inner terms of a sum of four. */
  lemma XorSwap(a: nat, b: nat, c: nat, d: nat)
    ensures Xor(Xor(a, b), Xor(c, d)) == Xor(Xor(a, c), Xor(b, d))
  {
    hide Xor;
    XorAssociative(a, b, Xor(c, d));
    XorAssociative(b, c, d);
    XorSymmetric(b, c);
    XorAssociative(c, b, d);
    XorAssociative(a, c, Xor(b, d));
  }

  /** Adding twice is not adding. */
  lemma XorTwice(a: nat, b: nat)
    ensures Xor(Xor(a, b), b) == a && Xor(a, Xor(a, b)) == b
  {
    hide Xor;
    XorAssociative(a, b, b);
    XorSelf(b);
    XorZero(a);
    XorAssociative(a, a, b);
    XorSelf(a);
    XorZero(b);
  }

  lemma XorCancel(a: nat, b: nat, c: nat)
    requires Xor(a, c) == Xor(b, c)
    ensures a == b
  {
    hide Xor;
    XorTwice(a, c);
    XorTwice(b, c);
  }

  lemma XorDouble(a: nat, b: nat)
    ensures Xor(2 * a, 2 * b) == 2 * Xor(a, b)
  {
    hide Xor;
    XorParts(2 * a, 2 * b);
  }

  lemma {:induction false} XorUp(a: nat, b: nat, n: nat)
    ensures Xor(Up(a, n), Up(b, n)) == Up(Xor(a, b), n)
  {
    hide Xor;
    if n > 0 {
      XorUp(a, b, n - 1);
      XorDouble(Up(a, n - 1), Up(b, n - 1));
    }
  }

  lemma {:induction false} XorBelow(a: nat, b: nat, n: nat)
    requires a < Pow2(n) && b < Pow2(n)
    ensures Xor(a, b) < Pow2(n)
  {
    hide Xor;
    XorParts(a, b);
    if n > 0 {
      XorBelow(a / 2, b / 2, n - 1);
    } else {
      XorZero(0);
    }
  }

  /** A term of higher degree is not cancelled. */
  lemma {:induction false} XorHigh(a: nat, b: nat, n: nat)
    requires a >= Pow2(n) && b < Pow2(n)
    ensures Xor(a, b) >= Pow2(n)
  {
    hide Xor;
    XorParts(a, b);
    if n > 0 {
      XorHigh(a / 2, b / 2, n - 1);
    } else {
      XorZero(a);
    }
  }

  /** Disjoint parts are simply added. */
  lemma {:induction false} XorDisjoint(a: nat, n: nat, b: nat)
    requires b < Pow2(n)
    ensures Xor(Up(a, n), b) == Up(a, n) + b
  {
    hide Xor;
    if n > 0 {
      var x := Up(a, n - 1);
      XorDisjoint(a, n - 1, b / 2);
      XorParts(2 * x, b);
    } else {
      XorZero(a);
    }
  }

  // ---------- multiplication and division ----------

  function Mul(q: nat, p: nat): nat {
    if q == 0 then 0 else Xor(if q % 2 == 1 then p else 0, 2 * Mul(q / 2, p))
  }

  lemma {:induction false} MulAdds(q: nat, r: nat, p: nat)
    ensures Mul(Xor(q, r), p) == Xor(Mul(q, p), Mul(r, p))
    decreases q + r
  {
    hide Xor;
    if q == 0 {
      XorZero(r);
      XorZero(Mul(r, p));
    } else if r == 0 {
      XorZero(q);
      XorZero(Mul(q, p));
    } else {
      MulAdds(q / 2, r / 2, p);
      XorParts(q, r);
      MulUnfold(q, p);
      MulUnfold(r, p);
      MulUnfold(Xor(q, r), p);
      var a, b := (if q % 2 == 1 then p else 0), (if r % 2 == 1 then p else 0);
      XorSwap(a, 2 * Mul(q / 2, p), b, 2 * Mul(r / 2, p));
      XorDouble(Mul(q / 2, p), Mul(r / 2, p));
      XorSelf(p);
      XorZero(p);
      XorZero(0);
    }
  }

  lemma MulUnfold(q: nat, p: nat)
    ensures Mul(q, p) == Xor(if q % 2 == 1 then p else 0, 2 * Mul(q / 2, p))
  {
    if q == 0 {
      XorZero(0);
    }
  }

  /** A multiple of a polynomial of degree n has at least this degree, or is 0. */
  lemma {:induction false} MulHigh(q: nat, p: nat, n: nat)
    requires q > 0 && Pow2(n) <= p < Pow2(n + 1)
    ensures Mul(q, p) >= Pow2(n)
  {
    hide Xor;
    MulUnfold(q, p);
    if q == 1 {
      assert Mul(0, p) == 0;
      XorZero(p);
    } else {
      MulHigh(q / 2, p, n);
      var b := if q % 2 == 1 then p else 0;
      XorSymmetric(b, 2 * Mul(q / 2, p));
      XorHigh(2 * Mul(q / 2, p), b, n + 1);
    }
  }

  // ---------- congruence and remainders ----------

  /** a and b differ by a multiple of p. */
  ghost predicate Congruent(a: nat, b: nat, p: nat) {
    exists q: nat :: Differ(a, b, p, q)
  }

  ghost predicate Differ(a: nat, b: nat, p: nat, q: nat) {
    Xor(Mul(q, p), b) == a
  }

  lemma CongruentSelf(a: nat, p: nat)
    ensures Congruent(a, a, p)
  {
    XorZero(a);
    assert Differ(a, a, p, 0);
  }

  lemma CongruentSymmetric(a: nat, b: nat, p: nat)
    requires Congruent(a, b, p)
    ensures Congruent(b, a, p)
  {
    hide Xor, Mul;
    var q: nat :| Differ(a, b, p, q);
    XorTwice(Mul(q, p), b);
    assert Differ(b, a, p, q);
  }

  lemma CongruentAdds(a: nat, b: nat, c: nat, d: nat, p: nat)
    requires Congruent(a, b, p) && Congruent(c, d, p)
    ensures Congruent(Xor(a, c), Xor(b, d), p)
  {
    hide Xor, Mul, Differ;
    var q: nat :| Differ(a, b, p, q);
    var r: nat :| Differ(c, d, p, r);
    DifferAdds(a, b, q, c, d, r, p);
  }

  lemma DifferAdds(a: nat, b: nat, q: nat, c: nat, d: nat, r: nat, p: nat)
    requires Differ(a, b, p, q) && Differ(c, d, p, r)
    ensures Differ(Xor(a, c), Xor(b, d), p, Xor(q, r))
  {
    hide Xor, Mul;
    XorSwap(Mul(q, p), b, Mul(r, p), d);
    MulAdds(q, r, p);
  }

  lemma CongruentTransitive(a: nat, b: nat, c: nat, p: nat)
    requires Congruent(a, b, p) && Congruent(b, c, p)
    ensures Congruent(a, c, p)
  {
    hide Xor, Congruent;
    CongruentAdds(a, b, b, c, p);
    CongruentSelf(b, p);
    CongruentAdds(Xor(a, b), Xor(b, c), b, b, p);
    XorTwice(a, b);
    XorSymmetric(b, c);
    XorTwice(c, b);
  }

  lemma CongruentDouble(a: nat, b: nat, p: nat)
    requires Congruent(a, b, p)
    ensures Congruent(2 * a, 2 * b, p)
  {
    hide Xor, Mul;
    var q: nat :| Differ(a, b, p, q);
    MulDouble(q, p);
    XorDouble(Mul(q, p), b);
    assert Differ(2 * a, 2 * b, p, 2 * q);
  }

  lemma MulDouble(q: nat, p: nat)
    ensures Mul(2 * q, p) == 2 * Mul(q, p)
  {
    MulUnfold(2 * q, p);
    XorZero(2 * Mul(q, p));
  }

  lemma {:induction false} CongruentUp(a: nat, b: nat, p: nat, n: nat)
    requires Congruent(a, b, p)
    ensures Congruent(Up(a, n), Up(b, n), p)
  {
    hide Congruent;
    if n > 0 {
      CongruentUp(a, b, p, n - 1);
      CongruentDouble(Up(a, n - 1), Up(b, n - 1), p);
    }
  }

  /** Adding the divisor once is no difference. */
  lemma CongruentOnce(a: nat, p: nat)
    ensures Congruent(Xor(p, a), a, p)
  {
    hide Xor;
    MulUnfold(1, p);
    assert Mul(0, p) == 0;
    XorZero(p);
    assert Differ(Xor(p, a), a, p, 1);
  }

  /** r is the remainder of a by p, which has degree n. */
  ghost predicate Remainder(a: nat, p: nat, n: nat, r: nat) {
    r < Pow2(n) && Congruent(a, r, p)
  }

  /** No two polynomials of degree less than n are congruent. */
  lemma CongruentLow(r: nat, s: nat, p: nat, n: nat)
    requires Pow2(n) <= p < Pow2(n + 1) && r < Pow2(n) && s < Pow2(n) && Congruent(r, s, p)
    ensures r == s
  {
    hide Xor, Mul, Pow2;
    var q: nat :| Differ(r, s, p, q);
    XorTwice(Mul(q, p), s);
    XorBelow(r, s, n);
    if q > 0 {
      MulHigh(q, p, n);
    } else {
      MulZero(p);
      XorZero(s);
    }
  }

  lemma MulZero(p: nat)
    ensures Mul(0, p) == 0
  {
  }

  /** Dividing with remainder has one result. */
  lemma RemainderUnique(a: nat, p: nat, n: nat, r: nat, s: nat)
    requires Pow2(n) <= p < Pow2(n + 1) && Remainder(a, p, n, r) && Remainder(a, p, n, s)
    ensures r == s
  {
    hide Congruent, Pow2;
    CongruentSymmetric(a, r, p);
    CongruentTransitive(r, a, s, p);
    CongruentLow(r, s, p, n);
  }

  /** Equal remainders are congruence. */
  lemma RemainderEqual(a: nat, r: nat, b: nat, s: nat, p: nat, n: nat)
    requires Pow2(n) <= p < Pow2(n + 1) && Remainder(a, p, n, r) && Remainder(b, p, n, s)
    ensures r == s <==> Congruent(a, b, p)
  {
    hide Congruent, Pow2;
    CongruentSymmetric(b, s, p);
    if r == s {
      CongruentTransitive(a, r, b, p);
    }
    if Congruent(a, b, p) {
      CongruentTransitive(a, b, s, p);
      RemainderUnique(a, p, n, r, s);
    }
  }

  // ---------- the reflected order of bits ----------

  /** The low n bits of x, first bit last. */
  function Reflect(x: nat, n: nat): (r: nat)
    ensures r < Pow2(n)
  {
    if n == 0 then 0 else
    UpBelow(x % 2, 1, n - 1);
    Up(x % 2, n - 1) + Reflect(x / 2, n - 1)
  }

  /** Leading zeros become trailing zeros. */
  lemma {:induction false} ReflectShort(x: nat, n: nat)
    requires x < Pow2(n)
    ensures Reflect(x, n + 1) == 2 * Reflect(x, n)
  {
    if n > 0 {
      ReflectShort(x / 2, n - 1);
    }
  }

  lemma {:induction false} ReflectShorter(x: nat, n: nat, k: nat)
    requires x < Pow2(n)
    ensures Reflect(x, n + k) == Up(Reflect(x, n), k)
  {
    hide Reflect;
    if k > 0 {
      ReflectShorter(x, n, k - 1);
      PowMonotone(n, n + k - 1);
      ReflectShort(x, n + k - 1);
    }
  }

  lemma {:induction false} ReflectXor(x: nat, y: nat, n: nat)
    ensures Reflect(Xor(x, y), n) == Xor(Reflect(x, n), Reflect(y, n))
  {
    hide Xor, Up, Pow2;
    if n > 0 {
      XorParts(x, y);
      ReflectXor(x / 2, y / 2, n - 1);
      ReflectTop(x, n);
      ReflectTop(y, n);
      ReflectTop(Xor(x, y), n);
      XorSwap(Up(x % 2, n - 1), Reflect(x / 2, n - 1), Up(y % 2, n - 1), Reflect(y / 2, n - 1));
      XorUp(x % 2, y % 2, n - 1);
      XorOfBits(x % 2, y % 2);
    } else {
      XorZero(0);
    }
  }

  lemma XorOfBits(a: nat, b: nat)
    requires a < 2 && b < 2
    ensures Xor(a, b) == if a != b then 1 else 0
  {
  }

  lemma ReflectTop(x: nat, n: nat)
    requires n > 0
    ensures Reflect(x, n) == Xor(Up(x % 2, n - 1), Reflect(x / 2, n - 1))
  {
    hide Xor, Up;
    XorDisjoint(x % 2, n - 1, Reflect(x / 2, n - 1));
  }

  lemma {:induction false} ReflectInjective(x: nat, y: nat, n: nat)
    requires x < Pow2(n) && y < Pow2(n) && Reflect(x, n) == Reflect(y, n)
    ensures x == y
  {
    if n > 0 {
      ReflectTwo(x % 2, Reflect(x / 2, n - 1), y % 2, Reflect(y / 2, n - 1), n - 1);
      ReflectInjective(x / 2, y / 2, n - 1);
    }
  }

  lemma ReflectTwo(a: nat, x: nat, b: nat, y: nat, n: nat)
    requires a < 2 && b < 2 && x < Pow2(n) && y < Pow2(n) && Up(a, n) + x == Up(b, n) + y
    ensures a == b && x == y
  {
    PowIsUp(n);
    UpZero(n);
  }

  /** Four bits at a time. */
  function Nibble(x: nat): nat {
    8 * (x % 2) + 4 * (x / 2 % 2) + 2 * (x / 4 % 2) + x / 8 % 2
  }

  function Nibbles(x: nat, k: nat, done: nat): nat
    decreases k
  {
    if k == 0 then done else Nibbles(x / 16, k - 1, 16 * done + Nibble(x))
  }

  lemma ReflectNibble(x: nat, n: nat)
    ensures Reflect(x, n + 4) == Up(Nibble(x), n) + Reflect(x / 16, n)
  {
    UpBits(x % 2, x / 2 % 2, x / 4 % 2, x / 8 % 2, n);
    assert x / 2 / 2 == x / 4 && x / 4 / 2 == x / 8 && x / 8 / 2 == x / 16;
    assert Reflect(x / 8, n + 1) == Up(x / 8 % 2, n) + Reflect(x / 16, n);
    assert Reflect(x / 4, n + 2) == Up(x / 4 % 2, n + 1) + Reflect(x / 8, n + 1);
    assert Reflect(x / 2, n + 3) == Up(x / 2 % 2, n + 2) + Reflect(x / 4, n + 2);
  }

  lemma UpBits(a: nat, b: nat, c: nat, d: nat, n: nat)
    ensures Up(8 * a + 4 * b + 2 * c + d, n) == Up(a, n + 3) + Up(b, n + 2) + Up(c, n + 1) + Up(d, n)
  {
    UpAdd(8 * a + 4 * b + 2 * c, d, n);
    UpAdd(8 * a + 4 * b, 2 * c, n);
    UpAdd(8 * a, 4 * b, n);
    UpInside(c, n);
    UpInside(2 * b, n);
    UpInside(b, n + 1);
    UpInside(4 * a, n);
    UpInside(2 * a, n + 1);
    UpInside(a, n + 2);
  }

  lemma {:induction false} ReflectNibbles(x: nat, k: nat, done: nat)
    ensures Nibbles(x, k, done) == Up(done, 4 * k) + Reflect(x, 4 * k)
    decreases k
  {
    hide Reflect, Nibble, Up;
    if k > 0 {
      var n := 4 * (k - 1);
      ReflectNibbles(x / 16, k - 1, 16 * done + Nibble(x));
      ReflectNibble(x, n);
      UpAdd(16 * done, Nibble(x), n);
      Up4(done);
      UpUp(done, 4, n);
    } else {
      UpNone(done);
    }
  }

  lemma UpNone(x: nat)
    ensures Up(x, 0) == x && Reflect(x, 0) == 0
  {
  }
}
