/** Unsigned 64-bit machine words as natural numbers, with the bitwise operators of C. */
module Words {

  const WORD: nat := 0x1_0000_0000_0000_0000

  const REG: nat := 0x1_0000_0000  // the values of a 32-bit register

  type Word = x: nat | x < WORD

  type Byte = x: nat | x < 0x100

  // ---------- doubling and halving ----------

  /** v, doubled n times. */
  function Up(v: nat, n: nat): nat {
    if n == 0 then v else 2 * Up(v, n - 1)
  }

  /** v, halved n times. */
  function Down(v: nat, n: nat): nat {
    if n == 0 then v else Down(v / 2, n - 1)
  }

  function Pow2(n: nat): (r: nat)
    ensures 1 <= r
  {
    if n == 0 then 1 else 2 * Pow2(n - 1)
  }

  // ---------- the operators ----------

  function And(a: nat, b: nat): nat {
    if a == 0 || b == 0 then 0 else (if a % 2 == 1 && b % 2 == 1 then 1 else 0) + 2 * And(a / 2, b / 2)
  }

  function Or(a: nat, b: nat): nat
    decreases a + b
  {
    if a == 0 then b else if b == 0 then a else
    (if a % 2 == 1 || b % 2 == 1 then 1 else 0) + 2 * Or(a / 2, b / 2)
  }

  function Xor(a: nat, b: nat): nat
    decreases a + b
  {
    if a == 0 then b else if b == 0 then a else
    (if a % 2 != b % 2 then 1 else 0) + 2 * Xor(a / 2, b / 2)
  }

  /** Unsigned negation: the two's complement of a 64-bit word. */
  function Neg(a: Word): Word {
    if a == 0 then 0 else WORD - a
  }

  function ShiftLeft(a: Word, n: nat): Word
    requires n < 64  // a shift by the word size is undefined in C
  {
    Up(a, n) % WORD
  }

  function ShiftRight(a: Word, n: nat): Word
    requires n < 64
  {
    DownShrinks(a, n);
    Down(a, n)
  }

  function Times(a: Word, b: Word): Word {
    (a * b) % WORD
  }

  // ---------- laws of doubling and halving ----------

  lemma {:induction false} DownShrinks(v: nat, n: nat)
    ensures Down(v, n) <= v
  {
    if n > 0 {
      DownShrinks(v / 2, n - 1);
    }
  }

  lemma {:induction false} UpAdd(a: nat, b: nat, n: nat)
    ensures Up(a + b, n) == Up(a, n) + Up(b, n)
  {
    if n > 0 {
      UpAdd(a, b, n - 1);
    }
  }

  lemma {:induction false} UpUp(v: nat, m: nat, n: nat)
    ensures Up(Up(v, m), n) == Up(v, m + n)
  {
    if n > 0 {
      UpUp(v, m, n - 1);
    }
  }

  /** Doubling may as well begin with the argument. */
  lemma {:induction false} UpInside(v: nat, n: nat)
    ensures Up(2 * v, n) == Up(v, n + 1)
  {
    if n > 0 {
      UpInside(v, n - 1);
    }
  }

  lemma {:induction false} DownDown(v: nat, m: nat, n: nat)
    ensures Down(Down(v, m), n) == Down(v, m + n)
  {
    if m > 0 {
      DownDown(v / 2, m - 1, n);
    }
  }

  /** Halving a sum whose second part has n low zero bits. */
  lemma {:induction false} DownSum(a: nat, b: nat, m: nat, n: nat)
    requires n <= m
    ensures Down(a + Up(b, m), n) == Down(a, n) + Up(b, m - n)
  {
    if n > 0 {
      assert (a + Up(b, m)) / 2 == a / 2 + Up(b, m - 1);
      DownSum(a / 2, b, m - 1, n - 1);
    }
  }

  /** The bits that halving loses. */
  function Low(v: nat, n: nat): nat {
    if n == 0 then 0 else v % 2 + 2 * Low(v / 2, n - 1)
  }

  lemma {:induction false} LowRest(v: nat, n: nat)
    ensures v == Up(Down(v, n), n) + Low(v, n) && Low(v, n) < Pow2(n)
  {
    if n > 0 {
      LowRest(v / 2, n - 1);
    }
  }

  lemma {:induction false} DownBelow(v: nat, m: nat, n: nat)
    requires n <= m && v < Pow2(m)
    ensures Down(v, n) < Pow2(m - n)
  {
    if n > 0 {
      DownBelow(v / 2, m - 1, n - 1);
    }
  }

  lemma {:induction false} UpBelow(v: nat, m: nat, n: nat)
    requires v < Pow2(m)
    ensures Up(v, n) < Pow2(m + n) && Up(v, n) + Pow2(n) <= Pow2(m + n)
  {
    if n > 0 {
      UpBelow(v, m, n - 1);
    }
  }

  lemma {:induction false} PowMonotone(m: nat, n: nat)
    requires m <= n
    ensures Pow2(m) <= Pow2(n)
  {
    if m < n {
      PowMonotone(m, n - 1);
    }
  }

  /** In terms of multiplication and division. */
  lemma {:induction false} UpIsTimes(v: nat, n: nat)
    ensures Up(v, n) == v * Pow2(n)
  {
    if n > 0 {
      UpIsTimes(v, n - 1);
      assert v * Pow2(n) == 2 * (v * Pow2(n - 1));
    }
  }

  lemma DownIsDiv(v: nat, n: nat)
    ensures Down(v, n) == v / Pow2(n)
  {
    LowRest(v, n);
    UpIsTimes(Down(v, n), n);
    DivUnique(v, Pow2(n), Down(v, n), Low(v, n));
  }

  lemma DivUnique(a: int, d: int, q: int, r: int)
    requires 0 <= r < d && a == q * d + r
    ensures a / d == q && a % d == r
  {
    var k := q - a / d;
    assert k * d == q * d - (a / d) * d;
    if k > 0 {
      AtLeastOnce(k, d);
    } else if k < 0 {
      AtLeastOnce(-k, d);
    }
  }

  lemma AtLeastOnce(k: int, d: int)
    requires 1 <= k && 0 <= d
    ensures d <= k * d
  {
    assert (k - 1) * d >= 0;
  }

  lemma {:induction false} UpZero(n: nat)
    ensures Up(0, n) == 0
  {
    if n > 0 {
      UpZero(n - 1);
    }
  }

  lemma PowNone()
    ensures Pow2(0) == 1
  {
  }

  // ---------- the word size ----------

  lemma Up4(v: nat)
    ensures Up(v, 4) == 0x10 * v
  {
    assert Up(v, 1) == 2 * v;
    assert Up(v, 2) == 4 * v;
    assert Up(v, 3) == 8 * v;
  }

  lemma Up16(v: nat)
    ensures Up(v, 16) == 0x1_0000 * v
  {
    Up4(v);
    Up4(Up(v, 4));
    UpUp(v, 4, 4);
    var w := Up(v, 8);
    Up4(w);
    Up4(Up(w, 4));
    UpUp(w, 4, 4);
    UpUp(v, 8, 8);
  }

  lemma WordUp(v: nat)
    ensures Up(v, 64) == WORD * v
  {
    Up16(v);
    Up16(Up(v, 16));
    UpUp(v, 16, 16);
    var w := Up(v, 32);
    Up16(w);
    Up16(Up(w, 16));
    UpUp(w, 16, 16);
    UpUp(v, 32, 32);
  }

  lemma {:induction false} PowIsUp(n: nat)
    ensures Pow2(n) == Up(1, n)
  {
    if n > 0 {
      PowIsUp(n - 1);
    }
  }

  lemma WordPow()
    ensures Pow2(64) == WORD
  {
    PowIsUp(64);
    WordUp(1);
  }

  // ---------- laws of the operators ----------

  /** The operands of an OR that share no bit position are simply added. */
  lemma {:induction false} OrDisjoint(a: nat, n: nat, b: nat)
    requires b < Pow2(n)
    ensures Or(Up(a, n), b) == Up(a, n) + b
  {
    if n > 0 {
      var x := Up(a, n - 1);
      OrDisjoint(a, n - 1, b / 2);
      assert (2 * x) / 2 == x && (2 * x) % 2 == 0;
    }
  }

  lemma {:induction false} OrSymmetric(a: nat, b: nat)
    ensures Or(a, b) == Or(b, a)
    decreases a + b
  {
    if a > 0 && b > 0 {
      OrSymmetric(a / 2, b / 2);
    }
  }

  lemma {:induction false} AndAll(x: nat, m: nat)
    requires x < Pow2(m)
    ensures And(x, Pow2(m) - 1) == x == And(Pow2(m) - 1, x)
  {
    if m > 0 && x > 0 {
      assert (Pow2(m) - 1) / 2 == Pow2(m - 1) - 1 && (Pow2(m) - 1) % 2 == 1;
      AndAll(x / 2, m - 1);
    }
  }

  lemma {:induction false} AndLowBits(a: nat)
    ensures And(a, 3) == a % 4
  {
    assert And(a / 2, 1) == (a / 2) % 2 by {
      if a / 2 > 0 { assert And(a / 2 / 2, 0) == 0; }
    }
  }

  lemma {:induction false} OrOne(a: nat)
    ensures Or(a, 1) == if a % 2 == 1 then a else a + 1
  {
  }

  lemma XorZero(a: nat)
    ensures Xor(a, 0) == a && Xor(0, a) == a
  {
  }

  lemma XorLowBit(x: nat, b: nat, y: nat, c: nat)
    requires b < 2 && c < 2
    ensures Xor(2 * x + b, 2 * y + c) == (if b != c then 1 else 0) + 2 * Xor(x, y)
  {
    LowBit(x, b);
    LowBit(y, c);
  }

  lemma LowBit(x: nat, b: nat)
    requires b < 2
    ensures (2 * x + b) / 2 == x && (2 * x + b) % 2 == b
  {
  }

  /** Flipping the three low bits of a word whose low bits are 100 leaves 011. */
  lemma XorSeven(a: nat)
    requires a % 8 == 4
    ensures Xor(a, 7) == a - 1
  {
    hide Xor;
    var k := a / 8;
    XorLowBit(4 * k + 2, 0, 3, 1);
    XorLowBit(2 * k + 1, 0, 1, 1);
    XorLowBit(k, 1, 0, 1);
    XorZero(k);
  }
}
