/** What the checksum tells apart: the step is a bijection, so no burst of 32 bits goes unseen. */
module CrcBursts {
  import opened Words
  import opened Gf2
  import opened Crc32

  // ---------- the step is a bijection ----------

  /** The register before a step. */
  function Unstep(s: nat): nat {
    if s >= REG / 2 then 2 * Xor(POLY, s) + 1 else 2 * s
  }

  /** Terms of the same highest degree cancel it. */
  lemma {:induction false} XorTop(a: nat, b: nat, n: nat)
    requires Pow2(n) <= a < Pow2(n + 1) && Pow2(n) <= b < Pow2(n + 1)
    ensures Xor(a, b) < Pow2(n)
  {
    hide Xor;
    XorParts(a, b);
    if n > 0 {
      XorTop(a / 2, b / 2, n - 1);
    } else {
      XorSelf(1);
    }
  }

  lemma StepOnto(s: Reg)
    ensures Unstep(s) < REG && Step(Unstep(s)) == s
  {
    hide Xor, Step, Pow2;
    StepIs(Unstep(s));
    Pow32();
    Pow31();
    if s >= REG / 2 {
      XorTop(POLY, s, 31);
      XorTwice(POLY, s);
    }
  }

  lemma Pow31()
    ensures Pow2(31 + 1) == 2 * Pow2(31)
  {
  }

  lemma StepZero(x: Reg)
    requires Step(x) == 0
    ensures x == 0
  {
    hide Xor, Step, Pow2;
    StepIs(x);
    Pow32();
    if x % 2 == 1 {
      XorHigh(POLY, x / 2, 31);
    }
  }

  lemma {:induction false} StepsZero(x: Reg, n: nat)
    requires Steps(x, n) == 0
    ensures x == 0
    decreases n
  {
    hide Step;
    if n > 0 {
      StepReg(x);
      StepsZero(Step(x), n - 1);
      StepZero(x);
    }
  }

  /** No two registers step to the same one. */
  lemma StepsInjective(x: Reg, y: Reg, n: nat)
    requires Steps(x, n) == Steps(y, n)
    ensures x == y
  {
    hide Steps, Xor;
    StepsLinear(x, y, n);
    XorSelf(Steps(y, n));
    XorReg(x, y);
    StepsZero(Xor(x, y), n);
    SumIsZero(x, y);
  }

  lemma SumIsZero(a: nat, b: nat)
    requires Xor(a, b) == 0
    ensures a == b
  {
    XorSelf(b);
    XorCancel(a, b, b);
  }

  /** The step permutes the registers. */
  lemma StepBijective(x: Reg, s: Reg)
    ensures Step(x) == s <==> x == Unstep(s)
  {
    hide Step, Unstep;
    StepOnto(s);
    if Step(x) == s {
      StepsOnce(x);
      StepsOnce(Unstep(s));
      StepsInjective(x, Unstep(s), 1);
    }
  }

  lemma StepsOnce(x: nat)
    ensures Steps(x, 1) == Step(x)
  {
    hide Step;
    assert Steps(Step(x), 0) == Step(x);
  }

  // ---------- a window of bytes ----------

  /** The bytes of a window as a number, first byte lowest. */
  function Window(u: seq<Byte>): nat {
    if u == [] then 0 else u[0] + Up(Window(u[1..]), 8)
  }

  lemma {:induction false} WindowBelow(u: seq<Byte>)
    ensures Window(u) < Pow2(8 * |u|)
  {
    hide Pow2, Up;
    Pow32();
    if u == [] {
      PowNone();
    } else {
      WindowBelow(u[1..]);
      UpBelow(Window(u[1..]), 8 * |u[1..]|, 8);
    }
  }

  lemma {:induction false} WindowInjective(u: seq<Byte>, v: seq<Byte>)
    requires |u| == |v| && Window(u) == Window(v)
    ensures u == v
  {
    hide Up;
    if u != [] {
      UpByte(Window(u[1..]));
      UpByte(Window(v[1..]));
      WindowInjective(u[1..], v[1..]);
      assert u == [u[0]] + u[1..] && v == [v[0]] + v[1..];
    }
  }

  lemma UpByte(x: nat)
    ensures Up(x, 8) == 0x100 * x
  {
    hide Up;
    Up4(x);
    Up4(Up(x, 4));
    UpUp(x, 4, 4);
  }

  lemma {:induction false} StepsMore(x: nat, m: nat, n: nat)
    ensures Steps(x, m + n) == Steps(Steps(x, m), n)
    decreases m
  {
    hide Step;
    if m > 0 {
      StepsMore(Step(x), m - 1, n);
    }
  }

  /** Feeding bytes one after the other, or all at once and then stepping through their bits. */
  lemma {:induction false} RunWindow(c: Reg, u: seq<Byte>)
    ensures Run(c, u) == Steps(Xor(c, Window(u)), 8 * |u|)
    decreases |u|
  {
    hide Xor, Steps, Up;
    if u == [] {
      XorZero(c);
      StepsNone(c);
    } else {
      var x, w := Xor(c, u[0]), Window(u[1..]);
      XorReg(c, u[0]);
      StepsReg(x, 8);
      RunWindow(Steps(x, 8), u[1..]);
      StepsUp(w, 8);
      StepsLinear(x, Up(w, 8), 8);
      StepsMore(Xor(x, Up(w, 8)), 8, 8 * |u[1..]|);
      WindowFirst(u);
      XorAssociative(c, u[0], Up(w, 8));
    }
  }

  lemma StepsNone(c: nat)
    ensures Steps(c, 0) == c
  {
  }

  lemma WindowFirst(u: seq<Byte>)
    requires u != []
    ensures Window(u) == Xor(u[0], Up(Window(u[1..]), 8))
  {
    hide Xor, Up, Pow2;
    Pow32();
    XorDisjoint(Window(u[1..]), 8, u[0]);
    XorSymmetric(u[0], Up(Window(u[1..]), 8));
  }

  // ---------- messages ----------

  lemma {:induction false} RunReg(c: Reg, msg: seq<Byte>)
    ensures Run(c, msg) < REG
    decreases |msg|
  {
    hide Xor, Steps;
    if msg != [] {
      XorReg(c, msg[0]);
      StepsReg(Xor(c, msg[0]), 8);
      RunReg(Steps(Xor(c, msg[0]), 8), msg[1..]);
    }
  }

  lemma {:induction false} RunAppends(c: nat, u: seq<Byte>, v: seq<Byte>)
    ensures Run(c, u + v) == Run(Run(c, u), v)
    decreases |u|
  {
    hide Xor, Steps;
    if u == [] {
      assert u + v == v;
    } else {
      assert (u + v)[0] == u[0] && (u + v)[1..] == u[1..] + v;
      RunAppends(Steps(Xor(c, u[0]), 8), u[1..], v);
    }
  }

  /** For every message, the register after it tells where it began. */
  lemma {:induction false} RunInjective(c: Reg, d: Reg, msg: seq<Byte>)
    requires Run(c, msg) == Run(d, msg)
    ensures c == d
  {
    hide Run, Xor, Steps;
    RunWindow(c, msg);
    RunWindow(d, msg);
    var w, n := Window(msg), 8 * |msg|;
    StepsLinear(c, w, n);
    StepsLinear(d, w, n);
    XorCancel(Steps(c, n), Steps(d, n), Steps(w, n));
    StepsInjective(c, d, n);
  }

  /** The bits in which two windows differ, from bit k on, fill at most one register. */
  predicate Burst(u: seq<Byte>, v: seq<Byte>, k: nat, bits: Reg) {
    |u| == |v| && k <= 8 * |u| && Xor(Window(u), Window(v)) == Up(bits, k)
  }

  /** From one register, windows that differ by a burst lead to different registers. */
  lemma WindowsDiffer(c: Reg, u: seq<Byte>, v: seq<Byte>, k: nat, bits: Reg)
    requires Burst(u, v, k, bits) && Run(c, u) == Run(c, v)
    ensures bits == 0
  {
    hide Run, Xor, Steps, Window, Up;
    RunWindow(c, u);
    RunWindow(c, v);
    var n := 8 * |u|;
    StepsLinear(c, Window(u), n);
    StepsLinear(c, Window(v), n);
    XorSymmetric(Steps(c, n), Steps(Window(u), n));
    XorSymmetric(Steps(c, n), Steps(Window(v), n));
    XorCancel(Steps(Window(u), n), Steps(Window(v), n), Steps(c, n));
    StepsLinear(Window(u), Window(v), n);
    XorSelf(Steps(Window(v), n));
    StepsMore(Up(bits, k), k, n - k);
    StepsUp(bits, k);
    StepsZero(bits, n - k);
  }

  /**
   * Messages that differ only within 32 consecutive bits have different checksums, wherever the
   * bits stand and whatever surrounds them.
   */
  lemma BitBurstsAreDetected(before: seq<Byte>, u: seq<Byte>, v: seq<Byte>, after: seq<Byte>, k: nat, bits: Reg)
    requires Burst(u, v, k, bits) && bits > 0
    ensures Rfc1952Crc(before + u + after) != Rfc1952Crc(before + v + after)
  {
    hide Run, Xor, Burst;
    var c := Run(ONES, before);
    RunReg(ONES, before);
    RunOfThree(before, u, after);
    RunOfThree(before, v, after);
    RunReg(c, u);
    RunReg(c, v);
    if Rfc1952Crc(before + u + after) == Rfc1952Crc(before + v + after) {
      SameSum(before + u + after, before + v + after);
      RunInjective(Run(c, u), Run(c, v), after);
      WindowsDiffer(c, u, v, k, bits);
    }
  }

  /** Windows of at most four bytes differ by a burst. */
  lemma BytesAreBurst(u: seq<Byte>, v: seq<Byte>)
    requires |u| == |v| <= 4
    ensures Xor(Window(u), Window(v)) < REG && Burst(u, v, 0, Xor(Window(u), Window(v)))
  {
    hide Xor, Window, Pow2;
    WindowBelow(u);
    WindowBelow(v);
    PowMonotone(8 * |u|, 32);
    Pow32();
    XorReg(Window(u), Window(v));
  }

  /**
   * Messages that differ only within four consecutive bytes have different checksums, wherever
   * the bytes stand and whatever surrounds them.
   */
  lemma BurstsAreDetected(before: seq<Byte>, u: seq<Byte>, v: seq<Byte>, after: seq<Byte>)
    requires |u| == |v| <= 4 && u != v
    ensures Rfc1952Crc(before + u + after) != Rfc1952Crc(before + v + after)
  {
    hide Xor, Window, Burst, Rfc1952Crc;
    BytesAreBurst(u, v);
    if Xor(Window(u), Window(v)) == 0 {
      SumIsZero(Window(u), Window(v));
      WindowInjective(u, v);
    }
    BitBurstsAreDetected(before, u, v, after, 0, Xor(Window(u), Window(v)));
  }

  lemma RunOfThree(before: seq<Byte>, u: seq<Byte>, after: seq<Byte>)
    ensures Run(ONES, before + u + after) == Run(Run(Run(ONES, before), u), after)
  {
    hide Run;
    RunAppends(ONES, before + u, after);
    RunAppends(ONES, before, u);
  }

  lemma SameSum(u: seq<Byte>, v: seq<Byte>)
    requires Rfc1952Crc(u) == Rfc1952Crc(v)
    ensures Run(ONES, u) == Run(ONES, v)
  {
    hide Run, Update, Xor;
    RunIsUpdate(ONES, u);
    RunIsUpdate(ONES, v);
    XorCancel(Run(ONES, u), Run(ONES, v), ONES);
  }

  // ---------- zero bytes in front ----------

  function Bit(v: nat, i: nat): nat {
    Down(v, i) % 2
  }

  lemma BitOfStep(c: nat, i: nat)
    ensures Bit(TableStep(c), i) == if Bit(c, 0) == 1 then (Bit(POLY, i) + Bit(c, i + 1)) % 2 else Bit(c, i + 1)
  {
    hide Xor;
    assert Down(c, 0) == c && Down(c, i + 1) == Down(c / 2, i);
    if c % 2 == 1 {
      DownXor(POLY, c / 2, i);
      XorParts(Down(POLY, i), Down(c / 2, i));
    }
  }

  /** The low bits of a register, lowest first. */
  predicate HasBits(c: nat, bits: seq<nat>) {
    forall i | 0 <= i < |bits| :: Bit(c, i) == bits[i]
  }

  /** The low bits after a step: of the polynomial, only bit 5 is set among the first eight. */
  function NextBits(bits: seq<nat>): seq<nat>
    requires 0 < |bits| <= 9
  {
    seq(|bits| - 1, i requires 0 <= i < |bits| - 1 =>
      if bits[0] == 1 && i == 5 then (1 + bits[i + 1]) % 2 else bits[i + 1])
  }

  lemma StepBits(c: nat, bits: seq<nat>)
    requires HasBits(c, bits) && 0 < |bits| <= 9 && forall i | 0 <= i < |bits| :: bits[i] < 2
    ensures HasBits(TableStep(c), NextBits(bits))
  {
    hide TableStep, Bit;
    PolyBits();
    forall i | 0 <= i < |bits| - 1
      ensures Bit(TableStep(c), i) == NextBits(bits)[i]
    {
      assert Bit(c, 0) == bits[0] && Bit(c, i + 1) == bits[i + 1];
      BitOfStep(c, i);
    }
  }

  function BitsOf(v: nat, n: nat): seq<nat> {
    if n == 0 then [] else [v % 2] + BitsOf(v / 2, n - 1)
  }

  lemma {:induction false} BitsOfAre(v: nat, n: nat)
    ensures HasBits(v, BitsOf(v, n)) && |BitsOf(v, n)| == n
  {
    if n > 0 {
      BitsOfAre(v / 2, n - 1);
      forall i | 0 <= i < n
        ensures Bit(v, i) == BitsOf(v, n)[i]
      {
        if i > 0 {
          assert Bit(v, i) == Bit(v / 2, i - 1) == BitsOf(v / 2, n - 1)[i - 1];
        }
      }
    }
  }

  lemma PolyBits()
    ensures forall i | 0 <= i < 8 :: Bit(POLY, i) == if i == 5 then 1 else 0
  {
    hide Bit;
    BitsOfAre(POLY, 8);
    var bits := BitsOf(POLY, 8);
    assert bits == [0, 0, 0, 0, 0, 1, 0, 0];
    forall i | 0 <= i < 8
      ensures Bit(POLY, i) == if i == 5 then 1 else 0
    {
      assert Bit(POLY, i) == bits[i];
    }
  }

  lemma OnesBits()
    ensures HasBits(ONES, [1, 1, 1, 1, 1, 1, 1, 1, 1])
  {
    hide HasBits;
    BitsOfAre(ONES, 9);
    assert BitsOf(ONES, 9) == [1, 1, 1, 1, 1, 1, 1, 1, 1];
  }

  /** Eight steps from all ones, with ever fewer of the low bits. */
  lemma StepsBits(c: nat, bits: seq<nat>)
    requires HasBits(c, bits) && 0 < |bits| <= 9 && forall i | 0 <= i < |bits| :: bits[i] < 2
    ensures HasBits(Steps(c, |bits| - 1), BitsAfter(bits))
    decreases |bits|
  {
    hide TableStep, Bit, Step;
    if |bits| > 1 {
      StepIs(c);
      StepBits(c, bits);
      StepsBits(Step(c), NextBits(bits));
    }
  }

  function BitsAfter(bits: seq<nat>): seq<nat>
    requires 0 < |bits| <= 9
    decreases |bits|
  {
    if |bits| == 1 then bits else BitsAfter(NextBits(bits))
  }

  lemma ZeroByteMoves()
    ensures Steps(ONES, 8) != ONES
  {
    hide Bit, Steps;
    OnesBits();
    StepsBits(ONES, [1, 1, 1, 1, 1, 1, 1, 1, 1]);
    EightSteps();
    assert Bit(Steps(ONES, 8), 0) == 0 && Bit(ONES, 0) == 1;
  }

  lemma EightSteps()
    ensures BitsAfter([1, 1, 1, 1, 1, 1, 1, 1, 1]) == [0]
  {
    assert NextBits([1, 1, 1, 1, 1, 1, 1, 1, 1]) == [1, 1, 1, 1, 1, 0, 1, 1];
    assert NextBits([1, 1, 1, 1, 1, 0, 1, 1]) == [1, 1, 1, 1, 0, 0, 1];
    assert NextBits([1, 1, 1, 1, 0, 0, 1]) == [1, 1, 1, 0, 0, 0];
    assert NextBits([1, 1, 1, 0, 0, 0]) == [1, 1, 0, 0, 0];
    assert NextBits([1, 1, 0, 0, 0]) == [1, 0, 0, 0];
    assert NextBits([1, 0, 0, 0]) == [0, 0, 0];
    assert NextBits([0, 0, 0]) == [0, 0];
    assert NextBits([0, 0]) == [0];
  }

  /**
   * A zero byte in front changes the checksum: it moves the register, which starts as the
   * complement of zero, away from it.
   */
  lemma ZerosCount(msg: seq<Byte>)
    ensures Rfc1952Crc([0] + msg) != Rfc1952Crc(msg)
  {
    hide Run, Update, Xor, Steps;
    if Rfc1952Crc([0] + msg) == Rfc1952Crc(msg) {
      SameSum([0] + msg, msg);
      RunFirst(ONES, 0, msg);
      XorZero(ONES);
      ZeroByteMoves();
      StepsReg(ONES, 8);
      RunInjective(Steps(ONES, 8), ONES, msg);
    }
  }

  lemma RunFirst(c: nat, b: Byte, msg: seq<Byte>)
    ensures Run(c, [b] + msg) == Run(Steps(Xor(c, b), 8), msg)
  {
    hide Steps, Xor;
    assert ([b] + msg)[1..] == msg;
  }

  /** The checksum is affine: over three messages of one length, differences add up. */
  lemma CrcAffine(u: seq<Byte>, v: seq<Byte>, w: seq<Byte>, sum: seq<Byte>)
    requires |u| == |v| == |w| == |sum|
    requires forall i | 0 <= i < |u| :: sum[i] == Xor(Xor(u[i], v[i]), w[i])
    ensures Rfc1952Crc(sum) == Xor(Xor(Rfc1952Crc(u), Rfc1952Crc(v)), Rfc1952Crc(w))
  {
    hide Run, Update, Xor;
    RunIsUpdate(ONES, u);
    RunIsUpdate(ONES, v);
    RunIsUpdate(ONES, w);
    RunIsUpdate(ONES, sum);
    ThreeOnes(ONES);
    RunAffine(ONES, u, ONES, v, ONES, w, ONES, sum);
    XorSwap(Run(ONES, u), ONES, Run(ONES, v), ONES);
    XorSelf(ONES);
    XorZero(Xor(Run(ONES, u), Run(ONES, v)));
    XorAssociative(Xor(Run(ONES, u), Run(ONES, v)), Run(ONES, w), ONES);
  }

  lemma ThreeOnes(a: nat)
    ensures Xor(Xor(a, a), a) == a
  {
    XorSelf(a);
    XorZero(a);
  }

  lemma {:induction false} RunAffine(c: nat, u: seq<Byte>, d: nat, v: seq<Byte>, e: nat, w: seq<Byte>,
      f: nat, sum: seq<Byte>)
    requires |u| == |v| == |w| == |sum| && f == Xor(Xor(c, d), e)
    requires forall i | 0 <= i < |u| :: sum[i] == Xor(Xor(u[i], v[i]), w[i])
    ensures Run(f, sum) == Xor(Xor(Run(c, u), Run(d, v)), Run(e, w))
    decreases |u|
  {
    hide Xor, Steps;
    if u != [] {
      var c', d', e' := Xor(c, u[0]), Xor(d, v[0]), Xor(e, w[0]);
      XorSwap(Xor(c, d), e, Xor(u[0], v[0]), w[0]);
      XorSwap(c, d, u[0], v[0]);
      StepsLinear(Xor(c', d'), e', 8);
      StepsLinear(c', d', 8);
      RunAffine(Steps(c', 8), u[1..], Steps(d', 8), v[1..], Steps(e', 8), w[1..],
        Steps(Xor(f, sum[0]), 8), sum[1..]);
    }
  }
}
