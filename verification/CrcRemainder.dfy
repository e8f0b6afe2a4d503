/** The checksum as the remainder of a division of polynomials over GF(2). */
module CrcRemainder {
  import opened Words
  import opened Gf2
  import opened Crc32

  /** The coefficients of the generator polynomial below x^32, highest power first. */
  const NORMAL: nat := 0x04c1_1db7

  const GENERATOR: nat := 0x1_04c1_1db7

  /** A message is a polynomial whose highest coefficient is the low bit of the first byte. */
  function Poly(msg: seq<Byte>): nat
    decreases |msg|
  {
    if msg == [] then 0 else Xor(Up(Reflect(msg[0], 8), 8 * |msg[1..]|), Poly(msg[1..]))
  }

  /** What RFC 1952 divides: the message times x^32, its first 32 coefficients complemented. */
  function Dividend(msg: seq<Byte>): nat {
    Xor(Up(Poly(msg), 32), Up(REG - 1, 8 * |msg|))
  }

  // ---------- reflected constants ----------

  lemma ReflectPoly()
    ensures Reflect(POLY, 32) == NORMAL
  {
    hide Nibble, Nibbles, Reflect, Up;
    ReflectNibbles(POLY, 8, 0);
    UpZero(32);
    NibbleValues();
    NibblesStep(0xedb8_8320, 7, 0);
    NibblesStep(0xedb_8832, 6, 0);
    NibblesStep(0xed_b883, 5, 0x4);
    NibblesStep(0xe_db88, 4, 0x4c);
    NibblesStep(0xedb8, 3, 0x4c1);
    NibblesStep(0xedb, 2, 0x4c11);
    NibblesStep(0xed, 1, 0x4_c11d);
    NibblesStep(0xe, 0, 0x4c_11db);
    NibblesDone(0, NORMAL);
  }

  lemma NibblesStep(x: nat, k: nat, done: nat)
    ensures Nibbles(x, k + 1, done) == Nibbles(x / 16, k, 16 * done + Nibble(x))
  {
  }

  lemma NibblesDone(x: nat, done: nat)
    ensures Nibbles(x, 0, done) == done
  {
  }

  lemma NibbleValues()
    ensures Nibble(0xedb8_8320) == 0x0 && Nibble(0xedb_8832) == 0x4 && Nibble(0xed_b883) == 0xc
    ensures Nibble(0xe_db88) == 0x1 && Nibble(0xedb8) == 0x1 && Nibble(0xedb) == 0xd
    ensures Nibble(0xed) == 0xb && Nibble(0xe) == 0x7
  {
  }

  lemma {:induction false} ReflectOnes(n: nat)
    ensures Reflect(Pow2(n) - 1, n) == Pow2(n) - 1
  {
    if n > 0 {
      ReflectOnes(n - 1);
      PowIsUp(n - 1);
    }
  }

  lemma GeneratorDegree()
    ensures Pow2(32) <= GENERATOR < Pow2(33) && GENERATOR == Up(1, 32) + NORMAL
  {
    hide Up;
    Pow32();
    PowIsUp(32);
  }

  // ---------- a step divides ----------

  lemma AddTwice(a: nat, b: nat, c: nat)
    ensures Xor(Xor(a, b), Xor(b, c)) == Xor(a, c)
  {
    hide Xor;
    XorAssociative(a, b, Xor(b, c));
    XorTwice(b, c);
  }

  lemma ReflectUnfold(x: nat, n: nat)
    ensures Reflect(x, n + 1) == Up(x % 2, n) + Reflect(x / 2, n)
  {
  }

  /** One step of the reflected register multiplies its polynomial by x, modulo the generator. */
  lemma StepDivides(x: Reg)
    ensures Congruent(2 * Reflect(x, 32), Reflect(Step(x), 32), GENERATOR)
  {
    hide Xor, Step, Reflect, Up, Pow2, Congruent;
    Pow32();
    StepIs(x);
    ReflectShort(x / 2, 31);
    ReflectUnfold(x, 31);
    if x % 2 == 0 {
      StepEven(x);
      CongruentSelf(2 * Reflect(x, 32), GENERATOR);
    } else {
      StepOdd(x, Reflect(x / 2, 32));
      ReflectXor(POLY, x / 2, 32);
      ReflectPoly();
      CongruentOnce(Xor(NORMAL, Reflect(x / 2, 32)), GENERATOR);
    }
  }

  lemma StepEven(x: Reg)
    requires x % 2 == 0
    ensures Up(x % 2, 31) == 0
  {
    hide Up;
    UpZero(31);
  }

  lemma StepOdd(x: Reg, low: nat)
    requires x % 2 == 1 && low < Pow2(32)
    ensures Xor(GENERATOR, Xor(NORMAL, low)) == 2 * Up(x % 2, 31) + low
  {
    hide Xor, Up, Pow2;
    GeneratorDegree();
    Pow32();
    UpMore(1, 31);
    XorDisjoint(1, 32, low);
    XorDisjoint(1, 32, NORMAL);
    AddTwice(Up(1, 32), NORMAL, low);
  }

  lemma UpMore(x: nat, n: nat)
    ensures Up(x, n + 1) == 2 * Up(x, n)
  {
  }

  lemma {:induction false} StepsDivide(x: Reg, n: nat)
    ensures Congruent(Up(Reflect(x, 32), n), Reflect(Steps(x, n), 32), GENERATOR)
    decreases n
  {
    hide Step, Reflect, Congruent;
    if n == 0 {
      CongruentSelf(Reflect(x, 32), GENERATOR);
    } else {
      StepReg(x);
      StepsDivide(Step(x), n - 1);
      StepDivides(x);
      CongruentUp(2 * Reflect(x, 32), Reflect(Step(x), 32), GENERATOR, n - 1);
      UpInside(Reflect(x, 32), n - 1);
      CongruentTransitive(Up(Reflect(x, 32), n), Up(Reflect(Step(x), 32), n - 1),
        Reflect(Steps(x, n), 32), GENERATOR);
    }
  }

  // ---------- a message is divided ----------

  /** The register with a message to come, as one polynomial. */
  function Pending(c: nat, msg: seq<Byte>): nat {
    Xor(Up(Poly(msg), 32), Up(Reflect(c, 32), 8 * |msg|))
  }

  /** Taking one byte into the register does not change the remainder. */
  lemma ByteDivides(c: Reg, msg: seq<Byte>)
    requires msg != []
    ensures Congruent(Pending(c, msg), Pending(Steps(Xor(c, msg[0]), 8), msg[1..]), GENERATOR)
  {
    hide Xor, Steps, Reflect, Up, Congruent, Poly;
    var b, rest := msg[0], msg[1..];
    var m := 8 * |rest|;
    var x := Xor(c, b);
    XorReg(c, b);
    PendingByte(c, msg);
    StepsDivide(x, 8);
    CongruentUp(Up(Reflect(x, 32), 8), Reflect(Steps(x, 8), 32), GENERATOR, m);
    CongruentSelf(Up(Poly(rest), 32), GENERATOR);
    CongruentAdds(Up(Poly(rest), 32), Up(Poly(rest), 32),
      Up(Up(Reflect(x, 32), 8), m), Up(Reflect(Steps(x, 8), 32), m), GENERATOR);
  }

  lemma PendingByte(c: Reg, msg: seq<Byte>)
    requires msg != []
    ensures Pending(c, msg)
         == Xor(Up(Poly(msg[1..]), 32), Up(Up(Reflect(Xor(c, msg[0]), 32), 8), 8 * |msg[1..]|))
  {
    hide Xor, Reflect, Up, Poly;
    var b, rest := msg[0], msg[1..];
    var m := 8 * |rest|;
    var p := Up(Poly(rest), 32);
    ByteAligned(b, m);
    PolyByte(msg);
    XorUp(Up(Reflect(b, 8), m), Poly(rest), 32);
    var u, v := Up(Up(Reflect(b, 32), 8), m), Up(Up(Reflect(c, 32), 8), m);
    UpUp(Reflect(c, 32), 8, m);
    XorSymmetric(u, p);
    XorAssociative(p, u, v);
    XorUp(Up(Reflect(b, 32), 8), Up(Reflect(c, 32), 8), m);
    XorUp(Reflect(b, 32), Reflect(c, 32), 8);
    ReflectXor(b, c, 32);
    XorSymmetric(b, c);
  }

  lemma PolyByte(msg: seq<Byte>)
    requires msg != []
    ensures Poly(msg) == Xor(Up(Reflect(msg[0], 8), 8 * |msg[1..]|), Poly(msg[1..]))
  {
  }

  lemma ByteAligned(b: Byte, m: nat)
    ensures Up(Up(Reflect(b, 8), m), 32) == Up(Up(Reflect(b, 32), 8), m)
  {
    hide Reflect, Up, Pow2;
    Pow32();
    ReflectShorter(b, 8, 24);
    UpUp(Reflect(b, 8), 24, 8);
    UpUp(Reflect(b, 8), 32, m);
    UpUp(Reflect(b, 8), m, 32);
  }

  lemma {:induction false} RunDivides(c: Reg, msg: seq<Byte>)
    ensures Run(c, msg) < REG
    ensures Remainder(Pending(c, msg), GENERATOR, 32, Reflect(Run(c, msg), 32))
    decreases |msg|
  {
    hide Xor, Steps, Reflect, Up, Congruent, Pow2;
    if msg == [] {
      PendingNone(c);
      CongruentSelf(Reflect(c, 32), GENERATOR);
    } else {
      var next := Steps(Xor(c, msg[0]), 8);
      XorReg(c, msg[0]);
      StepsReg(Xor(c, msg[0]), 8);
      ByteDivides(c, msg);
      RunDivides(next, msg[1..]);
      CongruentTransitive(Pending(c, msg), Pending(next, msg[1..]), Reflect(Run(c, msg), 32), GENERATOR);
    }
  }

  lemma PendingNone(c: Reg)
    ensures Pending(c, []) == Reflect(c, 32)
  {
    hide Xor, Reflect;
    UpZero(32);
    XorZero(Reflect(c, 32));
  }

  // ---------- the theorems ----------

  /** The remainder that a checksum stands for. */
  function RemainderOf(sum: Reg): nat {
    Reflect(REG - 1 - sum, 32)
  }

  lemma SumIsRemainder(msg: seq<Byte>)
    ensures Rfc1952Crc(msg) < REG
    ensures Remainder(Dividend(msg), GENERATOR, 32, RemainderOf(Rfc1952Crc(msg)))
  {
    hide Xor, Reflect, Up, Remainder, Pow2;
    Complements(0);
    XorZero(ONES);
    RunIsUpdate(ONES, msg);
    RunDivides(ONES, msg);
    XorReg(Run(ONES, msg), ONES);
    XorTwice(Run(ONES, msg), ONES);
    Complements(Rfc1952Crc(msg));
    Pow32();
    ReflectOnes(32);
  }

  /** The checksum is the one word whose reflected complement is the remainder of the message. */
  lemma CrcIsRemainder(msg: seq<Byte>, sum: Reg)
    ensures sum == Rfc1952Crc(msg) <==> Remainder(Dividend(msg), GENERATOR, 32, RemainderOf(sum))
  {
    hide Xor, Reflect, Up, Remainder, Pow2, Dividend;
    SumIsRemainder(msg);
    var crc := Rfc1952Crc(msg);
    GeneratorDegree();
    if Remainder(Dividend(msg), GENERATOR, 32, RemainderOf(sum)) {
      RemainderUnique(Dividend(msg), GENERATOR, 32, RemainderOf(sum), RemainderOf(crc));
      Pow32();
      ReflectInjective(REG - 1 - sum, REG - 1 - crc, 32);
    }
  }

  /**
   * Messages of one length collide exactly if the generator divides the difference of their
   * polynomials (times x^32).
   */
  lemma CollisionsExact(u: seq<Byte>, v: seq<Byte>)
    requires |u| == |v|
    ensures Rfc1952Crc(u) == Rfc1952Crc(v) <==> Congruent(Up(Poly(u), 32), Up(Poly(v), 32), GENERATOR)
  {
    hide Xor, Reflect, Up, Congruent, Remainder, Pow2, Poly, Rfc1952Crc;
    var ones := Up(REG - 1, 8 * |u|);
    SumIsRemainder(u);
    SumIsRemainder(v);
    CrcIsRemainder(u, Rfc1952Crc(v));
    GeneratorDegree();
    CongruentSelf(ones, GENERATOR);
    if Rfc1952Crc(u) == Rfc1952Crc(v) {
      RemainderEqual(Dividend(u), RemainderOf(Rfc1952Crc(u)), Dividend(v), RemainderOf(Rfc1952Crc(v)),
        GENERATOR, 32);
      CongruentAdds(Dividend(u), Dividend(v), ones, ones, GENERATOR);
      XorTwice(Up(Poly(u), 32), ones);
      XorTwice(Up(Poly(v), 32), ones);
    }
    if Congruent(Up(Poly(u), 32), Up(Poly(v), 32), GENERATOR) {
      CongruentAdds(Up(Poly(u), 32), Up(Poly(v), 32), ones, ones, GENERATOR);
      RemainderEqual(Dividend(u), RemainderOf(Rfc1952Crc(u)), Dividend(v), RemainderOf(Rfc1952Crc(v)),
        GENERATOR, 32);
    }
  }

  // ---------- the checksum that the comment names ----------

  /** The cksum of POSIX: high bit first, from an empty register, over message and length. */
  function PosixSteps(c: nat, n: nat): nat
    decreases n
  {
    if n == 0 then c else PosixSteps(if c >= REG / 2 then Xor(2 * c - REG, NORMAL) else 2 * c, n - 1)
  }

  function PosixRun(c: nat, msg: seq<Byte>): nat
    decreases |msg|
  {
    if msg == [] then c else PosixRun(PosixSteps(Xor(c, Up(msg[0], 24)) % REG, 8) % REG, msg[1..])
  }

  /** The length, low byte first, without leading zeros. */
  function LengthBytes(n: nat): seq<Byte> {
    if n == 0 then [] else [n % 0x100] + LengthBytes(n / 0x100)
  }

  function PosixCksum(msg: seq<Byte>): nat {
    Xor(PosixRun(0, msg + LengthBytes(|msg|)), ONES)
  }

  /** What this cksum does at one set bit, and with a length of more than a byte. */
  lemma PosixExamples()
    ensures PosixRun(0, [1]) == 0x04c1_1db7
    ensures LengthBytes(255) == [255] && LengthBytes(256) == [0, 1]
  {
    hide Xor, Up;
    Up16(1);
    Up4(0x1_0000);
    Up4(0x10_0000);
    UpUp(1, 16, 4);
    UpUp(1, 20, 4);
    XorZero(0x100_0000);
    XorZero(NORMAL);
    assert [1][1..] == [];
    assert PosixSteps(0x8000_0000, 1) == PosixSteps(NORMAL, 0) == NORMAL;
    assert PosixSteps(0x800_0000, 5) == PosixSteps(0x1000_0000, 4) == NORMAL;
    assert PosixSteps(0x100_0000, 8) == PosixSteps(0x200_0000, 7) == NORMAL;
    assert LengthBytes(0) == [] && LengthBytes(1) == [1];
  }

  /** The two differ already for the empty message. */
  lemma NotPosix()
    ensures PosixCksum([]) == REG - 1 && Rfc1952Crc([]) == 0
  {
    Complements(0);
    hide Xor, PosixSteps;
    assert LengthBytes(0) == [] && [] + LengthBytes(0) == [];
    XorZero(ONES);
    XorSelf(ONES);
  }
}
