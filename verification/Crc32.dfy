/** The checksum of the remote-ROM protocol: the CRC-32 of section 8 of RFC 1952. */
module Crc32 {
  import opened Words
  import opened Gf2

  type Reg = x: nat | x < REG

  const POLY: Reg := 0xedb8_8320
  const ONES: Reg := 0xffff_ffff

  // ---------- the code ----------

  /** One bit: a branch-free conditional addition of the polynomial. */
  function Step(crc: nat): nat {
    Xor(And((REG - crc % 2) % REG, POLY), crc / 2)
  }

  function Steps(crc: nat, n: nat): nat
    decreases n
  {
    if n == 0 then crc else Steps(Step(crc), n - 1)
  }

  /** The register after the bytes of a message. */
  function Run(crc: nat, msg: seq<Byte>): nat
    decreases |msg|
  {
    if msg == [] then crc else Run(Steps(Xor(crc, msg[0]), 8), msg[1..])
  }

  method Cksum(buf: array<Byte>, size: nat) returns (sum: Reg)
    requires size <= buf.Length
    ensures sum == Rfc1952Crc(buf[..size])
  {
    hide Step, Xor;
    var p, left := 0, size;
    var crc: Reg := ONES;
    while left > 0
      invariant 0 <= left && p + left == size
      invariant Run(ONES, buf[..size]) == Run(crc, buf[p..size])
    {
      left := left - 1;
      assert buf[p..size][0] == buf[p] && buf[p..size][1..] == buf[p + 1..size];
      XorReg(crc, buf[p]);
      crc := Xor(crc, buf[p]);
      p := p + 1;
      ghost var word := crc;
      for j := 0 to 8
        invariant Steps(word, 8) == Steps(crc, 8 - j)
      {
        StepReg(crc);
        crc := Step(crc);
      }
    }
    XorReg(crc, ONES);
    sum := Xor(crc, ONES);
    RunIsUpdate(ONES, buf[..size]);
  }

  // ---------- section 8 of RFC 1952 ----------

  function TableStep(c: nat): nat {
    if c % 2 == 1 then Xor(POLY, c / 2) else c / 2
  }

  /** An entry of the table: eight conditional steps from the index. */
  function Table(c: nat, k: nat := 8): nat
    decreases k
  {
    if k == 0 then c else Table(TableStep(c), k - 1)
  }

  function Update(c: nat, msg: seq<Byte>): nat
    decreases |msg|
  {
    if msg == [] then c else Update(Xor(Table(And(Xor(c, msg[0]), 0xff)), Down(c, 8)), msg[1..])
  }

  function Rfc1952Crc(msg: seq<Byte>): nat {
    Xor(Update(ONES, msg), ONES)
  }

  // ---------- the step ----------

  lemma Pow32()
    ensures Pow2(32) == REG && Pow2(31) == 0x8000_0000 && Pow2(8) == 0x100
  {
    hide Up;
    PowIsUp(32);
    Up16(1);
    Up16(Up(1, 16));
    UpUp(1, 16, 16);
    PowIsUp(8);
    Up4(1);
    Up4(Up(1, 4));
    UpUp(1, 4, 4);
  }

  lemma {:induction false} XorAllOnes(x: nat, n: nat)
    requires x < Pow2(n)
    ensures Xor(x, Pow2(n) - 1) == Pow2(n) - 1 - x
  {
    hide Xor;
    XorParts(x, Pow2(n) - 1);
    if n > 0 {
      assert (Pow2(n) - 1) / 2 == Pow2(n - 1) - 1 && (Pow2(n) - 1) % 2 == 1;
      XorAllOnes(x / 2, n - 1);
    } else {
      XorSelf(0);
    }
  }

  /** The first and the last step of the checksum complement the register. */
  lemma Complements(x: Reg)
    ensures Xor(x, ONES) == REG - 1 - x
  {
    hide Xor, Pow2;
    Pow32();
    XorAllOnes(x, 32);
  }

  lemma XorReg(a: Reg, b: Reg)
    ensures Xor(a, b) < REG
  {
    hide Pow2;
    Pow32();
    XorBelow(a, b, 32);
  }

  /** The mask of the code is all ones or zero: the step is the conditional one of the table. */
  lemma StepIs(crc: nat)
    ensures Step(crc) == TableStep(crc)
  {
    hide Xor, Pow2;
    Pow32();
    AndAll(POLY, 32);
    XorZero(crc / 2);
    if crc % 2 == 0 {
      assert (REG - crc % 2) % REG == 0;
    } else {
      assert (REG - crc % 2) % REG == REG - 1;
    }
  }

  lemma StepReg(crc: Reg)
    ensures Step(crc) < REG
  {
    hide Xor, Step;
    StepIs(crc);
    XorReg(POLY, crc / 2);
  }

  lemma {:induction false} StepsReg(crc: Reg, n: nat)
    ensures Steps(crc, n) < REG
    decreases n
  {
    hide Step;
    if n > 0 {
      StepReg(crc);
      StepsReg(Step(crc), n - 1);
    }
  }

  // ---------- linearity ----------

  /** The step is linear over GF(2). */
  lemma StepLinear(x: nat, y: nat)
    ensures Step(Xor(x, y)) == Xor(Step(x), Step(y))
  {
    hide Xor, Step;
    StepIs(x);
    StepIs(y);
    StepIs(Xor(x, y));
    XorParts(x, y);
    var a, b := (if x % 2 == 1 then POLY else 0), (if y % 2 == 1 then POLY else 0);
    XorZero(x / 2);
    XorZero(y / 2);
    XorSwap(a, x / 2, b, y / 2);
    XorZero(POLY);
    XorZero(0);
    XorSelf(POLY);
    XorZero(Xor(x / 2, y / 2));
  }

  lemma {:induction false} StepsLinear(x: nat, y: nat, n: nat)
    ensures Steps(Xor(x, y), n) == Xor(Steps(x, n), Steps(y, n))
    decreases n
  {
    hide Xor, Step;
    if n > 0 {
      StepLinear(x, y);
      StepsLinear(Step(x), Step(y), n - 1);
    }
  }

  /** Zero bits are only shifted out. */
  lemma {:induction false} StepsUp(z: nat, n: nat)
    ensures Steps(Up(z, n), n) == z
    decreases n
  {
    hide Step;
    if n > 0 {
      StepIs(Up(z, n));
      StepsUp(z, n - 1);
    }
  }

  lemma {:induction false} StepsIsTable(c: nat, n: nat)
    ensures Steps(c, n) == Table(c, n)
    decreases n
  {
    hide Step, TableStep;
    if n > 0 {
      StepIs(c);
      StepsIsTable(Step(c), n - 1);
    }
  }

  lemma {:induction false} AndLow(x: nat, n: nat)
    ensures And(x, Pow2(n) - 1) == Low(x, n)
  {
    if n > 0 {
      assert (Pow2(n) - 1) / 2 == Pow2(n - 1) - 1 && (Pow2(n) - 1) % 2 == 1;
      AndLow(x / 2, n - 1);
      if x == 0 {
        LowZero(n);
      }
    }
  }

  lemma {:induction false} LowZero(n: nat)
    ensures Low(0, n) == 0
  {
    if n > 0 {
      LowZero(n - 1);
    }
  }

  lemma {:induction false} DownXor(a: nat, b: nat, n: nat)
    ensures Down(Xor(a, b), n) == Xor(Down(a, n), Down(b, n))
  {
    hide Xor;
    if n > 0 {
      XorParts(a, b);
      DownXor(a / 2, b / 2, n - 1);
    }
  }

  /** Eight steps act on the low byte through the table, and only shift the rest. */
  lemma ByteStep(c: nat, b: Byte)
    ensures Steps(Xor(c, b), 8) == Xor(Table(And(Xor(c, b), 0xff)), Down(c, 8))
  {
    hide Step, Steps, Table, Xor, And, Up, Down, Low, Pow2;
    var x := Xor(c, b);
    Pow32();
    LowRest(x, 8);
    XorDisjoint(Down(x, 8), 8, Low(x, 8));
    StepsLinear(Up(Down(x, 8), 8), Low(x, 8), 8);
    StepsUp(Down(x, 8), 8);
    AndLow(x, 8);
    StepsIsTable(Low(x, 8), 8);
    XorSymmetric(Down(x, 8), Table(Low(x, 8)));
    DownXor(c, b, 8);
    DownBelow(b, 8, 8);
    PowNone();
    XorZero(Down(c, 8));
  }

  /** The bitwise code and the table-driven code of the RFC compute the same register. */
  lemma {:induction false} RunIsUpdate(c: nat, msg: seq<Byte>)
    ensures Run(c, msg) == Update(c, msg)
    decreases |msg|
  {
    hide Steps, Table, Xor, And, Down;
    if msg != [] {
      ByteStep(c, msg[0]);
      RunIsUpdate(Steps(Xor(c, msg[0]), 8), msg[1..]);
    }
  }
}
