/** Counting trailing zeros by a de Bruijn multiplication. */
module TrailingZeros {
  import opened Words

  /** The table of the source; the multiplication leaves six bits, so 63 is the last index. */
  function Debruijn64(i: nat): nat
    requires i < 64
  {
    match i
    case 0 => 0 case 1 => 1 case 2 => 2 case 3 => 53 case 4 => 3 case 5 => 7 case 6 => 54 case 7 => 27
    case 8 => 4 case 9 => 38 case 10 => 41 case 11 => 8 case 12 => 34 case 13 => 55 case 14 => 48 case 15 => 28
    case 16 => 62 case 17 => 5 case 18 => 39 case 19 => 46 case 20 => 44 case 21 => 42 case 22 => 22 case 23 => 9
    case 24 => 24 case 25 => 35 case 26 => 59 case 27 => 56 case 28 => 49 case 29 => 18 case 30 => 29 case 31 => 11
    case 32 => 63 case 33 => 52 case 34 => 6 case 35 => 26 case 36 => 37 case 37 => 40 case 38 => 33 case 39 => 47
    case 40 => 61 case 41 => 45 case 42 => 43 case 43 => 21 case 44 => 23 case 45 => 58 case 46 => 17 case 47 => 10
    case 48 => 51 case 49 => 25 case 50 => 36 case 51 => 32 case 52 => 60 case 53 => 20 case 54 => 57 case 55 => 16
    case 56 => 50 case 57 => 31 case 58 => 19 case 59 => 15 case 60 => 30 case 61 => 14 case 62 => 13 case _ => 12
  }

  const DEBRUIJN_FACTOR: Word := 0x022f_dd63_cc95_386d

  /** The number of trailing zeros, by definition. */
  function Tz(x: nat): nat
    requires x > 0
  {
    if x % 2 == 1 then 0 else 1 + Tz(x / 2)
  }

  /** What the de Bruijn code computes, also for 0, where it yields 0. */
  function Ctz64(x: Word): nat {
    AndAtMost(x, Neg(x));
    var product := Times(And(x, Neg(x)), DEBRUIJN_FACTOR);
    Debruijn64(product / 0x0400_0000_0000_0000)
  }

  // ---------- isolating the lowest set bit ----------

  lemma {:induction false} AndAtMost(a: nat, b: nat)
    ensures And(a, b) <= a
  {
    if a != 0 && b != 0 {
      AndAtMost(a / 2, b / 2);
    }
  }

  lemma {:induction false} AndComplement(y: nat, w: nat)
    requires y < Pow2(w)
    ensures And(y, Pow2(w) - 1 - y) == 0
  {
    if w > 0 && y != 0 {
      var z := Pow2(w) - 1 - y;
      assert z / 2 == Pow2(w - 1) - 1 - y / 2 && y % 2 + z % 2 == 1;
      AndComplement(y / 2, w - 1);
    }
  }

  lemma {:induction false} LowestBit(x: nat, w: nat)
    requires 0 < x < Pow2(w)
    ensures And(x, Pow2(w) - x) == Pow2(Tz(x))
  {
    var z := Pow2(w) - x;
    if x % 2 == 1 {
      assert z / 2 == Pow2(w - 1) - 1 - x / 2;
      AndComplement(x / 2, w - 1);
    } else {
      assert z / 2 == Pow2(w - 1) - x / 2 && z % 2 == 0;
      LowestBit(x / 2, w - 1);
    }
  }

  lemma {:induction false} TzBelow(x: nat, w: nat)
    requires 0 < x < Pow2(w)
    ensures Tz(x) < w
  {
    if x % 2 == 0 {
      TzBelow(x / 2, w - 1);
    }
  }

  // ---------- the table ----------

  /** The factor shifted left by k, modulo the word size, written out. */
  function Shifted(k: nat): nat {
    match k
    case 0 => 0x022f_dd63_cc95_386d  case 1 => 0x045f_bac7_992a_70da
    case 2 => 0x08bf_758f_3254_e1b4  case 3 => 0x117e_eb1e_64a9_c368
    case 4 => 0x22fd_d63c_c953_86d0  case 5 => 0x45fb_ac79_92a7_0da0
    case 6 => 0x8bf7_58f3_254e_1b40  case 7 => 0x17ee_b1e6_4a9c_3680
    case 8 => 0x2fdd_63cc_9538_6d00  case 9 => 0x5fba_c799_2a70_da00
    case 10 => 0xbf75_8f32_54e1_b400  case 11 => 0x7eeb_1e64_a9c3_6800
    case 12 => 0xfdd6_3cc9_5386_d000  case 13 => 0xfbac_7992_a70d_a000
    case 14 => 0xf758_f325_4e1b_4000  case 15 => 0xeeb1_e64a_9c36_8000
    case 16 => 0xdd63_cc95_386d_0000  case 17 => 0xbac7_992a_70da_0000
    case 18 => 0x758f_3254_e1b4_0000  case 19 => 0xeb1e_64a9_c368_0000
    case 20 => 0xd63c_c953_86d0_0000  case 21 => 0xac79_92a7_0da0_0000
    case 22 => 0x58f3_254e_1b40_0000  case 23 => 0xb1e6_4a9c_3680_0000
    case 24 => 0x63cc_9538_6d00_0000  case 25 => 0xc799_2a70_da00_0000
    case 26 => 0x8f32_54e1_b400_0000  case 27 => 0x1e64_a9c3_6800_0000
    case 28 => 0x3cc9_5386_d000_0000  case 29 => 0x7992_a70d_a000_0000
    case 30 => 0xf325_4e1b_4000_0000  case 31 => 0xe64a_9c36_8000_0000
    case 32 => 0xcc95_386d_0000_0000  case 33 => 0x992a_70da_0000_0000
    case 34 => 0x3254_e1b4_0000_0000  case 35 => 0x64a9_c368_0000_0000
    case 36 => 0xc953_86d0_0000_0000  case 37 => 0x92a7_0da0_0000_0000
    case 38 => 0x254e_1b40_0000_0000  case 39 => 0x4a9c_3680_0000_0000
    case 40 => 0x9538_6d00_0000_0000  case 41 => 0x2a70_da00_0000_0000
    case 42 => 0x54e1_b400_0000_0000  case 43 => 0xa9c3_6800_0000_0000
    case 44 => 0x5386_d000_0000_0000  case 45 => 0xa70d_a000_0000_0000
    case 46 => 0x4e1b_4000_0000_0000  case 47 => 0x9c36_8000_0000_0000
    case 48 => 0x386d_0000_0000_0000  case 49 => 0x70da_0000_0000_0000
    case 50 => 0xe1b4_0000_0000_0000  case 51 => 0xc368_0000_0000_0000
    case 52 => 0x86d0_0000_0000_0000  case 53 => 0x0da0_0000_0000_0000
    case 54 => 0x1b40_0000_0000_0000  case 55 => 0x3680_0000_0000_0000
    case 56 => 0x6d00_0000_0000_0000  case 57 => 0xda00_0000_0000_0000
    case 58 => 0xb400_0000_0000_0000  case 59 => 0x6800_0000_0000_0000
    case 60 => 0xd000_0000_0000_0000  case 61 => 0xa000_0000_0000_0000
    case 62 => 0x4000_0000_0000_0000  case _ => 0x8000_0000_0000_0000
  }

  lemma ShiftedDoubles(k: nat)
    requires k < 63
    ensures Shifted(k) < 0x1_0000_0000_0000_0000 && Shifted(0) == DEBRUIJN_FACTOR
    ensures Shifted(k + 1) ==
            if Shifted(k) < 0x8000_0000_0000_0000 then 2 * Shifted(k) else 2 * Shifted(k) - 0x1_0000_0000_0000_0000
  {
  }

  lemma {:induction false} ShiftedIs(k: nat)
    requires k < 64
    ensures Shifted(k) == Up(DEBRUIJN_FACTOR, k) % WORD
  {
    hide Shifted;
    ShiftedDoubles(0);
    if k > 0 {
      ShiftedIs(k - 1);
      ShiftedDoubles(k - 1);
      DoubledWord(Up(DEBRUIJN_FACTOR, k - 1));
    }
  }

  lemma DoubledWord(v: nat)
    ensures (2 * v) % WORD == if v % WORD < 0x8000_0000_0000_0000 then 2 * (v % WORD) else 2 * (v % WORD) - WORD
  {
    var q := v / WORD;
    var r := v % WORD;
    if r < 0x8000_0000_0000_0000 {
      RestOfWords(2 * q, 2 * r);
    } else {
      RestOfWords(2 * q + 1, 2 * r - WORD);
    }
  }

  lemma RestOfWords(q: nat, r: nat)
    requires r < WORD
    ensures (WORD * q + r) % WORD == r
  {
  }

  lemma LowEntry(k: nat)
    requires k < 32
    ensures Shifted(k) < 0x1_0000_0000_0000_0000 && Debruijn64(Shifted(k) / 0x0400_0000_0000_0000) == k
  {
  }

  lemma HighEntry(k: nat)
    requires 32 <= k < 64
    ensures Shifted(k) < 0x1_0000_0000_0000_0000 && Debruijn64(Shifted(k) / 0x0400_0000_0000_0000) == k
  {
  }

  // ---------- the result ----------

  /** For every non-zero word the code returns the number of trailing zeros. */
  lemma Ctz64Correct(x: Word)
    requires x != 0
    ensures Ctz64(x) == Tz(x) < 64
  {
    hide And, Pow2, Tz, Shifted, Debruijn64, Up;
    WordPow();
    LowestBit(x, 64);
    TzBelow(x, 64);
    FactorTimes(Tz(x));
    ShiftedIs(Tz(x));
    if Tz(x) < 32 {
      LowEntry(Tz(x));
    } else {
      HighEntry(Tz(x));
    }
  }

  lemma FactorTimes(k: nat)
    ensures Pow2(k) * DEBRUIJN_FACTOR == Up(DEBRUIJN_FACTOR, k)
  {
    UpIsTimes(DEBRUIJN_FACTOR, k);
  }

  /** Tz in the words of the bits: the first Tz(x) bits are zero and the next one is set. */
  lemma {:induction false} TzSplits(x: nat)
    requires x > 0
    ensures x == Up(Down(x, Tz(x)), Tz(x)) && Down(x, Tz(x)) % 2 == 1
  {
    if x % 2 == 0 {
      TzSplits(x / 2);
    }
  }
}
