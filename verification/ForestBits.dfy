/** The shape of a smoothsort forest: a two-word bit vector p and a shift. */
module ForestBits {
  import opened Words
  import opened TrailingZeros

  const PAIR: nat := 0x1_0000_0000_0000_0000_0000_0000_0000_0000

  /** The value of the two words, low word first. */
  function Pair(p0: Word, p1: Word): nat {
    p0 + WORD * p1
  }

  lemma PairBelow(p0: Word, p1: Word)
    ensures Pair(p0, p1) < PAIR
  {
  }

  /** The orders of the trees, from the rightmost tree on: the set bits of v, counted from k. */
  function Orders(v: nat, k: nat): (os: seq<nat>)
    decreases v
  {
    if v == 0 then []
    else if v % 2 == 1 then [k] + Orders(v / 2, k + 1)
    else Orders(v / 2, k + 1)
  }

  // ---------- pntz ----------

  function Pntz(p0: Word, p1: Word): nat
    requires 1 <= p0
  {
    var r := Ctz64(p0 - 1);
    if r != 0 then r
    else
      var r' := 64 + Ctz64(p1);
      if r' != 64 then r' else 0
  }

  lemma {:induction false} TzOfMultiple(m: nat, n: nat)
    requires 1 <= m
    ensures Up(m, n) > 0 && Tz(Up(m, n)) == n + Tz(m)
  {
    if n > 0 {
      TzOfMultiple(m, n - 1);
    }
  }

  lemma {:induction false} TzOfLowWord(a: nat, b: nat, n: nat)
    requires 0 < a < Pow2(n)
    ensures a + Up(b, n) > 0 && Tz(a + Up(b, n)) == Tz(a)
  {
    if n > 0 {
      var x := Up(b, n - 1);
      assert Up(b, n) == 2 * x;
      if a % 2 == 0 {
        TzOfLowWord(a / 2, b, n - 1);
        assert (a + 2 * x) / 2 == a / 2 + x;
      }
    }
  }

  /** pntz is the distance to the next tree except when the low word is 1 and the high word is
      odd: there it returns 0. */
  lemma PntzCorrect(p0: Word, p1: Word)
    requires p0 % 2 == 1 && Pair(p0, p1) != 1
    ensures Pntz(p0, p1) == Tz(Pair(p0, p1) - 1) <==> !(p0 == 1 && p1 % 2 == 1)
    ensures p0 == 1 && p1 % 2 == 1 ==> Pntz(p0, p1) == 0
  {
    hide Ctz64, Up, Pow2;
    WordPow();
    WordUp(p1);
    if p0 == 1 {
      CtzOfZero();
      Ctz64Correct(p1);
      TzOfMultiple(p1, 64);
    } else {
      Ctz64Correct(p0 - 1);
      TzOfLowWord(p0 - 1, p1, 64);
    }
  }

  lemma CtzOfZero()
    ensures Ctz64(0) == 0
  {
  }

  // ---------- shl and shr ----------

  /** What a shift within one word keeps of the word, and what it moves to the neighbour. */
  lemma ShiftedWord(p: Word, n: nat)
    requires n <= 64
    ensures var out, kept := Down(p, 64 - n), Low(p, 64 - n);
            && Up(p, n) == WORD * out + Up(kept, n)
            && Up(p, n) % WORD == Up(kept, n)
            && out < Pow2(n) && Up(kept, n) + Pow2(n) <= WORD
  {
    hide Up, Down, Low, Pow2;
    var out, kept := Down(p, 64 - n), Low(p, 64 - n);
    LowRest(p, 64 - n);
    UpAdd(Up(out, 64 - n), kept, n);
    UpUp(out, 64 - n, n);
    WordUp(out);
    WordPow();
    DownBelow(p, 64, 64 - n);
    UpBelow(kept, 64 - n, n);
    Remainder(out, Up(kept, n));
  }

  lemma Remainder(q: nat, r: nat)
    requires r < WORD
    ensures (WORD * q + r) % WORD == r
  {
  }

  lemma PairRemainder(q: nat, r: nat)
    requires r < PAIR
    ensures (PAIR * q + r) % PAIR == r
  {
  }

  /** The high word after a left shift: its own bits and the ones that the low word shifts out. */
  function ShlHigh(p0: Word, p1: Word, n: nat): nat
    requires 0 < n < 64
  {
    Or(ShiftLeft(p1, n), ShiftRight(p0, 64 - n))
  }

  lemma ShlCorrect(p0: Word, p1: Word, n: nat)
    requires 0 < n < 64
    ensures ShlHigh(p0, p1, n) < WORD
    ensures Pair(ShiftLeft(p0, n), ShlHigh(p0, p1, n)) == Up(Pair(p0, p1), n) % PAIR
  {
    hide Or, Up, Down, Low, Pow2;
    ShiftedWord(p0, n);
    ShiftedWord(p1, n);
    OrDisjoint(Low(p1, 64 - n), n, Down(p0, 64 - n));
    UpPair(p0, p1, n);
    PairBelow(ShiftLeft(p0, n), ShlHigh(p0, p1, n));
    PairRemainder(Down(p1, 64 - n), Pair(ShiftLeft(p0, n), ShlHigh(p0, p1, n)));
  }

  lemma UpPair(p0: Word, p1: Word, n: nat)
    ensures Up(Pair(p0, p1), n) == Up(p0, n) + WORD * Up(p1, n)
  {
    hide Up;
    WordUp(p1);
    UpAdd(p0, Up(p1, 64), n);
    UpUp(p1, 64, n);
    UpUp(p1, n, 64);
    WordUp(Up(p1, n));
  }

  function ShrLow(p0: Word, p1: Word, n: nat): nat
    requires 0 < n < 64
  {
    Or(ShiftRight(p0, n), ShiftLeft(p1, 64 - n))
  }

  lemma ShrCorrect(p0: Word, p1: Word, n: nat)
    requires 0 < n < 64
    ensures ShrLow(p0, p1, n) < WORD
    ensures Pair(ShrLow(p0, p1, n), ShiftRight(p1, n)) == Down(Pair(p0, p1), n)
  {
    hide Or, Up, Down, Low, Pow2;
    ShiftedWord(p0, 64 - n);
    ShiftedWord(p1, 64 - n);
    OrDisjoint(Low(p1, n), 64 - n, Down(p0, n));
    OrSymmetric(Down(p0, n), Up(Low(p1, n), 64 - n));
    WordUp(p1);
    DownSum(p0, p1, 64, n);
  }

  /** Shifts the pair left in place. A shift by exactly one word, like a shift by 0, makes the C
      code shift a word by its own size, which C does not define. */
  method Shl(p: array<Word>, n: nat)
    requires p.Length == 2 && 0 < n < 128 && n != 64
    modifies p
    ensures Pair(p[0], p[1]) == Up(old(Pair(p[0], p[1])), n) % PAIR
  {
    hide Up, Down, Or, Pair;
    var m := n;
    ghost var q0, q1 := p[0], p[1];
    if m >= 64 {
      m := m - 64;
      p[1] := p[0];
      p[0] := 0;
      ShlWholeWord(q0, q1, m);
    }
    ShlCorrect(p[0], p[1], m);
    p[1] := ShiftLeft(p[1], m);
    p[1] := Or(p[1], ShiftRight(p[0], 64 - m));
    p[0] := ShiftLeft(p[0], m);
  }

  lemma ShlWholeWord(p0: Word, p1: Word, m: nat)
    ensures Up(Pair(0, p0), m) % PAIR == Up(Pair(p0, p1), m + 64) % PAIR
  {
    hide Up;
    UpPair(0, p0, m);
    UpPair(p0, p1, m + 64);
    UpUp(p0, m, 64);
    UpUp(p1, m, 64);
    WordUp(Up(p0, m));
    WordUp(Up(p1, m));
    UpZero(m);
    assert Up(Pair(p0, p1), m + 64) == Up(Pair(0, p0), m) + PAIR * Up(p1, m);
    ModAdd(Up(Pair(0, p0), m), Up(p1, m));
  }

  lemma ModAdd(x: nat, q: nat)
    ensures (x + PAIR * q) % PAIR == x % PAIR
  {
  }

  /** Shifts the pair right in place, with the same exception. */
  method Shr(p: array<Word>, n: nat)
    requires p.Length == 2 && 0 < n < 128 && n != 64
    modifies p
    ensures Pair(p[0], p[1]) == Down(old(Pair(p[0], p[1])), n)
  {
    hide Up, Down, Or;
    var m := n;
    ghost var q0, q1 := p[0], p[1];
    if m >= 64 {
      m := m - 64;
      p[0] := p[1];
      p[1] := 0;
      ShrWholeWord(q0, q1, m);
    }
    ShrCorrect(p[0], p[1], m);
    p[0] := ShiftRight(p[0], m);
    p[0] := Or(p[0], ShiftLeft(p[1], 64 - m));
    p[1] := ShiftRight(p[1], m);
  }

  lemma ShrWholeWord(p0: Word, p1: Word, m: nat)
    ensures Down(p1, m) == Down(Pair(p0, p1), m + 64)
  {
    hide Up, Down;
    WordPow();
    WordUp(p1);
    DownSum(p0, p1, 64, 64);
    DownBelow(p0, 64, 64);
    DownDown(Pair(p0, p1), 64, m);
    UpNothing(p1);
  }

  lemma UpNothing(v: nat)
    ensures Up(v, 0) == v && Pow2(0) == 1
  {
  }

  /** In the usual notation: shl multiplies and shr divides by a power of two. */
  lemma ShiftsAreArithmetic(v: nat, n: nat)
    ensures Up(v, n) == v * Pow2(n) && Down(v, n) == v / Pow2(n)
  {
    UpIsTimes(v, n);
    DownIsDiv(v, n);
  }

  // ---------- the forest under these operations ----------

  lemma {:induction false} OrdersShifted(v: nat, n: nat, k: nat)
    ensures Orders(Up(v, n), k) == Orders(v, k + n)
  {
    if n > 0 {
      OrdersShifted(v, n - 1, k + 1);
    }
  }

  /** Shifting right by the distance to the next tree drops the first tree. */
  lemma {:induction false} OrdersNext(v: nat, k: nat)
    requires v % 2 == 1 && v != 1
    ensures var t := Tz(v - 1); var u := Down(v, t);
            1 <= t && u % 2 == 1 && Orders(v, k) == [k] + Orders(u, k + t) && Orders(u, k + t)[0] == k + t
  {
    var t := Tz(v - 1);
    TzSplits(v - 1);
    assert v / 2 == (v - 1) / 2;
    assert Down(v, t) == Down(v - 1, t);
    var u := Down(v, t);
    assert v / 2 == Up(u, t - 1);
    OrdersShifted(u, t - 1, k + 1);
  }

  /** Orders below k + m fit into m bits. */
  lemma {:induction false} OrdersBound(v: nat, k: nat, m: nat)
    requires forall i :: 0 <= i < |Orders(v, k)| ==> Orders(v, k)[i] < k + m
    ensures v < Pow2(m)
    decreases v
  {
    if v > 0 {
      if m == 0 {
        OrdersNotEmpty(v, k);
      } else {
        var os, tail := Orders(v, k), Orders(v / 2, k + 1);
        assert forall i :: 0 <= i < |tail| ==> tail[i] == os[i + |os| - |tail|];
        OrdersBound(v / 2, k + 1, m - 1);
      }
    }
  }

  lemma {:induction false} OrdersNotEmpty(v: nat, k: nat)
    requires v > 0
    ensures |Orders(v, k)| > 0 && Orders(v, k)[0] >= k
    decreases v
  {
    if v % 2 == 0 {
      OrdersNotEmpty(v / 2, k + 1);
    }
  }
}
