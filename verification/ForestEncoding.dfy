/** How the bit vector of the code and the forest it stands for move together. */
module ForestEncoding {
  import opened Words
  import opened TrailingZeros
  import opened ForestBits
  import opened Leonardo
  import opened LeonardoHeap
  import opened ForestPhases

  /** The greatest tree that can be followed by another one without a shift by a whole word. */
  const MAX_ORDER: nat := 65

  predicate Odd(v: nat) {
    v % 2 == 1
  }

  /** p, seen from the shift k, encodes the orders os. */
  ghost predicate Encodes(p0: Word, p1: Word, k: nat, os: seq<nat>) {
    Odd(p0) && Orders(Pair(p0, p1), k) == os
  }

  /** Ascending orders whose distances fit into a word. */
  ghost predicate Close(os: seq<nat>) {
    forall i :: 0 <= i < |os| - 1 ==> os[i] < os[i + 1] < os[i] + 64
  }

  /** The low bits of the pair are those of the low word. */
  lemma OddPair(p0: Word, p1: Word)
    ensures Odd(Pair(p0, p1)) == Odd(p0)
  {
    assert Pair(p0, p1) == p0 + 2 * (0x8000_0000_0000_0000 * p1);
  }

  lemma QuadPair(p0: Word, p1: Word)
    ensures Pair(p0, p1) % 4 == p0 % 4
  {
    assert Pair(p0, p1) == p0 + 4 * (0x4000_0000_0000_0000 * p1);
  }

  lemma OctPair(p0: Word, p1: Word)
    ensures Pair(p0, p1) % 8 == p0 % 8
  {
    assert Pair(p0, p1) == p0 + 8 * (0x2000_0000_0000_0000 * p1);
  }

  /** The two low bits of an odd number. */
  lemma SecondBit(v: nat)
    requires v % 2 == 1
    ensures v % 4 == 3 <==> (v / 2) % 2 == 1
    ensures v / 2 / 2 == v / 4
  {
  }

  lemma FourTimesOdd(v: nat)
    requires Odd(v)
    ensures (4 * v) % 8 == 4 && (4 * v - 1) / 2 == 2 * v - 1 && Odd(2 * v - 1)
  {
    DivUnique(4 * v, 8, v / 2, 4);
    DivUnique(4 * v - 1, 2, 2 * v - 1, 1);
    DivUnique(2 * v - 1, 2, v - 1, 1);
  }

  /** The first order is the shift itself, and there is only one tree if p is 1. */
  lemma EncodesFirst(p0: Word, p1: Word, k: nat, os: seq<nat>)
    requires Encodes(p0, p1, k, os)
    ensures os != [] && os[0] == k && 1 <= p0
    ensures |os| == 1 <==> p0 == 1 && p1 == 0
  {
    OddPair(p0, p1);
    var v := Pair(p0, p1);
    if v != 1 {
      OrdersNotEmpty(v / 2, k + 1);
    }
  }

  /** The test `(p[0] & 3) == 3` finds two trees of adjacent orders. */
  lemma EncodesMerges(p0: Word, p1: Word, k: nat, os: seq<nat>)
    requires Encodes(p0, p1, k, os)
    ensures Merges(os) <==> And(p0, 3) == 3
  {
    hide Pair, And, Orders;
    OddPair(p0, p1);
    QuadPair(p0, p1);
    AndLowBits(p0);
    MergesBits(Pair(p0, p1), k);
  }

  lemma MergesBits(v: nat, k: nat)
    requires v % 2 == 1
    ensures Merges(Orders(v, k)) <==> v % 4 == 3
  {
    var h := v / 2;
    SecondBit(v);
    assert Orders(v, k) == [k] + Orders(h, k + 1);
    if h % 2 == 1 {
      assert Orders(h, k + 1)[0] == k + 1;
    } else if h > 0 {
      OrdersNotEmpty(h / 2, k + 2);
    }
  }

  /** pntz is the distance to the next tree. */
  lemma NextDistance(p0: Word, p1: Word, k: nat, os: seq<nat>)
    requires Encodes(p0, p1, k, os) && |os| > 1 && os[1] != os[0] + 64
    ensures os[1] == os[0] + Pntz(p0, p1) && 1 <= Pntz(p0, p1) && (Close(os) ==> Pntz(p0, p1) < 64)
  {
    hide Pntz, Pair, Orders;
    OddPair(p0, p1);
    EncodesFirst(p0, p1, k, os);
    PairIsOne(p0, p1);
    OrdersNext(Pair(p0, p1), k);
    if p0 == 1 && p1 % 2 == 1 {
      TzOfPairs(p1);
      assert false;
    }
    PntzCorrect(p0, p1);
  }

  lemma PairIsOne(p0: Word, p1: Word)
    ensures Pair(p0, p1) == 1 <==> p0 == 1 && p1 == 0
  {
  }

  /** Shifting right by this distance drops the first tree. */
  lemma EncodesTail(p0: Word, p1: Word, k: nat, os: seq<nat>, t: nat, q0: Word, q1: Word)
    requires Encodes(p0, p1, k, os) && |os| > 1 && os[1] == os[0] + t
    requires Pair(q0, q1) == Down(Pair(p0, p1), t)
    ensures Encodes(q0, q1, os[1], os[1..])
  {
    hide Pair, Orders;
    OddPair(p0, p1);
    EncodesFirst(p0, p1, k, os);
    PairIsOne(p0, p1);
    OrdersNext(Pair(p0, p1), k);
    OddPair(q0, q1);
  }

  lemma TzOfPairs(p1: Word)
    requires p1 % 2 == 1
    ensures Pair(1, p1) > 1 && Tz(Pair(1, p1) - 1) == 64
  {
    WordUp(p1);
    TzOfMultiple(p1, 64);
  }

  // ---------- orders in an array of bounded size ----------

  lemma OrderAtMost(k: nat, n: nat)
    requires L(k) <= L(n) && 1 <= n
    ensures k <= n
  {
    if k > n {
      StrictlyMonotone(n, k);
    }
  }

  ghost predicate Ascending(os: seq<nat>) {
    forall i :: 0 <= i < |os| - 1 ==> os[i] < os[i + 1]
  }

  lemma {:induction false} GappedAscending(os: seq<nat>)
    requires Gapped(os)
    ensures Ascending(os)
  {
    if |os| > 1 {
      GappedAscending(os[1..]);
      forall i | 0 <= i < |os| - 1
        ensures os[i] < os[i + 1]
      {
        if i > 0 {
          assert os[i] == os[1..][i - 1] && os[i + 1] == os[1..][i];
        }
      }
    }
  }

  lemma ShapeAscending(os: seq<nat>)
    requires Shape(os)
    ensures Ascending(os)
  {
    GappedAscending(os[1..]);
    forall i | 0 <= i < |os| - 1
      ensures os[i] < os[i + 1]
    {
      if i > 0 {
        assert os[i] == os[1..][i - 1] && os[i + 1] == os[1..][i];
      }
    }
  }

  /** Every tree of the forest is at most as large as the forest; with two trees, it is smaller. */
  lemma {:induction false} TreeSize(r: int, os: seq<nat>, i: nat)
    requires Tiles(r, os) && i < |os|
    ensures L(os[i]) <= r + 1 && (|os| > 1 ==> L(os[i]) <= r)
  {
    TilesBelow(r - L(os[0]), os[1..]);
    if i > 0 {
      TreeSize(r - L(os[0]), os[1..], i - 1);
    } else if |os| > 1 {
      assert 0 <= NextRoot(r, os);
    }
  }

  lemma OrdersAtMost(r: int, os: seq<nat>, i: nat)
    requires Tiles(r, os) && i < |os| && r < L(MAX_ORDER)
    ensures os[i] <= MAX_ORDER && (|os| > 1 ==> os[i] < MAX_ORDER)
  {
    hide L;
    TreeSize(r, os, i);
    OrderAtMost(os[i], MAX_ORDER);
    assert |os| > 1 ==> os[i] != MAX_ORDER;
  }

  /** In an array of at most L(65) elements no two neighbouring trees are a word apart. */
  lemma OrdersClose(r: int, os: seq<nat>)
    requires Tiles(r, os) && r < L(MAX_ORDER) && Ascending(os)
    requires |os| > 1 && os[0] == 0 ==> os[1] == 1
    ensures Close(os)
  {
    hide L, Tiles;
    forall i | 0 <= i < |os| - 1
      ensures os[i] < os[i + 1] < os[i] + 64
    {
      OrdersAtMost(r, os, i + 1);
      if i > 0 {
        assert os[i - 1] < os[i];
      }
    }
  }

  /** Ascending orders: there are at most as many trees as the last order allows. */
  lemma {:induction false} AscendingLength(os: seq<nat>)
    requires Ascending(os) && os != []
    ensures os[|os| - 1] >= |os| - 1
  {
    if |os| > 1 {
      assert Ascending(os[..|os| - 1]);
      AscendingLength(os[..|os| - 1]);
    }
  }

  lemma TreesAtMost(r: int, os: seq<nat>)
    requires Tiles(r, os) && r < L(MAX_ORDER) && Ascending(os) && os != []
    ensures |os| <= MAX_ORDER + 1
  {
    hide L, Tiles;
    AscendingLength(os);
    OrdersAtMost(r, os, |os| - 1);
  }

  // ---------- the steps of the first loop ----------

  /** Two adjacent trees merge: shift right by two and set the lowest bit. */
  lemma EncodesMerged(p0: Word, p1: Word, k: nat, os: seq<nat>, q0: Word, q1: Word)
    requires Encodes(p0, p1, k, os) && Merges(os) && Shape(os)
    requires Pair(q0, q1) == Down(Pair(p0, p1), 2)
    ensures Or(q0, 1) < WORD && Encodes(Or(q0, 1), q1, k + 2, Grown(os))
  {
    hide Shape, Pair, Or, And, Orders, Down;
    var v := Pair(p0, p1);
    OddPair(p0, p1);
    QuadPair(p0, p1);
    EncodesFirst(p0, p1, k, os);
    EncodesMerges(p0, p1, k, os);
    AndLowBits(p0);
    MergedOrders(v, k);
    MergedGap(os);
    OddPair(q0, q1);
    OrOne(q0);
    EvenWord(q0);
    PairPlusOne(q0, q1);
    OddPair(q0 + 1, q1);
    SetLowestBit(v / 4, k + 2);
  }

  lemma EvenWord(q: Word)
    requires q % 2 == 0
    ensures q + 1 < WORD
  {
  }

  lemma MergedOrders(v: nat, k: nat)
    requires v % 4 == 3
    ensures Down(v, 2) == v / 4 && Orders(v, k) == [k, k + 1] + Orders(v / 4, k + 2)
    ensures (|Orders(v, k)| > 2 ==> Orders(v, k)[2] != k + 2) ==> (v / 4) % 2 == 0
  {
    var h := v / 2;
    SecondBit(v);
    assert Orders(v, k) == [k] + Orders(h, k + 1);
    if (v / 4) % 2 == 1 {
      assert Orders(v / 4, k + 2)[0] == k + 2;
    }
    assert Down(v, 2) == Down(h, 1) == h / 2;
  }

  lemma MergedGap(os: seq<nat>)
    requires Shape(os) && Merges(os)
    ensures |os| > 2 ==> os[2] >= os[0] + 3
  {
    if |os| > 2 {
      assert os[1..][1] == os[2];
    }
  }

  lemma SetLowestBit(v: nat, k: nat)
    requires v % 2 == 0
    ensures Orders(v + 1, k) == [k] + Orders(v, k)
  {
    assert (v + 1) / 2 == v / 2;
  }

  /** A new tree of order k - n: shift left by n and set the lowest bit. */
  lemma EncodesAppended(p0: Word, p1: Word, k: nat, os: seq<nat>, n: nat, q0: Word, q1: Word)
    requires Encodes(p0, p1, k, os) && 1 <= n <= k
    requires forall i :: 0 <= i < |os| ==> os[i] <= MAX_ORDER
    requires Pair(q0, q1) == Up(Pair(p0, p1), n) % PAIR
    ensures Or(q0, 1) < WORD && Encodes(Or(q0, 1), q1, k - n, [k - n] + os)
    ensures Pair(q0, q1) == Up(Pair(p0, p1), n)
  {
    hide Pair, Or, Orders, Up;
    var v := Pair(p0, p1);
    EncodesFirst(p0, p1, k, os);
    NoOverflow(v, k, n);
    UpEven(v, n);
    OddPair(q0, q1);
    OrOne(q0);
    EvenWord(q0);
    PairPlusOne(q0, q1);
    OddPair(q0 + 1, q1);
    SetLowestBit(Up(v, n), k - n);
    OrdersShifted(v, n, k - n);
  }

  lemma EncodesUp(p0: Word, p1: Word, k: nat, os: seq<nat>, n: nat, q0: Word, q1: Word)
    requires Encodes(p0, p1, k, os) && 1 <= n <= k
    requires forall i :: 0 <= i < |os| ==> os[i] <= MAX_ORDER
    requires Pair(q0, q1) == Up(Pair(p0, p1), n) % PAIR
    ensures Odd(p0) && Pair(q0, q1) == Up(Pair(p0, p1), n)
  {
    hide Pair, Orders, Up;
    EncodesFirst(p0, p1, k, os);
    NoOverflow(Pair(p0, p1), k, n);
  }

  lemma UpEven(v: nat, n: nat)
    requires 1 <= n
    ensures Up(v, n) % 2 == 0
  {
  }

  lemma PairPlusOne(q0: Word, q1: Word)
    requires q0 + 1 < WORD
    ensures Pair(q0 + 1, q1) == Pair(q0, q1) + 1
  {
  }

  lemma NoOverflow(v: nat, k: nat, n: nat)
    requires n <= k <= MAX_ORDER
    requires forall i :: 0 <= i < |Orders(v, k)| ==> Orders(v, k)[i] <= MAX_ORDER
    ensures Up(v, n) % PAIR == Up(v, n)
  {
    hide Orders, Up, Pow2;
    var m := MAX_ORDER + 1 - k;
    OrdersBound(v, k, m);
    UpBelow(v, m, n);
    PowMonotone(m + n, 128);
    PairPow();
  }

  lemma PairPow()
    ensures Pow2(128) == PAIR
  {
    hide Up, Pow2;
    PowIsUp(128);
    UpUp(1, 64, 64);
    WordUp(1);
    WordUp(WORD);
  }

  // ---------- the steps of the second loop ----------

  /** The root of a tree of order k >= 2 is given up: its left child is the first tree. */
  lemma EncodesLeft(p0: Word, p1: Word, k: nat, os: seq<nat>, x0: Word, x1: Word, r0: Word, r1: Word)
    requires os != [] && Encodes(p0, p1, k, os) && 2 <= k
    requires Pair(x0, x1) == 4 * Pair(p0, p1) - 1 && Pair(r0, r1) == Down(Pair(x0, x1), 1)
    ensures Encodes(r0, r1, k - 1, [k - 1] + os[1..])
  {
    hide Pair, Orders, Down, Odd;
    Halved(Pair(x0, x1));
    OddPair(p0, p1);
    FourTimesOdd(Pair(p0, p1));
    OddPair(r0, r1);
    EncodesFirst(p0, p1, k, os);
    LeftOrders(Pair(p0, p1), k);
  }

  /** Flipping the three low bits after a shift by two. */
  lemma LeftValue(p0: Word, p1: Word, q0: Word, q1: Word)
    requires Odd(p0) && Pair(q0, q1) == Up(Pair(p0, p1), 2)
    ensures Xor(q0, 7) < WORD && Pair(Xor(q0, 7), q1) == 4 * Pair(p0, p1) - 1
  {
    hide Pair, Xor, Up, Odd;
    OddPair(p0, p1);
    OctPair(q0, q1);
    UpTwice(Pair(p0, p1));
    FourTimesOdd(Pair(p0, p1));
    XorSeven(q0);
    PairPlusOne(q0 - 1, q1);
  }

  lemma UpTwice(v: nat)
    ensures Up(v, 2) == 4 * v
  {
    assert Up(v, 1) == 2 * v;
  }

  lemma Halved(v: nat)
    ensures Down(v, 1) == v / 2
  {
    assert Down(v / 2, 0) == v / 2;
  }

  lemma LeftOrders(v: nat, k: nat)
    requires Odd(v) && 1 <= k
    ensures Orders(2 * v - 1, k - 1) == [k - 1] + Orders(v, k)[1..]
  {
    assert (2 * v - 1) / 2 == v - 1;
    if v > 1 {
      assert (v - 1) / 2 == v / 2;
      assert Orders(v - 1, k) == Orders(v / 2, k + 1);
    }
    assert Orders(v, k)[1..] == Orders(v / 2, k + 1);
  }
}
