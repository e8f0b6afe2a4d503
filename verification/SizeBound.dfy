/** How far the bit vector reaches: the exact number of elements up to which every shift of the
    first loop stays below the word size. */
module SizeBound {
  import opened Leonardo
  import opened LeonardoHeap
  import opened ForestPhases
  import opened ForestEncoding

  /** The shape after one more element; the first element is a tree of order 1. */
  function Next(os: seq<nat>): (os': seq<nat>)
    ensures os' != []
  {
    if os == [] then [1] else Grown(os)
  }

  function After(os: seq<nat>, n: nat): seq<nat> {
    if n == 0 then os else Next(After(os, n - 1))
  }

  /** The first loop would shift the pair left by a whole word. */
  predicate ShiftsByWord(os: seq<nat>) {
    os != [] && !Merges(os) && os[0] == 64 + 1
  }

  lemma {:induction false} AfterAdd(os: seq<nat>, m: nat, n: nat)
    ensures After(os, m + n) == After(After(os, m), n)
  {
    if n > 0 {
      AfterAdd(os, m, n - 1);
    }
  }

  /** Left of a growing tree of order k there may stand trees that it does not merge with before. */
  predicate Beside(k: nat, rest: seq<nat>) {
    if rest == [] then k >= 1 else !Merges(rest) && rest[0] >= k + 1 && (k == 0 ==> rest[0] == 1)
  }

  /** L(k) further elements are exactly one tree of order k. */
  lemma {:induction false} OneTree(k: nat, rest: seq<nat>)
    requires Beside(k, rest)
    ensures After(rest, L(k)) == [k] + rest
  {
    hide After, L;
    Numbers(k);
    AfterNext(rest, 0);
    if k >= 2 {
      var left := [k - 1] + rest;
      var both := [k - 2] + left;
      OneTree(k - 1, rest);
      OneTree(k - 2, left);
      AfterAdd(rest, L(k - 1), L(k - 2));
      AfterNext(rest, L(k - 1) + L(k - 2));
      assert both[2..] == rest;
      assert Next(both) == [k] + rest;
    }
  }

  lemma AfterNext(os: seq<nat>, n: nat)
    ensures After(os, n + 1) == Next(After(os, n)) && After(os, 0) == os
  {
  }

  lemma Numbers(k: nat)
    ensures L(k) == if k < 2 then 1 else L(k - 1) + L(k - 2) + 1
  {
  }

  lemma {:induction false} AfterTiles(n: nat)
    requires 1 <= n
    ensures var os := After([], n);
            Shape(os) && Tiles(n - 1, os)
  {
    if n == 1 {
      assert After([], 1) == Next(After([], 0)) == [1];
      assert [1][1..] == [] && L(1) == 1;
    } else {
      AfterTiles(n - 1);
      GrownTiles(n - 2, After([], n - 1));
    }
  }

  /** The encoded shape of the array after n elements is that of the sorting code. */
  lemma AfterIsGrown(n: nat)
    requires 1 <= n
    ensures After([], 1) == [1] && After([], n + 1) == Grown(After([], n))
  {
    AfterTiles(n);
    assert After([], 1) == Next(After([], 0));
  }

  /** Sorting nel elements shifts by a whole word if and only if there are more than L(65) of them. */
  lemma SizeBoundExact(nel: nat)
    ensures (exists n: nat :: 1 <= n < nel && ShiftsByWord(After([], n))) <==> nel > L(MAX_ORDER)
  {
    hide L, Tiles, After, Shape;
    if n: nat :| 1 <= n < nel && ShiftsByWord(After([], n)) {
      AfterTiles(n);
      TreeSize(n - 1, After([], n), 0);
    }
    if nel > L(MAX_ORDER) {
      OneTree(MAX_ORDER, []);
      var n := L(MAX_ORDER);
      assert After([], n) == [MAX_ORDER] + [];
      assert ShiftsByWord(After([], n));
    }
  }
}
