/** The two phases of smoothsort on the element level: growing a forest, and taking it apart. */
module ForestPhases {
  import opened Leonardo
  import opened LeonardoHeap

  // ---------- the shape ----------

  ghost predicate Gapped(os: seq<nat>) {
    |os| <= 1 || (os[0] + 2 <= os[1] && Gapped(os[1..]))
  }

  /** Orders grow strictly from right to left, only the two rightmost trees may have adjacent
      orders, and a tree of order 0 stands only right of one of order 1. */
  ghost predicate Shape(os: seq<nat>) {
    && os != [] && Gapped(os[1..])
    && (|os| > 1 ==> os[0] < os[1])
    && (os[0] == 0 ==> |os| > 1 && os[1] == 1)
  }

  predicate Merges(os: seq<nat>) {
    |os| > 1 && os[1] == os[0] + 1
  }

  // ---------- growing ----------

  /** The tree of order k at r is too far left to become part of a larger tree before last. */
  predicate Final(r: int, k: nat, last: int) {
    k >= 1 && r + L(k - 1) >= last
  }

  /** Final trees have their roots in ascending order. */
  ghost predicate FinalAscend<T>(s: seq<T>, r: int, os: seq<nat>, last: int, cmp: (T, T) -> int)
    requires Tiles(r, os) && r < |s|
  {
    |os| <= 1 ||
    ((Final(r, os[0], last) ==> Le(cmp, s[NextRoot(r, os)], s[r])) &&
     FinalAscend(s, NextRoot(r, os), os[1..], last, cmp))
  }

  /** While the forest grows, the element at h is part of it but not yet in its place. */
  ghost predicate Growing<T>(s: seq<T>, h: int, os: seq<nat>, last: int, cmp: (T, T) -> int) {
    && Shape(os) && 0 <= h < |s| && Tiles(h, os)
    && ChildrenHeaps(s, h, os[0], cmp)
    && Heaps(s, h - L(os[0]), os[1..], cmp)
    && FinalAscend(s, h - L(os[0]), os[1..], last, cmp)
  }

  /** The orders after one more element: two adjacent trees merge, or the element is a new tree. */
  function Grown(os: seq<nat>): seq<nat>
    requires os != []
  {
    if Merges(os) then [os[0] + 2] + os[2..]
    else if os[0] == 1 then [0] + os
    else [1] + os
  }

  /** How the current element is put in place before the next one is taken in. */
  function GrowStep<T>(s: seq<T>, h: int, os: seq<nat>, last: int, cmp: (T, T) -> int): (s': seq<T>)
    requires os != [] && Tiles(h, os) && h < |s|
    ensures |s'| == |s|
  {
    if !Merges(os) && os[0] >= 1 && L(os[0] - 1) >= last - h then Trinkle(s, h, os, s[h], false, cmp)
    else Sift(s, h, os[0], s[h], cmp)
  }

  lemma {:induction false} FinalFrame<T>(s: seq<T>, s': seq<T>, r: int, os: seq<nat>, last: int, cmp: (T, T) -> int)
    requires Tiles(r, os) && r < |s| && Agree(s, s', 0, r)
    requires FinalAscend(s, r, os, last, cmp)
    ensures FinalAscend(s', r, os, last, cmp)
  {
    if |os| > 1 {
      FinalFrame(s, s', NextRoot(r, os), os[1..], last, cmp);
    }
  }

  lemma {:induction false} RootsAscendFinal<T>(s: seq<T>, r: int, os: seq<nat>, last: int, cmp: (T, T) -> int)
    requires Tiles(r, os) && r < |s| && RootsAscend(s, r, os, cmp)
    ensures FinalAscend(s, r, os, last, cmp)
  {
    if |os| > 1 {
      RootsAscendFinal(s, NextRoot(r, os), os[1..], last, cmp);
    }
  }

  /** With gaps between the orders, every tree left of a final one is final, too. */
  lemma {:induction false} FinalSpreads<T>(s: seq<T>, r: int, os: seq<nat>, last: int, cmp: (T, T) -> int)
    requires Tiles(r, os) && r < |s| && Gapped(os) && FinalAscend(s, r, os, last, cmp)
    requires os != [] ==> Final(r, os[0], last)
    ensures RootsAscend(s, r, os, cmp)
    decreases |os|
  {
    if |os| > 1 {
      var k := os[0];
      assert L(k + 1) == L(k) + L(k - 1) + 1;
      Monotone(k + 1, os[1] - 1);
      FinalSpreads(s, NextRoot(r, os), os[1..], last, cmp);
    }
  }

  /** The forest right of h - L(os[0]) is ascending once the tree at h cannot grow any more. */
  lemma SettledForest<T>(s: seq<T>, h: int, os: seq<nat>, last: int, cmp: (T, T) -> int)
    requires Growing(s, h, os, last, cmp)
    requires h == last || (!Merges(os) && Final(h, os[0], last))
    ensures Forest(s, h - L(os[0]), os[1..], cmp)
  {
    if |os| > 1 {
      var r1 := NextRoot(h, os);
      var k := os[0];
      if h == last {
        Monotone(k, os[1] - 1);
      } else {
        assert L(k + 1) == L(k) + L(k - 1) + 1;
        Monotone(k + 1, os[1] - 1);
      }
      assert Final(r1, os[1], last);
    }
    FinalSpreads(s, h - L(os[0]), os[1..], last, cmp);
  }

  lemma SiftInPlace<T>(s: seq<T>, r: int, k: nat, cmp: (T, T) -> int)
    requires Fits(|s|, r, k)
    ensures multiset(Sift(s, r, k, s[r], cmp)) == multiset(s)
  {
    SiftKeepsElements(s, r, k, s[r], cmp);
    SameElements(multiset(Sift(s, r, k, s[r], cmp)), multiset(s), s[r]);
  }

  lemma TrinkleInPlace<T>(s: seq<T>, r: int, os: seq<nat>, trusty: bool, cmp: (T, T) -> int)
    requires os != [] && Tiles(r, os) && r < |s|
    ensures multiset(Trinkle(s, r, os, s[r], trusty, cmp)) == multiset(s)
  {
    TrinkleKeepsElements(s, r, os, s[r], trusty, cmp);
    SameElements(multiset(Trinkle(s, r, os, s[r], trusty, cmp)), multiset(s), s[r]);
  }

  lemma SameElements<T>(a: multiset<T>, b: multiset<T>, x: T)
    requires a + multiset{x} == b + multiset{x}
    ensures a == b
  {
    assert a == (a + multiset{x}) - multiset{x};
    assert b == (b + multiset{x}) - multiset{x};
  }

  lemma GrowStepElements<T>(s: seq<T>, h: int, os: seq<nat>, last: int, cmp: (T, T) -> int)
    requires os != [] && Tiles(h, os) && h < |s|
    ensures multiset(GrowStep(s, h, os, last, cmp)) == multiset(s)
  {
    TrinkleInPlace(s, h, os, false, cmp);
    SiftInPlace(s, h, os[0], cmp);
  }

  /** With the tree at h a heap, the next element is taken in. */
  lemma TakeIn<T>(s: seq<T>, h: int, os: seq<nat>, last: int, cmp: (T, T) -> int)
    requires Shape(os) && 0 <= h && h + 1 < |s| && Tiles(h, os) && Heaps(s, h, os, cmp)
    requires FinalAscend(s, h - L(os[0]), os[1..], last, cmp)
    requires Merges(os) || FinalAscend(s, h, os, last, cmp)
    ensures Growing(s, h + 1, Grown(os), last, cmp)
  {
    hide Heap, ChildrenHeaps, Heaps, FinalAscend, Gapped;
    GrownTiles(h, os);
    if Merges(os) {
      MergeTrees(s, h, os, last, cmp);
    } else {
      assert Grown(os)[1..] == os;
      SingletonHeaps(s, h + 1, Grown(os)[0], cmp);
    }
  }

  lemma SingletonHeaps<T>(s: seq<T>, r: int, k: nat, cmp: (T, T) -> int)
    requires k < 2 && Fits(|s|, r, k)
    ensures ChildrenHeaps(s, r, k, cmp)
  {
  }

  lemma MergeTrees<T>(s: seq<T>, h: int, os: seq<nat>, last: int, cmp: (T, T) -> int)
    requires Shape(os) && 0 <= h && h + 1 < |s| && Tiles(h, os) && Heaps(s, h, os, cmp)
    requires FinalAscend(s, h - L(os[0]), os[1..], last, cmp) && Merges(os)
    ensures Growing(s, h + 1, Grown(os), last, cmp)
  {
    hide Heap;
    GrownTiles(h, os);
    var k, r1, r2 := os[0], h - L(os[0]), h - L(os[0]) - L(os[1]);
    assert os[2..] == os[1..][1..] == Grown(os)[1..];
    assert Heap(s, r1, os[1], cmp) && Heaps(s, r2, os[1..][1..], cmp);
    assert FinalAscend(s, r2, os[1..][1..], last, cmp);
    assert Left(h + 1, k + 2) == r1 && Right(h + 1) == h;
    assert ChildrenHeaps(s, h + 1, k + 2, cmp);
  }

  lemma TrinkleGrows<T(!new)>(s: seq<T>, h: int, os: seq<nat>, last: int, cmp: (T, T) -> int)
    requires TotalPreorder(cmp) && Growing(s, h, os, last, cmp) && h < last < |s|
    requires !Merges(os) && Final(h, os[0], last)
    ensures var s' := Trinkle(s, h, os, s[h], false, cmp);
            Growing(s', h + 1, Grown(os), last, cmp)
  {
    hide TotalPreorder, Sift, Trinkle, Le, Heap, ChildrenHeaps;
    var s' := Trinkle(s, h, os, s[h], false, cmp);
    SettledForest(s, h, os, last, cmp);
    TrinkleRestores(s, h, os, s[h], false, cmp);
    RootsAscendFinal(s', h, os, last, cmp);
    if |os| == 1 {
      assert os[1..] == [];
    }
    TakeIn(s', h, os, last, cmp);
  }

  lemma SiftGrows<T(!new)>(s: seq<T>, h: int, os: seq<nat>, last: int, cmp: (T, T) -> int)
    requires TotalPreorder(cmp) && Growing(s, h, os, last, cmp) && h < last < |s|
    requires Merges(os) || !Final(h, os[0], last)
    ensures var s' := Sift(s, h, os[0], s[h], cmp);
            Growing(s', h + 1, Grown(os), last, cmp)
  {
    hide TotalPreorder, Sift, Trinkle, Le, Heap, ChildrenHeaps, L, Gapped, RootsAscend;
    var k, r1 := os[0], h - L(os[0]);
    var s' := Sift(s, h, k, s[h], cmp);
    SiftRestores(s, h, k, s[h], cmp);
    HeapsFrame(s, s', r1, os[1..], cmp);
    FinalFrame(s, s', r1, os[1..], last, cmp);
    assert Heaps(s', h, os, cmp);
    TakeIn(s', h, os, last, cmp);
  }

  /** One step of the first loop. */
  lemma GrowKeeps<T(!new)>(s: seq<T>, h: int, os: seq<nat>, last: int, cmp: (T, T) -> int)
    requires TotalPreorder(cmp) && Growing(s, h, os, last, cmp) && h < last < |s|
    ensures var s' := GrowStep(s, h, os, last, cmp);
            Growing(s', h + 1, Grown(os), last, cmp)
  {
    hide TotalPreorder, Sift, Trinkle, Heap, ChildrenHeaps, Heaps;
    if !Merges(os) && Final(h, os[0], last) {
      TrinkleGrows(s, h, os, last, cmp);
    } else {
      SiftGrows(s, h, os, last, cmp);
    }
  }

  lemma GrownTiles(h: int, os: seq<nat>)
    requires Shape(os) && 0 <= h && Tiles(h, os)
    ensures Shape(Grown(os)) && Tiles(h + 1, Grown(os))
  {
    if Merges(os) {
      assert os[2..] == os[1..][1..] == Grown(os)[1..];
      assert Tiles(h - L(os[0]), os[1..]);
      assert L(os[0] + 2) == L(os[0] + 1) + L(os[0]) + 1;
    } else {
      assert Grown(os)[1..] == os;
    }
  }

  /** The last element is trinkled, whatever its tree. */
  lemma GrowEnds<T(!new)>(s: seq<T>, h: int, os: seq<nat>, cmp: (T, T) -> int)
    requires TotalPreorder(cmp) && Growing(s, h, os, h, cmp)
    ensures var s' := Trinkle(s, h, os, s[h], false, cmp);
            Forest(s', h, os, cmp)
  {
    SettledForest(s, h, os, h, cmp);
    TrinkleRestores(s, h, os, s[h], false, cmp);
  }

  // ---------- taking apart ----------

  /** The elements right of h are in their final places: sorted, and at least all left of them. */
  ghost predicate Placed<T>(s: seq<T>, h: int, cmp: (T, T) -> int) {
    forall i, j :: 0 <= i < j < |s| && h < j ==> Le(cmp, s[i], s[j])
  }

  ghost predicate Shrinking<T>(s: seq<T>, h: int, os: seq<nat>, cmp: (T, T) -> int) {
    Shape(os) && 0 <= h < |s| && Tiles(h, os) && Forest(s, h, os, cmp) && Placed(s, h, cmp)
  }

  /** The orders after the root of the rightmost tree has been given up. */
  function Shrunk(os: seq<nat>): seq<nat>
    requires os != []
  {
    if os[0] <= 1 then os[1..] else [os[0] - 2, os[0] - 1] + os[1..]
  }

  /** Its two children, if any, become trees of the forest, the left one first. */
  function ShrinkLeft<T>(s: seq<T>, h: int, os: seq<nat>, cmp: (T, T) -> int): (s': seq<T>)
    requires Shape(os) && Tiles(h, os) && h < |s| && 2 <= os[0]
    ensures |s'| == |s|
  {
    LeftTiles(h, os);
    var lf := Left(h, os[0]);
    Trinkle(s, lf, [os[0] - 1] + os[1..], s[lf], true, cmp)
  }

  function ShrinkRight<T>(s: seq<T>, h: int, os: seq<nat>, cmp: (T, T) -> int): (s': seq<T>)
    requires Shape(os) && Tiles(h, os) && h < |s| && 2 <= os[0]
    ensures |s'| == |s|
  {
    RightTiles(h, os);
    Trinkle(s, h - 1, Shrunk(os), s[h - 1], true, cmp)
  }

  lemma LeftTiles(h: int, os: seq<nat>)
    requires Shape(os) && Tiles(h, os) && 2 <= os[0]
    ensures Tiles(Left(h, os[0]), [os[0] - 1] + os[1..]) && 0 <= Left(h, os[0])
  {
    assert ([os[0] - 1] + os[1..])[1..] == os[1..];
    TilesBelow(h - L(os[0]), os[1..]);
  }

  lemma {:induction false} TilesBelow(r: int, os: seq<nat>)
    requires Tiles(r, os)
    ensures -1 <= r
  {
    if os != [] {
      TilesBelow(r - L(os[0]), os[1..]);
    }
  }

  lemma RightTiles(h: int, os: seq<nat>)
    requires Shape(os) && Tiles(h, os) && 2 <= os[0]
    ensures Tiles(h - 1, Shrunk(os)) && Shape(Shrunk(os))
  {
    LeftTiles(h, os);
    var left := [os[0] - 1] + os[1..];
    assert Shrunk(os)[1..] == left && left[1..] == os[1..];
    assert Gapped(left);
  }

  /** The whole step of the second loop. */
  function ShrinkStep<T>(s: seq<T>, h: int, os: seq<nat>, cmp: (T, T) -> int): (s': seq<T>)
    requires Shape(os) && Tiles(h, os) && h < |s|
    ensures |s'| == |s|
  {
    if os[0] <= 1 then s else ShrinkRight(ShrinkLeft(s, h, os, cmp), h, os, cmp)
  }

  /** Rearranging the elements up to h leaves the placed ones placed. */
  lemma PlacedKept<T>(s: seq<T>, s': seq<T>, h: int, cmp: (T, T) -> int)
    requires -1 <= h < |s| && Placed(s, h, cmp) && Agree(s, s', h + 1, |s|)
    requires multiset(s') == multiset(s)
    ensures Placed(s', h, cmp)
  {
    SamePrefix(s, s', h);
    forall i, j | 0 <= i < j < |s| && h < j
      ensures Le(cmp, s'[i], s'[j])
    {
      if i <= h {
        assert s'[i] in s[..h + 1];
        var i' :| 0 <= i' <= h && s[i'] == s'[i];
      }
    }
  }

  lemma SamePrefix<T>(s: seq<T>, s': seq<T>, h: int)
    requires -1 <= h < |s| && Agree(s, s', h + 1, |s|) && multiset(s') == multiset(s)
    ensures forall i :: 0 <= i <= h ==> s'[i] in s[..h + 1]
  {
    var a, b, rest := s'[..h + 1], s[..h + 1], s[h + 1..];
    assert s == b + rest;
    assert s' == a + rest;
    PrefixElements(a, b, rest);
    assert forall i :: 0 <= i <= h ==> s'[i] == a[i];
  }

  lemma PrefixElements<T>(a: seq<T>, b: seq<T>, rest: seq<T>)
    requires multiset(a + rest) == multiset(b + rest)
    ensures forall i :: 0 <= i < |a| ==> a[i] in b
  {
    assert multiset(a) == multiset(a + rest) - multiset(rest);
    assert multiset(b) == multiset(b + rest) - multiset(rest);
    forall i | 0 <= i < |a|
      ensures a[i] in b
    {
      assert a[i] in multiset(a);
    }
  }

  /** Giving up the root: it is the greatest of the forest, so it is placed. */
  lemma RootPlaced<T(!new)>(s: seq<T>, h: int, os: seq<nat>, cmp: (T, T) -> int)
    requires TotalPreorder(cmp) && Shrinking(s, h, os, cmp)
    ensures Placed(s, h - 1, cmp)
  {
    forall i, j | 0 <= i < j < |s| && h - 1 < j
      ensures Le(cmp, s[i], s[j])
    {
      if j == h {
        ForestGreatest(s, h, os, cmp, i);
      }
    }
  }

  lemma HeapChildren<T>(s: seq<T>, r: int, k: nat, cmp: (T, T) -> int)
    requires Fits(|s|, r, k) && 2 <= k && Heap(s, r, k, cmp)
    ensures Heap(s, Right(r), k - 2, cmp) && Heap(s, Left(r, k), k - 1, cmp)
  {
  }

  lemma LeftReady<T(!new)>(s: seq<T>, h: int, os: seq<nat>, cmp: (T, T) -> int)
    requires Shape(os) && 0 <= h < |s| && Tiles(h, os) && Forest(s, h, os, cmp) && 2 <= os[0]
    ensures Fits(|s|, h - 1, os[0] - 2) && Heap(s, h - 1, os[0] - 2, cmp)
    ensures Fits(|s|, Left(h, os[0]), os[0] - 1) && Heap(s, Left(h, os[0]), os[0] - 1, cmp)
    ensures Left(h, os[0]) - L(os[0] - 1) == h - L(os[0]) && Forest(s, h - L(os[0]), os[1..], cmp)
  {
    hide Le;
    LeftTiles(h, os);
    assert Heap(s, h, os[0], cmp);
    HeapChildren(s, h, os[0], cmp);
    if |os| == 1 {
      assert os[1..] == [];
    }
  }

  lemma LeftJoins<T(!new)>(s: seq<T>, h: int, os: seq<nat>, cmp: (T, T) -> int)
    requires TotalPreorder(cmp) && Shape(os) && 0 <= h < |s| && Tiles(h, os) && Forest(s, h, os, cmp)
    requires 2 <= os[0]
    ensures Tiles(Left(h, os[0]), [os[0] - 1] + os[1..]) && Fits(|s|, h - 1, os[0] - 2)
    ensures var s' := ShrinkLeft(s, h, os, cmp);
            && Forest(s', Left(h, os[0]), [os[0] - 1] + os[1..], cmp) && Heap(s', h - 1, os[0] - 2, cmp)
            && Agree(s, s', Left(h, os[0]) + 1, |s|)
  {
    hide TotalPreorder, Sift, Trinkle, Le, Heap, Forest;
    LeftTiles(h, os);
    LeftReady(s, h, os, cmp);
    var k, lf, left := os[0], Left(h, os[0]), [os[0] - 1] + os[1..];
    assert left[1..] == os[1..];
    var s' := ShrinkLeft(s, h, os, cmp);
    TrinkleRestores(s, lf, left, s[lf], true, cmp);
    HeapFrame(s, s', Right(h), k - 2, cmp);
  }

  lemma RightJoins<T(!new)>(s: seq<T>, h: int, os: seq<nat>, cmp: (T, T) -> int)
    requires TotalPreorder(cmp) && Shape(os) && 0 <= h < |s| && Tiles(h, os) && 2 <= os[0]
    requires Tiles(Left(h, os[0]), [os[0] - 1] + os[1..]) && Fits(|s|, h - 1, os[0] - 2)
    requires Forest(s, Left(h, os[0]), [os[0] - 1] + os[1..], cmp) && Heap(s, h - 1, os[0] - 2, cmp)
    ensures Tiles(h - 1, Shrunk(os)) && Shape(Shrunk(os))
    ensures var s' := ShrinkRight(s, h, os, cmp);
            Forest(s', h - 1, Shrunk(os), cmp) && Agree(s, s', h, |s|)
  {
    hide TotalPreorder, Sift, Trinkle, Le, Heap, Forest, L, Tiles, Gapped;
    RightTiles(h, os);
    assert Shrunk(os)[1..] == [os[0] - 1] + os[1..];
    var s' := ShrinkRight(s, h, os, cmp);
    TrinkleRestores(s, h - 1, Shrunk(os), s[h - 1], true, cmp);
  }

  /** Both children of the given-up root join the forest. */
  lemma ChildrenJoin<T(!new)>(s: seq<T>, h: int, os: seq<nat>, cmp: (T, T) -> int)
    requires TotalPreorder(cmp) && Shape(os) && 0 <= h < |s| && Tiles(h, os) && Forest(s, h, os, cmp)
    requires 2 <= os[0]
    ensures Tiles(h - 1, Shrunk(os)) && Shape(Shrunk(os))
    ensures var s' := ShrinkStep(s, h, os, cmp);
            Forest(s', h - 1, Shrunk(os), cmp) && Agree(s, s', h, |s|)
  {
    hide TotalPreorder, Forest, Shape, Tiles, ShrinkLeft, ShrinkRight, Heap;
    LeftJoins(s, h, os, cmp);
    RightJoins(ShrinkLeft(s, h, os, cmp), h, os, cmp);
  }

  lemma ShrinkStepElements<T>(s: seq<T>, h: int, os: seq<nat>, cmp: (T, T) -> int)
    requires Shape(os) && Tiles(h, os) && h < |s|
    ensures multiset(ShrinkStep(s, h, os, cmp)) == multiset(s)
  {
    hide Trinkle;
    if os[0] >= 2 {
      LeftTiles(h, os);
      RightTiles(h, os);
      TrinkleInPlace(s, Left(h, os[0]), [os[0] - 1] + os[1..], true, cmp);
      TrinkleInPlace(ShrinkLeft(s, h, os, cmp), h - 1, Shrunk(os), true, cmp);
    }
  }

  /** One step of the second loop. */
  lemma ShrinkKeeps<T(!new)>(s: seq<T>, h: int, os: seq<nat>, cmp: (T, T) -> int)
    requires TotalPreorder(cmp) && Shrinking(s, h, os, cmp) && os != [1]
    ensures var s' := ShrinkStep(s, h, os, cmp);
            1 <= h && Shrinking(s', h - 1, Shrunk(os), cmp)
  {
    hide TotalPreorder, Le;
    RootPlaced(s, h, os, cmp);
    if os[0] >= 2 {
      ChildrenJoin(s, h, os, cmp);
      ShrinkStepElements(s, h, os, cmp);
      PlacedKept(s, ShrinkStep(s, h, os, cmp), h - 1, cmp);
    } else {
      assert |os| > 1;
      assert 0 <= NextRoot(h, os);
    }
  }

  ghost predicate Sorted<T>(s: seq<T>, cmp: (T, T) -> int) {
    forall i, j :: 0 <= i < j < |s| ==> Le(cmp, s[i], s[j])
  }

  // ---------- begin and end of the phases ----------

  lemma GrowBegins<T>(s: seq<T>, last: int, cmp: (T, T) -> int)
    requires s != []
    ensures Growing(s, 0, [1], last, cmp)
  {
    assert [1][1..] == [];
    assert L(1) == 1;
  }

  lemma GrowingFacts<T>(s: seq<T>, h: int, os: seq<nat>, last: int, cmp: (T, T) -> int)
    requires Growing(s, h, os, last, cmp)
    ensures Shape(os) && 0 <= h < |s| && Tiles(h, os)
  {
  }

  lemma ShrinkingFacts<T>(s: seq<T>, h: int, os: seq<nat>, cmp: (T, T) -> int)
    requires Shrinking(s, h, os, cmp)
    ensures Shape(os) && 0 <= h < |s| && Tiles(h, os)
  {
  }

  /** Between the phases the last element is trinkled, whatever its tree. */
  lemma ShrinkBegins<T(!new)>(s: seq<T>, h: int, os: seq<nat>, cmp: (T, T) -> int)
    requires TotalPreorder(cmp) && Growing(s, h, os, h, cmp) && h == |s| - 1
    ensures os != [] && Tiles(h, os)
    ensures var s' := Trinkle(s, h, os, s[h], false, cmp);
            Shrinking(s', h, os, cmp) && multiset(s') == multiset(s)
  {
    GrowEnds(s, h, os, cmp);
    TrinkleInPlace(s, h, os, false, cmp);
  }

  lemma ShrinkEnds<T>(s: seq<T>, h: int, os: seq<nat>, cmp: (T, T) -> int)
    requires Shrinking(s, h, os, cmp) && os == [1]
    ensures Sorted(s, cmp)
  {
    assert os[1..] == [] && L(1) == 1;
    assert Tiles(h - 1, os[1..]);
  }
}
