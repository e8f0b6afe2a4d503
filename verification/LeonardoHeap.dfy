/** Leonardo heaps and forests on the element level: what smoothsort's moves do to a sequence. */
module LeonardoHeap {
  import opened Leonardo

  // ---------- the order ----------

  /** The contract of a C comparison function: a total preorder, consistently signed. */
  ghost predicate TotalPreorder<T(!new)>(cmp: (T, T) -> int) {
    && (forall a, b :: cmp(a, b) <= 0 <==> cmp(b, a) >= 0)
    && (forall a, b, c :: cmp(a, b) <= 0 && cmp(b, c) <= 0 ==> cmp(a, c) <= 0)
  }

  ghost predicate Le<T>(cmp: (T, T) -> int, a: T, b: T) {
    cmp(a, b) <= 0
  }

  lemma Trans<T(!new)>(cmp: (T, T) -> int, a: T, b: T, c: T)
    requires TotalPreorder(cmp) && Le(cmp, a, b) && Le(cmp, b, c)
    ensures Le(cmp, a, c)
  {
  }

  lemma Refl<T(!new)>(cmp: (T, T) -> int, a: T)
    requires TotalPreorder(cmp)
    ensures Le(cmp, a, a)
  {
  }

  /** What a test `cmp(a, b) >= 0` tells, either way. */
  lemma Tested<T(!new)>(cmp: (T, T) -> int, a: T, b: T)
    requires TotalPreorder(cmp)
    ensures if cmp(a, b) >= 0 then Le(cmp, b, a) else Le(cmp, a, b) && !Le(cmp, b, a)
  {
  }

  // ---------- one heap ----------

  /** A tree of order k has its root last: it occupies the L(k) slots up to r. */
  predicate Fits(n: nat, r: int, k: nat) {
    L(k) - 1 <= r < n
  }

  /** The right child, of order k - 2, and the left child, of order k - 1. */
  function Right(r: int): int {
    r - 1
  }

  function Left(r: int, k: nat): int
    requires 2 <= k
  {
    r - 1 - L(k - 2)
  }

  ghost predicate ChildrenHeaps<T>(s: seq<T>, r: int, k: nat, cmp: (T, T) -> int)
    requires Fits(|s|, r, k)
    decreases k, 0
  {
    k < 2 || (Heap(s, Right(r), k - 2, cmp) && Heap(s, Left(r, k), k - 1, cmp))
  }

  ghost predicate RootDominates<T>(s: seq<T>, r: int, k: nat, cmp: (T, T) -> int)
    requires Fits(|s|, r, k)
  {
    k < 2 || (Le(cmp, s[Right(r)], s[r]) && Le(cmp, s[Left(r, k)], s[r]))
  }

  ghost predicate Heap<T>(s: seq<T>, r: int, k: nat, cmp: (T, T) -> int)
    requires Fits(|s|, r, k)
    decreases k, 1
  {
    RootDominates(s, r, k, cmp) && ChildrenHeaps(s, r, k, cmp)
  }

  /** The two sequences agree on the tree of order k at r. */
  ghost predicate Agree<T>(s: seq<T>, s': seq<T>, lo: int, hi: int) {
    |s| == |s'| && forall q :: 0 <= q < |s| && lo <= q <= hi ==> s'[q] == s[q]
  }

  lemma {:induction false} HeapFrame<T>(s: seq<T>, s': seq<T>, r: int, k: nat, cmp: (T, T) -> int)
    requires Fits(|s|, r, k) && Agree(s, s', r - L(k) + 1, r)
    requires Heap(s, r, k, cmp)
    ensures Heap(s', r, k, cmp)
    decreases k
  {
    if k >= 2 {
      HeapFrame(s, s', Right(r), k - 2, cmp);
      HeapFrame(s, s', Left(r, k), k - 1, cmp);
    }
  }

  lemma ChildrenFrame<T>(s: seq<T>, s': seq<T>, r: int, k: nat, cmp: (T, T) -> int)
    requires Fits(|s|, r, k) && Agree(s, s', r - L(k) + 1, r - 1)
    requires ChildrenHeaps(s, r, k, cmp)
    ensures ChildrenHeaps(s', r, k, cmp)
  {
    if k >= 2 {
      HeapFrame(s, s', Right(r), k - 2, cmp);
      HeapFrame(s, s', Left(r, k), k - 1, cmp);
    }
  }

  /** The root of a heap is its greatest element. */
  lemma {:induction false} RootIsGreatest<T(!new)>(s: seq<T>, r: int, k: nat, cmp: (T, T) -> int, q: int)
    requires TotalPreorder(cmp) && Fits(|s|, r, k) && Heap(s, r, k, cmp)
    requires r - L(k) < q <= r
    ensures Le(cmp, s[q], s[r])
    decreases k
  {
    if q == r {
      Refl(cmp, s[r]);
    } else if q > r - 1 - L(k - 2) {
      RootIsGreatest(s, Right(r), k - 2, cmp, q);
      Trans(cmp, s[q], s[Right(r)], s[r]);
    } else {
      RootIsGreatest(s, Left(r, k), k - 1, cmp, q);
      Trans(cmp, s[q], s[Left(r, k)], s[r]);
    }
  }

  // ---------- sifting ----------

  /** The sequence after the value x, held back from slot r, has sunk into the tree of order k at r. */
  function Sift<T>(s: seq<T>, r: int, k: nat, x: T, cmp: (T, T) -> int): (s': seq<T>)
    requires Fits(|s|, r, k)
    ensures |s'| == |s|
    decreases k
  {
    if k < 2 then s[r := x]
    else
      var rt, lf := Right(r), Left(r, k);
      if cmp(x, s[lf]) >= 0 && cmp(x, s[rt]) >= 0 then s[r := x]
      else if cmp(s[lf], s[rt]) >= 0 then Sift(s[r := s[lf]], lf, k - 1, x, cmp)
      else Sift(s[r := s[rt]], rt, k - 2, x, cmp)
  }

  lemma MoveKeepsElements<T>(s: seq<T>, r: int, v: T)
    requires 0 <= r < |s|
    ensures multiset(s[r := v]) + multiset{s[r]} == multiset(s) + multiset{v}
  {
    assert s == s[..r] + [s[r]] + s[r + 1..];
    assert s[r := v] == s[..r] + [v] + s[r + 1..];
  }

  /** Exchanging q for p and then p for x exchanges q for x. */
  lemma Exchange<T>(a: multiset<T>, b: multiset<T>, c: multiset<T>, p: T, q: T, x: T)
    requires a + multiset{p} == b + multiset{x}
    requires b + multiset{q} == c + multiset{p}
    ensures a + multiset{q} == c + multiset{x}
  {
    assert a + multiset{q} + multiset{p} == (a + multiset{p}) + multiset{q};
    assert (b + multiset{x}) + multiset{q} == (b + multiset{q}) + multiset{x};
    assert a + multiset{q} == (a + multiset{q} + multiset{p}) - multiset{p};
    assert c + multiset{x} == (c + multiset{x} + multiset{p}) - multiset{p};
  }

  /** Sinking exchanges the value at r for x and loses nothing else. */
  lemma {:induction false} SiftKeepsElements<T>(s: seq<T>, r: int, k: nat, x: T, cmp: (T, T) -> int)
    requires Fits(|s|, r, k)
    ensures multiset(Sift(s, r, k, x, cmp)) + multiset{s[r]} == multiset(s) + multiset{x}
    decreases k
  {
    MoveKeepsElements(s, r, x);
    if k >= 2 {
      var rt, lf := Right(r), Left(r, k);
      if !(cmp(x, s[lf]) >= 0 && cmp(x, s[rt]) >= 0) {
        var c, kc := if cmp(s[lf], s[rt]) >= 0 then lf else rt, if cmp(s[lf], s[rt]) >= 0 then k - 1 else k - 2;
        var s1 := s[r := s[c]];
        MoveKeepsElements(s, r, s[c]);
        SiftKeepsElements(s1, c, kc, x, cmp);
        Exchange(multiset(Sift(s1, c, kc, x, cmp)), multiset(s1), multiset(s), s[c], s[r], x);
      }
    }
  }

  /** Sinking turns a tree whose children are heaps into a heap, and touches nothing outside
      the tree. The new root is x or an old child, dominates all of them,
      and it is at most the old root if that dominated them. */
  lemma {:induction false} SiftRestores<T(!new)>(s: seq<T>, r: int, k: nat, x: T, cmp: (T, T) -> int)
    requires TotalPreorder(cmp) && Fits(|s|, r, k) && ChildrenHeaps(s, r, k, cmp)
    ensures var s' := Sift(s, r, k, x, cmp);
            && Heap(s', r, k, cmp)
            && Agree(s, s', 0, r - L(k)) && Agree(s, s', r + 1, |s|)
            && (s'[r] == x || (k >= 2 && (s'[r] == s[Right(r)] || s'[r] == s[Left(r, k)])))
            && Le(cmp, x, s'[r])
            && (k >= 2 ==> Le(cmp, s[Right(r)], s'[r]) && Le(cmp, s[Left(r, k)], s'[r]))
            && (RootDominates(s, r, k, cmp) && Le(cmp, x, s[r]) ==> Le(cmp, s'[r], s[r]))
    decreases k
  {
    Refl(cmp, x);
    if k >= 2 {
      var rt, lf := Right(r), Left(r, k);
      Tested(cmp, x, s[lf]);
      Tested(cmp, x, s[rt]);
      if cmp(x, s[lf]) >= 0 && cmp(x, s[rt]) >= 0 {
        ChildrenFrame(s, s[r := x], r, k, cmp);
      } else {
        Tested(cmp, s[lf], s[rt]);
        if cmp(s[lf], s[rt]) >= 0 {
          Refl(cmp, s[lf]);
          SinkStep(s, r, k, x, cmp, lf, k - 1, rt, k - 2);
        } else {
          Refl(cmp, s[rt]);
          SinkStep(s, r, k, x, cmp, rt, k - 2, lf, k - 1);
        }
      }
    }
  }

  /** c and d are the two children of r, in either order. */
  predicate Children(r: int, k: nat, c: int, kc: nat, d: int, kd: nat) {
    k >= 2 &&
    ((c == Left(r, k) && kc == k - 1 && d == Right(r) && kd == k - 2) ||
     (c == Right(r) && kc == k - 2 && d == Left(r, k) && kd == k - 1))
  }

  lemma ChildrenRanges(n: nat, r: int, k: nat, c: int, kc: nat, d: int, kd: nat)
    requires Fits(n, r, k) && Children(r, k, c, kc, d, kd)
    ensures Fits(n, c, kc) && Fits(n, d, kd) && kc < k && kd < k
    ensures r - L(k) <= c - L(kc) && r - L(k) <= d - L(kd) && c < r && d < r
    ensures c <= d - L(kd) || d <= c - L(kc)
  {
  }

  /** One step of the sinking: the greater child c of the root moves up and x sinks into its tree. */
  lemma {:induction false} SinkStep<T(!new)>(s: seq<T>, r: int, k: nat, x: T, cmp: (T, T) -> int,
                                             c: int, kc: nat, d: int, kd: nat)
    requires TotalPreorder(cmp) && Fits(|s|, r, k) && ChildrenHeaps(s, r, k, cmp)
    requires Children(r, k, c, kc, d, kd) && Fits(|s|, c, kc) && Fits(|s|, d, kd)
    requires Le(cmp, s[d], s[c])
    requires Le(cmp, x, s[c]) || Le(cmp, x, s[d])
    ensures var s' := Sift(s[r := s[c]], c, kc, x, cmp);
            && Heap(s', r, k, cmp)
            && Agree(s, s', 0, r - L(k)) && Agree(s, s', r + 1, |s|)
            && s'[r] == s[c] && Le(cmp, x, s[c])
    decreases k, 0
  {
    hide TotalPreorder, Sift, Le, L, ChildrenHeaps, Children, Heap, RootDominates;
    HeapToParts(s, r, k, cmp, c, kc, d, kd);
    ChildrenRanges(|s|, r, k, c, kc, d, kd);
    if Le(cmp, x, s[d]) {
      Trans(cmp, x, s[d], s[c]);
    }
    var s1 := s[r := s[c]];
    HeapFrame(s, s1, c, kc, cmp);
    HeapParts(s1, c, kc, cmp);
    SiftRestores(s1, c, kc, x, cmp);
    var s2 := Sift(s1, c, kc, x, cmp);
    HeapFrame(s, s2, d, kd, cmp);
    assert s2[d] == s[d] && s2[r] == s[c];
    HeapFromParts(s2, r, k, cmp, c, kc, d, kd);
  }

  lemma HeapParts<T>(s: seq<T>, r: int, k: nat, cmp: (T, T) -> int)
    requires Fits(|s|, r, k) && Heap(s, r, k, cmp)
    ensures RootDominates(s, r, k, cmp) && ChildrenHeaps(s, r, k, cmp)
  {
  }

  lemma HeapToParts<T>(s: seq<T>, r: int, k: nat, cmp: (T, T) -> int, c: int, kc: nat, d: int, kd: nat)
    requires Fits(|s|, r, k) && Children(r, k, c, kc, d, kd) && Fits(|s|, c, kc) && Fits(|s|, d, kd)
    requires ChildrenHeaps(s, r, k, cmp)
    ensures Heap(s, c, kc, cmp) && Heap(s, d, kd, cmp)
  {
  }

  lemma HeapFromParts<T>(s: seq<T>, r: int, k: nat, cmp: (T, T) -> int, c: int, kc: nat, d: int, kd: nat)
    requires Fits(|s|, r, k) && Children(r, k, c, kc, d, kd) && Fits(|s|, c, kc) && Fits(|s|, d, kd)
    requires Heap(s, c, kc, cmp) && Heap(s, d, kd, cmp) && Le(cmp, s[c], s[r]) && Le(cmp, s[d], s[r])
    ensures Heap(s, r, k, cmp)
  {
  }

  // ---------- a forest ----------

  /** Trees of the orders os, from right to left, tile the slots 0..r exactly. */
  ghost predicate Tiles(r: int, os: seq<nat>) {
    if os == [] then r == -1 else L(os[0]) <= r + 1 && Tiles(r - L(os[0]), os[1..])
  }

  /** Every tree of the forest is a heap. */
  ghost predicate Heaps<T>(s: seq<T>, r: int, os: seq<nat>, cmp: (T, T) -> int)
    requires Tiles(r, os) && r < |s|
  {
    os == [] || (Heap(s, r, os[0], cmp) && Heaps(s, r - L(os[0]), os[1..], cmp))
  }

  /** The roots of the forest ascend from left to right. */
  ghost predicate RootsAscend<T>(s: seq<T>, r: int, os: seq<nat>, cmp: (T, T) -> int)
    requires Tiles(r, os) && r < |s|
  {
    |os| <= 1 ||
    (Le(cmp, s[NextRoot(r, os)], s[r]) && RootsAscend(s, r - L(os[0]), os[1..], cmp))
  }

  /** The root of the second tree. */
  function NextRoot(r: int, os: seq<nat>): (r': int)
    requires Tiles(r, os) && 2 <= |os|
    ensures 0 <= r' < r
  {
    assert Tiles(r - L(os[0]), os[1..]);
    r - L(os[0])
  }

  /** A forest of heaps with ascending roots. */
  ghost predicate Forest<T>(s: seq<T>, r: int, os: seq<nat>, cmp: (T, T) -> int)
    requires Tiles(r, os) && r < |s|
  {
    Heaps(s, r, os, cmp) && RootsAscend(s, r, os, cmp)
  }

  lemma {:induction false} HeapsFrame<T>(s: seq<T>, s': seq<T>, r: int, os: seq<nat>, cmp: (T, T) -> int)
    requires Tiles(r, os) && r < |s| && Agree(s, s', 0, r)
    requires Heaps(s, r, os, cmp)
    ensures Heaps(s', r, os, cmp)
  {
    if os != [] {
      HeapFrame(s, s', r, os[0], cmp);
      HeapsFrame(s, s', r - L(os[0]), os[1..], cmp);
    }
  }

  lemma {:induction false} RootsFrame<T>(s: seq<T>, s': seq<T>, r: int, os: seq<nat>, cmp: (T, T) -> int)
    requires Tiles(r, os) && r < |s| && Agree(s, s', 0, r)
    requires RootsAscend(s, r, os, cmp)
    ensures RootsAscend(s', r, os, cmp)
  {
    if |os| > 1 {
      RootsFrame(s, s', r - L(os[0]), os[1..], cmp);
    }
  }

  /** The rightmost root of a forest is its greatest element. */
  lemma {:induction false} ForestGreatest<T(!new)>(s: seq<T>, r: int, os: seq<nat>, cmp: (T, T) -> int, q: int)
    requires TotalPreorder(cmp) && Tiles(r, os) && r < |s| && Forest(s, r, os, cmp) && 0 <= q <= r
    ensures Le(cmp, s[q], s[r])
    decreases |os|
  {
    if q > r - L(os[0]) {
      RootIsGreatest(s, r, os[0], cmp, q);
    } else {
      ForestGreatest(s, r - L(os[0]), os[1..], cmp, q);
      Trans(cmp, s[q], s[r - L(os[0])], s[r]);
    }
  }

  // ---------- trinkling ----------

  /** Whether a child of the root of the tree of order k at r is at least the root at left. */
  predicate ChildReaches<T>(s: seq<T>, r: int, k: nat, left: int, cmp: (T, T) -> int)
    requires Fits(|s|, r, k) && 0 <= left < |s|
  {
    k >= 2 && (cmp(s[Right(r)], s[left]) >= 0 || cmp(s[Left(r, k)], s[left]) >= 0)
  }

  /** The value x, held back from the root r of the first tree, stays in this tree. */
  predicate Stays<T>(s: seq<T>, r: int, os: seq<nat>, x: T, trusty: bool, cmp: (T, T) -> int)
    requires os != [] && Tiles(r, os) && r < |s|
  {
    |os| == 1 ||
    cmp(s[NextRoot(r, os)], x) <= 0 || (!trusty && ChildReaches(s, r, os[0], NextRoot(r, os), cmp))
  }

  /** The sequence after x has moved left along the roots, and then, unless the first tree is
      trusted and x stays at its root, has sunk into the tree where it stopped. */
  function Trinkle<T>(s: seq<T>, r: int, os: seq<nat>, x: T, trusty: bool, cmp: (T, T) -> int): (s': seq<T>)
    requires os != [] && Tiles(r, os) && r < |s|
    ensures |s'| == |s|
    decreases |os|
  {
    if Stays(s, r, os, x, trusty, cmp) then
      if trusty then s[r := x] else Sift(s, r, os[0], x, cmp)
    else
      Trinkle(s[r := s[NextRoot(r, os)]], NextRoot(r, os), os[1..], x, false, cmp)
  }

  /** What trinkle may assume of the first tree: all of it is a heap, or all but its root. */
  ghost predicate FirstTree<T>(s: seq<T>, r: int, k: nat, x: T, trusty: bool, cmp: (T, T) -> int)
    requires Fits(|s|, r, k)
  {
    if trusty then s[r] == x && Heap(s, r, k, cmp) else ChildrenHeaps(s, r, k, cmp)
  }

  /** Trinkling restores the forest when only the value at its rightmost root is out of place.
      A forest that was in order and takes in a smaller value does not get a greater root. */
  lemma {:induction false} TrinkleRestores<T(!new)>(
      s: seq<T>, r: int, os: seq<nat>, x: T, trusty: bool, cmp: (T, T) -> int)
    requires TotalPreorder(cmp) && os != [] && Tiles(r, os) && r < |s|
    requires FirstTree(s, r, os[0], x, trusty, cmp)
    requires Forest(s, r - L(os[0]), os[1..], cmp)
    ensures var s' := Trinkle(s, r, os, x, trusty, cmp);
            && Forest(s', r, os, cmp)
            && Agree(s, s', r + 1, |s|)
            && (Forest(s, r, os, cmp) && Le(cmp, x, s[r]) ==> Le(cmp, s'[r], s[r]))
    decreases |os|
  {
    if Stays(s, r, os, x, trusty, cmp) {
      TrinkleStays(s, r, os, x, trusty, cmp);
    } else {
      TrinkleMoves(s, r, os, x, trusty, cmp);
    }
  }

  lemma TrinkleStays<T(!new)>(s: seq<T>, r: int, os: seq<nat>, x: T, trusty: bool, cmp: (T, T) -> int)
    requires TotalPreorder(cmp) && os != [] && Tiles(r, os) && r < |s|
    requires FirstTree(s, r, os[0], x, trusty, cmp)
    requires Forest(s, r - L(os[0]), os[1..], cmp)
    requires Stays(s, r, os, x, trusty, cmp)
    ensures var s' := Trinkle(s, r, os, x, trusty, cmp);
            && Forest(s', r, os, cmp)
            && Agree(s, s', r + 1, |s|)
            && (Forest(s, r, os, cmp) && Le(cmp, x, s[r]) ==> Le(cmp, s'[r], s[r]))
  {
    hide TotalPreorder, Sift, Le, Heap, ChildrenHeaps, L, ChildReaches;
    var k, r1 := os[0], r - L(os[0]);
    var s' := Trinkle(s, r, os, x, trusty, cmp);
    if trusty {
      Refl(cmp, x);
      assert s' == s;
      if |os| > 1 {
        Tested(cmp, s[r1], x);
        NotAfter(cmp, s[r1], x);
      }
    } else {
      SiftRestores(s, r, k, x, cmp);
      HeapsFrame(s, s', r1, os[1..], cmp);
      RootsFrame(s, s', r1, os[1..], cmp);
      StaysAbove(s, r, os, x, s'[r], cmp);
      FirstDominates(s, r, os, cmp);
    }
  }

  lemma NotAfter<T>(cmp: (T, T) -> int, a: T, b: T)
    ensures cmp(a, b) <= 0 <==> Le(cmp, a, b)
  {
  }

  lemma FirstDominates<T>(s: seq<T>, r: int, os: seq<nat>, cmp: (T, T) -> int)
    requires os != [] && Tiles(r, os) && r < |s|
    ensures Forest(s, r, os, cmp) ==> RootDominates(s, r, os[0], cmp)
  {
  }

  /** Where x stays, the new root of the first tree dominates the next root. */
  lemma StaysAbove<T(!new)>(s: seq<T>, r: int, os: seq<nat>, x: T, v: T, cmp: (T, T) -> int)
    requires TotalPreorder(cmp) && os != [] && Tiles(r, os) && r < |s|
    requires Stays(s, r, os, x, false, cmp) && Le(cmp, x, v)
    requires os[0] >= 2 ==> Le(cmp, s[Right(r)], v) && Le(cmp, s[Left(r, os[0])], v)
    ensures |os| > 1 ==> Le(cmp, s[NextRoot(r, os)], v)
  {
    if |os| > 1 {
      var k, r1 := os[0], NextRoot(r, os);
      if cmp(s[r1], x) <= 0 {
        Trans(cmp, s[r1], x, v);
      } else if cmp(s[Right(r)], s[r1]) >= 0 {
        Tested(cmp, s[Right(r)], s[r1]);
        Trans(cmp, s[r1], s[Right(r)], v);
      } else {
        Tested(cmp, s[Left(r, k)], s[r1]);
        Trans(cmp, s[r1], s[Left(r, k)], v);
      }
    }
  }

  lemma {:induction false} TrinkleMoves<T(!new)>(
      s: seq<T>, r: int, os: seq<nat>, x: T, trusty: bool, cmp: (T, T) -> int)
    requires TotalPreorder(cmp) && os != [] && Tiles(r, os) && r < |s|
    requires FirstTree(s, r, os[0], x, trusty, cmp)
    requires Forest(s, r - L(os[0]), os[1..], cmp)
    requires !Stays(s, r, os, x, trusty, cmp)
    ensures var s' := Trinkle(s, r, os, x, trusty, cmp);
            && Forest(s', r, os, cmp)
            && Agree(s, s', r + 1, |s|)
            && (Forest(s, r, os, cmp) && Le(cmp, x, s[r]) ==> Le(cmp, s'[r], s[r]))
    decreases |os|, 0
  {
    hide TotalPreorder, Sift, Le, Heap, ChildrenHeaps, L, ChildReaches;
    var k, r1 := os[0], NextRoot(r, os);
    var s1 := s[r := s[r1]];
    assert Heap(s, r1, os[1], cmp);
    HeapFrame(s, s1, r1, os[1], cmp);
    HeapParts(s1, r1, os[1], cmp);
    HeapsFrame(s, s1, r1, os[1..], cmp);
    RootsFrame(s, s1, r1, os[1..], cmp);
    MovedRoot(s, r, k, x, trusty, r1, cmp);
    TrinkleRestores(s1, r1, os[1..], x, false, cmp);
    var s2 := Trinkle(s1, r1, os[1..], x, false, cmp);
    Refl(cmp, s[r1]);
    assert s2[r] == s[r1];
    ChildrenFrame(s, s2, r, k, cmp);
    ChildrenKept(s, s2, r, k);
    HeapFromChildren(s2, r, k, cmp);
  }

  lemma ChildrenKept<T>(s: seq<T>, s': seq<T>, r: int, k: nat)
    requires Fits(|s|, r, k) && Agree(s, s', r - L(k) + 1, r - 1)
    ensures k >= 2 ==> s'[Right(r)] == s[Right(r)] && s'[Left(r, k)] == s[Left(r, k)]
  {
  }

  lemma HeapFromChildren<T>(s: seq<T>, r: int, k: nat, cmp: (T, T) -> int)
    requires Fits(|s|, r, k) && ChildrenHeaps(s, r, k, cmp) && RootDominates(s, r, k, cmp)
    ensures Heap(s, r, k, cmp)
  {
  }

  /** The root that moves right dominates x and the tree it moves to. */
  lemma MovedRoot<T(!new)>(s: seq<T>, r: int, k: nat, x: T, trusty: bool, r1: int, cmp: (T, T) -> int)
    requires TotalPreorder(cmp) && Fits(|s|, r, k) && FirstTree(s, r, k, x, trusty, cmp)
    requires 0 <= r1 < |s| && !(cmp(s[r1], x) <= 0) && (trusty || !ChildReaches(s, r, k, r1, cmp))
    ensures Le(cmp, x, s[r1]) && ChildrenHeaps(s, r, k, cmp)
    ensures k >= 2 ==> Le(cmp, s[Right(r)], s[r1]) && Le(cmp, s[Left(r, k)], s[r1])
  {
    Tested(cmp, s[r1], x);
    if k >= 2 {
      if trusty {
        Trans(cmp, s[Right(r)], x, s[r1]);
        Trans(cmp, s[Left(r, k)], x, s[r1]);
      } else {
        Tested(cmp, s[Right(r)], s[r1]);
        Tested(cmp, s[Left(r, k)], s[r1]);
      }
    }
  }

  /** Trinkling exchanges the value at r for x and loses nothing else. */
  lemma {:induction false} TrinkleKeepsElements<T>(
      s: seq<T>, r: int, os: seq<nat>, x: T, trusty: bool, cmp: (T, T) -> int)
    requires os != [] && Tiles(r, os) && r < |s|
    ensures multiset(Trinkle(s, r, os, x, trusty, cmp)) + multiset{s[r]} == multiset(s) + multiset{x}
    decreases |os|
  {
    if Stays(s, r, os, x, trusty, cmp) {
      MoveKeepsElements(s, r, x);
      SiftKeepsElements(s, r, os[0], x, cmp);
    } else {
      var r1 := NextRoot(r, os);
      var s1 := s[r := s[r1]];
      MoveKeepsElements(s, r, s[r1]);
      TrinkleKeepsElements(s1, r1, os[1..], x, false, cmp);
      Exchange(multiset(Trinkle(s1, r1, os[1..], x, false, cmp)), multiset(s1), multiset(s), s[r1], s[r], x);
    }
  }
}
