/** The sorting code: sift, trinkle and qsort on a flat byte memory. */
module Smoothsort {
  import opened Words
  import opened ForestBits
  import opened Leonardo
  import LH = LeonardoHeap
  import opened ForestPhases
  import opened ForestEncoding
  import opened ByteRotation
  import opened Elements

  /** Sizes of the pointer chain and of the table of Leonardo numbers: 14 * 8 + 1 and 12 * 8. */
  const AR_SLOTS: nat := 113
  const LP_SLOTS: nat := 96

  type Compare = (seq<Byte>, seq<Byte>) -> int

  /** The table holds the scaled size of every tree that fits into the array. */
  ghost predicate Table(lp: seq<Word>, width: nat, nel: nat) {
    && |lp| == LP_SLOTS && nel <= L(MAX_ORDER)
    && forall k :: 0 <= k < |lp| && L(k) <= nel ==> lp[k] == Scaled(L(k), width)
  }

  lemma TableEntry(lp: seq<Word>, width: nat, nel: nat, k: nat)
    requires Table(lp, width, nel) && L(k) <= nel
    ensures |lp| == LP_SLOTS && k <= MAX_ORDER && lp[k] == Scaled(L(k), width)
  {
    hide L;
    OrderAtMost(k, MAX_ORDER);
  }

  // ---------- sift ----------

  /** How far the chain of moves has come: idx are the indices of the elements it passes,
      the hole is at the last one, and cur is the sequence that the deferred moves stand for. */
  ghost predicate SiftState(s: seq<seq<Byte>>, cur: seq<seq<Byte>>, idx: seq<nat>, h: nat, pshift: nat,
                            g: nat, ps: nat, cmp: Compare) {
    && LH.Fits(|s|, h, pshift) && LH.Fits(|s|, g, ps)
    && Chain(idx, |s|) && idx != [] && idx[0] == h && idx[|idx| - 1] == g
    && MovedUp(s, cur, idx)
    && LH.Sift(s, h, pshift, s[h], cmp) == LH.Sift(cur, g, ps, s[h], cmp)
  }

  /** The element sinks no further. */
  lemma SiftStops(s: seq<seq<Byte>>, cur: seq<seq<Byte>>, idx: seq<nat>, h: nat, pshift: nat, g: nat, ps: nat,
                  cmp: Compare)
    requires SiftState(s, cur, idx, h, pshift, g, ps, cmp)
    requires ps > 1 ==> cmp(s[h], s[LH.Left(g, ps)]) >= 0 && cmp(s[h], s[LH.Right(g)]) >= 0
    ensures LH.Sift(s, h, pshift, s[h], cmp) == cur[g := s[h]]
  {
    if ps > 1 {
      MovedUpBelow(s, cur, idx, LH.Left(g, ps));
      MovedUpBelow(s, cur, idx, LH.Right(g));
    }
  }

  lemma ChainBegins<T>(s: seq<T>, h: nat)
    requires h < |s|
    ensures Chain([h], |s|) && MovedUp(s, s, [h])
  {
  }

  /** The greater child moves up. */
  lemma SiftDescends(s: seq<seq<Byte>>, cur: seq<seq<Byte>>, idx: seq<nat>, h: nat, pshift: nat, g: nat, ps: nat,
                     cmp: Compare, c: nat, kc: nat)
    requires SiftState(s, cur, idx, h, pshift, g, ps, cmp) && ps > 1
    requires !(cmp(s[h], s[LH.Left(g, ps)]) >= 0 && cmp(s[h], s[LH.Right(g)]) >= 0)
    requires if cmp(s[LH.Left(g, ps)], s[LH.Right(g)]) >= 0 then c == LH.Left(g, ps) && kc == ps - 1
             else c == LH.Right(g) && kc == ps - 2
    ensures SiftState(s, cur[g := s[c]], idx + [c], h, pshift, c, kc, cmp)
  {
    MovedUpBelow(s, cur, idx, LH.Left(g, ps));
    MovedUpBelow(s, cur, idx, LH.Right(g));
    MoveUpOne(s, cur, idx, c);
  }

  lemma ChildAddresses(base: nat, width: nat, nel: nat, g: nat, ps: nat, lp: seq<Word>)
    requires LH.Fits(nel, g, ps) && ps > 1 && Table(lp, width, nel)
    ensures 0 <= LH.Left(g, ps) < LH.Right(g) < g
    ensures ps - 2 < LP_SLOTS == |lp| && lp[ps - 2] + width <= Addr(base, width, g)
    ensures Addr(base, width, g) - width == Addr(base, width, LH.Right(g))
    ensures Addr(base, width, g) - width - lp[ps - 2] == Addr(base, width, LH.Left(g, ps))
  {
    hide L, Table, Scaled, Addr;
    ChildSize(nel, g, ps);
    TableEntry(lp, width, nel, ps - 2);
    ScaledOne(width);
    AddrStep(base, width, g, 1);
    AddrStep(base, width, g - 1, L(ps - 2));
  }

  lemma ChildSize(nel: nat, g: nat, ps: nat)
    requires LH.Fits(nel, g, ps) && ps > 1
    ensures L(ps - 2) <= nel && L(ps - 2) <= g - 1
  {
  }

  /** The deferred moves are carried out by a rotation of the chain. */
  lemma ChainRotated(m: seq<Byte>, m': seq<Byte>, c: seq<nat>, idx: seq<nat>, base: nat, width: nat, nel: nat,
                     tmp: nat, cur: seq<seq<Byte>>)
    requires |m| == |m'| && Placement(base, width, nel, tmp, |m|)
    requires Chain(idx, nel) && Addresses(c, idx, base, width) && idx != []
    requires |c| < 2 ==> m' == m
    requires |c| >= 2 ==>
      Separate(c, width, tmp, |m|) && Rotated(m, m', c, width) && SameElsewhere(m, m', c, width, tmp)
    requires MovedUp(Elems(m, base, width, nel), cur, idx)
    ensures Elems(m', base, width, nel) == cur[idx[|idx| - 1] := Elems(m, base, width, nel)[idx[0]]]
    ensures SameOutside(m, m', base, Addr(base, width, nel), tmp)
  {
    hide Elems, Addr;
    if |c| >= 2 {
      RotateChain(m, m', c, idx, base, width, nel, tmp, cur);
    } else {
      var s := Elems(m, base, width, nel);
      assert cur == s;
      assert s[idx[0] := s[idx[0]]] == s;
    }
  }

  /** Lets the element at head sink into its tree of order pshift. */
  method Sift(mem: array<Byte>, head: nat, width: nat, cmp: Compare, pshift: nat, lp: array<Word>, tmp: nat,
              ghost base: nat, ghost nel: nat, ghost h: nat)
    requires Placement(base, width, nel, tmp, mem.Length) && Table(lp[..], width, nel)
    requires LH.Fits(nel, h, pshift) && head == Addr(base, width, h)
    modifies mem
    ensures var s := Elems(old(mem[..]), base, width, nel);
            Elems(mem[..], base, width, nel) == LH.Sift(s, h, pshift, s[h], cmp)
    ensures SameOutside(old(mem[..]), mem[..], base, Addr(base, width, nel), tmp)
  {
    hide L, LH.Sift, LH.Left, LH.Right, Elems, Addr, MovedUp, Table, SameOutside, Chain, Addresses;
    var ar := new nat[AR_SLOTS];
    var i: nat, hd: nat, ps: nat := 1, head, pshift;
    ar[0] := hd;
    ghost var m, s := mem[..], Elems(mem[..], base, width, nel);
    ghost var idx: seq<nat>, cur, g: nat := [h], s, h;
    ChainBegins(s, h);
    FirstAddress(ar[..1], h, base, width);
    OrderFits(nel, h, pshift, lp[..], width);
    while ps > 1
      invariant mem[..] == m && ar[0] == head
      invariant SiftState(s, cur, idx, h, pshift, g, ps, cmp)
      invariant i == |idx| && i + ps <= pshift + 1
      invariant hd == Addr(base, width, g) && Addresses(ar[..i], idx, base, width)
    {
      ChildAddresses(base, width, nel, g, ps, lp[..]);
      ghost var gl: nat, gr: nat := LH.Left(g, ps), LH.Right(g);
      var rt := hd - width;
      var lf := hd - width - lp[ps - 2];
      ElemsRead(m, base, width, nel, h);
      ElemsRead(m, base, width, nel, gl);
      ElemsRead(m, base, width, nel, gr);
      var x, vl, vr := mem[ar[0]..ar[0] + width], mem[lf..lf + width], mem[rt..rt + width];
      assert x == s[h] && vl == s[gl] && vr == s[gr];
      if cmp(x, vl) >= 0 && cmp(x, vr) >= 0 {
        break;
      }
      ghost var c: nat;
      if cmp(vl, vr) >= 0 {
        SiftDescends(s, cur, idx, h, pshift, g, ps, cmp, gl, ps - 1);
        NextAddress(ar[..i], idx, lf, gl, base, width);
        ar[i] := lf;
        i, hd, ps := i + 1, lf, ps - 1;
        c := gl;
      } else {
        SiftDescends(s, cur, idx, h, pshift, g, ps, cmp, gr, ps - 2);
        NextAddress(ar[..i], idx, rt, gr, base, width);
        ar[i] := rt;
        i, hd, ps := i + 1, rt, ps - 2;
        c := gr;
      }
      assert ar[..i] == ar[..i - 1] + [hd];
      cur, idx, g := cur[g := s[c]], idx + [c], c;
    }
    SiftStops(s, cur, idx, h, pshift, g, ps, cmp);
    ghost var c := ar[..i];
    ChainSeparate(c, idx, base, width, nel, tmp, mem.Length);
    Cycle(mem, width, ar, i, tmp);
    ChainRotated(m, mem[..], c, idx, base, width, nel, tmp, cur);
  }

  /** Reading the element at its address. */
  lemma ElemsRead(m: seq<Byte>, base: nat, width: nat, nel: nat, i: nat)
    requires Addr(base, width, nel) <= |m| && i < nel
    ensures var a := Addr(base, width, i);
            a + width <= |m| && m[a..a + width] == Elems(m, base, width, nel)[i]
  {
    ElemsAt(m, base, width, nel, i);
  }

  lemma OrderFits(nel: nat, h: nat, k: nat, lp: seq<Word>, width: nat)
    requires LH.Fits(nel, h, k) && Table(lp, width, nel)
    ensures k <= MAX_ORDER
  {
    hide L, Table;
    TableEntry(lp, width, nel, k);
  }

  // ---------- trinkle ----------

  /** How far the element has moved left along the roots; as for sift, the moves are deferred. */
  ghost predicate TrinkleState(s: seq<seq<Byte>>, cur: seq<seq<Byte>>, idx: seq<nat>, h: nat, os0: seq<nat>,
                               trusty0: bool, g: nat, os: seq<nat>, trusty: bool, cmp: Compare) {
    && os0 != [] && LH.Tiles(h, os0) && h < |s| && os != [] && LH.Tiles(g, os) && g < |s|
    && Chain(idx, |s|) && idx != [] && idx[0] == h && idx[|idx| - 1] == g
    && MovedUp(s, cur, idx) && (trusty ==> idx == [h] && trusty0)
    && LH.Trinkle(s, h, os0, s[h], trusty0, cmp) == LH.Trinkle(cur, g, os, s[h], trusty, cmp)
  }

  lemma SameBelow(s: seq<seq<Byte>>, cur: seq<seq<Byte>>, idx: seq<nat>, g: nat, os: seq<nat>)
    requires |cur| == |s| && Chain(idx, |s|) && idx != [] && idx[|idx| - 1] == g && MovedUp(s, cur, idx)
    requires os != [] && LH.Tiles(g, os)
    ensures |os| > 1 ==> cur[LH.NextRoot(g, os)] == s[LH.NextRoot(g, os)]
    ensures os[0] > 1 ==> cur[LH.Right(g)] == s[LH.Right(g)] && cur[LH.Left(g, os[0])] == s[LH.Left(g, os[0])]
  {
    if |os| > 1 {
      MovedUpBelow(s, cur, idx, LH.NextRoot(g, os));
    }
    if os[0] > 1 {
      MovedUpBelow(s, cur, idx, LH.Right(g));
      MovedUpBelow(s, cur, idx, LH.Left(g, os[0]));
    }
  }

  lemma TrinkleStops(s: seq<seq<Byte>>, cur: seq<seq<Byte>>, idx: seq<nat>, h: nat, os0: seq<nat>, trusty0: bool,
                     g: nat, os: seq<nat>, trusty: bool, cmp: Compare)
    requires TrinkleState(s, cur, idx, h, os0, trusty0, g, os, trusty, cmp)
    requires LH.Stays(s, g, os, s[h], trusty, cmp)
    ensures LH.Trinkle(s, h, os0, s[h], trusty0, cmp) ==
            if trusty then s else LH.Sift(cur[g := s[h]], g, os[0], s[h], cmp)
  {
    hide MovedUp, LH.Sift, Chain;
    SameBelow(s, cur, idx, g, os);
    if trusty {
      OneLink(s, cur, idx);
      assert s[h := s[h]] == s;
    } else {
      SiftIgnoresHole(cur, g, os[0], s[h], cmp);
    }
  }

  lemma OneLink<T>(s: seq<T>, cur: seq<T>, idx: seq<nat>)
    requires |idx| == 1 && Chain(idx, |s|) && MovedUp(s, cur, idx)
    ensures cur == s
  {
  }

  /** Sinking overwrites the hole, whatever is in it. */
  lemma SiftIgnoresHole<T>(s: seq<T>, r: nat, k: nat, x: T, cmp: (T, T) -> int)
    requires LH.Fits(|s|, r, k)
    ensures LH.Sift(s[r := x], r, k, x, cmp) == LH.Sift(s, r, k, x, cmp)
  {
    if k >= 2 {
      assert s[r := x][r := s[LH.Left(r, k)]] == s[r := s[LH.Left(r, k)]];
      assert s[r := x][r := s[LH.Right(r)]] == s[r := s[LH.Right(r)]];
    }
  }

  lemma TrinkleContinues(s: seq<seq<Byte>>, cur: seq<seq<Byte>>, idx: seq<nat>, h: nat, os0: seq<nat>, trusty0: bool,
                         g: nat, os: seq<nat>, trusty: bool, cmp: Compare)
    requires TrinkleState(s, cur, idx, h, os0, trusty0, g, os, trusty, cmp)
    requires !LH.Stays(s, g, os, s[h], trusty, cmp)
    ensures var n := LH.NextRoot(g, os);
            TrinkleState(s, cur[g := s[n]], idx + [n], h, os0, trusty0, n, os[1..], false, cmp)
  {
    hide MovedUp, LH.Sift, Chain;
    SameBelow(s, cur, idx, g, os);
    MoveUpOne(s, cur, idx, LH.NextRoot(g, os));
  }

  /** The address of the next root, and what is known of its tree. */
  lemma RootAddresses(base: nat, width: nat, nel: nat, g: nat, os: seq<nat>, lp: seq<Word>)
    requires os != [] && LH.Tiles(g, os) && g < nel && Table(lp, width, nel)
    ensures LH.Fits(nel, g, os[0]) && os[0] < LP_SLOTS == |lp|
    ensures |os| > 1 ==>
              lp[os[0]] <= Addr(base, width, g) &&
              Addr(base, width, g) - lp[os[0]] == Addr(base, width, LH.NextRoot(g, os))
  {
    hide L, Table, Scaled, Addr;
    TreeSize(g, os, 0);
    FirstFits(nel, g, os);
    TableEntry(lp, width, nel, os[0]);
    if |os| > 1 {
      AddrStep(base, width, g, L(os[0]));
    }
  }

  lemma FirstFits(nel: nat, g: nat, os: seq<nat>)
    requires os != [] && LH.Tiles(g, os) && g < nel
    ensures LH.Fits(nel, g, os[0])
  {
  }

  lemma CloseTail(os: seq<nat>)
    requires Close(os) && |os| > 1
    ensures Close(os[1..]) && os[1] < os[0] + 64 && os[0] < os[1]
  {
  }

  /** The tests of the loop of trinkle: whether the element at `first`, whose hole is at head, stays. */
  method StaysHere(mem: array<Byte>, first: nat, head: nat, width: nat, cmp: Compare, pshift: nat, trusty: bool,
                   lp: array<Word>, ghost base: nat, ghost nel: nat, ghost h: nat, ghost g: nat, ghost os: seq<nat>)
    returns (stays: bool)
    requires Addr(base, width, nel) <= mem.Length && Table(lp[..], width, nel)
    requires |os| > 1 && LH.Tiles(g, os) && g < nel && os[0] == pshift
    requires h < nel && first == Addr(base, width, h) && head == Addr(base, width, g)
    ensures var s := Elems(mem[..], base, width, nel);
            stays <==> LH.Stays(s, g, os, s[h], trusty, cmp)
  {
    hide L, LH.Left, LH.Right, LH.NextRoot, LH.Tiles, LH.Fits, LH.Stays, LH.ChildReaches, Elems, Addr, Table;
    ghost var m, s := mem[..], Elems(mem[..], base, width, nel);
    RootAddresses(base, width, nel, g, os, lp[..]);
    ghost var next: nat := LH.NextRoot(g, os);
    ElemsRead(m, base, width, nel, h);
    ElemsRead(m, base, width, nel, next);
    var stepson := head - lp[pshift];
    var x, step := mem[first..first + width], mem[stepson..stepson + width];
    assert x == s[h] && step == s[next];
    var reached := false;
    if !trusty && pshift > 1 {
      ChildAddresses(base, width, nel, g, pshift, lp[..]);
      ElemsRead(m, base, width, nel, LH.Right(g));
      ElemsRead(m, base, width, nel, LH.Left(g, pshift));
      var rt := head - width;
      var lf := head - width - lp[pshift - 2];
      reached := cmp(mem[rt..rt + width], step) >= 0 || cmp(mem[lf..lf + width], step) >= 0;
    }
    StaysMeans(s, g, os, x, trusty, cmp, reached);
    stays := cmp(step, x) <= 0 || reached;
  }

  /** Moves the element at head left along the roots of the forest encoded by pp and pshift, and
      lets it sink where it stops. A trusty tree is already a heap. */
  method Trinkle(mem: array<Byte>, head: nat, width: nat, cmp: Compare, pp: array<Word>, pshift: nat, trusty: bool,
                 lp: array<Word>, tmp: nat, ghost base: nat, ghost nel: nat, ghost h: nat, ghost os: seq<nat>)
    requires Placement(base, width, nel, tmp, mem.Length) && Table(lp[..], width, nel)
    requires lp != mem as object && pp != mem as object
    requires pp.Length == 2 && Encodes(pp[0], pp[1], pshift, os)
    requires os != [] && LH.Tiles(h, os) && h < nel && head == Addr(base, width, h)
    requires Close(os) && |os| <= MAX_ORDER + 1
    modifies mem
    ensures var s := Elems(old(mem[..]), base, width, nel);
            Elems(mem[..], base, width, nel) == LH.Trinkle(s, h, os, s[h], trusty, cmp)
    ensures SameOutside(old(mem[..]), mem[..], base, Addr(base, width, nel), tmp)
  {
    hide L, LH.Sift, LH.Trinkle, LH.Left, LH.Right, LH.NextRoot, LH.Tiles, LH.Fits, LH.Stays, LH.ChildReaches, Elems,
      Addr, MovedUp, Table, SameOutside, Chain, Pntz, Down, Pair, Orders, Close, Encodes, Addresses;
    var p := new Word[2];
    p[0], p[1] := pp[0], pp[1];
    var ar := new nat[AR_SLOTS];
    var i: nat, hd: nat, ps: nat, tr := 1, head, pshift, trusty;
    ar[0] := hd;
    ghost var m, s := mem[..], Elems(mem[..], base, width, nel);
    ghost var idx: seq<nat>, cur, g: nat, os' := [h], s, h, os;
    ChainBegins(s, h);
    FirstAddress(ar[..1], h, base, width);
    while p[0] != 1 || p[1] != 0
      invariant mem[..] == m && ar[0] == head
      invariant TrinkleState(s, cur, idx, h, os, trusty, g, os', tr, cmp)
      invariant Encodes(p[0], p[1], ps, os') && Close(os')
      invariant i == |idx| && i + |os'| == |os| + 1
      invariant hd == Addr(base, width, g) && Addresses(ar[..i], idx, base, width)
      decreases |os'|
    {
      EncodesFirst(p[0], p[1], ps, os');
      RootAddresses(base, width, nel, g, os', lp[..]);
      ghost var next: nat := LH.NextRoot(g, os');
      var stepson := hd - lp[ps];
      var stays := StaysHere(mem, ar[0], hd, width, cmp, ps, tr, lp, base, nel, h, g, os');
      if stays {
        break;
      }
      TrinkleContinues(s, cur, idx, h, os, trusty, g, os', tr, cmp);
      CloseTail(os');
      NextAddress(ar[..i], idx, stepson, next, base, width);
      ar[i] := stepson;
      i, hd := i + 1, stepson;
      assert ar[..i] == ar[..i - 1] + [stepson];
      ghost var q0, q1 := p[0], p[1];
      NextDistance(q0, q1, ps, os');
      var trail := Pntz(p[0], p[1]);
      Shr(p, trail);
      EncodesTail(q0, q1, ps, os', trail, p[0], p[1]);
      ps := ps + trail;
      tr := false;
      cur, idx, g, os' := cur[g := s[next]], idx + [next], next, os'[1..];
    }
    EncodesFirst(p[0], p[1], ps, os');
    OneTreeStays(s, g, os', s[h], tr, cmp);
    TrinkleStops(s, cur, idx, h, os, trusty, g, os', tr, cmp);
    if !tr {
      ghost var c := ar[..i];
      ChainSeparate(c, idx, base, width, nel, tmp, mem.Length);
      Cycle(mem, width, ar, i, tmp);
      ghost var m' := mem[..];
      ChainRotated(m, m', c, idx, base, width, nel, tmp, cur);
      FirstFits(nel, g, os');
      Sift(mem, hd, width, cmp, ps, lp, tmp, base, nel, g);
      SameOutsideTrans(m, m', mem[..], base, Addr(base, width, nel), tmp);
    } else {
      NothingOutside(m, base, Addr(base, width, nel), tmp);
    }
  }

  /** The two tests of the loop, in the source's order, decide whether the element stays. */
  lemma StaysMeans(s: seq<seq<Byte>>, g: nat, os: seq<nat>, x: seq<Byte>, trusty: bool, cmp: Compare, reached: bool)
    requires LH.Tiles(g, os) && g < |s| && |os| > 1 && LH.Fits(|s|, g, os[0])
    requires reached <==> !trusty && os[0] > 1 &&
                          (cmp(s[LH.Right(g)], s[LH.NextRoot(g, os)]) >= 0 ||
                           cmp(s[LH.Left(g, os[0])], s[LH.NextRoot(g, os)]) >= 0)
    ensures LH.Stays(s, g, os, x, trusty, cmp) <==> cmp(s[LH.NextRoot(g, os)], x) <= 0 || reached
  {
  }

  lemma OneTreeStays(s: seq<seq<Byte>>, g: nat, os: seq<nat>, x: seq<Byte>, trusty: bool, cmp: Compare)
    requires os != [] && LH.Tiles(g, os) && g < |s|
    ensures |os| == 1 ==> LH.Stays(s, g, os, x, trusty, cmp)
  {
  }

  lemma FirstAddress(c: seq<nat>, h: nat, base: nat, width: nat)
    requires c == [Addr(base, width, h)]
    ensures Addresses(c, [h], base, width)
  {
  }

  lemma NextAddress(c: seq<nat>, idx: seq<nat>, a: nat, next: nat, base: nat, width: nat)
    requires Addresses(c, idx, base, width) && a == Addr(base, width, next)
    ensures Addresses(c + [a], idx + [next], base, width)
  {
  }

  lemma NothingOutside(m: seq<Byte>, base: nat, end: nat, tmp: nat)
    ensures SameOutside(m, m, base, end, tmp)
  {
  }

  // ---------- qsort ----------

  /** Everything the calls need to know of a forest in the array. */
  lemma ForestFacts(nel: nat, h: nat, os: seq<nat>, lp: seq<Word>, width: nat)
    requires Table(lp, width, nel) && h < nel && os != [] && LH.Tiles(h, os) && Ascending(os)
    requires os[0] == 0 && |os| > 1 ==> os[1] == 1
    ensures LH.Fits(nel, h, os[0]) && Close(os) && |os| <= MAX_ORDER + 1
    ensures forall i :: 0 <= i < |os| ==> os[i] <= MAX_ORDER
    ensures L(os[0]) <= h + 1
  {
    hide L, LH.Tiles, Close, Ascending;
    SmallArray(lp, width, nel);
    FirstFits(nel, h, os);
    TreeSize(h, os, 0);
    OrdersClose(h, os);
    TreesAtMost(h, os);
    forall i | 0 <= i < |os|
      ensures os[i] <= MAX_ORDER
    {
      OrdersAtMost(h, os, i);
    }
  }

  lemma SmallArray(lp: seq<Word>, width: nat, nel: nat)
    requires Table(lp, width, nel)
    ensures nel <= L(MAX_ORDER)
  {
    hide L;
  }

  /** The guard `lp[pshift - 1] >= high - head`. */
  lemma RestFits(base: nat, width: nat, nel: nat, h: nat, k: nat, lp: seq<Word>)
    requires Table(lp, width, nel) && 1 <= width && h < nel && 1 <= k && L(k) <= nel
    ensures k - 1 < |lp| && Addr(base, width, h) <= Addr(base, width, nel - 1)
    ensures lp[k - 1] >= Addr(base, width, nel - 1) - Addr(base, width, h) <==> L(k - 1) >= nel - 1 - h
  {
    hide L, Table, Scaled;
    Monotone(k - 1, k);
    TableEntry(lp, width, nel, k - 1);
    AddrStep(base, width, nel - 1, nel - 1 - h);
    ScaledOrder(L(k - 1), nel - 1 - h, width);
  }

  lemma SmallOrder(nel: nat, h: nat, k: nat)
    requires L(k) <= h + 1 < nel <= L(MAX_ORDER)
    ensures k < MAX_ORDER
  {
    hide L;
    OrderAtMost(k, MAX_ORDER);
  }

  lemma ShapeFacts(os: seq<nat>)
    requires Shape(os)
    ensures os != [] && Ascending(os) && (os[0] == 0 ==> Merges(os) && os[1] == 1)
  {
    ShapeAscending(os);
  }

  /** The body of the first loop: the current element is put in place, and the shape makes room
      for the next one. */
  method GrowOne(mem: array<Byte>, head: nat, high: nat, width: nat, cmp: Compare, p: array<Word>, pshift: nat,
                 lp: array<Word>, tmp: nat, ghost base: nat, ghost nel: nat, ghost h: nat, ghost os: seq<nat>)
    returns (pshift': nat)
    requires lp != mem as object && p != mem as object && p != lp
    requires Placement(base, width, nel, tmp, mem.Length) && Table(lp[..], width, nel) && 1 <= width
    requires p.Length == 2 && Encodes(p[0], p[1], pshift, os) && Shape(os)
    requires LH.Tiles(h, os) && h + 1 < nel
    requires head == Addr(base, width, h) && high == Addr(base, width, nel - 1)
    modifies mem, p
    ensures Elems(mem[..], base, width, nel) ==
            GrowStep(Elems(old(mem[..]), base, width, nel), h, os, nel - 1, cmp)
    ensures Encodes(p[0], p[1], pshift', Grown(os))
    ensures SameOutside(old(mem[..]), mem[..], base, Addr(base, width, nel), tmp)
  {
    hide L, LH.Sift, LH.Trinkle, LH.Tiles, LH.Fits, Elems, Addr, Table, SameOutside, Pntz, Down, Up, Pair, Orders,
      Close, Encodes, Shape, Or, And, Ascending;
    ghost var p0, p1 := p[0], p[1];
    ShapeFacts(os);
    ForestFacts(nel, h, os, lp[..], width);
    EncodesFirst(p0, p1, pshift, os);
    EncodesMerges(p0, p1, pshift, os);
    if And(p[0], 3) == 3 {
      Sift(mem, head, width, cmp, pshift, lp, tmp, base, nel, h);
      Shr(p, 2);
      pshift' := pshift + 2;
      EncodesMerged(p0, p1, pshift, os, p[0], p[1]);
    } else {
      RestFits(base, width, nel, h, pshift, lp[..]);
      SmallArray(lp[..], width, nel);
      SmallOrder(nel, h, pshift);
      if lp[pshift - 1] >= high - head {
        Trinkle(mem, head, width, cmp, p, pshift, false, lp, tmp, base, nel, h, os);
      } else {
        Sift(mem, head, width, cmp, pshift, lp, tmp, base, nel, h);
      }
      if pshift == 1 {
        Shl(p, 1);
        pshift' := 0;
        EncodesAppended(p0, p1, pshift, os, 1, p[0], p[1]);
      } else {
        Shl(p, pshift - 1);
        pshift' := 1;
        EncodesAppended(p0, p1, pshift, os, pshift - 1, p[0], p[1]);
      }
    }
    p[0] := Or(p[0], 1);
  }

  /** The addresses of the two children that become trees of their own. */
  lemma SplitAddresses(base: nat, width: nat, nel: nat, h: nat, os: seq<nat>, lp: seq<Word>)
    requires Table(lp, width, nel) && h < nel && Shape(os) && LH.Tiles(h, os) && 2 <= os[0]
    ensures LH.Tiles(LH.Left(h, os[0]), [os[0] - 1] + os[1..]) && 0 <= LH.Left(h, os[0]) < h
    ensures LH.Tiles(h - 1, Shrunk(os)) && Shape(Shrunk(os))
    ensures os[0] - 2 < LP_SLOTS == |lp| && lp[os[0] - 2] + width <= Addr(base, width, h)
    ensures Addr(base, width, h) - lp[os[0] - 2] - width == Addr(base, width, LH.Left(h, os[0]))
    ensures Addr(base, width, h) - width == Addr(base, width, h - 1)
    ensures Ascending([os[0] - 1] + os[1..])
  {
    hide L, Table, Addr, LH.Tiles, Shape;
    ShapeFacts(os);
    LeftTiles(h, os);
    RightTiles(h, os);
    FirstFits(nel, h, os);
    ChildAddresses(base, width, nel, h, os[0], lp);
    var left := [os[0] - 1] + os[1..];
    forall i | 0 <= i < |left| - 1
      ensures left[i] < left[i + 1]
    {
      assert os[i] < os[i + 1];
    }
  }

  /** The body of the second loop: the root of the last tree is given up, and its children, if
      any, join the forest, the left one first. */
  method ShrinkOne(mem: array<Byte>, head: nat, width: nat, cmp: Compare, p: array<Word>, pshift: nat,
                   lp: array<Word>, tmp: nat, ghost base: nat, ghost nel: nat, ghost h: nat, ghost os: seq<nat>)
    returns (pshift': nat)
    requires lp != mem as object && p != mem as object && p != lp
    requires Placement(base, width, nel, tmp, mem.Length) && Table(lp[..], width, nel)
    requires p.Length == 2 && Encodes(p[0], p[1], pshift, os) && Shape(os) && os != [1]
    requires LH.Tiles(h, os) && h < nel && head == Addr(base, width, h)
    modifies mem, p
    ensures Elems(mem[..], base, width, nel) == ShrinkStep(Elems(old(mem[..]), base, width, nel), h, os, cmp)
    ensures Encodes(p[0], p[1], pshift', Shrunk(os))
    ensures SameOutside(old(mem[..]), mem[..], base, Addr(base, width, nel), tmp)
  {
    hide L, LH.Sift, LH.Trinkle, LH.Tiles, LH.Fits, LH.Left, Elems, Addr, Table, SameOutside, Pntz, Down, Up, Pair,
      Orders, Close, Encodes, Shape, Or, Xor, And, Ascending;
    ghost var p0, p1 := p[0], p[1];
    ShapeFacts(os);
    ForestFacts(nel, h, os, lp[..], width);
    EncodesFirst(p0, p1, pshift, os);
    if pshift <= 1 {
      OnlyOrderOne(os);
      CloseTail(os);
      NextDistance(p0, p1, pshift, os);
      var trail := Pntz(p[0], p[1]);
      Shr(p, trail);
      pshift' := pshift + trail;
      EncodesTail(p0, p1, pshift, os, trail, p[0], p[1]);
      NothingOutside(mem[..], base, Addr(base, width, nel), tmp);
    } else {
      pshift' := SplitTree(mem, head, width, cmp, p, pshift, lp, tmp, base, nel, h, os);
    }
  }

  lemma OnlyOrderOne(os: seq<nat>)
    requires Shape(os) && os[0] <= 1 && os != [1]
    ensures |os| > 1
  {
    if |os| == 1 && os[0] == 1 {
      SingleOne(os);
    }
  }

  lemma SingleOne(os: seq<nat>)
    requires |os| == 1 && os[0] == 1
    ensures os == [1]
  {
  }

  /** The left child takes the place of its parent. */
  method ToLeft(p: array<Word>, pshift: nat, ghost os: seq<nat>) returns (pshift': nat)
    requires p.Length == 2 && os != [] && Encodes(p[0], p[1], pshift, os) && 2 <= os[0] == pshift
    requires forall i :: 0 <= i < |os| ==> os[i] <= MAX_ORDER
    modifies p
    ensures pshift' == pshift - 2 && Encodes(p[0], p[1], pshift' + 1, [os[0] - 1] + os[1..])
  {
    hide Down, Up, Pair, Orders, Encodes, Xor, Odd;
    ghost var p0, p1 := p[0], p[1];
    Shl(p, 2);
    EncodesUp(p0, p1, pshift, os, 2, p[0], p[1]);
    pshift' := pshift - 2;
    LeftValue(p0, p1, p[0], p[1]);
    p[0] := Xor(p[0], 7);
    ghost var x0, x1 := p[0], p[1];
    Shr(p, 1);
    EncodesLeft(p0, p1, pshift, os, x0, x1, p[0], p[1]);
  }

  /** The right child joins it. */
  method ToRight(p: array<Word>, pshift: nat, ghost left: seq<nat>)
    requires p.Length == 2 && left != [] && left[0] == pshift + 1 && Encodes(p[0], p[1], pshift + 1, left)
    requires forall i :: 0 <= i < |left| ==> left[i] <= MAX_ORDER
    modifies p
    ensures Encodes(p[0], p[1], pshift, [pshift] + left)
  {
    hide Down, Up, Pair, Orders, Encodes, Or, Odd;
    ghost var l0, l1 := p[0], p[1];
    Shl(p, 1);
    EncodesAppended(l0, l1, pshift + 1, left, 1, p[0], p[1]);
    p[0] := Or(p[0], 1);
  }

  /** The case of the second loop in which the tree has children. */
  method SplitTree(mem: array<Byte>, head: nat, width: nat, cmp: Compare, p: array<Word>, pshift: nat,
                   lp: array<Word>, tmp: nat, ghost base: nat, ghost nel: nat, ghost h: nat, ghost os: seq<nat>)
    returns (pshift': nat)
    requires lp != mem as object && p != mem as object && p != lp
    requires Placement(base, width, nel, tmp, mem.Length) && Table(lp[..], width, nel)
    requires p.Length == 2 && Encodes(p[0], p[1], pshift, os) && Shape(os) && 2 <= os[0] == pshift
    requires LH.Tiles(h, os) && h < nel && head == Addr(base, width, h)
    modifies mem, p
    ensures Elems(mem[..], base, width, nel) == ShrinkStep(Elems(old(mem[..]), base, width, nel), h, os, cmp)
    ensures Encodes(p[0], p[1], pshift', Shrunk(os))
    ensures SameOutside(old(mem[..]), mem[..], base, Addr(base, width, nel), tmp)
  {
    hide L, LH.Sift, LH.Trinkle, LH.Tiles, LH.Fits, LH.Left, Elems, Addr, Table, SameOutside, Pntz, Down, Up, Pair,
      Orders, Close, Encodes, Shape, Or, Xor, And, Ascending, Merges, Odd, Scaled,
      ShrinkStep, ShrinkLeft, ShrinkRight, Shrunk;
    ghost var m, s := mem[..], Elems(mem[..], base, width, nel);
    ShapeFacts(os);
    ForestFacts(nel, h, os, lp[..], width);
    SplitAddresses(base, width, nel, h, os, lp[..]);
    ghost var left, lf: nat := [os[0] - 1] + os[1..], LH.Left(h, os[0]);
    ForestFacts(nel, lf, left, lp[..], width);
    ShapeFacts(Shrunk(os));
    ForestFacts(nel, h - 1, Shrunk(os), lp[..], width);

    pshift' := ToLeft(p, pshift, os);
    Trinkle(mem, head - lp[pshift'] - width, width, cmp, p, pshift' + 1, true, lp, tmp, base, nel, lf, left);
    ghost var m', s' := mem[..], Elems(mem[..], base, width, nel);
    SplitLeft(s, h, os, cmp);
    SplitRight(s, s', h, os, cmp);
    ToRight(p, pshift', left);
    Trinkle(mem, head - width, width, cmp, p, pshift', true, lp, tmp, base, nel, h - 1, Shrunk(os));
    SameOutsideTrans(m, m', mem[..], base, Addr(base, width, nel), tmp);
  }

  lemma SplitLeft<T>(s: seq<T>, h: nat, os: seq<nat>, cmp: (T, T) -> int)
    requires Shape(os) && LH.Tiles(h, os) && h < |s| && 2 <= os[0]
    ensures 0 <= LH.Left(h, os[0]) < |s| && LH.Tiles(LH.Left(h, os[0]), [os[0] - 1] + os[1..])
    ensures
      var lf := LH.Left(h, os[0]);
      ShrinkLeft(s, h, os, cmp) == LH.Trinkle(s, lf, [os[0] - 1] + os[1..], s[lf], true, cmp)
  {
    hide LH.Trinkle, LH.Tiles, Shape;
    LeftTiles(h, os);
  }

  lemma SplitRight<T>(s: seq<T>, s': seq<T>, h: nat, os: seq<nat>, cmp: (T, T) -> int)
    requires Shape(os) && LH.Tiles(h, os) && 1 <= h < |s| && 2 <= os[0] && s' == ShrinkLeft(s, h, os, cmp)
    ensures Shrunk(os) == [os[0] - 2] + ([os[0] - 1] + os[1..])
    ensures |s'| == |s| && LH.Tiles(h - 1, Shrunk(os))
    ensures ShrinkStep(s, h, os, cmp) == LH.Trinkle(s', h - 1, Shrunk(os), s'[h - 1], true, cmp)
  {
    hide LH.Trinkle, LH.Tiles, ShrinkLeft;
    RightTiles(h, os);
  }

  /** Fills the table with the scaled Leonardo numbers, up to the first that reaches the size. */
  method FillTable(lp: array<Word>, width: nat, size: nat, ghost nel: nat)
    requires lp.Length == LP_SLOTS && 1 <= width && 1 <= nel <= L(MAX_ORDER)
    requires size == Scaled(nel, width) && 3 * size < WORD
    modifies lp
    ensures Table(lp[..], width, nel)
  {
    hide L, Scaled;
    TableStart(width, nel);
    lp[0], lp[1] := width, width;
    var i := 2;
    lp[2] := lp[0] + lp[1] + width;
    while lp[i] < size
      invariant 2 <= i <= MAX_ORDER
      invariant forall k :: 0 <= k <= i ==> lp[k] == Scaled(L(k), width)
      decreases MAX_ORDER - i
    {
      TableStep(i, width, nel);
      i := i + 1;
      lp[i] := lp[i - 2] + lp[i - 1] + width;
    }
    TableEnd(i, width, nel);
  }

  lemma TableStart(width: nat, nel: nat)
    requires 1 <= nel
    ensures Scaled(L(0), width) == Scaled(L(1), width) == width && Scaled(L(2), width) == 3 * width
    ensures width <= Scaled(nel, width)
  {
    ScaledOne(width);
    ScaledAdd(1, 1, width);
    ScaledAdd(2, 1, width);
    assert L(2) == 3;
    ScaledAdd(nel - 1, 1, width);
  }

  /** The next number follows from the last two, and it stays below three times the size. */
  lemma TableStep(i: nat, width: nat, nel: nat)
    requires 2 <= i && 1 <= width && Scaled(L(i), width) < Scaled(nel, width) && nel <= L(MAX_ORDER)
    ensures i < MAX_ORDER
    ensures Scaled(L(i + 1), width) == Scaled(L(i - 1), width) + Scaled(L(i), width) + width
    ensures Scaled(L(i + 1), width) <= 3 * Scaled(nel, width)
  {
    hide L, Scaled;
    ScaledOrder(L(i), nel, width);
    LeonardoStep(i);
    OrderAtMost(i, MAX_ORDER);
    ScaledAdd(L(i - 1), L(i), width);
    ScaledAdd(L(i - 1) + L(i), 1, width);
    ScaledOne(width);
    StrictlyMonotone(i - 1, i);
    ScaledOrder(L(i - 1), L(i), width);
    ScaledAdd(L(i) - 1, 1, width);
  }

  lemma LeonardoStep(i: nat)
    requires 1 <= i
    ensures L(i + 1) == L(i - 1) + L(i) + 1 && 1 <= L(i - 1)
  {
  }

  lemma TableEnd(i: nat, width: nat, nel: nat)
    requires 2 <= i && 1 <= width && Scaled(L(i), width) >= Scaled(nel, width)
    ensures forall k: nat :: L(k) <= nel ==> k <= i
  {
    ScaledOrder(L(i), nel, width);
    forall k: nat | L(k) <= nel
      ensures k <= i
    {
      OrderAtMost(k, i);
    }
  }

  /** The array holds the same elements as before, and nothing else has changed. */
  ghost predicate Rearranged(m0: seq<Byte>, m: seq<Byte>, base: nat, width: nat, nel: nat, tmp: nat) {
    && |m0| == |m| && Addr(base, width, nel) <= |m|
    && multiset(Elems(m, base, width, nel)) == multiset(Elems(m0, base, width, nel))
    && SameOutside(m0, m, base, Addr(base, width, nel), tmp)
  }

  lemma RearrangedNot(m: seq<Byte>, base: nat, width: nat, nel: nat, tmp: nat)
    requires Addr(base, width, nel) <= |m|
    ensures Rearranged(m, m, base, width, nel, tmp)
  {
  }

  lemma RearrangedStep(m0: seq<Byte>, m: seq<Byte>, m': seq<Byte>, base: nat, width: nat, nel: nat, tmp: nat)
    requires Rearranged(m0, m, base, width, nel, tmp) && |m'| == |m|
    requires multiset(Elems(m', base, width, nel)) == multiset(Elems(m, base, width, nel))
    requires SameOutside(m, m', base, Addr(base, width, nel), tmp)
    ensures Rearranged(m0, m', base, width, nel, tmp)
  {
    SameOutsideTrans(m0, m, m', base, Addr(base, width, nel), tmp);
  }

  /** The first phase: the array becomes one forest of heaps with ascending roots. */
  method GrowForest(mem: array<Byte>, base: nat, width: nat, cmp: Compare, p: array<Word>, lp: array<Word>, high: nat,
                    tmp: nat, ghost nel: nat)
    returns (head: nat, pshift: nat, ghost os: seq<nat>)
    requires LH.TotalPreorder(cmp)
    requires lp != mem as object && p != mem as object && p != lp
    requires Placement(base, width, nel, tmp, mem.Length) && Table(lp[..], width, nel) && 1 <= width && 1 <= nel
    requires p.Length == 2 && p[0] == 1 && p[1] == 0 && high == Addr(base, width, nel - 1)
    modifies mem, p
    ensures head == high && Encodes(p[0], p[1], pshift, os)
    ensures Shrinking(Elems(mem[..], base, width, nel), nel - 1, os, cmp)
    ensures Rearranged(old(mem[..]), mem[..], base, width, nel, tmp)
  {
    hide L, LH.Sift, LH.Trinkle, LH.Tiles, LH.Fits, LH.Forest, LH.TotalPreorder, Elems, Table, SameOutside, Pair,
      Orders, Encodes, Shape, Growing, Shrinking, GrowStep, Addr, Grown, Rearranged;
    pshift := 1;
    head := base;
    ghost var m0, m, h: nat := mem[..], mem[..], 0;
    ghost var s := Elems(m, base, width, nel);
    os := [1];
    AddrZero(base, width);
    EncodesSingle();
    GrowBegins(s, nel - 1, cmp);
    RearrangedNot(m, base, width, nel, tmp);
    while head < high
      invariant Encodes(p[0], p[1], pshift, os) && Table(lp[..], width, nel)
      invariant m == mem[..] && s == Elems(m, base, width, nel)
      invariant h < nel && head == Addr(base, width, h)
      invariant Growing(s, h, os, nel - 1, cmp)
      invariant Rearranged(m0, m, base, width, nel, tmp)
      decreases nel - h
    {
      HeadBelow(base, width, h, nel - 1);
      GrowingFacts(s, h, os, nel - 1, cmp);
      GrowKeeps(s, h, os, nel - 1, cmp);
      GrowStepElements(s, h, os, nel - 1, cmp);
      pshift := GrowOne(mem, head, high, width, cmp, p, pshift, lp, tmp, base, nel, h, os);
      RearrangedStep(m0, m, mem[..], base, width, nel, tmp);
      NextHead(base, width, h);
      head := head + width;
      m, h, os := mem[..], h + 1, Grown(os);
      s := Elems(m, base, width, nel);
    }
    HeadBelow(base, width, h, nel - 1);
    GrowingFacts(s, h, os, nel - 1, cmp);
    ShapeFacts(os);
    ForestFacts(nel, h, os, lp[..], width);
    Trinkle(mem, head, width, cmp, p, pshift, false, lp, tmp, base, nel, h, os);
    ShrinkBegins(s, h, os, cmp);
    RearrangedStep(m0, m, mem[..], base, width, nel, tmp);
  }

  /** The second phase: the roots are given up from right to left, each greater than the rest. */
  method ShrinkForest(mem: array<Byte>, base: nat, width: nat, cmp: Compare, p: array<Word>, lp: array<Word>,
                      last: nat, shift: nat, tmp: nat, ghost nel: nat, ghost forest: seq<nat>)
    requires LH.TotalPreorder(cmp)
    requires lp != mem as object && p != mem as object && p != lp
    requires Placement(base, width, nel, tmp, mem.Length) && Table(lp[..], width, nel) && 1 <= width && 1 <= nel
    requires p.Length == 2 && Encodes(p[0], p[1], shift, forest) && last == Addr(base, width, nel - 1)
    requires Shrinking(Elems(mem[..], base, width, nel), nel - 1, forest, cmp)
    modifies mem, p
    ensures Sorted(Elems(mem[..], base, width, nel), cmp)
    ensures Rearranged(old(mem[..]), mem[..], base, width, nel, tmp)
  {
    hide L, LH.Sift, LH.Trinkle, LH.Tiles, LH.Fits, LH.Forest, LH.TotalPreorder, Elems, Table, SameOutside, Pair,
      Orders, Encodes, Shape, Shrinking, ShrinkStep, Sorted, Addr, Shrunk, Rearranged;
    var head, pshift := last, shift;
    ghost var m0, m, h: nat, os := mem[..], mem[..], nel - 1, forest;
    ghost var s := Elems(m, base, width, nel);
    RearrangedNot(m, base, width, nel, tmp);
    EncodesFirst(p[0], p[1], pshift, os);
    while pshift != 1 || p[0] != 1 || p[1] != 0
      invariant Encodes(p[0], p[1], pshift, os) && Table(lp[..], width, nel)
      invariant m == mem[..] && s == Elems(m, base, width, nel)
      invariant h < nel && head == Addr(base, width, h)
      invariant Shrinking(s, h, os, cmp)
      invariant os != [] && os[0] == pshift && (|os| == 1 <==> p[0] == 1 && p[1] == 0)
      invariant Rearranged(m0, m, base, width, nel, tmp)
      decreases h
    {
      ShrinkingFacts(s, h, os, cmp);
      ShrinkKeeps(s, h, os, cmp);
      ShrinkStepElements(s, h, os, cmp);
      pshift := ShrinkOne(mem, head, width, cmp, p, pshift, lp, tmp, base, nel, h, os);
      RearrangedStep(m0, m, mem[..], base, width, nel, tmp);
      NextHead(base, width, h - 1);
      head := head - width;
      m, h, os := mem[..], h - 1, Shrunk(os);
      s := Elems(m, base, width, nel);
      EncodesFirst(p[0], p[1], pshift, os);
    }
    assert os == [1];
    ShrinkEnds(s, h, os, cmp);
  }

  /** Sorts nel elements of the given width at base, in place, for every total preorder. */
  method Qsort(mem: array<Byte>, base: nat, nel: nat, width: nat, cmp: Compare, tmp: nat)
    requires LH.TotalPreorder(cmp)
    requires nel <= L(MAX_ORDER) && 3 * (nel * width) < WORD
    requires base + nel * width <= mem.Length && tmp + TMP_SIZE <= mem.Length
    requires base + nel * width <= tmp || tmp + TMP_SIZE <= base
    modifies mem
    ensures Addr(base, width, nel) == base + nel * width
    ensures Sorted(Elems(mem[..], base, width, nel), cmp)
    ensures Rearranged(old(mem[..]), mem[..], base, width, nel, tmp)
  {
    hide L, LH.TotalPreorder, Elems, Table, Encodes, Shrinking, Sorted, Rearranged;
    Sizes(base, width, nel);
    RearrangedNot(mem[..], base, width, nel, tmp);
    var size := width * nel;
    if size == 0 {
      NothingToSort(mem[..], base, width, nel, cmp);
      return;
    }
    var lp := new Word[LP_SLOTS];
    FillTable(lp, width, size, nel);
    var p := new Word[2];
    p[0], p[1] := 1, 0;
    HighAddress(base, width, nel);
    ghost var m0 := mem[..];
    var head, pshift, os := GrowForest(mem, base, width, cmp, p, lp, base + size - width, tmp, nel);
    ghost var m1 := mem[..];
    ShrinkForest(mem, base, width, cmp, p, lp, head, pshift, tmp, nel, os);
    RearrangedTwice(m0, m1, mem[..], base, width, nel, tmp);
  }

  lemma RearrangedTwice(m0: seq<Byte>, m: seq<Byte>, m': seq<Byte>, base: nat, width: nat, nel: nat, tmp: nat)
    requires Rearranged(m0, m, base, width, nel, tmp) && Rearranged(m, m', base, width, nel, tmp)
    ensures Rearranged(m0, m', base, width, nel, tmp)
  {
    RearrangedStep(m0, m, m', base, width, nel, tmp);
  }

  lemma Sizes(base: nat, width: nat, nel: nat)
    ensures Addr(base, width, nel) == base + nel * width && Scaled(nel, width) == width * nel
    ensures width * nel == 0 <==> width == 0 || nel == 0
  {
    ScaledIsTimes(nel, width);
    assert width * nel == nel * width;
  }

  lemma NothingToSort(m: seq<Byte>, base: nat, width: nat, nel: nat, cmp: Compare)
    requires LH.TotalPreorder(cmp) && Addr(base, width, nel) <= |m| && (nel == 0 || width == 0)
    ensures Sorted(Elems(m, base, width, nel), cmp)
  {
    hide Elems;
    var s := Elems(m, base, width, nel);
    forall i, j | 0 <= i < j < |s|
      ensures LH.Le(cmp, s[i], s[j])
    {
      ElemsAt(m, base, width, nel, i);
      ElemsAt(m, base, width, nel, j);
      assert s[i] == s[j];
      LH.Refl(cmp, s[i]);
    }
  }

  lemma HighAddress(base: nat, width: nat, nel: nat)
    requires 1 <= nel
    ensures Addr(base, width, nel) - width == Addr(base, width, nel - 1)
  {
  }

  lemma AddrZero(base: nat, width: nat)
    ensures Addr(base, width, 0) == base
  {
  }

  lemma NextHead(base: nat, width: nat, h: nat)
    ensures Addr(base, width, h) + width == Addr(base, width, h + 1)
  {
  }

  lemma HeadBelow(base: nat, width: nat, h: nat, last: nat)
    requires 1 <= width && h <= last
    ensures Addr(base, width, h) < Addr(base, width, last) <==> h < last
  {
    ScaledOrder(h, last, width);
  }

  lemma EncodesSingle()
    ensures Encodes(1, 0, 1, [1])
  {
    assert Orders(0, 2) == [];
    assert Orders(1, 1) == [1] + Orders(0, 2);
  }
}
