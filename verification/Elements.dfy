/** An array of equally wide elements in a flat byte memory. */
module Elements {
  import opened ByteRotation
  import opened Copies
  import opened Words

  /** The size of d elements. */
  function Scaled(d: nat, width: nat): nat {
    if d == 0 then 0 else Scaled(d - 1, width) + width
  }

  /** The address of element i. */
  function Addr(base: nat, width: nat, i: nat): nat {
    base + Scaled(i, width)
  }

  lemma {:induction false} ScaledIsTimes(d: nat, width: nat)
    ensures Scaled(d, width) == d * width
  {
    if d > 0 {
      ScaledIsTimes(d - 1, width);
    }
  }

  lemma {:induction false} ScaledAdd(d: nat, e: nat, width: nat)
    ensures Scaled(d + e, width) == Scaled(d, width) + Scaled(e, width)
  {
    if e > 0 {
      ScaledAdd(d, e - 1, width);
    }
  }

  lemma ScaledOne(width: nat)
    ensures Scaled(1, width) == width && Scaled(0, width) == 0
  {
  }

  lemma {:induction false} ScaledOrder(d: nat, e: nat, width: nat)
    requires 1 <= width
    ensures Scaled(d, width) < Scaled(e, width) <==> d < e
    decreases d + e
  {
    if d > 0 && e > 0 {
      ScaledOrder(d - 1, e - 1, width);
    }
  }

  lemma AddrStep(base: nat, width: nat, i: nat, d: nat)
    requires d <= i
    ensures Addr(base, width, i - d) == Addr(base, width, i) - Scaled(d, width)
    ensures base + Scaled(d, width) <= Addr(base, width, i)
  {
    ScaledAdd(i - d, d, width);
  }

  lemma AddrInside(base: nat, width: nat, i: nat, n: nat)
    requires i < n
    ensures base <= Addr(base, width, i) && Addr(base, width, i) + width <= Addr(base, width, n)
  {
    ScaledAdd(i + 1, n - i - 1, width);
  }

  lemma AddrApart(base: nat, width: nat, i: nat, j: nat)
    requires i < j
    ensures Clear(Addr(base, width, j), width, Addr(base, width, i), width)
  {
    AddrInside(base, width, i, j);
  }

  function Elem(m: seq<Byte>, a: nat, width: nat): seq<Byte>
    requires a + width <= |m|
  {
    m[a..a + width]
  }

  /** The n elements of the given width from base on. */
  function Elems(m: seq<Byte>, base: nat, width: nat, n: nat): (s: seq<seq<Byte>>)
    requires Addr(base, width, n) <= |m|
    ensures |s| == n
  {
    if n == 0 then []
    else
      AddrInside(base, width, n - 1, n);
      Elems(m, base, width, n - 1) + [Elem(m, Addr(base, width, n - 1), width)]
  }

  lemma {:induction false} ElemsAt(m: seq<Byte>, base: nat, width: nat, n: nat, i: nat)
    requires Addr(base, width, n) <= |m| && i < n
    ensures Addr(base, width, i) + width <= |m|
    ensures Elems(m, base, width, n)[i] == Elem(m, Addr(base, width, i), width)
  {
    AddrInside(base, width, i, n);
    if i < n - 1 {
      AddrInside(base, width, n - 1, n);
      ElemsAt(m, base, width, n - 1, i);
    }
  }

  /** Nothing but the element array and the buffer has changed. */
  ghost predicate SameOutside(m: seq<Byte>, m': seq<Byte>, base: nat, end: nat, tmp: nat) {
    |m| == |m'| &&
    forall q :: 0 <= q < |m| && !(base <= q < end) && !InSlot(q, tmp, TMP_SIZE) ==> m'[q] == m[q]
  }

  lemma SameOutsideTrans(m: seq<Byte>, m': seq<Byte>, m'': seq<Byte>, base: nat, end: nat, tmp: nat)
    requires SameOutside(m, m', base, end, tmp) && SameOutside(m', m'', base, end, tmp)
    ensures SameOutside(m, m'', base, end, tmp)
  {
  }

  /** The array and the buffer of the rotation lie in the memory and do not overlap. */
  predicate Placement(base: nat, width: nat, n: nat, tmp: nat, size: nat) {
    && Addr(base, width, n) <= size && tmp + TMP_SIZE <= size
    && (Addr(base, width, n) <= tmp || tmp + TMP_SIZE <= base)
  }

  // ---------- a chain of elements ----------

  /** Strictly descending indices. */
  ghost predicate Chain(idx: seq<nat>, n: nat) {
    && (forall i :: 0 <= i < |idx| ==> idx[i] < n)
    && (forall i, j :: 0 <= i < j < |idx| ==> idx[j] < idx[i])
  }

  ghost predicate Addresses(c: seq<nat>, idx: seq<nat>, base: nat, width: nat) {
    |c| == |idx| && forall i :: 0 <= i < |c| ==> c[i] == Addr(base, width, idx[i])
  }

  lemma ChainSeparate(c: seq<nat>, idx: seq<nat>, base: nat, width: nat, n: nat, tmp: nat, size: nat)
    requires Chain(idx, n) && Addresses(c, idx, base, width) && Placement(base, width, n, tmp, size)
    ensures Separate(c, width, tmp, size)
  {
    forall i | 0 <= i < |c|
      ensures c[i] + width <= size && Clear(c[i], width, tmp, TMP_SIZE)
    {
      AddrInside(base, width, idx[i], n);
    }
    forall i, j | 0 <= i < j < |c|
      ensures Clear(c[i], width, c[j], width)
    {
      AddrApart(base, width, idx[j], idx[i]);
    }
  }

  /** cur is s with the values of the chain moved up by one; its last slot is still as in s. */
  ghost predicate MovedUp<T>(s: seq<T>, cur: seq<T>, idx: seq<nat>)
    requires forall i :: 0 <= i < |idx| ==> idx[i] < |s|
  {
    && |cur| == |s|
    && (forall i :: 0 <= i < |idx| - 1 ==> cur[idx[i]] == s[idx[i + 1]])
    && (forall q :: 0 <= q < |s| && (forall i :: 0 <= i < |idx| - 1 ==> idx[i] != q) ==> cur[q] == s[q])
  }

  /** One more link: what was at the hole `idx[|idx| - 1]` is replaced by the value at `next`. */
  lemma MoveUpOne<T>(s: seq<T>, cur: seq<T>, idx: seq<nat>, next: nat)
    requires idx != [] && Chain(idx, |s|) && MovedUp(s, cur, idx) && next < idx[|idx| - 1]
    ensures var h := idx[|idx| - 1];
            Chain(idx + [next], |s|) && MovedUp(s, cur[h := s[next]], idx + [next])
  {
    var h, idx', cur' := idx[|idx| - 1], idx + [next], cur[idx[|idx| - 1] := s[next]];
    forall q | 0 <= q < |s| && (forall i :: 0 <= i < |idx'| - 1 ==> idx'[i] != q)
      ensures cur'[q] == s[q]
    {
      assert idx'[|idx| - 1] == h != q;
      forall i | 0 <= i < |idx| - 1
        ensures idx[i] != q
      {
        assert idx'[i] == idx[i];
      }
    }
  }

  /** Below the last link nothing has moved. */
  lemma MovedUpBelow<T>(s: seq<T>, cur: seq<T>, idx: seq<nat>, q: nat)
    requires idx != [] && Chain(idx, |s|) && MovedUp(s, cur, idx) && q <= idx[|idx| - 1]
    ensures cur[q] == s[q]
  {
  }

  /** Rotating the bytes of a chain fills its last slot with the value of the first. */
  lemma RotateChain(m: seq<Byte>, m': seq<Byte>, c: seq<nat>, idx: seq<nat>, base: nat, width: nat, n: nat, tmp: nat,
                    cur: seq<seq<Byte>>)
    requires |m| == |m'| && Placement(base, width, n, tmp, |m|)
    requires Chain(idx, n) && Addresses(c, idx, base, width) && idx != []
    requires Separate(c, width, tmp, |m|)
    requires Rotated(m, m', c, width) && SameElsewhere(m, m', c, width, tmp)
    requires MovedUp(Elems(m, base, width, n), cur, idx)
    ensures Elems(m', base, width, n) == cur[idx[|idx| - 1] := Elems(m, base, width, n)[idx[0]]]
    ensures SameOutside(m, m', base, Addr(base, width, n), tmp)
  {
    hide Elems, Separate, Clear, Rotated, SameElsewhere, MovedUp, Addresses, Addr;
    var s, s' := Elems(m, base, width, n), Elems(m', base, width, n);
    forall i | 0 <= i < |idx|
      ensures s'[idx[i]] == s[idx[Source(i, |idx|)]]
    {
      RotatedElem(m, m', c, idx, base, width, n, tmp, i);
    }
    forall q | 0 <= q < n && forall i :: 0 <= i < |idx| ==> idx[i] != q
      ensures s'[q] == s[q]
    {
      OtherElem(m, m', c, idx, base, width, n, tmp, q);
    }
    ChainFilled(s, s', idx, cur);
    RotateOutside(m, m', c, idx, base, width, n, tmp);
  }

  lemma ChainFilled<T>(s: seq<T>, s': seq<T>, idx: seq<nat>, cur: seq<T>)
    requires |s| == |s'| && Chain(idx, |s|) && idx != [] && MovedUp(s, cur, idx)
    requires forall i :: 0 <= i < |idx| ==> s'[idx[i]] == s[idx[Source(i, |idx|)]]
    requires forall q :: 0 <= q < |s| && (forall i :: 0 <= i < |idx| ==> idx[i] != q) ==> s'[q] == s[q]
    ensures s' == cur[idx[|idx| - 1] := s[idx[0]]]
  {
    var want := cur[idx[|idx| - 1] := s[idx[0]]];
    forall q | 0 <= q < |s|
      ensures s'[q] == want[q]
    {
      if i :| 0 <= i < |idx| && idx[i] == q {
        assert s'[idx[i]] == s[idx[Source(i, |idx|)]];
      }
    }
  }

  lemma RotatedElem(m: seq<Byte>, m': seq<Byte>, c: seq<nat>, idx: seq<nat>, base: nat, width: nat, n: nat, tmp: nat,
                    i: nat)
    requires |m| == |m'| && Placement(base, width, n, tmp, |m|) && i < |idx|
    requires Chain(idx, n) && Addresses(c, idx, base, width) && Separate(c, width, tmp, |m|)
    requires Rotated(m, m', c, width)
    ensures Elems(m', base, width, n)[idx[i]] == Elems(m, base, width, n)[idx[Source(i, |idx|)]]
  {
    hide Elems;
    var j := Source(i, |idx|);
    ElemsAt(m', base, width, n, idx[i]);
    ElemsAt(m, base, width, n, idx[j]);
    var e', e := Elem(m', c[i], width), Elem(m, c[j], width);
    forall k | 0 <= k < width
      ensures e'[k] == e[k]
    {
      assert At(m', c[i], k) == At(m, c[j], k);
    }
    assert e' == e;
  }

  lemma OtherElem(m: seq<Byte>, m': seq<Byte>, c: seq<nat>, idx: seq<nat>, base: nat, width: nat, n: nat, tmp: nat,
                  q: nat)
    requires |m| == |m'| && Placement(base, width, n, tmp, |m|) && q < n
    requires Chain(idx, n) && Addresses(c, idx, base, width) && SameElsewhere(m, m', c, width, tmp)
    requires forall i :: 0 <= i < |idx| ==> idx[i] != q
    ensures Elems(m', base, width, n)[q] == Elems(m, base, width, n)[q]
  {
    hide Elems, Addr, SameElsewhere, Clear;
    ElemsAt(m', base, width, n, q);
    ElemsAt(m, base, width, n, q);
    var a := Addr(base, width, q);
    var e', e := Elem(m', a, width), Elem(m, a, width);
    forall k | 0 <= k < width
      ensures e'[k] == e[k]
    {
      OtherByte(m, m', c, idx, base, width, n, tmp, q, k);
    }
    assert e' == e;
  }

  lemma OtherByte(m: seq<Byte>, m': seq<Byte>, c: seq<nat>, idx: seq<nat>, base: nat, width: nat, n: nat, tmp: nat,
                  q: nat, k: nat)
    requires |m| == |m'| && Placement(base, width, n, tmp, |m|) && q < n && k < width
    requires Chain(idx, n) && Addresses(c, idx, base, width) && SameElsewhere(m, m', c, width, tmp)
    requires forall i :: 0 <= i < |idx| ==> idx[i] != q
    ensures Addr(base, width, q) + k < |m| && m'[Addr(base, width, q) + k] == m[Addr(base, width, q) + k]
  {
    hide Addr;
    AddrInside(base, width, q, n);
    var p := Addr(base, width, q) + k;
    forall i | 0 <= i < |c|
      ensures !InSlot(p, c[i], width)
    {
      if idx[i] < q {
        AddrApart(base, width, idx[i], q);
      } else {
        AddrApart(base, width, q, idx[i]);
      }
    }
    assert Elsewhere(p, c, width, tmp);
  }

  lemma RotateOutside(m: seq<Byte>, m': seq<Byte>, c: seq<nat>, idx: seq<nat>, base: nat, width: nat, n: nat, tmp: nat)
    requires |m| == |m'| && Placement(base, width, n, tmp, |m|)
    requires Chain(idx, n) && Addresses(c, idx, base, width) && SameElsewhere(m, m', c, width, tmp)
    ensures SameOutside(m, m', base, Addr(base, width, n), tmp)
  {
    forall q | 0 <= q < |m| && !(base <= q < Addr(base, width, n)) && !InSlot(q, tmp, TMP_SIZE)
      ensures m'[q] == m[q]
    {
      forall i | 0 <= i < |c|
        ensures !InSlot(q, c[i], width)
      {
        AddrInside(base, width, idx[i], n);
      }
      assert Elsewhere(q, c, width, tmp);
    }
  }
}
