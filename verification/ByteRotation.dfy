/** Rotating equally wide slots of a flat byte memory through a buffer of 256 bytes. */
module ByteRotation {
  import opened Copies
  import opened Words

  const TMP_SIZE: nat := 256

  /** The slots c of the given width and the buffer at tmp lie in the memory and do not overlap. */
  ghost predicate Separate(c: seq<nat>, width: nat, tmp: nat, size: nat) {
    && tmp + TMP_SIZE <= size
    && (forall i :: 0 <= i < |c| ==> c[i] + width <= size && Clear(c[i], width, tmp, TMP_SIZE))
    && (forall i, j :: 0 <= i < j < |c| ==> Clear(c[i], width, c[j], width))
  }

  /** Byte k of the slot at address a. */
  function At(m: seq<Byte>, a: nat, k: nat): Byte
    requires a + k < |m|
  {
    m[a + k]
  }

  predicate InSlot(q: nat, a: nat, width: nat) {
    a <= q < a + width
  }

  /** q belongs to none of the slots and not to the buffer. */
  ghost predicate Elsewhere(q: nat, c: seq<nat>, width: nat, tmp: nat) {
    !InSlot(q, tmp, TMP_SIZE) && forall i :: 0 <= i < |c| ==> !InSlot(q, c[i], width)
  }

  ghost predicate SameElsewhere(m: seq<Byte>, m': seq<Byte>, c: seq<nat>, width: nat, tmp: nat) {
    |m| == |m'| && forall q :: 0 <= q < |m| && Elsewhere(q, c, width, tmp) ==> m'[q] == m[q]
  }

  /** The slot whose contents go to slot i. */
  function Source(i: nat, n: nat): nat
    requires i < n
  {
    if i + 1 < n then i + 1 else 0
  }

  /** Every slot has received the old contents of its successor, the last one those of the first. */
  ghost predicate Rotated(m: seq<Byte>, m': seq<Byte>, c: seq<nat>, width: nat)
    requires |m| == |m'| && forall i :: 0 <= i < |c| ==> c[i] + width <= |m|
  {
    forall i, k :: 0 <= i < |c| && 0 <= k < width ==> At(m', c[i], k) == At(m, c[Source(i, |c|)], k)
  }

  /** The effect of copying l bytes from src to dst. */
  ghost predicate Copied(m: seq<Byte>, m': seq<Byte>, dst: nat, src: nat, l: nat)
    requires |m| == |m'| && dst + l <= |m| && src + l <= |m|
  {
    && (forall q :: 0 <= q < |m| && !InSlot(q, dst, l) ==> m'[q] == m[q])
    && (forall k :: 0 <= k < l ==> At(m', dst, k) == At(m, src, k))
  }

  method Memcpy(mem: array<Byte>, dst: nat, src: nat, l: nat)
    requires dst + l <= mem.Length && src + l <= mem.Length && Clear(dst, l, src, l)
    modifies mem
    ensures Copied(old(mem[..]), mem[..], dst, src, l)
  {
    for i := 0 to l
      invariant forall q :: 0 <= q < mem.Length && !InSlot(q, dst, i) ==> mem[q] == old(mem[q])
      invariant forall k :: 0 <= k < i ==> At(mem[..], dst, k) == old(At(mem[..], src, k))
    {
      mem[dst + i] := mem[src + i];
    }
  }

  /** What is moved: the first `done` bytes of every slot, and `part` bytes more of the first i. */
  ghost predicate Progress(m0: seq<Byte>, m: seq<Byte>, c: seq<nat>, width: nat, done: nat, part: nat, i: nat)
    requires |m0| == |m| && forall i :: 0 <= i < |c| ==> c[i] + width <= |m|
  {
    forall j, k :: 0 <= j < |c| && 0 <= k < width ==>
      At(m, c[j], k) ==
      if k < done || (j < i && k < done + part) then At(m0, c[Source(j, |c|)], k) else At(m0, c[j], k)
  }

  /** The buffer holds the part of the first slot that is about to be overwritten. */
  ghost predicate Saved(m0: seq<Byte>, m: seq<Byte>, c: seq<nat>, width: nat, tmp: nat, done: nat, l: nat)
    requires |m0| == |m| && c != [] && c[0] + width <= |m| && tmp + TMP_SIZE <= |m|
    requires done + l <= width && l <= TMP_SIZE
  {
    forall k :: 0 <= k < l ==> At(m, tmp, k) == At(m0, c[0], done + k)
  }

  lemma SaveFirst(m0: seq<Byte>, m: seq<Byte>, m': seq<Byte>, c: seq<nat>, width: nat, tmp: nat, done: nat, l: nat)
    requires |m0| == |m| == |m'| && 2 <= |c| && Separate(c, width, tmp, |m|)
    requires done + l <= width && l <= TMP_SIZE
    requires Progress(m0, m, c, width, done, 0, 0) && SameElsewhere(m0, m, c, width, tmp)
    requires Copied(m, m', tmp, c[0] + done, l)
    ensures Progress(m0, m', c, width, done, l, 0) && SameElsewhere(m0, m', c, width, tmp)
    ensures Saved(m0, m', c, width, tmp, done, l)
  {
    forall j, k | 0 <= j < |c| && 0 <= k < width
      ensures At(m', c[j], k) == At(m, c[j], k)
    {
      assert Clear(c[j], width, tmp, TMP_SIZE);
    }
    forall k | 0 <= k < l
      ensures At(m', tmp, k) == At(m0, c[0], done + k)
    {
      assert At(m, c[0] + done, k) == At(m, c[0], done + k);
    }
  }

  lemma MovePart(m0: seq<Byte>, m: seq<Byte>, m': seq<Byte>, c: seq<nat>, width: nat, tmp: nat, done: nat, l: nat,
                 i: nat)
    requires |m0| == |m| == |m'| && 2 <= |c| && Separate(c, width, tmp, |m|)
    requires done + l <= width && l <= TMP_SIZE && i < |c|
    requires Progress(m0, m, c, width, done, l, i) && Saved(m0, m, c, width, tmp, done, l)
    requires Copied(m, m', c[i] + done, if i + 1 < |c| then c[i + 1] + done else tmp, l)
    ensures Progress(m0, m', c, width, done, l, i + 1) && Saved(m0, m', c, width, tmp, done, l)
  {
    forall j, k | 0 <= j < |c| && 0 <= k < width
      ensures At(m', c[j], k) ==
              if k < done || (j < i + 1 && k < done + l) then At(m0, c[Source(j, |c|)], k) else At(m0, c[j], k)
    {
      if j == i && done <= k < done + l {
        var b := k - done;
        assert At(m', c[i] + done, b) == At(m', c[i], k);
        if i + 1 < |c| {
          assert At(m, c[i + 1] + done, b) == At(m, c[i + 1], k);
        }
      } else {
        assert j == i || (if j < i then Clear(c[j], width, c[i], width) else Clear(c[i], width, c[j], width));
        assert At(m', c[j], k) == At(m, c[j], k);
      }
    }
    forall k | 0 <= k < l
      ensures At(m', tmp, k) == At(m0, c[0], done + k)
    {
      assert Clear(c[i], width, tmp, TMP_SIZE);
      assert At(m', tmp, k) == At(m, tmp, k);
    }
  }

  lemma MoveElsewhere(m0: seq<Byte>, m: seq<Byte>, m': seq<Byte>, c: seq<nat>, width: nat, tmp: nat, done: nat,
                      l: nat, i: nat, src: nat)
    requires |m0| == |m| == |m'| && 2 <= |c| && Separate(c, width, tmp, |m|)
    requires done + l <= width && i < |c| && src + l <= |m|
    requires SameElsewhere(m0, m, c, width, tmp) && Copied(m, m', c[i] + done, src, l)
    ensures SameElsewhere(m0, m', c, width, tmp)
  {
    forall q | 0 <= q < |m| && Elsewhere(q, c, width, tmp)
      ensures m'[q] == m0[q]
    {
      assert !InSlot(q, c[i], width);
    }
  }

  /** Rotates the slots ar[0..n) by one, 256 bytes at a time; the pointers advance, and ar[n]
      serves for the buffer. */
  method Cycle(mem: array<Byte>, width: nat, ar: array<nat>, n: nat, tmp: nat)
    requires mem != ar as object
    requires n < 2 || n < ar.Length
    requires n < 2 || Separate(ar[..n], width, tmp, mem.Length)
    modifies mem, ar
    ensures n < 2 ==> mem[..] == old(mem[..])
    ensures n >= 2 ==> Rotated(old(mem[..]), mem[..], old(ar[..n]), width)
    ensures n >= 2 ==> SameElsewhere(old(mem[..]), mem[..], old(ar[..n]), width, tmp)
  {
    hide Progress, SameElsewhere, Saved, Copied, Clear;
    if n < 2 {
      return;
    }
    ghost var c, m0 := ar[..n], mem[..];
    ghost var m := m0;
    var left := width;
    ar[n] := tmp;
    assert m == mem[..];
    NothingMoved(m0, c, width, tmp);
    while left > 0
      invariant 0 <= left <= width && ar[n] == tmp && m == mem[..]
      invariant forall j :: 0 <= j < n ==> ar[j] == c[j] + (width - left)
      invariant Progress(m0, m, c, width, width - left, 0, 0) && SameElsewhere(m0, m, c, width, tmp)
    {
      var l := if TMP_SIZE < left then TMP_SIZE else left;
      ghost var done := width - left;
      ApartParts(c[0], width, tmp, TMP_SIZE, done, 0, l);
      Memcpy(mem, ar[n], ar[0], l);
      SaveFirst(m0, m, mem[..], c, width, tmp, done, l);
      m := mem[..];
      for i := 0 to n
        invariant ar[n] == tmp && m == mem[..]
        invariant forall j :: 0 <= j < i ==> ar[j] == c[j] + done + l
        invariant forall j :: i <= j < n ==> ar[j] == c[j] + done
        invariant Progress(m0, m, c, width, done, l, i) && SameElsewhere(m0, m, c, width, tmp)
        invariant Saved(m0, m, c, width, tmp, done, l)
      {
        if i + 1 < n {
          ApartParts(c[i], width, c[i + 1], width, done, done, l);
        } else {
          ApartParts(c[i], width, tmp, TMP_SIZE, done, 0, l);
        }
        Memcpy(mem, ar[i], ar[i + 1], l);
        MovePart(m0, m, mem[..], c, width, tmp, done, l, i);
        MoveElsewhere(m0, m, mem[..], c, width, tmp, done, l, i, ar[i + 1]);
        m := mem[..];
        ar[i] := ar[i] + l;
      }
      PartDone(m0, m, c, width, done, l);
      left := left - l;
    }
    AllMoved(m0, m, c, width);
  }

  lemma ApartParts(a: nat, la: nat, b: nat, lb: nat, i: nat, j: nat, l: nat)
    requires Clear(a, la, b, lb) && i + l <= la && j + l <= lb
    ensures Clear(a + i, l, b + j, l) && Clear(b + j, l, a + i, l)
  {
  }

  lemma NothingMoved(m: seq<Byte>, c: seq<nat>, width: nat, tmp: nat)
    requires forall i :: 0 <= i < |c| ==> c[i] + width <= |m|
    ensures Progress(m, m, c, width, 0, 0, 0) && SameElsewhere(m, m, c, width, tmp)
  {
  }

  lemma PartDone(m0: seq<Byte>, m: seq<Byte>, c: seq<nat>, width: nat, done: nat, l: nat)
    requires |m0| == |m| && forall i :: 0 <= i < |c| ==> c[i] + width <= |m|
    requires Progress(m0, m, c, width, done, l, |c|)
    ensures Progress(m0, m, c, width, done + l, 0, 0)
  {
  }

  lemma AllMoved(m0: seq<Byte>, m: seq<Byte>, c: seq<nat>, width: nat)
    requires |m0| == |m| && forall i :: 0 <= i < |c| ==> c[i] + width <= |m|
    requires Progress(m0, m, c, width, width, 0, 0)
    ensures Rotated(m0, m, c, width)
  {
  }
}
