/** Moving the scattered segments of a guest's request into one packet, and back. */
module Dma {
  import opened Copies
  import opened Words

  /** A segment of guest memory, relative to the offset of its message. */
  datatype Descriptor = Descriptor(byteoffset: nat, bytecount: nat)

  function SumLength(dma: seq<Descriptor>): nat {
    if dma == [] then 0 else dma[0].bytecount + SumLength(dma[1..])
  }

  /** Blocks needed for a number of bytes: a division rounded up. */
  function Blocks(total: nat, blockSize: nat): nat
    requires blockSize > 0
  {
    total / blockSize + if total % blockSize != 0 then 1 else 0
  }

  /** The blocks hold all bytes, and no block is spare. */
  lemma BlocksCover(total: nat, blockSize: nat)
    requires blockSize > 0
    ensures total <= Blocks(total, blockSize) * blockSize < total + blockSize
  {
    var q, r := total / blockSize, total % blockSize;
    assert total == q * blockSize + r;
    assert (q + 1) * blockSize == q * blockSize + blockSize;
  }

  // ---------- bounds ----------

  /** The address of a segment lies in the backing store. */
  predicate Starts(d: Descriptor, physoffset: nat, storeSize: nat) {
    d.byteoffset + physoffset < storeSize
  }

  predicate AllStart(dma: seq<Descriptor>, physoffset: nat, storeSize: nat) {
    forall d <- dma :: Starts(d, physoffset, storeSize)
  }

  predicate Inside(d: Descriptor, physoffset: nat, storeSize: nat) {
    Starts(d, physoffset, storeSize) && d.byteoffset + physoffset + d.bytecount <= storeSize
  }

  /** Every segment lies in the backing store. */
  predicate AllInside(dma: seq<Descriptor>, physoffset: nat, storeSize: nat) {
    forall d <- dma :: Inside(d, physoffset, storeSize)
  }

  /** What the checks of the copy loops let pass, with so much room left in the packet. */
  predicate Passes(d: Descriptor, physoffset: nat, storeSize: nat, room: nat) {
    Inside(d, physoffset, storeSize) && d.bytecount <= room
  }

  predicate AllPass(dma: seq<Descriptor>, physoffset: nat, storeSize: nat, room: nat) {
    dma == [] || (
      && Passes(dma[0], physoffset, storeSize, room)
      && AllPass(dma[1..], physoffset, storeSize, room - dma[0].bytecount))
  }

  /** The checks step by step reject exactly what leaves the store or overfills the packet. */
  lemma {:induction false} PassExactly(dma: seq<Descriptor>, physoffset: nat, storeSize: nat, room: nat)
    ensures AllPass(dma, physoffset, storeSize, room)
       <==> AllInside(dma, physoffset, storeSize) && SumLength(dma) <= room
  {
    if dma != [] {
      assert dma == [dma[0]] + dma[1..];
      if dma[0].bytecount <= room {
        PassExactly(dma[1..], physoffset, storeSize, room - dma[0].bytecount);
      }
    }
  }

  /** A packet of rounded-up size is never the reason for a rejection. */
  lemma RoundedUpPasses(dma: seq<Descriptor>, physoffset: nat, storeSize: nat, blockSize: nat)
    requires blockSize > 0
    ensures AllPass(dma, physoffset, storeSize, Blocks(SumLength(dma), blockSize) * blockSize)
       <==> AllInside(dma, physoffset, storeSize)
  {
    BlocksCover(SumLength(dma), blockSize);
    PassExactly(dma, physoffset, storeSize, Blocks(SumLength(dma), blockSize) * blockSize);
  }

  // ---------- what is moved ----------

  /** The segments one after the other. */
  function Gathered(store: seq<Byte>, dma: seq<Descriptor>, physoffset: nat): (data: seq<Byte>)
    requires AllInside(dma, physoffset, |store|)
    ensures |data| == SumLength(dma)
  {
    if dma == [] then [] else
    assert Inside(dma[0], physoffset, |store|);
    var at := dma[0].byteoffset + physoffset;
    store[at..at + dma[0].bytecount] + Gathered(store, dma[1..], physoffset)
  }

  /** The segments filled from the data, up to the first one that does not pass the checks. */
  function Scattered(store: seq<Byte>, dma: seq<Descriptor>, physoffset: nat, data: seq<Byte>): (result: seq<Byte>)
    ensures |result| == |store|
    decreases |dma|
  {
    if dma == [] || !Passes(dma[0], physoffset, |store|, |data|) then store else
    var n := dma[0].bytecount;
    Scattered(Overwritten(store, dma[0].byteoffset + physoffset, data[..n]), dma[1..], physoffset, data[n..])
  }

  predicate InSegment(d: Descriptor, physoffset: nat, k: nat) {
    d.byteoffset + physoffset <= k < d.byteoffset + physoffset + d.bytecount
  }

  /** The address lies in some segment. */
  predicate Covered(dma: seq<Descriptor>, physoffset: nat, k: nat) {
    exists d <- dma :: InSegment(d, physoffset, k)
  }

  lemma CoveredFirst(dma: seq<Descriptor>, physoffset: nat, k: nat)
    requires dma != []
    ensures Covered(dma, physoffset, k) <==> InSegment(dma[0], physoffset, k) || Covered(dma[1..], physoffset, k)
  {
    assert dma == [dma[0]] + dma[1..];
  }

  // ---------- writing and reading back ----------

  /** Reading never touches a byte outside the segments. */
  lemma {:induction false} ScatterStays(store: seq<Byte>, dma: seq<Descriptor>, physoffset: nat,
      data: seq<Byte>, k: nat)
    requires k < |store| && !Covered(dma, physoffset, k)
    ensures Scattered(store, dma, physoffset, data)[k] == store[k]
    decreases |dma|
  {
    if dma != [] && Passes(dma[0], physoffset, |store|, |data|) {
      CoveredFirst(dma, physoffset, k);
      var n := dma[0].bytecount;
      var next := Overwritten(store, dma[0].byteoffset + physoffset, data[..n]);
      assert next[k] == store[k];
      ScatterStays(next, dma[1..], physoffset, data[n..], k);
    }
  }

  /**
   * Writing segments to the disk and reading them back with the same descriptors restores every
   * byte of them, whatever the guest did to its memory in between, and nothing else.
   */
  lemma {:induction false} ReadRestoresWritten(store: seq<Byte>, later: seq<Byte>, dma: seq<Descriptor>,
      physoffset: nat, rest: seq<Byte>, k: nat)
    requires |store| == |later| && AllInside(dma, physoffset, |store|) && k < |store|
    ensures Scattered(later, dma, physoffset, Gathered(store, dma, physoffset) + rest)[k]
         == if Covered(dma, physoffset, k) then store[k] else later[k]
    decreases |dma|
  {
    hide Gathered, Scattered, Covered, AllInside;
    if dma == [] {
      NothingToRestore(store, later, physoffset, rest, k);
    } else {
      CoveredFirst(dma, physoffset, k);
      var data := Gathered(store, dma, physoffset) + rest;
      var n, at := dma[0].bytecount, dma[0].byteoffset + physoffset;
      GatheredParts(store, dma, physoffset, rest);
      var next := Overwritten(later, at, data[..n]);
      FirstPasses(dma, physoffset, store, rest);
      GatheredHead(store, dma, physoffset);
      ScatteredHead(later, dma, physoffset, data);
      assert next[k] == if at <= k < at + n then store[k] else later[k];
      ReadRestoresWritten(store, next, dma[1..], physoffset, rest, k);
    }
  }

  lemma NothingToRestore(store: seq<Byte>, later: seq<Byte>, physoffset: nat, rest: seq<Byte>, k: nat)
    requires |store| == |later| && k < |store|
    ensures AllInside([], physoffset, |store|) && !Covered([], physoffset, k)
    ensures Scattered(later, [], physoffset, Gathered(store, [], physoffset) + rest) == later
  {
  }

  lemma ScatteredHead(store: seq<Byte>, dma: seq<Descriptor>, physoffset: nat, data: seq<Byte>)
    requires dma != [] && Passes(dma[0], physoffset, |store|, |data|)
    ensures
      var n, at := dma[0].bytecount, dma[0].byteoffset + physoffset;
      Scattered(store, dma, physoffset, data)
        == Scattered(Overwritten(store, at, data[..n]), dma[1..], physoffset, data[n..])
  {
  }

  lemma FirstPasses(dma: seq<Descriptor>, physoffset: nat, store: seq<Byte>, rest: seq<Byte>)
    requires dma != [] && AllInside(dma, physoffset, |store|)
    ensures Passes(dma[0], physoffset, |store|, |Gathered(store, dma, physoffset) + rest|)
  {
    assert Inside(dma[0], physoffset, |store|);
  }

  lemma GatheredParts(store: seq<Byte>, dma: seq<Descriptor>, physoffset: nat, rest: seq<Byte>)
    requires dma != [] && AllInside(dma, physoffset, |store|)
    ensures
      var data := Gathered(store, dma, physoffset) + rest;
      var n, at := dma[0].bytecount, dma[0].byteoffset + physoffset;
      && Inside(dma[0], physoffset, |store|) && n <= |data|
      && data[..n] == store[at..at + n] && data[n..] == Gathered(store, dma[1..], physoffset) + rest
  {
    hide Gathered, AllInside, Inside;
    GatheredHead(store, dma, physoffset);
    var n, at := dma[0].bytecount, dma[0].byteoffset + physoffset;
    ThreeParts(Gathered(store, dma, physoffset), store[at..at + n], Gathered(store, dma[1..], physoffset), rest, n);
  }

  lemma GatheredHead(store: seq<Byte>, dma: seq<Descriptor>, physoffset: nat)
    requires dma != [] && AllInside(dma, physoffset, |store|)
    ensures
      var n, at := dma[0].bytecount, dma[0].byteoffset + physoffset;
      && AllInside(dma[1..], physoffset, |store|) && Inside(dma[0], physoffset, |store|) && at + n <= |store|
      && Gathered(store, dma, physoffset) == store[at..at + n] + Gathered(store, dma[1..], physoffset)
  {
    assert Inside(dma[0], physoffset, |store|);
  }

  lemma ThreeParts(ab: seq<Byte>, a: seq<Byte>, b: seq<Byte>, c: seq<Byte>, n: nat)
    requires ab == a + b && |a| == n
    ensures n <= |ab + c| && (ab + c)[..n] == a && (ab + c)[n..] == b + c
  {
  }

  /** No two segments share a byte. */
  predicate Disjoint(dma: seq<Descriptor>) {
    forall i, j :: 0 <= i < j < |dma| ==> Apart(dma[i], dma[j])
  }

  predicate Apart(d: Descriptor, e: Descriptor) {
    Clear(d.byteoffset, d.bytecount, e.byteoffset, e.bytecount)
  }

  /** Data read into disjoint segments and written again is the same data. */
  lemma {:induction false} WriteReturnsRead(store: seq<Byte>, dma: seq<Descriptor>, physoffset: nat, data: seq<Byte>)
    requires Disjoint(dma) && AllInside(dma, physoffset, |store|) && SumLength(dma) <= |data|
    ensures Gathered(Scattered(store, dma, physoffset, data), dma, physoffset) == data[..SumLength(dma)]
    decreases |dma|
  {
    if dma != [] {
      var d, n := dma[0], dma[0].bytecount;
      var at := d.byteoffset + physoffset;
      assert Inside(d, physoffset, |store|);
      var next := Overwritten(store, at, data[..n]);
      var result := Scattered(next, dma[1..], physoffset, data[n..]);
      InsideRest(dma, physoffset, |store|);
      WriteReturnsRead(next, dma[1..], physoffset, data[n..]);
      FirstStays(next, dma, physoffset, data[n..]);
      assert next[at..at + n] == data[..n];
      PrefixParts(data, n, SumLength(dma[1..]));
    }
  }

  lemma InsideRest(dma: seq<Descriptor>, physoffset: nat, storeSize: nat)
    requires dma != [] && Disjoint(dma) && AllInside(dma, physoffset, storeSize)
    ensures Disjoint(dma[1..]) && AllInside(dma[1..], physoffset, storeSize) && Inside(dma[0], physoffset, storeSize)
  {
  }

  lemma PrefixParts(data: seq<Byte>, m: nat, n: nat)
    requires m + n <= |data|
    ensures data[..m + n] == data[..m] + data[m..][..n]
  {
  }

  /** Filling the other segments leaves the first one alone. */
  lemma FirstStays(store: seq<Byte>, dma: seq<Descriptor>, physoffset: nat, data: seq<Byte>)
    requires dma != [] && Disjoint(dma) && AllInside(dma, physoffset, |store|)
    ensures
      var at := dma[0].byteoffset + physoffset;
      var n := dma[0].bytecount;
      Inside(dma[0], physoffset, |store|)
      && Scattered(store, dma[1..], physoffset, data)[at..at + n] == store[at..at + n]
  {
    hide Scattered, Covered;
    var at, n := dma[0].byteoffset + physoffset, dma[0].bytecount;
    assert Inside(dma[0], physoffset, |store|);
    forall k | at <= k < at + n
      ensures Scattered(store, dma[1..], physoffset, data)[k] == store[k]
    {
      NotCovered(dma, physoffset, k);
      ScatterStays(store, dma[1..], physoffset, data, k);
    }
  }

  lemma NotCovered(dma: seq<Descriptor>, physoffset: nat, k: nat)
    requires dma != [] && Disjoint(dma) && InSegment(dma[0], physoffset, k)
    ensures !Covered(dma[1..], physoffset, k)
  {
    forall d <- dma[1..]
      ensures !InSegment(d, physoffset, k)
    {
      var j :| 0 <= j < |dma| - 1 && dma[1..][j] == d;
      assert Apart(dma[0], dma[j + 1]);
    }
  }

  // ---------- where each byte goes ----------

  lemma {:induction false} SumSplit(dma: seq<Descriptor>, i: nat)
    requires i < |dma|
    ensures SumLength(dma[..i]) + dma[i].bytecount <= SumLength(dma)
  {
    if i > 0 {
      assert dma[..i][0] == dma[0] && dma[..i][1..] == dma[1..][..i - 1];
      SumSplit(dma[1..], i - 1);
    }
  }

  /** The bytes of a segment are behind those of the segments before it. */
  lemma {:induction false} GatheredAt(store: seq<Byte>, dma: seq<Descriptor>, physoffset: nat, i: nat, k: nat)
    requires AllInside(dma, physoffset, |store|) && i < |dma| && k < dma[i].bytecount
    ensures SumLength(dma[..i]) + k < SumLength(dma) && dma[i].byteoffset + physoffset + k < |store|
    ensures Gathered(store, dma, physoffset)[SumLength(dma[..i]) + k] == store[dma[i].byteoffset + physoffset + k]
    decreases i
  {
    SumSplit(dma, i);
    assert Inside(dma[i], physoffset, |store|);
    GatheredHead(store, dma, physoffset);
    if i > 0 {
      assert dma[..i][0] == dma[0] && dma[..i][1..] == dma[1..][..i - 1];
      GatheredAt(store, dma[1..], physoffset, i - 1, k);
    } else {
      assert dma[..0] == [];
    }
  }

  /** Disjoint segments are filled with the data in the same order. */
  lemma ScatteredAt(store: seq<Byte>, dma: seq<Descriptor>, physoffset: nat, data: seq<Byte>, i: nat, k: nat)
    requires Disjoint(dma) && AllInside(dma, physoffset, |store|) && SumLength(dma) <= |data|
    requires i < |dma| && k < dma[i].bytecount
    ensures SumLength(dma[..i]) + k < |data| && dma[i].byteoffset + physoffset + k < |store|
    ensures Scattered(store, dma, physoffset, data)[dma[i].byteoffset + physoffset + k] == data[SumLength(dma[..i]) + k]
  {
    hide Scattered, Gathered, Disjoint, AllInside;
    WriteReturnsRead(store, dma, physoffset, data);
    GatheredAt(Scattered(store, dma, physoffset, data), dma, physoffset, i, k);
  }

  // ---------- the copy loops ----------

  predicate SameOutside(before: seq<Byte>, after: seq<Byte>, at: nat, size: nat) {
    |before| == |after| && forall k | 0 <= k < |before| && (k < at || at + size <= k) :: after[k] == before[k]
  }

  /** The first i segments are in the packet, up to an address of the buffer. */
  ghost predicate Gathering(store: seq<Byte>, dma: seq<Descriptor>, physoffset: nat,
      before: seq<Byte>, shared: seq<Byte>, at: nat, size: nat, i: nat, to: nat)
  {
    && i <= |dma| && at <= to <= at + size <= |shared|
    && (AllPass(dma, physoffset, |store|, size) <==> AllPass(dma[i..], physoffset, |store|, at + size - to))
    && (AllInside(dma, physoffset, |store|) ==>
          && AllInside(dma[i..], physoffset, |store|)
          && Gathered(store, dma, physoffset) == shared[at..to] + Gathered(store, dma[i..], physoffset))
    && SameOutside(before, shared, at, size)
  }

  lemma GatheringBegins(store: seq<Byte>, dma: seq<Descriptor>, physoffset: nat, shared: seq<Byte>, at: nat, size: nat)
    requires at + size <= |shared|
    ensures Gathering(store, dma, physoffset, shared, shared, at, size, 0, at)
  {
    hide AllPass, Gathered;
    assert dma[0..] == dma;
  }

  lemma GatheringContinues(store: seq<Byte>, dma: seq<Descriptor>, physoffset: nat,
      before: seq<Byte>, shared: seq<Byte>, at: nat, size: nat, i: nat, to: nat)
    requires Gathering(store, dma, physoffset, before, shared, at, size, i, to)
    requires i < |dma| && Passes(dma[i], physoffset, |store|, at + size - to)
    ensures
      var n, from := dma[i].bytecount, dma[i].byteoffset + physoffset;
      var next := Overwritten(shared, to, store[from..from + n]);
      Gathering(store, dma, physoffset, before, next, at, size, i + 1, to + n)
  {
    hide AllPass, Gathered;
    var n, from := dma[i].bytecount, dma[i].byteoffset + physoffset;
    var next := Overwritten(shared, to, store[from..from + n]);
    AllPassFirst(dma, i, physoffset, |store|, at + size - to);
    Appended(shared, at, to, store[from..from + n]);
    if AllInside(dma, physoffset, |store|) {
      GatheredFirst(store, dma, i, physoffset);
      assert Gathered(store, dma, physoffset)
          == shared[at..to] + (store[from..from + n] + Gathered(store, dma[i + 1..], physoffset));
    }
  }

  lemma AllPassFirst(dma: seq<Descriptor>, i: nat, physoffset: nat, storeSize: nat, room: nat)
    requires i < |dma|
    ensures AllPass(dma[i..], physoffset, storeSize, room) <==>
      && Passes(dma[i], physoffset, storeSize, room)
      && AllPass(dma[i + 1..], physoffset, storeSize, room - dma[i].bytecount)
  {
    assert dma[i..][0] == dma[i] && dma[i..][1..] == dma[i + 1..];
  }

  lemma GatheredFirst(store: seq<Byte>, dma: seq<Descriptor>, i: nat, physoffset: nat)
    requires i < |dma| && AllInside(dma[i..], physoffset, |store|)
    ensures AllInside(dma[i + 1..], physoffset, |store|) && Inside(dma[i], physoffset, |store|)
    ensures
      var from := dma[i].byteoffset + physoffset;
      Gathered(store, dma[i..], physoffset)
        == store[from..from + dma[i].bytecount] + Gathered(store, dma[i + 1..], physoffset)
  {
    assert dma[i..][0] == dma[i] && dma[i..][1..] == dma[i + 1..];
    assert forall d <- dma[i + 1..] :: d in dma[i..];
  }

  lemma Appended(s: seq<Byte>, at: nat, to: nat, data: seq<Byte>)
    requires at <= to && to + |data| <= |s|
    ensures Overwritten(s, to, data)[at..to + |data|] == s[at..to] + data
  {
  }

  lemma GatheringEnds(store: seq<Byte>, dma: seq<Descriptor>, physoffset: nat,
      before: seq<Byte>, shared: seq<Byte>, at: nat, size: nat, to: nat)
    requires Gathering(store, dma, physoffset, before, shared, at, size, |dma|, to)
    ensures AllPass(dma, physoffset, |store|, size)
    ensures AllInside(dma, physoffset, |store|) && SumLength(dma) <= size
    ensures shared[at..at + SumLength(dma)] == Gathered(store, dma, physoffset)
  {
    PassExactly(dma, physoffset, |store|, size);
    assert dma[|dma|..] == [];
  }

  /** Copies the segments into the packet of so many bytes at an address of the shared buffer. */
  method Gather(store: array<Byte>, dma: seq<Descriptor>, physoffset: nat, shared: array<Byte>, at: nat, size: nat)
    returns (ok: bool)
    requires store != shared && at + size <= shared.Length
    modifies shared
    ensures ok <==> AllPass(dma, physoffset, store.Length, size)
    ensures ok ==> AllInside(dma, physoffset, store.Length) && SumLength(dma) <= size
    ensures ok ==> shared[at..at + SumLength(dma)] == Gathered(store[..], dma, physoffset)
    ensures SameOutside(old(shared[..]), shared[..], at, size)
  {
    hide AllPass, AllInside, Gathered, Overwritten, SumLength, SameOutside;
    ghost var before := shared[..];
    var i, to := 0, at;
    GatheringBegins(store[..], dma, physoffset, before, at, size);
    while i < |dma|
      invariant 0 <= i <= |dma| && at <= to <= at + size
      invariant Gathering(store[..], dma, physoffset, before, shared[..], at, size, i, to)
    {
      AllPassFirst(dma, i, physoffset, store.Length, at + size - to);
      var from, n := dma[i].byteoffset + physoffset, dma[i].bytecount;
      if from >= store.Length {
        return false;
      }
      if n > size || to > at + size - n || store.Length - n < from {
        return false;
      }
      GatheringContinues(store[..], dma, physoffset, before, shared[..], at, size, i, to);
      assert store[..][from..from + n] == store[from..from + n];
      Copy(shared, to, store, from, n);
      i, to := i + 1, to + n;
    }
    GatheringEnds(store[..], dma, physoffset, before, shared[..], at, size, to);
    SliceOf(shared, at, SumLength(dma));
    return true;
  }

  lemma SliceOf(a: array<Byte>, at: nat, n: nat)
    requires at + n <= a.Length
    ensures a[..][at..at + n] == a[at..at + n]
  {
  }

  /** The copy loop of a restarted write, which has no checks. */
  method GatherUnchecked(store: array<Byte>, dma: seq<Descriptor>, physoffset: nat,
      shared: array<Byte>, at: nat, size: nat)
    requires store != shared && at + size <= shared.Length
    requires AllInside(dma, physoffset, store.Length) && SumLength(dma) <= size
    modifies shared
    ensures shared[at..at + SumLength(dma)] == Gathered(store[..], dma, physoffset)
    ensures SameOutside(old(shared[..]), shared[..], at, size)
  {
    hide AllPass, AllInside, Gathered, Overwritten, SumLength, SameOutside;
    ghost var before := shared[..];
    PassExactly(dma, physoffset, store.Length, size);
    var i, to := 0, at;
    GatheringBegins(store[..], dma, physoffset, before, at, size);
    while i < |dma|
      invariant 0 <= i <= |dma| && at <= to <= at + size
      invariant Gathering(store[..], dma, physoffset, before, shared[..], at, size, i, to)
    {
      AllPassFirst(dma, i, physoffset, store.Length, at + size - to);
      var from, n := dma[i].byteoffset + physoffset, dma[i].bytecount;
      GatheringContinues(store[..], dma, physoffset, before, shared[..], at, size, i, to);
      assert store[..][from..from + n] == store[from..from + n];
      Copy(shared, to, store, from, n);
      i, to := i + 1, to + n;
    }
    GatheringEnds(store[..], dma, physoffset, before, shared[..], at, size, to);
    SliceOf(shared, at, SumLength(dma));
  }

  lemma ScatteredFirst(store: seq<Byte>, dma: seq<Descriptor>, i: nat, physoffset: nat, data: seq<Byte>)
    requires i < |dma|
    ensures Scattered(store, dma[i..], physoffset, data) ==
      if Passes(dma[i], physoffset, |store|, |data|) then
        var n := dma[i].bytecount;
        Scattered(Overwritten(store, dma[i].byteoffset + physoffset, data[..n]), dma[i + 1..], physoffset, data[n..])
      else store
  {
    assert dma[i..][0] == dma[i] && dma[i..][1..] == dma[i + 1..];
  }

  /** Copies the packet's bytes into the segments, until one does not pass the checks. */
  method Scatter(shared: array<Byte>, at: nat, size: nat, store: array<Byte>, dma: seq<Descriptor>, physoffset: nat)
    returns (ok: bool)
    requires store != shared && at + size <= shared.Length
    modifies store
    ensures ok <==> AllPass(dma, physoffset, store.Length, size)
    ensures store[..] == Scattered(old(store[..]), dma, physoffset, shared[at..at + size])
  {
    hide AllPass, Scattered, Overwritten;
    ghost var goal := Scattered(store[..], dma, physoffset, shared[at..at + size]);
    var i, sector := 0, 0;
    assert dma[0..] == dma;
    while i < |dma|
      invariant 0 <= i <= |dma| && 0 <= sector <= size
      invariant AllPass(dma, physoffset, store.Length, size)
           <==> AllPass(dma[i..], physoffset, store.Length, size - sector)
      invariant goal == Scattered(store[..], dma[i..], physoffset, shared[at + sector..at + size])
    {
      ghost var data := shared[at + sector..at + size];
      AllPassFirst(dma, i, physoffset, store.Length, size - sector);
      ScatteredFirst(store[..], dma, i, physoffset, data);
      var to, n := dma[i].byteoffset + physoffset, dma[i].bytecount;
      if to >= store.Length {
        return false;
      }
      if n > size || sector > size || sector + n > size || store.Length - n < to {
        return false;
      }
      SlicesOf(shared, at + sector, n, at + size);
      Copy(store, to, shared, at + sector, n);
      i, sector := i + 1, sector + n;
    }
    NothingLeft(store[..], dma, physoffset, size - sector, shared[at + sector..at + size]);
    return true;
  }

  lemma SlicesOf(a: array<Byte>, from: nat, n: nat, end: nat)
    requires from + n <= end <= a.Length
    ensures a[from..end][..n] == a[from..from + n] && a[from..end][n..] == a[from + n..end]
  {
  }

  lemma NothingLeft(store: seq<Byte>, dma: seq<Descriptor>, physoffset: nat, room: nat, data: seq<Byte>)
    ensures AllPass(dma[|dma|..], physoffset, |store|, room)
    ensures Scattered(store, dma[|dma|..], physoffset, data) == store
  {
  }
}
