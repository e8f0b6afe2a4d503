/** The positions of a ring buffer: what can be read, what can be written, and what they hold. */
module RingPositions {
  import opened Copies

  // ---------- the formulas of the code ----------

  function ReadAvail(wpos: nat, rpos: nat, capacity: nat): nat
    requires wpos < capacity && rpos < capacity
  {
    if wpos > rpos then wpos - rpos else (wpos - rpos + capacity) % capacity
  }

  /** As the code computes it: the subtraction may leave the range of the unsigned type. */
  function WriteAvail(wpos: nat, rpos: nat, capacity: nat): int
    requires wpos < capacity && rpos < capacity
  {
    if wpos > rpos then (rpos - wpos + capacity) % capacity - 2
    else if wpos < rpos then rpos - wpos
    else capacity - 2
  }

  // ---------- what they mean ----------

  /** The number of items between the positions. */
  function Held(wpos: nat, rpos: nat, capacity: nat): nat
    requires wpos < capacity && rpos < capacity
  {
    if wpos >= rpos then wpos - rpos else wpos + capacity - rpos
  }

  function Wrap(p: nat, capacity: nat): nat {
    if p < capacity then p else p - capacity
  }

  lemma WrapIsModulo(p: nat, capacity: nat)
    requires p < 2 * capacity
    ensures p % capacity == Wrap(p, capacity) < capacity
  {
    if p >= capacity {
      assert p == 1 * capacity + (p - capacity);
      assert (p - capacity) % capacity == p - capacity;
      assert p % capacity == (p - capacity) % capacity;
    }
  }

  lemma ModuloAtMost(p: nat, capacity: nat)
    requires 0 < capacity <= p
    ensures p % capacity <= p - capacity && p % capacity < capacity
  {
    var q := p / capacity;
    assert p == q * capacity + p % capacity;
    if q > 0 {
      assert (q - 1) * capacity >= 0;
    }
  }

  /** Two items always stay free while the writer is ahead, and one otherwise. */
  predicate Sane(wpos: nat, rpos: nat, capacity: nat) {
    && 2 <= capacity && wpos < capacity && rpos < capacity
    && (wpos > rpos ==> wpos - rpos <= capacity - 2)
  }

  /** What can be read is what is held; what can be written is free, and does not underflow. */
  lemma AvailExact(wpos: nat, rpos: nat, capacity: nat)
    requires 2 <= capacity && wpos < capacity && rpos < capacity
    ensures ReadAvail(wpos, rpos, capacity) == Held(wpos, rpos, capacity)
    ensures WriteAvail(wpos, rpos, capacity)
         == capacity - Held(wpos, rpos, capacity) - if wpos < rpos then 0 else 2
    ensures WriteAvail(wpos, rpos, capacity) >= 0 <==> Sane(wpos, rpos, capacity)
  {
    if wpos <= rpos {
      WrapIsModulo(wpos + capacity - rpos, capacity);
    } else {
      WrapIsModulo(rpos + capacity - wpos, capacity);
    }
  }

  /** A write that neither exceeds the available room nor closes the gap behind the reader. */
  predicate MayWrite(wpos: nat, rpos: nat, capacity: nat, n: nat)
    requires wpos < capacity && rpos < capacity
  {
    n <= WriteAvail(wpos, rpos, capacity) && (wpos < rpos ==> n < rpos - wpos)
  }

  /** Of the writes within the available room, the guarded ones are those that add up. */
  lemma WriteAdds(wpos: nat, rpos: nat, capacity: nat, n: nat)
    requires Sane(wpos, rpos, capacity) && n <= WriteAvail(wpos, rpos, capacity)
    ensures
      var next := Wrap(wpos + n, capacity);
      && next < capacity
      && (MayWrite(wpos, rpos, capacity, n) <==> Held(next, rpos, capacity) == Held(wpos, rpos, capacity) + n)
      && (MayWrite(wpos, rpos, capacity, n) ==> Sane(next, rpos, capacity))
      && (!MayWrite(wpos, rpos, capacity, n) ==> next == rpos && Held(next, rpos, capacity) == 0)
  {
    AvailExact(wpos, rpos, capacity);
  }

  /** One such write: three items are held, the fourth fits, and then none can be read. */
  lemma FullReadsAsEmpty()
    ensures Sane(1, 2, 4) && ReadAvail(1, 2, 4) == 3 && WriteAvail(1, 2, 4) == 1
    ensures !MayWrite(1, 2, 4, 1) && ReadAvail(Wrap(1 + 1, 4), 2, 4) == 0
  {
  }

  // ---------- how far a call moves ----------

  /** The first part that a call copies which is clamped to n. */
  function First(pos: nat, capacity: nat, len: nat, n: nat): nat
    requires pos < capacity
  {
    if pos + len > capacity then capacity - pos else n
  }

  /** The part after the wrap, which depends on the length that is not clamped. */
  function Rest(pos: nat, capacity: nat, len: nat): nat
    requires pos < capacity
  {
    if pos + len > capacity then (pos + len) % capacity else 0
  }

  function Moved(pos: nat, capacity: nat, len: nat, n: nat): nat
    requires pos < capacity
  {
    First(pos, capacity, len, n) + Rest(pos, capacity, len)
  }

  /** Where a call ends that copies these parts. */
  function End(pos: nat, capacity: nat, first: nat, rest: nat): nat {
    if rest > 0 then rest else Wrap(pos + first, capacity)
  }

  lemma Ends(pos: nat, capacity: nat, first: nat, rest: nat)
    requires pos < capacity && pos + first <= capacity && (rest > 0 ==> pos + first == capacity && rest < capacity)
    ensures End(pos, capacity, first, rest) < capacity
    ensures if rest == 0 then End(pos, capacity, first, rest) == Wrap(pos + first, capacity)
      else Wrap(pos + first, capacity) == 0 && End(pos, capacity, first, rest) == Wrap(rest, capacity)
  {
  }

  lemma MovedAtMost(pos: nat, capacity: nat, len: nat, n: nat)
    requires pos < capacity && n <= len
    ensures
      var first, rest := First(pos, capacity, len, n), Rest(pos, capacity, len);
      && first + rest <= len && pos + first + rest < 2 * capacity && rest < capacity
      && (pos + len <= capacity ==> first == n && rest == 0)
      && (pos + len > capacity ==> pos + first == capacity)
      && End(pos, capacity, first, rest) == Wrap(pos + first + rest, capacity) < capacity
      && (len < capacity ==> first + rest == if pos + len > capacity then len else n)
  {
    if pos + len > capacity {
      ModuloAtMost(pos + len, capacity);
      if len < capacity {
        WrapIsModulo(pos + len, capacity);
      }
    }
  }

  function BytesStored(wpos: nat, rpos: nat, capacity: nat, len: nat): nat
    requires Sane(wpos, rpos, capacity)
  {
    var avail := WriteAvail(wpos, rpos, capacity);
    AvailExact(wpos, rpos, capacity);
    if avail == 0 then 0 else Moved(wpos, capacity, len, Least(len, avail))
  }

  function BytesFetched(wpos: nat, rpos: nat, capacity: nat, len: nat): nat
    requires Sane(wpos, rpos, capacity)
  {
    var avail := ReadAvail(wpos, rpos, capacity);
    if avail == 0 then 0 else Moved(rpos, capacity, len, Least(len, avail))
  }

  /** The calls of write that work: as much is stored as is returned, and not up to the reader. */
  predicate WriteGuarded(wpos: nat, rpos: nat, capacity: nat, len: nat)
    requires Sane(wpos, rpos, capacity)
  {
    var avail := WriteAvail(wpos, rpos, capacity);
    var n := Least(len, avail);
    avail == 0 || (BytesStored(wpos, rpos, capacity, len) == n && (wpos < rpos ==> n < rpos - wpos))
  }

  /** The calls of read that work. */
  predicate ReadGuarded(wpos: nat, rpos: nat, capacity: nat, len: nat)
    requires Sane(wpos, rpos, capacity)
  {
    BytesFetched(wpos, rpos, capacity, len) == Least(len, ReadAvail(wpos, rpos, capacity))
  }

  /** Below the capacity: what is clamped must not wrap, nor fill up to the reader. */
  lemma GuardsBelow(wpos: nat, rpos: nat, capacity: nat, len: nat)
    requires Sane(wpos, rpos, capacity) && len < capacity
    ensures
      var avail := WriteAvail(wpos, rpos, capacity);
      WriteGuarded(wpos, rpos, capacity, len) <==>
        avail == 0 || ((len <= avail || wpos + len <= capacity) && (wpos < rpos ==> len < avail))
    ensures
      var avail := ReadAvail(wpos, rpos, capacity);
      ReadGuarded(wpos, rpos, capacity, len) <==> avail == 0 || len <= avail || rpos + len <= capacity
  {
    AvailExact(wpos, rpos, capacity);
    MovedAtMost(wpos, capacity, len, Least(len, WriteAvail(wpos, rpos, capacity)));
    MovedAtMost(rpos, capacity, len, Least(len, ReadAvail(wpos, rpos, capacity)));
  }

  lemma RestIs(len: nat, rest: nat)
    requires len > 2 && (3 + len) % 5 == rest
    ensures Rest(3, 5, len) == rest
  {
  }

  /** Beyond it, a call may work by coincidence: of eight bytes, three are stored and returned. */
  lemma LongWrite()
    ensures Sane(3, 3, 5) && WriteAvail(3, 3, 5) == 3 && BytesStored(3, 3, 5, 8) == 3 && WriteGuarded(3, 3, 5, 8)
  {
    hide Rest, WriteAvail, ReadAvail;
    AvailExact(3, 3, 5);
    RestIs(8, 1);
  }

  /** A guarded write is one guarded copy, or two if it wraps. */
  lemma WriteInTwo(wpos: nat, rpos: nat, capacity: nat, first: nat, rest: nat)
    requires Sane(wpos, rpos, capacity) && first + rest <= WriteAvail(wpos, rpos, capacity)
    requires wpos < rpos ==> first + rest < rpos - wpos
    requires rest > 0 ==> wpos + first == capacity
    ensures MayWrite(wpos, rpos, capacity, first) && (rest > 0 ==> rest < capacity && MayWrite(0, rpos, capacity, rest))
  {
    AvailExact(wpos, rpos, capacity);
    AvailExact(0, rpos, capacity);
  }

  /** The ring gets as many items more as the code returns only if the call is guarded. */
  lemma WriteMisses(wpos: nat, rpos: nat, capacity: nat, m: nat, n: nat)
    requires Sane(wpos, rpos, capacity) && n <= WriteAvail(wpos, rpos, capacity) && wpos + m < 2 * capacity
    requires m == n ==> wpos < rpos && n >= rpos - wpos
    requires m != capacity + n
    ensures
      var next := Wrap(wpos + m, capacity);
      next < capacity && Held(next, rpos, capacity) != Held(wpos, rpos, capacity) + n
  {
    AvailExact(wpos, rpos, capacity);
  }

  lemma ReadSubtracts(wpos: nat, rpos: nat, capacity: nat, n: nat)
    requires Sane(wpos, rpos, capacity) && n <= ReadAvail(wpos, rpos, capacity)
    ensures
      var next := Wrap(rpos + n, capacity);
      Sane(wpos, next, capacity) && Held(wpos, next, capacity) == Held(wpos, rpos, capacity) - n
  {
    AvailExact(wpos, rpos, capacity);
  }

  /** The ring loses as many items as the code returns only if the call is guarded. */
  lemma ReadMisses(wpos: nat, rpos: nat, capacity: nat, m: nat, n: nat)
    requires Sane(wpos, rpos, capacity) && n <= ReadAvail(wpos, rpos, capacity) && rpos + m < 2 * capacity
    requires m != n && m != capacity + n
    ensures
      var next := Wrap(rpos + m, capacity);
      next < capacity && Held(wpos, next, capacity) != Held(wpos, rpos, capacity) - n
  {
    AvailExact(wpos, rpos, capacity);
  }

  // ---------- contents ----------

  /** n items of the ring from a position on. */
  function Items<T>(ring: seq<T>, from: nat, n: nat): (r: seq<T>)
    requires from < |ring| && n <= |ring|
    ensures |r| == n && forall i | 0 <= i < n :: r[i] == ring[Wrap(from + i, |ring|)]
  {
    seq(n, i requires 0 <= i < n => ring[Wrap(from + i, |ring|)])
  }

  lemma ItemsSplit<T>(ring: seq<T>, from: nat, m: nat, n: nat)
    requires from < |ring| && m + n <= |ring|
    ensures Wrap(from + m, |ring|) < |ring|
    ensures Items(ring, from, m + n) == Items(ring, from, m) + Items(ring, Wrap(from + m, |ring|), n)
  {
  }

  /** Items that do not wrap. */
  lemma ItemsStraight<T>(ring: seq<T>, from: nat, n: nat)
    requires from < |ring| && from + n <= |ring|
    ensures Items(ring, from, n) == ring[from..from + n]
  {
  }

  /** Filling the free part does not change what is held. */
  lemma ItemsKept<T>(ring: seq<T>, from: nat, n: nat, at: nat, data: seq<T>)
    requires from < |ring| && n <= |ring| && at + |data| <= |ring|
    requires if from + n <= |ring| then at + |data| <= from || from + n <= at
      else from + n - |ring| <= at && at + |data| <= from
    ensures Items(Overwritten(ring, at, data), from, n) == Items(ring, from, n)
  {
  }
}
