/** The ring buffer of the audio player refines a queue of bytes. */
module RingBuffer {
  import opened Copies
  import opened RingPositions
  import opened Queues

  class RingBuffer {
    const capacity: nat
    const data: array<char>

    var wpos: nat
    var rpos: nat

    ghost var written: seq<char>
    ghost var taken: seq<char>

    /** Everything written is what has been read, followed by what is held. */
    ghost predicate Valid()
      reads this, data
    {
      data.Length == capacity && Sane(wpos, rpos, capacity) && written == taken + Contents()
    }

    ghost function Contents(): seq<char>
      requires data.Length == capacity && wpos < capacity && rpos < capacity
      reads this, data
    {
      Items(data[..], rpos, Held(wpos, rpos, capacity))
    }

    constructor (capacity: nat)
      requires capacity >= 2
      ensures Valid() && this.capacity == capacity && Contents() == [] && written == [] && fresh(data)
    {
      this.capacity, data, wpos, rpos := capacity, new char[capacity], 0, 0;
      written, taken := [], [];
    }

    function CanRead(): nat
      requires wpos < capacity && rpos < capacity
      reads this
    {
      ReadAvail(wpos, rpos, capacity)
    }

    function CanWrite(): int
      requires wpos < capacity && rpos < capacity
      reads this
    {
      WriteAvail(wpos, rpos, capacity)
    }

    /** Copies to the write position and advances it. */
    method Put(src: array<char>, from: nat, n: nat)
      requires data.Length == capacity && wpos < capacity && src != data
      requires from + n <= src.Length && wpos + n <= capacity
      modifies this, data
      ensures rpos == old(rpos) && taken == old(taken) && wpos == Wrap(old(wpos) + n, capacity) < capacity
      ensures written == old(written) + src[from..from + n]
      ensures old(Valid() && MayWrite(wpos, rpos, capacity, n)) ==> Valid()
    {
      hide Items, Wrap, WriteAvail, ReadAvail, Overwritten;
      ghost var valid := Valid() && MayWrite(wpos, rpos, capacity, n);
      ghost var before, bytes := data[..], src[from..from + n];
      WrapIsModulo(wpos + n, capacity);
      if valid {
        PutKeeps(before, wpos, rpos, bytes);
        WriteAdds(wpos, rpos, capacity, n);
        Reassociate(taken, Items(before, rpos, Held(wpos, rpos, capacity)), bytes);
      }
      Copy(data, wpos, src, from, n);
      wpos := (wpos + n) % capacity;
      written := written + bytes;
    }

    /** Copies a second part, if there is one, after the wrap. */
    method PutTwice(src: array<char>, first: nat, rest: nat)
      requires data.Length == capacity && wpos < capacity && src != data && first + rest <= src.Length
      requires wpos + first <= capacity && (rest > 0 ==> wpos + first == capacity && rest < capacity)
      modifies this, data
      ensures rpos == old(rpos) && taken == old(taken) && written == old(written) + src[..first + rest]
      ensures wpos == End(old(wpos), capacity, first, rest) < capacity
      ensures old(Valid() && MayWrite(wpos, rpos, capacity, first) && (rest > 0 ==> MayWrite(0, rpos, capacity, rest)))
        ==> Valid()
    {
      hide Items, Held, MayWrite;
      TwoParts(src, first, rest);
      Reassociate(written, src[0..first], src[first..first + rest]);
      Put(src, 0, first);
      if rest > 0 {
        Put(src, first, rest);
      }
    }

    /** The parts of an access: what does not wrap is clamped. */
    method Parts(pos: nat, len: nat, limitLen: nat) returns (first: nat, rest: nat)
      requires pos < capacity && limitLen <= len
      ensures first == First(pos, capacity, len, limitLen) && rest == Rest(pos, capacity, len)
      ensures first + rest <= len
    {
      var total := pos + len;
      if total > capacity {
        ModuloAtMost(total, capacity);
        first, rest := capacity - pos, total % capacity;
      } else {
        first, rest := limitLen, 0;
      }
    }

    /** Appends to the queue what it says exactly if the call is guarded. */
    method Write(src: array<char>, len: nat) returns (n: nat)
      requires Valid() && src != data && len <= src.Length
      modifies this, data
      ensures n == Least(len, old(CanWrite())) && rpos == old(rpos) && wpos < capacity && taken == old(taken)
      ensures old(BytesStored(wpos, rpos, capacity, len)) <= len
      ensures written == old(written) + src[..old(BytesStored(wpos, rpos, capacity, len))]
      ensures old(WriteGuarded(wpos, rpos, capacity, len)) <==> Valid() && written == old(written) + src[..n]
      ensures
        var m := old(BytesStored(wpos, rpos, capacity, len));
        !old(WriteGuarded(wpos, rpos, capacity, len)) && m != capacity + n ==> CanRead() != old(CanRead()) + n
    {
      hide Items, Held, Wrap, End, Overwritten, MayWrite, WriteGuarded, WriteAvail, ReadAvail, BytesStored, Contents,
        First, Rest;
      AvailExact(wpos, rpos, capacity);
      var avail := CanWrite();
      if avail == 0 {
        NoRoom(len);
        NothingJoined(written, src[..]);
        return 0;
      }
      var limitLen := if len > avail then avail else len;
      var first, rest := Parts(wpos, len, limitLen);
      WriteCases(len);
      HeldLength();
      ghost var stored := src[..first + rest];
      PutTwice(src, first, rest);
      AvailExact(wpos, rpos, capacity);
      if Valid() && written == old(written) + src[..limitLen] {
        SameLength(old(written), stored, src[..limitLen]);
        HeldLength();
      }
      return limitLen;
    }

    lemma HeldLength()
      requires Valid()
      ensures |written| == |taken| + Held(wpos, rpos, capacity)
    {
    }

    lemma NoRoom(len: nat)
      requires Sane(wpos, rpos, capacity) && CanWrite() == 0
      ensures BytesStored(wpos, rpos, capacity, len) == 0 && WriteGuarded(wpos, rpos, capacity, len)
    {
    }

    lemma WriteCases(len: nat)
      requires Sane(wpos, rpos, capacity) && CanWrite() > 0
      ensures
        var n: nat := Least(len, CanWrite());
        var first, rest := First(wpos, capacity, len, n), Rest(wpos, capacity, len);
        var next := End(wpos, capacity, first, rest);
        && first + rest == BytesStored(wpos, rpos, capacity, len) <= len && next < capacity
        && (rest > 0 ==> wpos + first == capacity && rest < capacity) && wpos + first <= capacity
        && (WriteGuarded(wpos, rpos, capacity, len) ==>
            && first + rest == n && MayWrite(wpos, rpos, capacity, first)
            && (rest > 0 ==> MayWrite(0, rpos, capacity, rest)))
        && (!WriteGuarded(wpos, rpos, capacity, len) && first + rest != capacity + n ==>
            Held(next, rpos, capacity) != Held(wpos, rpos, capacity) + n)
    {
      hide First, Rest, WriteAvail, Held, Wrap, End, MayWrite;
      var n: nat := Least(len, CanWrite());
      var first, rest := First(wpos, capacity, len, n), Rest(wpos, capacity, len);
      MovedAtMost(wpos, capacity, len, n);
      if WriteGuarded(wpos, rpos, capacity, len) {
        WriteInTwo(wpos, rpos, capacity, first, rest);
      } else if first + rest != capacity + n {
        WriteMisses(wpos, rpos, capacity, first + rest, n);
      }
    }

    /** Copies from the read position and advances it. */
    method Get(dst: array<char>, to: nat, n: nat)
      requires data.Length == capacity && rpos < capacity && dst != data
      requires to + n <= dst.Length && rpos + n <= capacity
      modifies this, dst
      ensures wpos == old(wpos) && written == old(written) && rpos == Wrap(old(rpos) + n, capacity) < capacity
      ensures dst[..] == Overwritten(old(dst[..]), to, old(data[rpos..rpos + n]))
      ensures taken == old(taken) + old(data[rpos..rpos + n])
      ensures old(Valid() && n <= CanRead()) ==> Valid()
    {
      hide Items, Held, Wrap, WriteAvail, ReadAvail, Overwritten;
      WrapIsModulo(rpos + n, capacity);
      ghost var bytes := data[rpos..rpos + n];
      if Valid() && n <= CanRead() {
        Fetches(n);
      }
      Copy(dst, to, data, rpos, n);
      rpos := (rpos + n) % capacity;
      taken := taken + bytes;
    }

    /** What is behind the next items is still held once they are taken. */
    lemma Fetches(n: nat)
      requires Valid() && n <= CanRead() && rpos + n <= capacity
      ensures
        var next := Wrap(rpos + n, capacity);
        && next < capacity && Sane(wpos, next, capacity)
        && written == (taken + data[rpos..rpos + n]) + Items(data[..], next, Held(wpos, next, capacity))
    {
      hide Items, Wrap, WriteAvail, ReadAvail;
      ReadSubtracts(wpos, rpos, capacity, n);
      GetTakes(data[..], wpos, rpos, n);
      assert data[..][rpos..rpos + n] == data[rpos..rpos + n];
      Reassociate(taken, data[rpos..rpos + n],
        Items(data[..], Wrap(rpos + n, capacity), Held(wpos, rpos, capacity) - n));
    }

    method GetTwice(dst: array<char>, first: nat, rest: nat)
      requires data.Length == capacity && rpos < capacity && dst != data && first + rest <= dst.Length
      requires rpos + first <= capacity && (rest > 0 ==> rpos + first == capacity && rest < capacity)
      modifies this, dst
      ensures wpos == old(wpos) && written == old(written) && taken == old(taken) + dst[..first + rest]
      ensures dst[first + rest..] == old(dst[first + rest..])
      ensures rpos == End(old(rpos), capacity, first, rest) < capacity
      ensures old(Valid() && first <= CanRead()) && (rest > 0 ==> old(first + rest <= CanRead())) ==> Valid()
    {
      hide Items, Overwritten, ReadAvail, Held, Wrap, End;
      ghost var before, a := dst[..], data[rpos..rpos + first];
      OneWritten(before, 0, a);
      Ends(rpos, capacity, first, rest);
      if Valid() && first <= CanRead() {
        FirstRead(first);
      }
      Get(dst, 0, first);
      if rest > 0 {
        ghost var b := data[0..rest];
        TwoWritten(before, a, b);
        Reassociate(old(taken), a, b);
        Get(dst, first, rest);
      }
    }

    /** What can be read after a first part. */
    lemma FirstRead(n: nat)
      requires Sane(wpos, rpos, capacity) && n <= CanRead()
      ensures
        var next := Wrap(rpos + n, capacity);
        Sane(wpos, next, capacity) && ReadAvail(wpos, next, capacity) == CanRead() - n
    {
      hide Wrap;
      ReadSubtracts(wpos, rpos, capacity, n);
      AvailExact(wpos, rpos, capacity);
      AvailExact(wpos, Wrap(rpos + n, capacity), capacity);
    }

    /** Takes from the queue what it says exactly if the call is guarded. */
    method Read(dst: array<char>, len: nat) returns (n: nat)
      requires Valid() && dst != data && len <= dst.Length
      modifies this, dst
      ensures n == Least(len, old(CanRead())) && wpos == old(wpos) && rpos < capacity && written == old(written)
      ensures old(BytesFetched(wpos, rpos, capacity, len)) <= len
      ensures
        var m := old(BytesFetched(wpos, rpos, capacity, len));
        taken == old(taken) + dst[..m] && dst[m..] == old(dst[m..])
      ensures old(ReadGuarded(wpos, rpos, capacity, len)) <==> Valid() && taken == old(taken) + dst[..n]
      ensures
        var m := old(BytesFetched(wpos, rpos, capacity, len));
        !old(ReadGuarded(wpos, rpos, capacity, len)) && m != capacity + n ==> CanRead() != old(CanRead()) - n
    {
      hide Items, Held, Wrap, End, Overwritten, ReadGuarded, ReadAvail, BytesFetched, Contents, First, Rest;
      AvailExact(wpos, rpos, capacity);
      var avail := CanRead();
      if avail == 0 {
        NothingHeld(len);
        NothingJoined(taken, dst[..]);
        return 0;
      }
      var limitLen := if len > avail then avail else len;
      var first, rest := Parts(rpos, len, limitLen);
      ReadCases(len);
      GetTwice(dst, first, rest);
      AvailExact(wpos, rpos, capacity);
      if taken == old(taken) + dst[..limitLen] {
        SameLength(old(taken), dst[..first + rest], dst[..limitLen]);
      }
      return limitLen;
    }

    lemma NothingHeld(len: nat)
      requires Sane(wpos, rpos, capacity) && CanRead() == 0
      ensures BytesFetched(wpos, rpos, capacity, len) == 0 && ReadGuarded(wpos, rpos, capacity, len)
    {
    }

    lemma ReadCases(len: nat)
      requires Sane(wpos, rpos, capacity) && CanRead() > 0
      ensures
        var n: nat := Least(len, CanRead());
        var first, rest := First(rpos, capacity, len, n), Rest(rpos, capacity, len);
        var next := End(rpos, capacity, first, rest);
        && first + rest == BytesFetched(wpos, rpos, capacity, len) <= len && next < capacity
        && (rest > 0 ==> rpos + first == capacity && rest < capacity) && rpos + first <= capacity
        && (ReadGuarded(wpos, rpos, capacity, len) <==> first + rest == n)
        && (first + rest != n && first + rest != capacity + n ==>
            Held(wpos, next, capacity) != Held(wpos, rpos, capacity) - n)
    {
      hide First, Rest, ReadAvail, Held, Wrap, End;
      var n: nat := Least(len, CanRead());
      var first, rest := First(rpos, capacity, len, n), Rest(rpos, capacity, len);
      MovedAtMost(rpos, capacity, len, n);
      if first + rest != n && first + rest != capacity + n {
        ReadMisses(wpos, rpos, capacity, first + rest, n);
      }
    }

    // ---------- runs of calls ----------

    predicate Guarded(call: Call<char>)
      requires Sane(wpos, rpos, capacity)
      reads this
    {
      match call
      case WriteCall(bytes) => WriteGuarded(wpos, rpos, capacity, |bytes|)
      case ReadCall(len) => ReadGuarded(wpos, rpos, capacity, len)
    }

    method Perform(call: Call<char>) returns (result: seq<char>)
      requires Valid() && Guarded(call)
      modifies this, data
      ensures Valid() && Performed(old((wpos, rpos)), call, result, capacity)
      ensures call.WriteCall? ==> Contents() == old(Contents()) + result
      ensures call.ReadCall? ==> old(Contents()) == result + Contents()
    {
      hide Items, Held, WriteAvail, ReadAvail, WriteGuarded, ReadGuarded, BytesStored, BytesFetched, Contents;
      ghost var before := Contents();
      match call
      case WriteCall(bytes) =>
        var src := new char[|bytes|](i requires 0 <= i < |bytes| => bytes[i]);
        assert src[..] == bytes;
        var n := Write(src, |bytes|);
        AvailExact(old(wpos), old(rpos), capacity);
        result := src[..n];
        AppendedTo(old(written), taken, before, result, Contents());
      case ReadCall(len) =>
        var dst := new char[len];
        var n := Read(dst, len);
        result := dst[..n];
        TakenFrom(written, old(taken), before, result, Contents());
    }

    /**
     * Any run of calls, up to the first one that is not guarded: what is read comes out of the
     * queue in the order in which it was written.
     */
    method Run(calls: seq<Call<char>>) returns (results: seq<seq<char>>, ghost trace: seq<(nat, nat)>)
      requires Valid()
      modifies this, data
      ensures Valid() && |results| <= |calls| && |trace| == |results| + 1
      ensures trace[0] == (old(wpos), old(rpos)) && trace[|results|] == (wpos, rpos)
      ensures forall i | 0 <= i < |results| :: Performed(trace[i], calls[i], results[i], capacity)
      ensures |results| < |calls| ==> !Guarded(calls[|results|])
      ensures old(Contents()) + Inputs(calls, results) == Outputs(calls, results) + Contents()
    {
      hide Contents, Items, Held, Performed, Guarded;
      results, trace := [], [(wpos, rpos)];
      ghost var begin := Contents();
      for k := 0 to |calls|
        invariant Valid() && |results| == k && |trace| == k + 1
        invariant trace[0] == (old(wpos), old(rpos)) && trace[k] == (wpos, rpos)
        invariant forall i | 0 <= i < k :: Performed(trace[i], calls[i], results[i], capacity)
        invariant begin + Inputs(calls, results) == Outputs(calls, results) + Contents()
      {
        if !Guarded(calls[k]) {
          return;
        }
        ghost var before, sofar := Contents(), results;
        var result := Perform(calls[k]);
        results, trace := results + [result], trace + [(wpos, rpos)];
        InOrder(calls, sofar, result, begin, before, Contents());
      }
    }
  }

  /** A guarded call at these positions, and what it moved. */
  ghost predicate Performed(at: (nat, nat), call: Call<char>, result: seq<char>, capacity: nat) {
    && Sane(at.0, at.1, capacity)
    && match call
      case WriteCall(bytes) =>
        && WriteGuarded(at.0, at.1, capacity, |bytes|)
        && result <= bytes && |result| == Least(|bytes|, WriteAvail(at.0, at.1, capacity))
      case ReadCall(len) =>
        && ReadGuarded(at.0, at.1, capacity, len)
        && |result| == Least(len, ReadAvail(at.0, at.1, capacity))
  }

  lemma GetTakes(ring: seq<char>, wpos: nat, rpos: nat, n: nat)
    requires Sane(wpos, rpos, |ring|) && rpos + n <= |ring| && n <= Held(wpos, rpos, |ring|)
    ensures Wrap(rpos + n, |ring|) < |ring|
    ensures Items(ring, rpos, Held(wpos, rpos, |ring|))
         == ring[rpos..rpos + n] + Items(ring, Wrap(rpos + n, |ring|), Held(wpos, rpos, |ring|) - n)
  {
    hide Items;
    ItemsSplit(ring, rpos, n, Held(wpos, rpos, |ring|) - n);
    ItemsStraight(ring, rpos, n);
  }

  lemma NothingJoined(s: seq<char>, t: seq<char>)
    ensures s + t[..0] == s && t[0..] == t
  {
  }

  lemma SameLength(s: seq<char>, a: seq<char>, b: seq<char>)
    requires s + a == s + b
    ensures |a| == |b|
  {
    assert |s + a| == |s| + |a| && |s + b| == |s| + |b|;
  }

  lemma OneWritten(s: seq<char>, at: nat, a: seq<char>)
    requires at + |a| <= |s|
    ensures Overwritten(s, at, a)[at..at + |a|] == a && Overwritten(s, at, a)[at + |a|..] == s[at + |a|..]
  {
  }

  lemma TwoWritten(s: seq<char>, a: seq<char>, b: seq<char>)
    requires |a| + |b| <= |s|
    ensures
      var t := Overwritten(Overwritten(s, 0, a), |a|, b);
      t[..|a| + |b|] == a + b && t[|a| + |b|..] == s[|a| + |b|..]
  {
  }

  lemma TwoParts(src: array<char>, first: nat, rest: nat)
    requires first + rest <= src.Length
    ensures src[0..first] + src[first..first + rest] == src[..first + rest]
  {
  }

  /** Writing behind what is held appends to it. */
  lemma PutKeeps(ring: seq<char>, wpos: nat, rpos: nat, bytes: seq<char>)
    requires Sane(wpos, rpos, |ring|) && wpos + |bytes| <= |ring| && |bytes| <= WriteAvail(wpos, rpos, |ring|)
    ensures
      var held := Held(wpos, rpos, |ring|);
      var next := Wrap(wpos + |bytes|, |ring|);
      MayWrite(wpos, rpos, |ring|, |bytes|) ==>
        && next < |ring| && Held(next, rpos, |ring|) == held + |bytes|
        && Items(Overwritten(ring, wpos, bytes), rpos, held + |bytes|) == Items(ring, rpos, held) + bytes
  {
    hide Items, Overwritten, WriteAvail;
    var held, n := Held(wpos, rpos, |ring|), |bytes|;
    WriteAdds(wpos, rpos, |ring|, n);
    AvailExact(wpos, rpos, |ring|);
    if MayWrite(wpos, rpos, |ring|, n) {
      var next := Overwritten(ring, wpos, bytes);
      ItemsSplit(next, rpos, held, n);
      ItemsKept(ring, rpos, held, wpos, bytes);
      ItemsStraight(next, wpos, n);
      Exactly(ring, wpos, bytes);
    }
  }
}
