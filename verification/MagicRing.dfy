/** The ring buffer whose memory is mapped twice in a row, so that no access has to wrap. */
module MagicRing {
  import opened Copies
  import opened RingPositions
  import opened Queues

  class MagicRing<T(0)> {
    const capacity: nat
    const memory: array<T>  // the one dataspace behind both mappings

    var wpos: nat
    var rpos: nat

    predicate Valid()
      reads this
    {
      memory.Length == capacity && Sane(wpos, rpos, capacity)
    }

    ghost function Contents(): seq<T>
      requires Valid()
      reads this, memory
    {
      Items(memory[..], rpos, Held(wpos, rpos, capacity))
    }

    constructor (capacity: nat)
      requires capacity >= 2
      ensures Valid() && this.capacity == capacity && Contents() == [] && fresh(memory)
    {
      this.capacity, memory, wpos, rpos := capacity, new T[capacity], 0, 0;
    }

    /** What the doubly mapped buffer shows at an index. */
    function At(index: nat): T
      requires memory.Length == capacity && index < 2 * capacity
      reads this, memory
    {
      memory[Wrap(index, capacity)]
    }

    /** The user stores an item behind the write address. */
    method StoreItem(i: nat, x: T)
      requires Valid() && i < capacity
      modifies memory
      ensures Items(memory[..], wpos, capacity) == old(Items(memory[..], wpos, capacity))[i := x]
    {
      hide Items;
      ItemsUpdate(memory[..], wpos, i, x);
      ghost var ring := memory[..];
      memory[Wrap(wpos + i, capacity)] := x;
      assert memory[..] == ring[Wrap(wpos + i, capacity) := x];
    }

    /** The user stores items from the write address on, without regard to the end of the memory. */
    method StoreItems(items: seq<T>)
      requires Valid() && |items| <= capacity
      modifies memory
      ensures Items(memory[..], wpos, capacity) == items + old(Items(memory[..], wpos, capacity))[|items|..]
    {
      hide Items;
      ghost var before := Items(memory[..], wpos, capacity);
      for i := 0 to |items|
        invariant Items(memory[..], wpos, capacity) == items[..i] + before[i..]
      {
        StoreItem(i, items[i]);
        OneMore(items, before, i);
      }
      assert items[..|items|] == items;
    }

    method Fill(n: nat)
      requires Valid() && n <= WriteAvail(wpos, rpos, capacity)
      modifies this`wpos
      ensures wpos == Wrap(old(wpos) + n, capacity)
      ensures old(MayWrite(wpos, rpos, capacity, n)) ==>
        Valid() && Held(wpos, rpos, capacity) == old(Held(wpos, rpos, capacity)) + n
      ensures !old(MayWrite(wpos, rpos, capacity, n)) ==> wpos == rpos
    {
      AvailExact(wpos, rpos, capacity);
      WriteAdds(wpos, rpos, capacity, n);
      WrapIsModulo(wpos + n, capacity);
      wpos := (wpos + n) % capacity;
    }

    /** Storing items and filling the ring by their number appends them, or loses everything. */
    method Produce(items: seq<T>)
      requires Valid() && |items| <= WriteAvail(wpos, rpos, capacity)
      modifies this`wpos, memory
      ensures Valid()
      ensures Contents() == if old(MayWrite(wpos, rpos, capacity, |items|)) then old(Contents()) + items else []
    {
      hide Items;
      AvailExact(wpos, rpos, capacity);
      ghost var before, w := memory[..], wpos;
      StoreItems(items);
      ghost var guarded := MayWrite(wpos, rpos, capacity, |items|);
      WriteAdds(wpos, rpos, capacity, |items|);
      Fill(|items|);
      if guarded {
        Stored(before, memory[..], w, rpos, items);
      } else {
        ItemsNone(memory[..], rpos);
      }
    }

    method Drain(n: nat)
      requires Valid() && n <= ReadAvail(wpos, rpos, capacity)
      modifies this`rpos
      ensures Valid() && Contents() == old(Contents())[n..]
    {
      ghost var held := Held(wpos, rpos, capacity);
      ReadSubtracts(wpos, rpos, capacity, n);
      AvailExact(wpos, rpos, capacity);
      WrapIsModulo(rpos + n, capacity);
      ItemsSplit(memory[..], rpos, n, held - n);
      rpos := (rpos + n) % capacity;
    }

    /** Loading items from the read address on and draining them takes them from the queue. */
    method Consume(n: nat) returns (items: seq<T>)
      requires Valid() && n <= ReadAvail(wpos, rpos, capacity)
      modifies this`rpos
      ensures Valid() && old(Contents()) == items + Contents() && |items| == n
    {
      AvailExact(wpos, rpos, capacity);
      items := [];
      for i := 0 to n
        invariant |items| == i && forall k | 0 <= k < i :: items[k] == At(rpos + k)
      {
        items := items + [At(rpos + i)];
      }
      assert items == Contents()[..n];
      Drain(n);
    }

    /** The call stays within what is available, and does not meet the reader. */
    predicate Allowed(call: Call<T>)
      requires Valid()
      reads this
    {
      match call
      case WriteCall(items) => MayWrite(wpos, rpos, capacity, |items|)
      case ReadCall(len) => len <= ReadAvail(wpos, rpos, capacity)
    }

    method Perform(call: Call<T>) returns (result: seq<T>)
      requires Valid() && Allowed(call)
      modifies this`wpos, this`rpos, memory
      ensures Valid()
      ensures call.WriteCall? ==> result == call.items && Contents() == old(Contents()) + result
      ensures call.ReadCall? ==> old(Contents()) == result + Contents() && |result| == call.len
    {
      hide Items, Held, ReadAvail, WriteAvail;
      match call
      case WriteCall(items) =>
        Produce(items);
        result := items;
      case ReadCall(len) =>
        result := Consume(len);
    }

    /** Any run of calls, up to the first one that is not allowed, is first in, first out. */
    method Run(calls: seq<Call<T>>) returns (results: seq<seq<T>>)
      requires Valid()
      modifies this`wpos, this`rpos, memory
      ensures Valid() && |results| <= |calls| && (|results| < |calls| ==> !Allowed(calls[|results|]))
      ensures forall i | 0 <= i < |results| ::
        if calls[i].WriteCall? then results[i] == calls[i].items else |results[i]| == calls[i].len
      ensures old(Contents()) + Inputs(calls, results) == Outputs(calls, results) + Contents()
    {
      hide Contents, Allowed;
      results := [];
      ghost var begin := Contents();
      for k := 0 to |calls|
        invariant Valid() && |results| == k
        invariant forall i | 0 <= i < k ::
          if calls[i].WriteCall? then results[i] == calls[i].items else |results[i]| == calls[i].len
        invariant begin + Inputs(calls, results) == Outputs(calls, results) + Contents()
      {
        if !Allowed(calls[k]) {
          return;
        }
        ghost var before, sofar := Contents(), results;
        var result := Perform(calls[k]);
        results := results + [result];
        InOrder(calls, sofar, result, begin, before, Contents());
      }
    }
  }

  lemma ItemsNone<T>(ring: seq<T>, from: nat)
    requires from < |ring|
    ensures Items(ring, from, 0) == []
  {
  }

  lemma ItemsUpdate<T>(ring: seq<T>, from: nat, i: nat, x: T)
    requires from < |ring| && i < |ring|
    ensures Wrap(from + i, |ring|) < |ring|
    ensures Items(ring[Wrap(from + i, |ring|) := x], from, |ring|) == Items(ring, from, |ring|)[i := x]
  {
    var next := Items(ring[Wrap(from + i, |ring|) := x], from, |ring|);
    forall k | 0 <= k < |ring|
      ensures next[k] == Items(ring, from, |ring|)[i := x][k]
    {
    }
  }

  lemma OneMore<T>(items: seq<T>, before: seq<T>, i: nat)
    requires i < |items| <= |before|
    ensures (items[..i] + before[i..])[i := items[i]] == items[..i + 1] + before[i + 1..]
  {
  }

  /** Items stored behind the held ones are appended. */
  lemma Stored<T>(before: seq<T>, after: seq<T>, wpos: nat, rpos: nat, items: seq<T>)
    requires |before| == |after| && Sane(wpos, rpos, |before|) && MayWrite(wpos, rpos, |before|, |items|)
    requires Items(after, wpos, |after|) == items + Items(before, wpos, |before|)[|items|..]
    ensures
      var held := Held(wpos, rpos, |before|);
      held + |items| <= |before|
      && Items(after, rpos, held + |items|) == Items(before, rpos, held) + items
  {
    hide Items, Held, Wrap, MayWrite;
    var held := Held(wpos, rpos, |before|);
    HeldIsTail(before, wpos, rpos);
    HeldIsTail(after, wpos, rpos);
    Behind(after, wpos, rpos, |items|);
    PrefixOf(after, wpos, |items|);
    Parts(Items(before, wpos, |before|), Items(after, wpos, |after|), items, held);
  }

  lemma HeldIsTail<T>(ring: seq<T>, wpos: nat, rpos: nat)
    requires Sane(wpos, rpos, |ring|)
    ensures
      var held := Held(wpos, rpos, |ring|);
      held <= |ring| && Items(ring, rpos, held) == Items(ring, wpos, |ring|)[|ring| - held..]
  {
    hide Items;
    ItemsSplit(ring, wpos, |ring| - Held(wpos, rpos, |ring|), Held(wpos, rpos, |ring|));
  }

  lemma PrefixOf<T>(ring: seq<T>, from: nat, n: nat)
    requires from < |ring| && n <= |ring|
    ensures Items(ring, from, n) == Items(ring, from, |ring|)[..n]
  {
    hide Items;
    ItemsSplit(ring, from, n, |ring| - n);
  }

  lemma Behind<T>(ring: seq<T>, wpos: nat, rpos: nat, n: nat)
    requires Sane(wpos, rpos, |ring|) && MayWrite(wpos, rpos, |ring|, n)
    ensures
      var held := Held(wpos, rpos, |ring|);
      held + n <= |ring| && Items(ring, rpos, held + n) == Items(ring, rpos, held) + Items(ring, wpos, n)
  {
    hide Items;
    AvailExact(wpos, rpos, |ring|);
    ItemsSplit(ring, rpos, Held(wpos, rpos, |ring|), n);
  }

  lemma Parts<T>(before: seq<T>, after: seq<T>, items: seq<T>, held: nat)
    requires |items| + held <= |before| && after == items + before[|items|..]
    ensures |after| == |before| && after[|after| - held..] == before[|before| - held..]
    ensures after[..|items|] == items
  {
  }
}
