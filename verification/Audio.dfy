/** Guest audio of any granularity is re-chunked into packets of one period. */
module Audio {
  import opened Copies
  import opened Wrappers

  datatype Kind = Start | Stop | Out | ContinueTx | DrainTx | Other

  /** The samples of both channels at one moment. */
  type Frame = (real, real)

  /** How a call of receive ends. */
  datatype Outcome = Ignored | Stopped | Consumed | Drained | NoPacket

  /** What the output stream answers when a packet is needed. */
  datatype Answer = StreamFull | NoneFree | Packet(position: nat)

  const SAMPLE_SIZE: nat := 4  // bytes of a float

  function Clamp(x: real): (r: real)
    ensures -1.0 <= r <= 1.0 && (-1.0 <= x <= 1.0 ==> r == x)
  {
    var low := if x > 1.0 then 1.0 else x;
    if low < -1.0 then -1.0 else low
  }

  function Gap(x: real, y: real): real {
    if x < y then y - x else x - y
  }

  /** Clamping goes to the nearest value of the range, and to no other one. */
  lemma ClampIsNearest(x: real, r: real)
    ensures r == Clamp(x) <==>
      -1.0 <= r <= 1.0 && forall y: real | -1.0 <= y <= 1.0 :: Gap(r, x) <= Gap(y, x)
  {
    assert -1.0 <= Clamp(x) <= 1.0;
    if r != Clamp(x) && -1.0 <= r <= 1.0 {
      assert Gap(Clamp(x), x) < Gap(r, x);
    }
  }

  /** Interleaved samples as frames. */
  function Frames(data: seq<real>): (r: seq<Frame>)
    ensures |r| == |data| / 2
  {
    seq(|data| / 2, i requires 0 <= i < |data| / 2 => (Clamp(data[2 * i]), Clamp(data[2 * i + 1])))
  }

  lemma FramesAppend(data: seq<real>, a: nat, b: nat, c: nat)
    requires a <= b <= c <= |data| && (b - a) % 2 == 0
    ensures Frames(data[a..c]) == Frames(data[a..b]) + Frames(data[b..c])
  {
    hide Clamp;
    var s, m := data[a..c], (b - a) / 2;
    Halves(b - a, c - b);
    forall i | 0 <= i < |s| / 2
      ensures Frames(s)[i] == (Frames(data[a..b]) + Frames(data[b..c]))[i]
    {
      if i < m {
        assert s[2 * i] == data[a..b][2 * i] && s[2 * i + 1] == data[a..b][2 * i + 1];
      } else {
        assert 2 * i == (b - a) + 2 * (i - m);
        assert s[2 * i] == data[b..c][2 * (i - m)] && s[2 * i + 1] == data[b..c][2 * (i - m) + 1];
      }
    }
  }

  /**
   * The frames that samples add behind an offset. From an even offset, each pair is a frame. From
   * an odd one, pairs are formed all the same, so the channels are exchanged, and a packet that
   * becomes even again within its room ends with a stale frame, if there is one.
   */
  function Added(data: seq<real>, offset: nat, room: nat, stale: seq<Frame>): seq<Frame> {
    if offset % 2 == 0 then Frames(data) else
    var s := Least(|data|, room);
    Frames(data[..s]) + stale + Frames(data[s..])
  }

  /** The samples of frames, interleaved again. */
  function Interleaved(frames: seq<Frame>): seq<real> {
    seq(2 * |frames|, i requires 0 <= i < 2 * |frames| =>
      if i % 2 == 0 then frames[i / 2].0 else frames[i / 2].1)
  }

  function Clamped(data: seq<real>): seq<real> {
    seq(|data|, i requires 0 <= i < |data| => Clamp(data[i]))
  }

  /** From an even offset, all samples are in the stream exactly if their number is even. */
  lemma NothingLost(data: seq<real>, offset: nat, room: nat, stale: seq<Frame>)
    requires offset % 2 == 0
    ensures Interleaved(Added(data, offset, room, stale)) == Clamped(data) <==> |data| % 2 == 0
  {
    hide Clamp;
    if |data| % 2 == 0 {
      forall i | 0 <= i < |data|
        ensures Interleaved(Frames(data))[i] == Clamp(data[i])
      {
        assert data[i] == if i % 2 == 0 then data[2 * (i / 2)] else data[2 * (i / 2) + 1];
      }
      assert Interleaved(Frames(data)) == Clamped(data);
    } else {
      assert |Interleaved(Frames(data))| == 2 * (|data| / 2) < |Clamped(data)|;
    }
  }

  lemma FrameAt(data: seq<real>, k: nat)
    requires k < |data| / 2
    ensures Frames(data)[k] == (Clamp(data[2 * k]), Clamp(data[2 * k + 1]))
  {
  }

  /** What is heard of each sample of whole frames is the nearest value of the range, on its own channel. */
  lemma HeardNearest(data: seq<real>, offset: nat, room: nat, stale: seq<Frame>, i: nat)
    requires offset % 2 == 0 && i < 2 * (|data| / 2)
    ensures i / 2 < |Added(data, offset, room, stale)|
    ensures
      var frame := Added(data, offset, room, stale)[i / 2];
      var heard := if i % 2 == 0 then frame.0 else frame.1;
      -1.0 <= heard <= 1.0 && forall y: real | -1.0 <= y <= 1.0 :: Gap(heard, data[i]) <= Gap(y, data[i])
  {
    hide Clamp, Gap, Frames;
    FrameAt(data, i / 2);
    ClampIsNearest(data[i], Clamp(data[i]));
    if i % 2 == 0 {
      assert data[2 * (i / 2)] == data[i];
    } else {
      assert data[2 * (i / 2) + 1] == data[i];
    }
  }

  /** A frame that is too loud on the left is heard at the limit. */
  lemma LoudMessage()
    ensures Added([1.5, 0.5], 0, 8, []) == [(1.0, 0.5)]
  {
    var data := [1.5, 0.5];
    assert |Frames(data)| == 1 && Frames(data)[0] == (1.0, 0.5);
  }

  /** A message of three samples loses the last one. */
  lemma OddMessage()
    ensures Added([0.25, 0.5, 0.75], 0, 8, []) == [(0.25, 0.5)]
  {
    var data := [0.25, 0.5, 0.75];
    assert |Frames(data)| == 1 && Frames(data)[0] == (0.25, 0.5);
  }

  /** The next three, from the odd offset: left and right are exchanged, and a stale frame follows. */
  lemma OddOffset(stale: Frame)
    ensures Added([-0.75, 0.125, -0.125], 3, 5, [stale]) == [(-0.75, 0.125), stale]
  {
    var data := [-0.75, 0.125, -0.125];
    assert data[..3] == data && data[3..] == [];
    assert |Frames(data)| == 1 && Frames(data)[0] == (-0.75, 0.125);
  }

  function StaleSlot(packet: seq<Frame>, offset: nat, samples: nat): (r: seq<Frame>)
    requires offset + samples <= 2 * |packet|
  {
    if offset % 2 == 1 && samples % 2 == 1 then [packet[(offset + samples) / 2 - 1]] else []
  }

  /** A packet after frames were copied into it. */
  lemma Copied(before: seq<Frame>, after: seq<Frame>, data: seq<real>, offset: nat, samples: nat)
    requires |after| == |before| && offset + samples <= 2 * |before| && samples <= |data|
    requires forall k | 0 <= k < |before| && !(offset / 2 <= k < offset / 2 + samples / 2) :: after[k] == before[k]
    requires forall k | 0 <= k < samples / 2 ::
      after[offset / 2 + k] == (Clamp(data[2 * k]), Clamp(data[2 * k + 1]))
    ensures after[..(offset + samples) / 2]
         == before[..offset / 2] + Frames(data[..samples]) + StaleSlot(before, offset, samples)
  {
    hide Clamp;
    var begin, n := offset / 2, samples / 2;
    Halves(offset, samples);
    var frames := Frames(data[..samples]);
    assert |frames| == n;
    forall k | 0 <= k < n
      ensures after[begin..begin + n][k] == frames[k]
    {
      assert after[begin + k] == (Clamp(data[2 * k]), Clamp(data[2 * k + 1]));
    }
    assert after[begin..begin + n] == frames;
    assert after[..begin] == before[..begin];
  }

  /** Once the room is used up, everything is as from an even offset. */
  lemma AddedGrows(data: seq<real>, a: nat, b: nat, c: nat, offset: nat, room: nat, stale: seq<Frame>)
    requires a <= b <= c <= |data|
    requires if offset % 2 == 0 then (b - a) % 2 == 0 else b - a >= room && (b - a - room) % 2 == 0
    ensures Added(data[a..c], offset, room, stale) == Added(data[a..b], offset, room, stale) + Frames(data[b..c])
  {
    hide Frames;
    if offset % 2 == 0 {
      FramesAppend(data, a, b, c);
    } else {
      var m := a + room;
      assert data[a..c][..room] == data[a..m] == data[a..b][..room];
      assert data[a..c][room..] == data[m..c] && data[a..b][room..] == data[m..b];
      FramesAppend(data, m, b, c);
      Reassociate(Frames(data[a..m]) + stale, Frames(data[m..b]), Frames(data[b..c]));
    }
  }

  /** The stream has grown by the samples from first to taken. */
  ghost predicate Chunked(data: seq<real>, first: nat, taken: nat, offset: nat, next: nat, room: nat, stale: seq<Frame>,
      before: seq<Frame>, after: seq<Frame>)
  {
    && first <= taken <= |data| && next % 2 == (offset + (taken - first)) % 2
    && after == before + Added(data[first..taken], offset, room, stale)
  }

  lemma ChunkedAgain(data: seq<real>, first: nat, at: nat, taken: nat, offset: nat, next: nat, room: nat,
      stale: seq<Frame>, before: seq<Frame>, current: seq<Frame>, after: seq<Frame>)
    requires Chunked(data, first, at, offset, 0, room, stale, before, current)
    requires at - first >= room && (offset + room) % 2 == 0
    requires exists more: nat, none: seq<Frame> :: Chunked(data, at, taken, 0, next, more, none, current, after)
    ensures Chunked(data, first, taken, offset, next, room, stale, before, after)
  {
    hide Frames, Added;
    AddedEven(data[at..taken]);
    EvenBefore(offset + (at - first), taken - at);
    AddedGrows(data, first, at, taken, offset, room, stale);
    Reassociate(before, Added(data[first..at], offset, room, stale), Frames(data[at..taken]));
  }

  // ---------- where submitted packets go ----------

  /**
   * Every submitted packet has been heard, is still held by the streams, or was thrown away. While
   * none was, they are heard in the order in which they were submitted.
   */
  ghost predicate Conserved(submitted: seq<seq<Frame>>, heard: seq<seq<Frame>>, held: seq<seq<Frame>>,
      thrown: seq<seq<Frame>>)
  {
    && multiset(submitted) == multiset(heard) + multiset(held) + multiset(thrown)
    && (thrown == [] ==> submitted == heard + held)
  }

  lemma Submitted(submitted: seq<seq<Frame>>, heard: seq<seq<Frame>>, held: seq<seq<Frame>>,
      thrown: seq<seq<Frame>>, packet: seq<Frame>)
    requires Conserved(submitted, heard, held, thrown)
    ensures Conserved(submitted + [packet], heard, held + [packet], thrown)
  {
    Reassociate(heard, held, [packet]);
  }

  lemma ThrownAway(submitted: seq<seq<Frame>>, heard: seq<seq<Frame>>, held: seq<seq<Frame>>,
      thrown: seq<seq<Frame>>)
    requires Conserved(submitted, heard, held, thrown)
    ensures Conserved(submitted, heard, [], thrown + held)
  {
  }

  lemma HeardNext(submitted: seq<seq<Frame>>, heard: seq<seq<Frame>>, held: seq<seq<Frame>>,
      thrown: seq<seq<Frame>>)
    requires held != [] && Conserved(submitted, heard, held, thrown)
    ensures Conserved(submitted, heard + [held[0]], held[1..], thrown)
  {
    assert held == [held[0]] + held[1..];
    Reassociate(heard, [held[0]], held[1..]);
  }

  /** The packets one after the other. */
  function Flatten(packets: seq<seq<Frame>>): seq<Frame> {
    if packets == [] then [] else Flatten(packets[..|packets| - 1]) + packets[|packets| - 1]
  }

  lemma {:induction false} FlattenPrefix(a: seq<seq<Frame>>, b: seq<seq<Frame>>)
    ensures Flatten(a) <= Flatten(a + b)
    decreases |b|
  {
    if b == [] {
      assert a + b == a;
    } else {
      var first := b[..|b| - 1];
      FlattenPrefix(a, first);
      assert (a + b)[..|a + b| - 1] == a + first;
    }
  }

  // ---------- positions in the queue ----------

  function Next(p: nat, n: nat): nat {
    if p + 1 == n then 0 else p + 1
  }

  lemma NextIsModulo(p: nat, n: nat)
    requires p < n
    ensures (p + 1) % n == Next(p, n) < n
  {
    if p + 1 < n {
      assert (p + 1) % n == p + 1;
    }
  }

  function Distance(head: nat, tail: nat, n: nat): nat
    requires head < n
  {
    if head <= tail then tail - head else tail + n - head
  }

  /** The positions from head to tail in cyclic order. */
  function Cycle(head: nat, tail: nat, n: nat): seq<nat>
    requires head < n && tail < n
    decreases Distance(head, tail, n)
  {
    if head == tail then [head] else [head] + Cycle(Next(head, n), tail, n)
  }

  lemma CycleStep(head: nat, tail: nat, n: nat)
    requires head < n && tail < n && head != tail
    ensures Cycle(head, tail, n) == [head] + Cycle(Next(head, n), tail, n)
    ensures Distance(Next(head, n), tail, n) < Distance(head, tail, n)
  {
  }

  lemma PrefixOf(before: seq<nat>, p: nat, rest: seq<nat>)
    requires rest != [] && rest[0] == p
    ensures before + [p] <= before + rest
  {
  }

  lemma FlattenAppends(packets: seq<seq<Frame>>, packet: seq<Frame>)
    ensures Flatten(packets + [packet]) == Flatten(packets) + packet
  {
    assert (packets + [packet])[..|packets|] == packets;
  }

  lemma CycleEnd(p: nat, n: nat)
    requires p < n
    ensures Cycle(p, p, n) == [p]
  {
  }

  lemma CycleHead(head: nat, tail: nat, n: nat)
    requires head < n && tail < n
    ensures Cycle(head, tail, n) != [] && Cycle(head, tail, n)[0] == head
  {
  }

  /** A new tail is appended, unless it is the head again. */
  lemma {:induction false} CycleGrows(head: nat, tail: nat, n: nat)
    requires head < n && tail < n && Next(tail, n) != head
    ensures Cycle(head, Next(tail, n), n) == Cycle(head, tail, n) + [Next(tail, n)]
    decreases Distance(head, tail, n)
  {
    if head != tail {
      CycleGrows(Next(head, n), tail, n);
    } else {
      assert Cycle(Next(head, n), Next(tail, n), n) == [Next(tail, n)];
    }
  }

  class Message {
    var kind: Kind
    const data: seq<real>
    const size: nat    // in bytes
    var consumed: nat  // in bytes
    var id: nat

    predicate Valid()
      reads this
    {
      consumed <= size && consumed % SAMPLE_SIZE == 0 && |data| == size / SAMPLE_SIZE
    }

    /** The samples consumed so far. */
    function Taken(): (n: nat)
      requires Valid()
      reads this
      ensures n <= |data| && SAMPLE_SIZE * n == consumed
    {
      consumed / SAMPLE_SIZE
    }

    constructor (kind: Kind, data: seq<real>)
      ensures Valid() && this.kind == kind && this.data == data && size == SAMPLE_SIZE * |data| && consumed == 0
    {
      this.kind, this.data, this.size, consumed, id := kind, data, SAMPLE_SIZE * |data|, 0, 0;
    }
  }

  class Audio {
    const period: nat
    const queue: nat
    const left: array2<real>
    const right: array2<real>
    const stream: nat -> Answer  // the answer to the n-th request

    var asked: nat            // requests made to the stream
    var partial: Option<nat>  // the position of the packet being filled
    var sampleOffset: nat
    var head: Option<nat>
    var tail: Option<nat>
    var running: bool

    ghost var submitted: seq<seq<Frame>>
    ghost var heard: seq<seq<Frame>>   // played
    ghost var held: seq<seq<Frame>>    // submitted and still valid in the streams
    ghost var thrown: seq<seq<Frame>>  // invalidated before they were played

    ghost predicate Valid()
      reads this
    {
      && period > 0 && queue > 0 && left != right
      && left.Length0 == right.Length0 == queue && left.Length1 == right.Length1 == period
      && sampleOffset < 2 * period
      && (partial.Some? ==> partial.value < queue)
      && (partial.None? || !running ==> partial.None? && sampleOffset == 0)
      && (head.Some? ==> head.value < queue && tail.Some? && tail.value < queue)
      && Complete() && Positions()
      && Conserved(submitted, heard, held, thrown) && (!running ==> held == [])
    }

    /** The stream has so many packets. */
    ghost predicate Positions() {
      forall n | stream(n).Packet? :: stream(n).position < queue
    }

    /** Only full packets are submitted. */
    ghost predicate Complete()
      reads this`submitted
    {
      forall packet <- submitted :: |packet| == period
    }

    constructor (period: nat, queue: nat, stream: nat -> Answer)
      requires period > 0 && queue > 0
      requires forall n | stream(n).Packet? :: stream(n).position < queue
      ensures Valid() && Stream() == [] && Pending() == [] && !running
      ensures fresh(left) && fresh(right)
    {
      this.period, this.queue, this.stream, asked := period, queue, stream, 0;
      left, right := new real[queue, period], new real[queue, period];
      partial, sampleOffset, head, tail, running := None, 0, None, None, false;
      submitted, heard, held, thrown := [], [], [], [];
    }

    /** The first frames of a packet. */
    ghost function Content(p: nat, n: nat): (r: seq<Frame>)
      requires p < left.Length0 == right.Length0 && n <= left.Length1 == right.Length1
      reads left, right
      ensures |r| == n
    {
      seq(n, i requires 0 <= i < n reads left, right => (left[p, i], right[p, i]))
    }

    ghost predicate SameFate(heard: seq<seq<Frame>>, held: seq<seq<Frame>>, thrown: seq<seq<Frame>>)
      reads this`heard, this`held, this`thrown
    {
      this.heard == heard && this.held == held && this.thrown == thrown
    }

    /** The slot of an odd packet that becomes even with so many samples, if it does. */
    ghost function Stale(samples: nat): (r: seq<Frame>)
      requires Valid()
      reads this, left, right
      ensures partial.None? || sampleOffset % 2 == 0 || samples % 2 == 0 ==> r == []
    {
      if partial.Some? && sampleOffset + samples <= 2 * period then
        StaleSlot(Content(partial.value, period), sampleOffset, samples)
      else []
    }

    /** Everything ever submitted, and the packet being filled. */
    ghost function Stream(): seq<Frame>
      requires Valid()
      reads this, left, right
    {
      Flatten(submitted) + Begun()
    }

    ghost function Begun(): seq<Frame>
      requires Valid()
      reads this, left, right
    {
      if partial.Some? then Content(partial.value, sampleOffset / 2) else []
    }

    /** Answers of the stream that gave no packet: each packet was submitted or is being filled. */
    ghost function Spent(): int
      reads this
    {
      asked - |submitted| - if partial.Some? then 1 else 0
    }

    /** The packets not yet confirmed to the guest. */
    ghost function Pending(): seq<nat>
      requires Valid()
      reads this
    {
      if head.Some? then Cycle(head.value, tail.value, queue) else []
    }

    /** If the stream hands out its packets in turn, each one is pending once, after the others. */
    twostate predicate Confirmable(p: nat)
      requires old(Valid()) && Valid()
      reads this
    {
      && (old(head).None? ==> Pending() == [p])
      && (old(head).Some? && p == old(tail).value ==> Pending() == old(Pending()))
      && (old(head).Some? && p == Next(old(tail).value, queue) && p != old(head).value ==>
          Pending() == old(Pending()) + [p])
    }

    method AudioStart()
      requires Valid()
      modifies this
      ensures Valid() && running && partial == old(partial) && sampleOffset == old(sampleOffset)
      ensures submitted == old(submitted) && Stream() == old(Stream()) && asked == old(asked)
      ensures Spent() == old(Spent()) && SameFate(old(heard), old(held), old(thrown))
      ensures head == (if old(running) then old(head) else None)
      ensures old(running) ==> tail == old(tail)
    {
      if running {
        return;
      }
      running := true;
      head, tail := None, None;
    }

    /** Stops the streams, which invalidates all packets that were not played yet. */
    method AudioStop()
      requires Valid()
      modifies this
      ensures SameFate(old(heard), [], old(thrown) + old(held))
      ensures Valid() && !running && submitted == old(submitted) && head == old(head) && tail == old(tail)
      ensures partial.None? && sampleOffset == 0 && asked == old(asked)
    {
      hide Conserved, Complete, Cycle, Positions, Content, Flatten;
      if !running {
        assert thrown + held == thrown;
        return;
      }
      ThrownAway(submitted, heard, held, thrown);
      running := false;
      partial, sampleOffset := None, 0;
      held, thrown := [], thrown + held;
    }

    /** Until packets are thrown away, the streams play what was submitted, from the beginning and in order. */
    lemma HeardInOrder()
      requires Valid() && thrown == []
      ensures Flatten(heard) <= Stream()
    {
      FlattenPrefix(heard, held);
    }

    /** The streams play the next packet. */
    ghost method PlayNext()
      requires Valid() && held != []
      modifies this`heard, this`held
      ensures Valid() && SameFate(old(heard) + [old(held)[0]], old(held)[1..], old(thrown))
      ensures Stream() == old(Stream()) && Spent() == old(Spent())
    {
      hide Conserved, Complete, Cycle;
      HeardNext(submitted, heard, held, thrown);
      heard, held := heard + [held[0]], held[1..];
    }

    /** Confirms played packets to the guest, from the head on. */
    method AudioOut(played: nat -> bool, drain: nat -> bool) returns (confirmed: seq<nat>)
      requires Valid()
      modifies this
      ensures Valid() && submitted == old(submitted)
      ensures confirmed <= old(Pending()) && forall p <- confirmed :: played(p)
      ensures confirmed != [] && drain(confirmed[|confirmed| - 1]) ==>
        !running && Pending() == [] && SameFate(old(heard), [], old(thrown) + old(held))
      ensures forall i | 0 <= i < |confirmed| - 1 :: !drain(confirmed[i])
      ensures !(confirmed != [] && drain(confirmed[|confirmed| - 1])) ==>
        && confirmed + Pending() == old(Pending())
        && (Pending() != [] ==> !played(Pending()[0]))
        && running == old(running) && partial == old(partial) && sampleOffset == old(sampleOffset)
        && SameFate(old(heard), old(held), old(thrown))
    {
      hide Complete, Cycle, Distance, Next, Conserved;
      ghost var goal := Pending();
      confirmed := [];
      if head.None? {
        return;
      }
      while true
        invariant Valid() && head.Some? && submitted == old(submitted)
        invariant confirmed + Pending() == goal
        invariant forall p <- confirmed :: played(p) && !drain(p)
        invariant running == old(running) && partial == old(partial) && sampleOffset == old(sampleOffset)
        invariant SameFate(old(heard), old(held), old(thrown))
        decreases Distance(head.value, tail.value, queue)
      {
        CycleHead(head.value, tail.value, queue);
        ghost var rest := Pending();
        if !played(head.value) {
          break;
        }
        var p := head.value;
        ghost var before := confirmed;
        confirmed := confirmed + [p];
        if drain(p) {
          PrefixOf(before, p, rest);
          assert confirmed <= goal;
          AudioStop();
          head := None;
          return;
        }
        if head == tail {
          CycleEnd(p, queue);
          head := None;
          break;
        } else {
          NextIsModulo(head.value, queue);
          CycleStep(p, tail.value, queue);
          Reassociate(before, [p], Cycle(Next(p, queue), tail.value, queue));
          head := Some((head.value + 1) % queue);
          assert Pending() == Cycle(Next(p, queue), tail.value, queue);
          assert confirmed == before + [p];
          assert confirmed + Pending() == goal;
        }
      }
    }

    // ---------- messages of the guest ----------

    /** Copies frames, interleaved in the message, behind the ones in the packet. */
    method Fill(p: nat, data: seq<real>, samples: nat)
      requires Valid() && partial == Some(p) && sampleOffset + samples <= 2 * period && samples <= |data|
      modifies left, right
      ensures Content(p, (sampleOffset + samples) / 2)
           == old(Content(p, sampleOffset / 2)) + Frames(data[..samples]) + old(Stale(samples))
    {
      hide Clamp, Complete, Conserved, Cycle, Frames;
      var begin := sampleOffset / 2;
      ghost var before := Content(p, period);
      assert Content(p, begin) == before[..begin];
      for i := 0 to samples / 2
        invariant forall k | 0 <= k < period && !(begin <= k < begin + i) ::
          left[p, k] == old(left[p, k]) && right[p, k] == old(right[p, k])
        invariant forall k | 0 <= k < i ::
          left[p, begin + k] == Clamp(data[2 * k]) && right[p, begin + k] == Clamp(data[2 * k + 1])
      {
        var fLeft, fRight := data[2 * i], data[2 * i + 1];
        if fLeft > 1.0 {
          fLeft := 1.0;
        }
        if fLeft < -1.0 {
          fLeft := -1.0;
        }
        if fRight > 1.0 {
          fRight := 1.0;
        }
        if fRight < -1.0 {
          fRight := -1.0;
        }
        Clipped(data[2 * i], fLeft);
        Clipped(data[2 * i + 1], fRight);
        left[p, begin + i] := fLeft;
        right[p, begin + i] := fRight;
      }
      Copied(before, Content(p, period), data, sampleOffset, samples);
      assert Content(p, (sampleOffset + samples) / 2) == Content(p, period)[..(sampleOffset + samples) / 2];
    }

    /** One turn of the loop of receive, with a packet at hand. Tells whether another one follows. */
    method Take(msg: Message) returns (more: bool)
      requires Valid() && running && partial.Some? && msg.Valid() && msg.consumed < msg.size
      modifies this, msg, left, right
      ensures Valid() && running && msg.Valid() && msg.kind == old(msg.kind) && asked == old(asked)
      ensures if more then partial.None? && old(msg.consumed) < msg.consumed < msg.size
        else msg.size - msg.consumed < SAMPLE_SIZE
      ensures tail == Some(msg.id) && head == (if old(head).Some? then old(head) else tail)
      ensures msg.id == old(partial).value && Spent() == old(Spent())
      ensures Confirmable(msg.id)
      ensures heard == old(heard) && thrown == old(thrown)
      ensures old(msg.Taken()) <= msg.Taken()
      ensures
        var n := msg.Taken() - old(msg.Taken());
        && n <= 2 * period - old(sampleOffset) && (more ==> n == 2 * period - old(sampleOffset))
        && Stream() == old(Stream()) + (Frames(msg.data[old(msg.Taken())..msg.Taken()]) + old(Stale(n)))
        && sampleOffset % 2 == (old(sampleOffset) + n) % 2
    {
      hide Flatten, Frames, Content, Cycle, Complete, Conserved, Stale, Next, Message.Valid, Message.Taken;
      var samples := SamplesFor(msg);
      var p, first := partial.value, msg.Taken();
      ghost var begun, stale := Begun(), Stale(samples);
      Fill(p, msg.data[first..], samples);
      SliceOf(msg.data, first, samples);
      ghost var frames := Frames(msg.data[first..first + samples]);
      Reassociate(begun, frames, stale);
      Reassociate(Flatten(submitted), begun, frames + stale);
      Account(msg, samples);
      var full := Settle(samples, begun + (frames + stale));
      assert msg.Taken() - first == samples;
      return full && msg.consumed < msg.size;
    }

    /** A packet that is not full is delayed until there is enough data. */
    method Settle(samples: nat, ghost frames: seq<Frame>) returns (full: bool)
      requires Valid() && running && partial.Some? && sampleOffset + samples <= 2 * period
      requires Content(partial.value, (sampleOffset + samples) / 2) == frames
      modifies this`submitted, this`held, this`partial, this`sampleOffset
      ensures Valid() && (full <==> old(sampleOffset) + samples == 2 * period) && (full ==> partial.None?)
      ensures Spent() == old(Spent())
      ensures sampleOffset % 2 == (old(sampleOffset) + samples) % 2
      ensures Stream() == Flatten(old(submitted)) + frames
    {
      hide Flatten, Content, Cycle, Complete, Conserved, Next;
      var maxSamples := 2 * period;
      if sampleOffset + samples != maxSamples {
        SmallModulo(sampleOffset + samples, maxSamples);
        sampleOffset := (sampleOffset + samples) % maxSamples;
        return false;
      }
      Submit();
      return true;
    }

    /** As many samples as the message has and the packet can take. */
    method SamplesFor(msg: Message) returns (samples: nat)
      requires Valid() && msg.Valid() && msg.consumed < msg.size
      ensures msg.Taken() + samples <= |msg.data| && sampleOffset + samples <= 2 * period
      ensures msg.Taken() + samples == |msg.data| || sampleOffset + samples == 2 * period
    {
      var maxSamples := 2 * period;
      var rest := (msg.size - msg.consumed) / SAMPLE_SIZE;
      samples := if rest > maxSamples then maxSamples else rest;
      if samples > maxSamples - sampleOffset {
        samples := maxSamples - sampleOffset;
      }
    }

    /** Marks the samples as consumed, and their packet as the last one to confirm. */
    method Account(msg: Message, samples: nat)
      requires Valid() && partial.Some? && msg.Valid() && msg.Taken() + samples <= |msg.data|
      modifies msg`consumed, msg`id, this`head, this`tail
      ensures Valid() && msg.Valid() && msg.Taken() == old(msg.Taken()) + samples
      ensures msg.consumed == old(msg.consumed) + SAMPLE_SIZE * samples
      ensures msg.Taken() == |msg.data| <==> msg.size - msg.consumed < SAMPLE_SIZE
      ensures tail == Some(msg.id) && head == (if old(head).Some? then old(head) else tail)
      ensures msg.id == partial.value && Confirmable(msg.id)
    {
      hide Complete, Cycle, Conserved;
      if head.Some? && Next(tail.value, queue) == partial.value != head.value {
        CycleGrows(head.value, tail.value, queue);
      }
      CycleEnd(partial.value, queue);
      msg.consumed := msg.consumed + samples * SAMPLE_SIZE;
      msg.id := partial.value;
      tail := Some(msg.id);
      if head.None? {
        head := tail;
      }
    }

    /** The packet is full. */
    method Submit()
      requires Valid() && partial.Some?
      modifies this`submitted, this`held, this`partial, this`sampleOffset
      ensures Valid() && partial.None? && sampleOffset == 0 && Spent() == old(Spent())
      ensures Stream() == Flatten(old(submitted)) + old(Content(partial.value, period))
    {
      hide Flatten, Content, Cycle, Conserved;
      FlattenAppends(submitted, Content(partial.value, period));
      Submitted(submitted, heard, held, thrown, Content(partial.value, period));
      held := held + [Content(partial.value, period)];
      submitted := submitted + [Content(partial.value, period)];
      partial, sampleOffset := None, 0;
    }

    /** The stream has grown by what the consumed samples add, from whatever offset. */
    twostate predicate Rechunked(msg: Message)
      requires old(Valid()) && Valid() && old(msg.Valid()) && msg.Valid()
      reads this, msg, left, right
    {
      var first, room := old(msg.Taken()), 2 * period - old(sampleOffset);
      && first <= msg.Taken()
      && (var n := Least(msg.Taken() - first, room);
          Chunked(msg.data, first, msg.Taken(), old(sampleOffset), sampleOffset, room, old(Stale(n)), old(Stream()),
            Stream()))
    }

    /** Only a drain throws packets away, and then all that the streams hold. */
    twostate predicate Fate(outcome: Outcome)
      reads this
    {
      && heard == old(heard)
      && if outcome == Drained then held == [] && old(thrown) <= thrown else thrown == old(thrown)
    }

    /** The loop of receive. */
    method Consume(msg: Message) returns (ghost outcome: Outcome)
      requires Valid() && running && msg.Valid() && msg.kind == Out && msg.consumed < msg.size
      modifies this, msg, left, right
      ensures Valid() && msg.Valid() && outcome in {Consumed, Drained, NoPacket} && Rechunked(msg) && Fate(outcome)
      ensures Ended(msg, outcome) && (outcome in {Drained, NoPacket} ==> asked > old(asked))
      ensures msg.kind == if outcome == Drained then DrainTx else old(msg.kind)
      ensures asked >= old(asked) && Spent() == old(Spent()) + if outcome == Consumed then 0 else 1
    {
      hide Flatten, Frames, Content, Cycle, Complete, Conserved, Begun, Stream, Stale, Added, Message.Taken,
        Message.Valid, Ended, Conserved, Chunked, Spent, Positions;
      ghost var base, first, off, room := Stream(), msg.Taken(), sampleOffset, 2 * period - sampleOffset;
      ghost var begun := false;
      ghost var stale: seq<Frame> := [];
      var more := true;
      outcome := Consumed;
      while more
        invariant Valid() && msg.Valid() && first <= msg.Taken()
        invariant outcome in {Consumed, Drained, NoPacket} && asked >= old(asked)
        invariant outcome in {Drained, NoPacket} ==> asked > old(asked)
        invariant Spent() == old(Spent()) + (if outcome == Consumed then 0 else 1) && Fate(outcome)
        invariant more ==> outcome == Consumed
        invariant msg.kind == if outcome == Drained then DrainTx else Out
        invariant if more then running && msg.kind == Out && msg.consumed < msg.size else Ended(msg, outcome)
        invariant !begun ==> more && unchanged(this) && unchanged(msg) && unchanged(left) && unchanged(right)
        invariant begun ==>
          && (var n := Least(msg.Taken() - first, room); stale == old(Stale(n)))
          && Chunked(msg.data, first, msg.Taken(), off, sampleOffset, room, stale, base, Stream())
        invariant begun && more ==> sampleOffset == 0 && msg.Taken() - first >= room
        decreases msg.size - msg.consumed, more
      {
        ghost var at, current := msg.Taken(), Stream();
        more, outcome := Turn(msg);
        if begun {
          ChunkedAgain(msg.data, first, at, msg.Taken(), off, sampleOffset, room, stale, base, current, Stream());
        } else {
          ghost var n := Least(msg.Taken() - first, room);
          stale := old(Stale(n));
        }
        begun := true;
      }
    }

    /** The last answer of the stream. */
    predicate Last(answer: Answer)
      reads this
    {
      asked > 0 && stream(asked - 1) == answer
    }

    ghost predicate Ended(msg: Message, outcome: Outcome)
      requires Valid()
      reads this, msg
    {
      match outcome
      case Consumed => running && msg.size - msg.consumed < SAMPLE_SIZE && tail == Some(msg.id) && head.Some?
      case Drained =>
        && !running && partial.None? && Pending() == [] && msg.kind == DrainTx && msg.consumed < msg.size
        && Last(StreamFull)
      case NoPacket => partial.None? && msg.consumed < msg.size && Last(NoneFree)
      case _ => true
    }

    /** One turn of the loop, which first needs a packet. */
    method Turn(msg: Message) returns (more: bool, ghost outcome: Outcome)
      requires Valid() && running && msg.Valid() && msg.kind == Out && msg.consumed < msg.size
      modifies this, msg, left, right
      ensures Valid() && msg.Valid() && outcome in {Consumed, Drained, NoPacket}
      ensures old(msg.Taken()) <= msg.Taken() && old(msg.consumed) <= msg.consumed
      ensures asked == old(asked) + if old(partial).None? then 1 else 0
      ensures outcome in {Drained, NoPacket} ==> asked > old(asked)
      ensures msg.kind == if outcome == Drained then DrainTx else old(msg.kind)
      ensures Spent() == old(Spent()) + if outcome == Consumed then 0 else 1
      ensures outcome == Consumed ==>
        if old(partial).Some? then msg.id == old(partial).value else stream(old(asked)) == Packet(msg.id)
      ensures if !more then Ended(msg, outcome)
        else running && msg.kind == Out && old(msg.consumed) < msg.consumed < msg.size && sampleOffset == 0
      ensures more ==> outcome == Consumed && msg.Taken() - old(msg.Taken()) == 2 * period - old(sampleOffset)
      ensures Rechunked(msg) && Fate(outcome)
    {
      hide Flatten, Frames, Content, Cycle, Complete, Conserved, Begun, Stream, Stale, Message.Taken, Added;
      NothingAdded(msg.data, msg.Taken(), sampleOffset, 2 * period - sampleOffset);
      if partial.None? {
        var answer := Ask();
        match answer
        case StreamFull =>
          Drain(msg);
          return false, Drained;
        case NoneFree =>
          return false, NoPacket;
        case Packet(p) =>
          Begin(p);
      }
      ghost var first, room := msg.Taken(), 2 * period - sampleOffset;
      more := Take(msg);
      ghost var n := msg.Taken() - first;
      AddedInRoom(msg.data[first..msg.Taken()], old(sampleOffset), room, old(Stale(n)));
      return more, Consumed;
    }

    method Ask() returns (answer: Answer)
      requires Valid()
      modifies this`asked
      ensures Valid() && asked == old(asked) + 1 && answer == stream(old(asked))
      ensures Stream() == old(Stream()) && (answer.Packet? ==> answer.position < queue)
      ensures forall n: nat :: Stale(n) == old(Stale(n))
    {
      hide Flatten, Complete, Conserved, Cycle;
      answer := stream(asked);
      asked := asked + 1;
    }

    /** A full stream is reset: the packets that it holds are thrown away. None is being filled. */
    method Drain(msg: Message)
      requires Valid() && partial.None? && msg.Valid()
      modifies this, msg`kind
      ensures Valid() && !running && Pending() == [] && msg.kind == DrainTx
      ensures Stream() == old(Stream()) && sampleOffset == old(sampleOffset) && asked == old(asked)
      ensures Spent() == old(Spent()) && SameFate(old(heard), [], old(thrown) + old(held))
      ensures msg.Valid() && msg.Taken() == old(msg.Taken())
    {
      hide Flatten, Complete, Conserved;
      AudioStop();
      head, msg.kind := None, DrainTx;
    }

    /** A packet is allocated. */
    method Begin(p: nat)
      requires Valid() && running && partial.None? && p < queue
      modifies this`partial
      ensures Valid() && partial == Some(p) && Stream() == old(Stream())
      ensures forall n: nat :: Stale(n) == old(Stale(n))
    {
      hide Flatten, Complete, Conserved, Cycle;
      partial := Some(p);
    }

    /**
     * Takes the samples of an AUDIO_OUT message. What was submitted together with the packet being
     * filled grows by what the consumed samples add. Stopping throws away what was not played.
     */
    method Receive(msg: Message) returns (handled: bool, ghost outcome: Outcome)
      requires Valid() && msg.Valid() && (msg.kind == Out ==> msg.consumed < msg.size)
      modifies this, msg, left, right
      ensures Valid() && msg.Valid()
      ensures handled <==> old(msg.kind) != ContinueTx && old(msg.kind) != DrainTx
      ensures match old(msg.kind)
        case Out => outcome in {Consumed, Drained, NoPacket}
        case Stop =>
          && outcome == Stopped && !running && Stream() == Flatten(old(submitted)) && unchanged(msg)
          && SameFate(old(heard), [], old(thrown) + old(held))
        case _ => outcome == Ignored && unchanged(this) && unchanged(msg) && unchanged(left) && unchanged(right)
      ensures Ended(msg, outcome) && (outcome in {Drained, NoPacket} ==> asked > old(asked))
      ensures msg.kind == if outcome == Drained then DrainTx else old(msg.kind)
      ensures outcome in {Consumed, Drained, NoPacket} ==>
        Rechunked(msg) && Fate(outcome) && Spent() == old(Spent()) + if outcome == Consumed then 0 else 1
      ensures asked >= old(asked)
    {
      hide Flatten, Frames, Content, Cycle, Complete, Conserved, Added, Message.Taken;
      if msg.kind == ContinueTx || msg.kind == DrainTx {
        return false, Ignored;
      }
      if msg.kind == Stop {
        AudioStop();
        return true, Stopped;
      }
      if msg.kind != Out {
        return true, Ignored;
      }
      AudioStart();
      handled := true;
      outcome := Consume(msg);
    }

    /**
     * Offers a message of whole stereo frames, again after each time that no packet was free, for
     * so many calls at most. Before it does so again, the streams may play a packet. The first n
     * samples are taken.
     */
    method PlayOne(chunk: seq<real>, calls: nat) returns (n: nat, used: nat, drained: bool)
      requires Valid() && sampleOffset % 2 == 0 && |chunk| > 0 && |chunk| % 2 == 0
      modifies this, left, right
      ensures Valid() && sampleOffset % 2 == 0 && n <= |chunk| && used <= calls
      ensures Stream() == old(Stream()) + Frames(chunk[..n])
      ensures Spent() == old(Spent()) + used - if n == |chunk| then 1 else 0
      ensures drained ==> n < |chunk| && !running && Last(StreamFull)
      ensures n == |chunk| || drained || used == calls
      ensures !drained ==> thrown == old(thrown)
    {
      hide Flatten, Frames, Content, Cycle, Complete, Conserved, Begun, Stream, Stale, Added, Spent, Chunked;
      var msg := new Message(Out, chunk);
      used, drained := 0, false;
      ghost var base := Stream();
      NothingTaken(chunk, base);
      while used < calls && !drained && msg.consumed < msg.size
        invariant Valid() && msg.Valid() && used <= calls && sampleOffset % 2 == 0 && msg.Taken() % 2 == 0
        invariant msg.kind == (if drained then DrainTx else Out) && msg.data == chunk && fresh(msg)
        invariant Stream() == base + Frames(chunk[0..msg.Taken()])
        invariant Spent() == old(Spent()) + used - if msg.consumed < msg.size then 0 else 1
        invariant drained ==> msg.consumed < msg.size && !running && Last(StreamFull)
        invariant !drained ==> thrown == old(thrown)
        decreases calls - used
      {
        ghost var first, current, offset := msg.Taken(), Stream(), sampleOffset;
        ghost var outcome;
        var handled;
        handled, outcome := Receive(msg);
        used, drained := used + 1, msg.kind == DrainTx;
        TakenMore(chunk, first, msg.Taken(), offset, sampleOffset, base, current, Stream());
        ghost var some: bool := *;
        if some && held != [] {
          PlayNext();
        }
      }
      n := msg.consumed / SAMPLE_SIZE;
      assert chunk[0..n] == chunk[..n];
    }

    /**
     * Any run of such messages, with so many calls at most: nothing is lost, duplicated or
     * reordered, and each call that does not complete a message was refused by the stream.
     */
    method Play(chunks: seq<seq<real>>, calls: nat) returns (taken: nat, n: nat, used: nat, drained: bool)
      requires Valid() && sampleOffset % 2 == 0
      requires forall chunk <- chunks :: |chunk| > 0 && |chunk| % 2 == 0
      modifies this, left, right
      ensures Valid() && taken <= |chunks| && used <= calls
      ensures if taken == |chunks| then n == 0 else n < |chunks[taken]|
      ensures sampleOffset % 2 == 0
      ensures
        var rest := if taken == |chunks| then [] else chunks[taken][..n];
        Stream() == old(Stream()) + Frames(Joined(chunks[..taken]) + rest)
      ensures Spent() == old(Spent()) + used - taken
      ensures drained ==> taken < |chunks| && !running && Last(StreamFull)
      ensures taken == |chunks| || drained || used == calls
      ensures !drained ==> thrown == old(thrown)
    {
      hide Flatten, Frames, Content, Cycle, Complete, Conserved, Begun, Stream, Stale, Added, Spent, Joined, Last;
      ghost var base := Stream();
      assert chunks[..0] == [];
      JoinedNone();
      used, drained := 0, false;
      for i := 0 to |chunks|
        invariant Valid() && sampleOffset % 2 == 0 && used <= calls && !drained
        invariant Stream() == base + Frames(Joined(chunks[..i])) && Spent() == old(Spent()) + used - i
        invariant thrown == old(thrown)
      {
        ghost var before := Stream();
        var some;
        n, some, drained := PlayOne(chunks[i], calls - used);
        used := used + some;
        JoinedPart(chunks, i, n, base, before, Stream());
        if n < |chunks[i]| {
          return i, n, used, drained;
        }
      }
      assert chunks[..|chunks|] == chunks;
      assert Joined(chunks) + [] == Joined(chunks);
      return |chunks|, 0, used, drained;
    }
  }

  function Joined(chunks: seq<seq<real>>): seq<real> {
    if chunks == [] then [] else Joined(chunks[..|chunks| - 1]) + chunks[|chunks| - 1]
  }

  lemma {:induction false} JoinedEven(chunks: seq<seq<real>>)
    requires forall chunk <- chunks :: |chunk| % 2 == 0
    ensures |Joined(chunks)| % 2 == 0
  {
    if chunks != [] {
      JoinedEven(chunks[..|chunks| - 1]);
    }
  }

  lemma JoinedPart(chunks: seq<seq<real>>, i: nat, n: nat, base: seq<Frame>, current: seq<Frame>, last: seq<Frame>)
    requires i < |chunks| && n <= |chunks[i]| && forall chunk <- chunks :: |chunk| % 2 == 0
    requires current == base + Frames(Joined(chunks[..i])) && last == current + Frames(chunks[i][..n])
    ensures last == base + Frames(Joined(chunks[..i]) + chunks[i][..n])
    ensures n == |chunks[i]| ==> last == base + Frames(Joined(chunks[..i + 1]))
  {
    hide Frames;
    var a, b := Joined(chunks[..i]), chunks[i][..n];
    JoinedEven(chunks[..i]);
    assert chunks[..i + 1][..i] == chunks[..i];
    assert n == |chunks[i]| ==> b == chunks[i] && Joined(chunks[..i + 1]) == a + b;
    var all := a + b;
    assert all[0..|a|] == a && all[|a|..|all|] == b && all[0..|all|] == all;
    GrownAgain(all, base, current, last, 0, |a|, |all|);
  }

  lemma NothingTaken(data: seq<real>, base: seq<Frame>)
    ensures base == base + Frames(data[0..0])
  {
  }

  /** From an even offset, a call adds the frames of what it takes. */
  lemma TakenMore(data: seq<real>, first: nat, taken: nat, offset: nat, next: nat, base: seq<Frame>,
      current: seq<Frame>, after: seq<Frame>)
    requires first <= |data| && first % 2 == 0 && offset % 2 == 0 && current == base + Frames(data[0..first])
    requires exists room: nat, stale: seq<Frame> ::
      Chunked(data, first, taken, offset, next, room, stale, current, after)
    ensures taken <= |data| && after == base + Frames(data[0..taken]) && next % 2 == taken % 2
  {
    hide Frames, Added;
    AddedEven(data[first..taken]);
    FramesAppend(data, 0, first, taken);
    Reassociate(base, Frames(data[0..first]), Frames(data[first..taken]));
  }

  lemma AddedEven(data: seq<real>)
    ensures forall offset: nat, room: nat, stale: seq<Frame> | offset % 2 == 0 ::
      Added(data, offset, room, stale) == Frames(data)
  {
  }

  lemma NothingAdded(data: seq<real>, at: nat, offset: nat, room: nat)
    requires at <= |data|
    ensures Added(data[at..at], offset, room, []) == []
  {
  }

  lemma AddedInRoom(data: seq<real>, offset: nat, room: nat, stale: seq<Frame>)
    requires |data| <= room && (offset % 2 == 0 ==> stale == [])
    ensures Added(data, offset, room, stale) == Frames(data) + stale
  {
    assert data[..|data|] == data && Frames(data[|data|..]) == [];
  }

  lemma JoinedNone()
    ensures Frames(Joined([])) == []
  {
  }

  lemma GrownAgain(data: seq<real>, base: seq<Frame>, current: seq<Frame>, last: seq<Frame>, a: nat, b: nat, c: nat)
    requires a <= b <= c <= |data| && (b - a) % 2 == 0
    requires current == base + Frames(data[a..b]) && last == current + Frames(data[b..c])
    ensures last == base + Frames(data[a..c])
  {
    hide Frames;
    FramesAppend(data, a, b, c);
    Reassociate(base, Frames(data[a..b]), Frames(data[b..c]));
  }

  lemma Clipped(x: real, y: real)
    requires y == if x > 1.0 then 1.0 else if x < -1.0 then -1.0 else x
    ensures y == Clamp(x)
  {
  }

  lemma Halves(a: nat, b: nat)
    ensures (a + b) / 2 == a / 2 + b / 2 + if a % 2 == 1 && b % 2 == 1 then 1 else 0
  {
  }

  lemma EvenBefore(a: int, b: int)
    requires a % 2 == 0
    ensures (a + b) % 2 == b % 2
  {
  }

  lemma SmallModulo(x: nat, n: nat)
    requires x < n
    ensures x % n == x
  {
  }

  lemma SliceOf(data: seq<real>, first: nat, n: nat)
    requires first + n <= |data|
    ensures data[first..][..n] == data[first..first + n]
  {
  }
}
