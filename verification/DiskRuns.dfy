/** What whole runs of the virtual disks do to the media and to the memory of the guest. */
module DiskRuns {
  import opened Copies
  import opened Words
  import opened Dma
  import opened DiskLedger
  import opened Disk

  // ---------- packets that come back ----------

  /** A request either stays in flight, or is committed. */
  lemma {:induction false} FinishedKeeps(l: Ledger, acks: seq<Ack>)
    requires l.Balanced()
    ensures
      var f := Finished(l, acks);
      && f.Balanced() && l.done <= f.done && f.deferred == l.deferred
      && (forall a <- f.flying :: a in l.flying && f.flying[a] == l.flying[a])
      && (forall a <- l.flying :: a in f.flying || l.flying[a].serial in f.done)
    decreases |acks|
  {
    hide Ledger.Balanced;
    if acks != [] {
      var k := |acks| - 1;
      FinishedKeeps(l, acks[..k]);
      var f, a := Finished(l, acks[..k]), acks[k].address;
      if a in f.flying {
        f.FinishBalances(a, StatusOf(acks[k]));
        f.FlyingPlaced(a);
        DoneOneMore(f, a, StatusOf(acks[k]));
      }
    }
  }

  lemma DoneOneMore(l: Ledger, a: nat, status: Status)
    requires a in l.flying && l.flying[a].serial < |l.place|
    ensures
      var f := l.Finish(a, status);
      f.done == l.done + [l.flying[a].serial] && l.flying[a].serial in f.done && l.done <= f.done
  {
  }

  /** Each new commit answers one of the packets, and tells whether it succeeded. */
  lemma {:induction false} CommitAnswers(l: Ledger, acks: seq<Ack>, i: nat) returns (j: nat)
    requires l.Balanced() && |l.commits| <= i < |Finished(l, acks).commits|
    ensures j < |acks| && acks[j].address in l.flying
    ensures i < |Finished(l, acks).done| && Finished(l, acks).done[i] == l.flying[acks[j].address].serial
    ensures Finished(l, acks).commits[i].status == DiskOk <==> Success(acks[j])
    decreases |acks|
  {
    hide Ledger.Balanced;
    var k := |acks| - 1;
    FinishedKeeps(l, acks);
    FinishedKeeps(l, acks[..k]);
    var f := Finished(l, acks[..k]);
    SameNumber(f);
    SameNumber(Finished(l, acks));
    if i < |f.commits| {
      j := CommitAnswers(l, acks[..k], i);
    } else {
      j := k;
    }
  }

  lemma SameNumber(l: Ledger)
    requires l.Balanced()
    ensures |l.commits| == |l.done|
  {
  }

  predicate Success(ack: Ack) {
    ack.succeeded && (ack.kind == Read || ack.kind == Write)
  }

  /**
   * A request is committed with success only after its own packet came back with success, or at
   * once, as a write to a read-only medium; and with an error only after its packet failed.
   */
  lemma OkIsEarned(disk: Disk, m: Moment, e: Event, ok: bool, m': Moment, i: nat)
    requires disk.Stepped(m, e, ok, m') && disk.Coherent(m) && |m.ledger.commits| <= i < |m'.ledger.commits|
    ensures i < |m'.ledger.done|
    ensures match e
      case Arrival(msg) =>
        && msg.kind == Write && disk.HasSession(msg.disknr) && !disk.sessions[msg.disknr].writeable
        && m'.ledger.done[i] == |m.ledger.accepted| && m'.ledger.commits[i].status == DiskOk
      case Signal(disknr, acks) =>
        exists j: nat | j < |acks| ::
          && acks[j].address in m.ledger.flying
          && m'.ledger.done[i] == m.ledger.flying[acks[j].address].serial
          && (m'.ledger.commits[i].status == DiskOk <==> Success(acks[j]))
      case _ => false
  {
    hide Ledger.Balanced, Finished;
    SameNumber(m.ledger);
    match e
    case Arrival(msg) =>
    case Signal(disknr, acks) =>
      FinishedKeeps(m.ledger, acks);
      SameNumber(Finished(m.ledger, acks));
      var j := CommitAnswers(m.ledger, acks, i);
    case _ =>
  }

  // ---------- what stays ----------

  predicate InFlight(m: Moment, a: nat, r: Request) {
    a in m.ledger.flying && m.ledger.flying[a] == r
  }

  lemma NotBoth(l: Ledger, a: nat)
    requires l.Balanced() && a in l.flying
    ensures l.flying[a].serial !in l.done
  {
  }

  /** In one step, a request stays in flight under its address, or is committed. */
  lemma StepKeeps(disk: Disk, m: Moment, e: Event, ok: bool, m': Moment, a: nat, r: Request)
    requires disk.Stepped(m, e, ok, m') && disk.Coherent(m)
    ensures InFlight(m, a, r) ==> InFlight(m', a, r) || r.serial in m'.ledger.done
  {
    hide Ledger.Balanced, Finished, Areas, Covers;
    match e
    case Arrival(msg) =>
      if a in m.ledger.flying {
        disk.FlyingHasPacket(m, a);
      }
    case Signal(disknr, acks) =>
      FinishedKeeps(m.ledger, acks);
    case _ =>
  }

  lemma StepExtends(disk: Disk, m: Moment, e: Event, ok: bool, m': Moment)
    requires disk.Stepped(m, e, ok, m') && disk.Coherent(m)
    ensures m.ledger.done <= m'.ledger.done
  {
    hide Ledger.Balanced, Finished, Areas, Covers;
    if e.Signal? {
      FinishedKeeps(m.ledger, e.acks);
    }
  }

  lemma {:induction false} Forward(disk: Disk, events: seq<Event>, results: seq<bool>, trace: seq<Moment>,
      i: nat, k: nat, a: nat, r: Request)
    requires disk.IsRun(events, results, trace) && i <= k < |trace| && InFlight(trace[i], a, r)
    ensures InFlight(trace[k], a, r) || r.serial in trace[k].ledger.done
    decreases k
  {
    hide InFlight, Disk.Stepped, Disk.Coherent;
    if i < k {
      Forward(disk, events, results, trace, i, k - 1, a, r);
      StepKeeps(disk, trace[k - 1], events[k - 1], results[k - 1], trace[k], a, r);
      StepExtends(disk, trace[k - 1], events[k - 1], results[k - 1], trace[k]);
    }
  }

  /** A request that is in flight at two moments is so in between. */
  lemma {:induction false} Remains(disk: Disk, events: seq<Event>, results: seq<bool>, trace: seq<Moment>,
      i: nat, k: nat, j: nat, a: nat, r: Request)
    requires disk.IsRun(events, results, trace) && i <= k <= j < |trace|
    requires InFlight(trace[i], a, r) && InFlight(trace[j], a, r)
    ensures InFlight(trace[k], a, r)
    decreases j - k
  {
    Forward(disk, events, results, trace, i, k, a, r);
    if !InFlight(trace[k], a, r) {
      DoneStays(disk, events, results, trace, k, j, r.serial);
      NotBoth(trace[j].ledger, a);
    }
  }

  lemma {:induction false} DoneStays(disk: Disk, events: seq<Event>, results: seq<bool>, trace: seq<Moment>,
      k: nat, j: nat, s: nat)
    requires disk.IsRun(events, results, trace) && k <= j < |trace| && s in trace[k].ledger.done
    ensures s in trace[j].ledger.done
    decreases j
  {
    hide Disk.Stepped, Disk.Coherent;
    if k < j {
      DoneStays(disk, events, results, trace, k, j - 1, s);
      StepExtends(disk, trace[j - 1], events[j - 1], results[j - 1], trace[j]);
    }
  }

  /** The session fills the packet of this read. */
  predicate Fills(e: Event, ok: bool, a: nat, r: Request) {
    ok && e == Served(a) && r.msg.kind == Read
  }

  /** What a packet holds stays as it is, until the session fills it. */
  lemma StepArea(disk: Disk, m: Moment, e: Event, ok: bool, m': Moment, a: nat, r: Request)
    requires disk.Stepped(m, e, ok, m') && disk.Coherent(m) && disk.Coherent(m')
    requires InFlight(m, a, r) && InFlight(m', a, r) && !Fills(e, ok, a, r)
    ensures a in m.packets && a in m'.packets && m'.packets[a] == m.packets[a]
    ensures SameArea(m.shared, m'.shared, a, m.packets[a].size)
  {
    hide Ledger.Balanced, Finished, Filled, Covers, Areas, SameArea, Disk.Signalled, Disk.Transferred, Disk.Carried,
      Disk.OnMedium;
    disk.FlyingHasPacket(m, a);
    HasArea(disk, m, a, r);
    match e
    case Arrival(msg) =>
      if disk.Moves(msg) {
        ArrivalDisturbsNone(disk, m, msg, ok, m', a);
      }
    case Signal(disknr, acks) =>
      if ok {
        SignalDisturbsNone(disk, m, disknr, acks, m', a, r);
      }
    case Served(b) =>
      if ok {
        disk.FlyingHasPacket(m, b);
        ServedDisturbsNone(disk, m, b, m', a);
      }
    case Touched(at, data) =>
  }

  lemma ArrivalDisturbsNone(disk: Disk, m: Moment, msg: Message, ok: bool, m': Moment, a: nat)
    requires disk.Moves(msg) && disk.Transferred(m, msg, ok, m')
    requires Areas(m'.packets, |m'.shared|) && a in m.packets && a + m.packets[a].size <= |m.shared|
    ensures a in m'.packets && m'.packets[a] == m.packets[a]
    ensures SameArea(m.shared, m'.shared, a, m.packets[a].size)
  {
    hide Covers, AllInside, Gathered, Deferrable, Disk.InBounds, SameOutside;
    if m'.shared != m.shared {
      var b := disk.AnswerTo(m.asked, m.packets, msg).address;
      assert b !in m.packets && b in m'.packets && m'.packets[a] == m.packets[a];
      assert Clear(b, m'.packets[b].size, a, m'.packets[a].size);
      OutsideIsSame(m.shared, m'.shared, b, m'.packets[b].size, a, m.packets[a].size);
    }
  }

  lemma SignalDisturbsNone(disk: Disk, m: Moment, disknr: nat, acks: seq<Ack>, m': Moment, a: nat, r: Request)
    requires disk.Signalled(m, disknr, acks, m') && m.ledger.Balanced() && m'.ledger.Balanced()
    requires InFlight(m, a, r) && InFlight(m', a, r)
    ensures a in m.packets && a in m'.packets && m'.packets[a] == m.packets[a]
    ensures SameArea(m.shared, m'.shared, a, m.packets[a].size)
  {
    hide Ledger.Balanced, Finished, Filled, SameArea, Disk.Stuck, Disk.Replies;
    FinishedKeeps(m.ledger, acks);
    if a !in Finished(m.ledger, acks).flying {
      NotBoth(m'.ledger, a);
    }
  }

  lemma ServedDisturbsNone(disk: Disk, m: Moment, b: nat, m': Moment, a: nat)
    requires Areas(m.packets, |m.shared|) && a in m.packets && b in m.packets && b in m.ledger.flying
    requires disk.OnMedium(m, m.ledger.flying[b].msg, m.packets[b].size)
    requires disk.Carried(m, m.ledger.flying[b].msg, b, m')
    requires m.ledger.flying[b].msg.kind == Write || a != b
    ensures m'.packets == m.packets && SameArea(m.shared, m'.shared, a, m.packets[a].size)
  {
    var msg := m.ledger.flying[b].msg;
    if msg.kind != Write {
      assert Clear(b, m.packets[b].size, a, m.packets[a].size);
      var data := Bytes(m, msg.disknr, disk.Offset(msg), m.packets[b].size);
      OverwrittenOutside(m.shared, b, data, m'.shared, a, m.packets[a].size);
    }
  }

  lemma OutsideIsSame(before: seq<Byte>, after: seq<Byte>, b: nat, k: nat, a: nat, n: nat)
    requires SameOutside(before, after, b, k) && Clear(b, k, a, n) && a + n <= |before|
    ensures SameArea(before, after, a, n)
  {
  }

  lemma OverwrittenOutside(before: seq<Byte>, b: nat, data: seq<Byte>, after: seq<Byte>, a: nat, n: nat)
    requires b + |data| <= |before| && after == Overwritten(before, b, data)
    requires Clear(b, |data|, a, n) && a + n <= |before|
    ensures SameArea(before, after, a, n)
  {
  }

  lemma {:induction false} AreaRemains(disk: Disk, events: seq<Event>, results: seq<bool>, trace: seq<Moment>,
      i: nat, j: nat, a: nat, r: Request)
    requires disk.IsRun(events, results, trace) && i <= j < |trace|
    requires InFlight(trace[i], a, r) && InFlight(trace[j], a, r)
    requires forall x | i <= x < j :: !Fills(events[x], results[x], a, r)
    ensures a in trace[i].packets && a in trace[j].packets && trace[j].packets[a] == trace[i].packets[a]
    ensures SameArea(trace[i].shared, trace[j].shared, a, trace[i].packets[a].size)
    decreases j
  {
    hide InFlight, Disk.Stepped, Disk.Coherent;
    if i < j {
      Remains(disk, events, results, trace, i, j - 1, j, a, r);
      AreaRemains(disk, events, results, trace, i, j - 1, a, r);
      StepArea(disk, trace[j - 1], events[j - 1], results[j - 1], trace[j], a, r);
    } else {
      HasArea(disk, trace[i], a, r);
    }
  }

  lemma HasArea(disk: Disk, m: Moment, a: nat, r: Request)
    requires disk.Coherent(m) && InFlight(m, a, r)
    ensures a in m.packets && SameArea(m.shared, m.shared, a, m.packets[a].size)
    ensures Flight(r.msg, m.packets[a], disk.sessions) && SumLength(r.msg.dma) <= m.packets[a].size
  {
    disk.FlyingHasPacket(m, a);
  }

  /** The session writes a packet over one of these bytes of the medium. */
  predicate WritesOver(disk: Disk, m: Moment, e: Event, ok: bool, d: nat, at: nat, n: nat) {
    && ok && e.Served? && e.address in m.ledger.flying && e.address in m.packets
    && (var msg := m.ledger.flying[e.address].msg;
        msg.kind == Write && msg.disknr == d && !Clear(disk.Offset(msg), m.packets[e.address].size, at, n))
  }

  /** These bytes of the medium, if it has them. */
  function Bytes(m: Moment, d: nat, at: nat, n: nat): seq<Byte> {
    if d in m.media && at + n <= |m.media[d]| then m.media[d][at..at + n] else []
  }

  /** Nothing changes a medium but a packet written over it. */
  lemma StepMedia(disk: Disk, m: Moment, e: Event, ok: bool, m': Moment, d: nat, at: nat, n: nat)
    requires disk.Stepped(m, e, ok, m') && !WritesOver(disk, m, e, ok, d, at, n)
    ensures Bytes(m', d, at, n) == Bytes(m, d, at, n)
  {
    if e.Served? && ok {
      var msg := m.ledger.flying[e.address].msg;
      if msg.kind == Write && msg.disknr == d && d in m.media && at + n <= |m.media[d]| {
        var data := m.shared[e.address..e.address + m.packets[e.address].size];
        OverwrittenOutside(m.media[d], disk.Offset(msg), data, m'.media[d], at, n);
      }
    }
  }

  lemma {:induction false} MediaRemains(disk: Disk, events: seq<Event>, results: seq<bool>, trace: seq<Moment>,
      i: nat, j: nat, d: nat, at: nat, n: nat)
    requires disk.IsRun(events, results, trace) && i <= j < |trace|
    requires forall x | i <= x < j :: !WritesOver(disk, trace[x], events[x], results[x], d, at, n)
    ensures Bytes(trace[j], d, at, n) == Bytes(trace[i], d, at, n)
    decreases j
  {
    hide Disk.Stepped, Disk.Coherent, WritesOver, Bytes;
    if i < j {
      MediaRemains(disk, events, results, trace, i, j - 1, d, at, n);
      StepMedia(disk, trace[j - 1], events[j - 1], results[j - 1], trace[j], d, at, n);
    }
  }

  // ---------- writing and reading ----------

  /** A write that arrives with a packet: the packet holds the segments. */
  lemma Starts(disk: Disk, m: Moment, w: Message, m': Moment, a: nat)
    requires disk.Stepped(m, Arrival(w), true, m') && disk.Coherent(m) && w.kind == Write
    requires InFlight(m', a, Request(|m.ledger.accepted|, w))
    ensures AllInside(w.dma, w.physoffset, |m.store|) && a + SumLength(w.dma) <= |m'.shared|
    ensures m'.shared[a..a + SumLength(w.dma)] == Gathered(m.store, w.dma, w.physoffset)
  {
    hide Ledger.Balanced, Areas, Covers, AllInside, Gathered, Deferrable;
    NewSerial(m.ledger);
  }

  lemma NewSerial(l: Ledger)
    requires l.Balanced()
    ensures forall a <- l.flying :: l.flying[a].serial < |l.accepted|
  {
  }

  /** The session carries out a write: the segments are on the medium, from its sector on. */
  lemma Lands(disk: Disk, m: Moment, m': Moment, a: nat, r: Request)
    requires disk.Stepped(m, Served(a), true, m') && disk.Coherent(m) && InFlight(m, a, r) && r.msg.kind == Write
    ensures a + SumLength(r.msg.dma) <= |m.shared|
    ensures Bytes(m', r.msg.disknr, disk.Offset(r.msg), SumLength(r.msg.dma)) == m.shared[a..a + SumLength(r.msg.dma)]
  {
    hide Ledger.Balanced, Areas, SumLength;
    disk.FlyingHasPacket(m, a);
    var at, n := disk.Offset(r.msg), m.packets[a].size;
    WrittenPart(m.media[r.msg.disknr], at, m.shared, a, n, SumLength(r.msg.dma));
  }

  lemma WrittenPart(bytes: seq<Byte>, at: nat, shared: seq<Byte>, a: nat, n: nat, k: nat)
    requires k <= n && at + n <= |bytes| && a + n <= |shared|
    ensures Overwritten(bytes, at, shared[a..a + n])[at..at + k] == shared[a..a + k]
  {
    hide Overwritten;
    var data := shared[a..a + n];
    var after := Overwritten(bytes, at, data);
    Exactly(bytes, at, data);
    assert after[at..at + n][..k] == after[at..at + k] && data[..k] == shared[a..a + k];
  }

  /** The session carries out a read: the packet holds what is on the medium, from its sector on. */
  lemma Arrives(disk: Disk, m: Moment, m': Moment, a: nat, r: Request, n: nat)
    requires disk.Stepped(m, Served(a), true, m') && disk.Coherent(m) && InFlight(m, a, r) && r.msg.kind == Read
    requires n <= SumLength(r.msg.dma)
    ensures a + n <= |m'.shared| && m'.shared[a..a + n] == Bytes(m, r.msg.disknr, disk.Offset(r.msg), n)
  {
    hide Ledger.Balanced, Areas, SumLength;
    disk.FlyingHasPacket(m, a);
    var at, k := disk.Offset(r.msg), m.packets[a].size;
    WrittenPart(m.shared, a, m.media[r.msg.disknr], at, k, n);
  }

  /** The packet of a read comes back with success, as the last one: its data is in the segments. */
  lemma Returns(disk: Disk, m: Moment, disknr: nat, acks: seq<Ack>, m': Moment, a: nat, r: Request)
    requires disk.Stepped(m, Signal(disknr, acks), true, m') && disk.Coherent(m) && InFlight(m, a, r)
    requires acks != [] && acks[|acks| - 1] == Ack(a, Read, true)
    requires forall i | 0 <= i < |acks| - 1 :: acks[i].address != a
    requires Disjoint(r.msg.dma) && AllInside(r.msg.dma, r.msg.physoffset, |m'.store|)
    ensures a + SumLength(r.msg.dma) <= |m.shared|
    ensures Gathered(m'.store, r.msg.dma, r.msg.physoffset) == m.shared[a..a + SumLength(r.msg.dma)]
  {
    hide Ledger.Balanced, Areas, SumLength, Scattered, Gathered, AllInside, Dma.Disjoint;
    var k := |acks| - 1;
    disk.FlyingHasPacket(m, a);
    StillFlying(m.ledger, acks[..k], a);
    var before, n := Filled(m, acks[..k]), m.packets[a].size;
    var data := m.shared[a..a + n];
    assert m'.store == Scattered(before, r.msg.dma, r.msg.physoffset, data);
    WriteReturnsRead(before, r.msg.dma, r.msg.physoffset, data);
    assert data[..SumLength(r.msg.dma)] == m.shared[a..a + SumLength(r.msg.dma)];
  }

  lemma {:induction false} StillFlying(l: Ledger, acks: seq<Ack>, a: nat)
    requires a in l.flying && forall i | 0 <= i < |acks| :: acks[i].address != a
    ensures a in Finished(l, acks).flying && Finished(l, acks).flying[a] == l.flying[a]
    decreases |acks|
  {
    if acks != [] {
      StillFlying(l, acks[..|acks| - 1], a);
    }
  }

  lemma PartKept(m: Moment, m': Moment, a: nat, n: nat, k: nat)
    requires SameArea(m.shared, m'.shared, a, n) && k <= n
    ensures a + k <= |m.shared| && m.shared[a..a + k] == m'.shared[a..a + k]
  {
    assert m.shared[a..a + n][..k] == m.shared[a..a + k] && m'.shared[a..a + n][..k] == m'.shared[a..a + k];
  }

  lemma BytesPart(m: Moment, d: nat, at: nat, n: nat, k: nat, data: seq<Byte>)
    requires k <= n && |data| == n && Bytes(m, d, at, n) == data
    ensures Bytes(m, d, at, k) == data[..k]
  {
  }

  /**
   * A disk keeps what is written to it. In any run, let a write arrive, and later be carried out;
   * after that, let a read of the same sector be carried out, which asks for no more bytes, with no
   * other write over them in between; and let its packet come back. Then the guest finds in the
   * segments of the read what it had in those of the write.
   */
  lemma WriteThenRead(disk: Disk, events: seq<Event>, results: seq<bool>, trace: seq<Moment>,
      arrival: nat, written: nat, filled: nat, back: nat, a: nat, b: nat, w: Message, r: Request)
    requires disk.IsRun(events, results, trace) && arrival < written < filled < back < |results|
    requires events[arrival] == Arrival(w) && w.kind == Write && results[arrival]
    requires InFlight(trace[arrival + 1], a, Request(|trace[arrival].ledger.accepted|, w))
    requires events[written] == Served(a) && results[written]
    requires InFlight(trace[written], a, Request(|trace[arrival].ledger.accepted|, w))
    requires events[filled] == Served(b) && results[filled] && InFlight(trace[filled], b, r)
    requires r.msg.kind == Read && r.msg.disknr == w.disknr && r.msg.sector == w.sector
    requires SumLength(r.msg.dma) <= SumLength(w.dma)
    requires forall x | written < x < filled ::
      !WritesOver(disk, trace[x], events[x], results[x], w.disknr, disk.Offset(w), SumLength(r.msg.dma))
    requires forall x | filled < x < back :: !Fills(events[x], results[x], b, r)
    requires InFlight(trace[back], b, r) && results[back] && events[back].Signal?
    requires events[back].acks != [] && events[back].acks[|events[back].acks| - 1] == Ack(b, Read, true)
    requires forall i | 0 <= i < |events[back].acks| - 1 :: events[back].acks[i].address != b
    requires Disjoint(r.msg.dma) && AllInside(r.msg.dma, r.msg.physoffset, |trace[back + 1].store|)
    ensures AllInside(w.dma, w.physoffset, |trace[arrival].store|)
    ensures Gathered(trace[back + 1].store, r.msg.dma, r.msg.physoffset)
         == Gathered(trace[arrival].store, w.dma, w.physoffset)[..SumLength(r.msg.dma)]
  {
    hide Disk.Stepped, Disk.Coherent, InFlight, WritesOver, Bytes, SumLength, AllInside, Gathered, Dma.Disjoint,
      SameArea, Flight;
    var wr, n, k := Request(|trace[arrival].ledger.accepted|, w), SumLength(w.dma), SumLength(r.msg.dma);
    var at := disk.Offset(w);
    Starts(disk, trace[arrival], w, trace[arrival + 1], a);
    AreaRemains(disk, events, results, trace, arrival + 1, written, a, wr);
    Lands(disk, trace[written], trace[written + 1], a, wr);
    MediaRemains(disk, events, results, trace, written + 1, filled, w.disknr, at, k);
    Arrives(disk, trace[filled], trace[filled + 1], b, r, k);
    Remains(disk, events, results, trace, filled, filled + 1, back, b, r);
    AreaRemains(disk, events, results, trace, filled + 1, back, b, r);
    Returns(disk, trace[back], events[back].disknr, events[back].acks, trace[back + 1], b, r);
    HasArea(disk, trace[arrival + 1], a, wr);
    HasArea(disk, trace[filled + 1], b, r);
    PartKept(trace[arrival + 1], trace[written], a, trace[written].packets[a].size, n);
    BytesPart(trace[written + 1], w.disknr, at, n, k, trace[written].shared[a..a + n]);
    PartKept(trace[filled + 1], trace[back], b, trace[back].packets[b].size, k);
  }
}
