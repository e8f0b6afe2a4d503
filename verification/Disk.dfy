/** The back end of the virtual disks: requests become packets of block sessions. */
module Disk {
  import opened Copies
  import opened Words
  import opened Dma
  import opened DiskLedger

  datatype Session = Session(blockSize: nat, writeable: bool)

  datatype Packet = Packet(disknr: nat, kind: Kind, size: nat, block: nat, count: nat)

  /**
   * What comes of a request for a packet. It may be allocated, and then the memory for its lookup
   * entry may be missing.
   */
  datatype Grant = NotReady | Offered(address: nat) | Unrecorded(address: nat) | Full | Exhausted
  {
    predicate Allocates() {
      Offered? || Unrecorded?
    }
  }

  /** The answers of the sessions: to the n-th question, with these packets allocated, for a disk
      and a size. */
  type Answers = (nat, map<nat, Packet>, nat, nat) -> Grant

  /** A packet that comes back. */
  datatype Ack = Ack(address: nat, kind: Kind, succeeded: bool)

  /** How a request ended up, beyond the boolean that the caller sees. */
  datatype Outcome =
    Launched(address: nat) | Waiting | Refused | OutOfMemory | Leaked(address: nat) | Stranded(address: nat)

  /**
   * What happens: a message of a device, packets that come back, a session that carries a packet
   * out, or a guest that changes its memory.
   */
  datatype Event =
    Arrival(msg: Message)
    | Signal(disknr: nat, acks: seq<Ack>)
    | Served(address: nat)
    | Touched(at: nat, data: seq<Byte>)

  /** What a run goes through: the accounts, the packets, the questions asked, and all contents. */
  datatype Moment = Moment(
    ledger: Ledger,
    packets: map<nat, Packet>,
    asked: nat,
    store: seq<Byte>,
    shared: seq<Byte>,
    media: map<nat, seq<Byte>>)
  {
    /** The packets that nobody looks up any more. */
    ghost function Lost(): iset<nat> {
      iset a | a in packets && a !in ledger.flying
    }
  }

  function StatusOf(ack: Ack): Status {
    if ack.succeeded && (ack.kind == Read || ack.kind == Write) then DiskOk else DeviceError
  }

  /** A session returns packets of its own, if it knows them. */
  predicate PlausibleAck(packets: map<nat, Packet>, disknr: nat, ack: Ack) {
    ack.address in packets ==> packets[ack.address].disknr == disknr
  }

  predicate PlausibleAcks(packets: map<nat, Packet>, disknr: nat, acks: seq<Ack>) {
    forall ack <- acks :: PlausibleAck(packets, disknr, ack)
  }

  /** The accounts after packets have come back, one after the other. */
  function Finished(l: Ledger, acks: seq<Ack>): Ledger {
    if acks == [] then l else
    Finished(l, acks[..|acks| - 1]).Finish(acks[|acks| - 1].address, StatusOf(acks[|acks| - 1]))
  }

  /** A packet that comes back fills the segments of its request, if it is a read that succeeded. */
  function FilledOne(store: seq<Byte>, l: Ledger, packets: map<nat, Packet>, shared: seq<Byte>, ack: Ack): seq<Byte> {
    var a := ack.address;
    if ack.succeeded && ack.kind == Read && a in l.flying && a in packets && a + packets[a].size <= |shared| then
      Scattered(store, l.flying[a].msg.dma, l.flying[a].msg.physoffset, shared[a..a + packets[a].size])
    else store
  }

  /** The memory of the guest after packets have come back, one after the other. */
  function Filled(m: Moment, acks: seq<Ack>): seq<Byte> {
    if acks == [] then m.store else
    var k := |acks| - 1;
    FilledOne(Filled(m, acks[..k]), Finished(m.ledger, acks[..k]), m.packets, m.shared, acks[k])
  }

  predicate Transfers(e: Event) {
    e.Arrival? && (e.msg.kind == Read || e.msg.kind == Write)
  }

  /** The messages that asked for a transfer and were answered with true. */
  function Granted(events: seq<Event>, answers: seq<bool>): seq<Message>
    requires |events| == |answers|
  {
    if events == [] then [] else
    var last := |events| - 1;
    Granted(events[..last], answers[..last]) + GrantedOne(events[last], answers[last])
  }

  function GrantedOne(e: Event, ok: bool): seq<Message> {
    if Transfers(e) && ok then [e.msg] else []
  }

  function PacketSize(msg: Message, blockSize: nat): nat
    requires blockSize > 0
  {
    Blocks(SumLength(msg.dma), blockSize) * blockSize
  }

  /**
   * The packet is for the blocks of the device from the sector of the message on, and for no more
   * of them than the segments need.
   */
  predicate Covers(p: Packet, msg: Message, blockSize: nat) {
    && p.disknr == msg.disknr && p.kind == msg.kind && p.block == msg.sector
    && p.count * blockSize == p.size && SumLength(msg.dma) <= p.size < SumLength(msg.dma) + blockSize
  }

  lemma PacketCovers(msg: Message, blockSize: nat)
    requires blockSize > 0
    ensures Covers(PacketOf(msg, blockSize), msg, blockSize)
  {
    BlocksCover(SumLength(msg.dma), blockSize);
  }

  /** The packet that a request gets. */
  function PacketOf(msg: Message, blockSize: nat): Packet
    requires blockSize > 0
  {
    Packet(msg.disknr, msg.kind, PacketSize(msg, blockSize), msg.sector, Blocks(SumLength(msg.dma), blockSize))
  }

  /** The check of a request that got no packet: a write passes only if it writes nothing. */
  predicate Deferrable(msg: Message, storeSize: nat) {
    AllStart(msg.dma, msg.physoffset, storeSize) && (msg.kind == Read || (msg.kind == Write && NothingToMove(msg.dma)))
  }

  predicate NothingToMove(dma: seq<Descriptor>) {
    forall d <- dma :: d.bytecount == 0
  }

  // ---------- packets in the shared buffers ----------

  /** An area that no allocated packet touches, and an address that none has. */
  predicate Free(packets: map<nat, Packet>, a: nat, size: nat, n: nat) {
    a + size <= n && a !in packets && forall b <- packets :: Clear(a, size, b, packets[b].size)
  }

  /** The packets lie in the buffers and do not overlap. */
  predicate Areas(packets: map<nat, Packet>, n: nat) {
    && (forall a <- packets :: a + packets[a].size <= n)
    && (forall a, b | a in packets && b in packets && a != b :: Clear(a, packets[a].size, b, packets[b].size))
  }

  /** Each request in the lookup has its own packet. */
  predicate Flights(lookup: map<nat, Request>, packets: map<nat, Packet>, sessions: map<nat, Session>) {
    lookup.Keys <= packets.Keys && forall a <- lookup :: Flight(lookup[a].msg, packets[a], sessions)
  }

  predicate Flight(msg: Message, packet: Packet, sessions: map<nat, Session>) {
    && msg.disknr in sessions && sessions[msg.disknr].blockSize > 0
    && Covers(packet, msg, sessions[msg.disknr].blockSize)
    && (msg.kind == Read || msg.kind == Write)
  }

  predicate SameArea(before: seq<Byte>, after: seq<Byte>, a: nat, n: nat) {
    |before| == |after| && a + n <= |before| && before[a..a + n] == after[a..a + n]
  }

  /** Packets that stay allocated keep what they hold. */
  ghost predicate Undisturbed(packets: map<nat, Packet>, before: seq<Byte>, packets': map<nat, Packet>,
      after: seq<Byte>)
  {
    forall a <- packets :: a in packets' && packets'[a] == packets[a] && SameArea(before, after, a, packets[a].size)
  }

  lemma UndisturbedSelf(packets: map<nat, Packet>, shared: seq<Byte>)
    requires Areas(packets, |shared|)
    ensures Undisturbed(packets, shared, packets, shared)
  {
  }

  lemma UndisturbedTwice(p: map<nat, Packet>, s: seq<Byte>, p': map<nat, Packet>, s': seq<Byte>,
      p'': map<nat, Packet>, s'': seq<Byte>)
    requires Undisturbed(p, s, p', s') && Undisturbed(p', s', p'', s'')
    ensures Undisturbed(p, s, p'', s'')
  {
  }

  /** Filling the area of a new packet disturbs no other packet. */
  lemma NewDisturbsNone(packets: map<nat, Packet>, before: seq<Byte>, after: seq<Byte>, a: nat, p: Packet)
    requires Areas(packets, |before|) && Free(packets, a, p.size, |before|) && SameOutside(before, after, a, p.size)
    ensures Undisturbed(packets, before, packets[a := p], after)
  {
    forall b <- packets
      ensures before[b..b + packets[b].size] == after[b..b + packets[b].size]
    {
      assert Clear(a, p.size, b, packets[b].size);
    }
  }

  lemma AreaAdded(packets: map<nat, Packet>, a: nat, p: Packet, n: nat)
    requires Areas(packets, n) && Free(packets, a, p.size, n)
    ensures Areas(packets[a := p], n)
  {
  }

  lemma FlightAdded(lookup: map<nat, Request>, packets: map<nat, Packet>, sessions: map<nat, Session>,
      a: nat, r: Request, p: Packet)
    requires Flights(lookup, packets, sessions) && Flight(r.msg, p, sessions)
    ensures Flights(lookup[a := r], packets[a := p], sessions)
  {
  }

  lemma FlightKept(lookup: map<nat, Request>, packets: map<nat, Packet>, sessions: map<nat, Session>, a: nat, p: Packet)
    requires Flights(lookup, packets, sessions) && a !in packets
    ensures Flights(lookup, packets[a := p], sessions)
  {
    forall b <- lookup
      ensures Flight(lookup[b].msg, packets[a := p][b], sessions)
    {
      assert b in packets.Keys;
    }
  }

  lemma SameEverywhere(s: seq<Byte>, a: nat, n: nat)
    ensures SameOutside(s, s, a, n)
  {
  }

  lemma PacketRemoved(lookup: map<nat, Request>, packets: map<nat, Packet>, sessions: map<nat, Session>, a: nat, n: nat)
    requires Flights(lookup, packets, sessions) && Areas(packets, n)
    ensures Flights(lookup - {a}, packets - {a}, sessions) && Areas(packets - {a}, n)
  {
  }

  // ---------- the object ----------

  class Disk {
    const store: array<Byte>           // the memory of the guest
    const shared: array<Byte>          // the packet buffers of all sessions
    const sessions: map<nat, Session>  // by disk number

    var lookup: map<nat, Request>      // requests by the address of their packet
    var restart: set<Request>          // requests without packet
    var packets: map<nat, Packet>      // allocated in the buffers
    var commits: seq<Commit>           // sent to the devices of the guest
    var issued: nat                    // message copies made
    const answers: Answers             // of the block sessions
    var asked: nat                     // questions put to them
    var media: map<nat, seq<Byte>>     // the contents of the devices

    ghost var ledger: Ledger

    ghost predicate Valid()
      reads this
    {
      Accounts(lookup, restart) && Areas(packets, shared.Length) && Flights(lookup, packets, sessions) && Sound()
    }

    /** Sessions grant only areas that are free. */
    ghost predicate Sound() {
      forall n, ps, disknr, size | answers(n, ps, disknr, size).Allocates() ::
        Free(ps, answers(n, ps, disknr, size).address, size, shared.Length)
    }

    /** The answer to a question about a packet for the message. */
    function AnswerTo(n: nat, ps: map<nat, Packet>, msg: Message): Grant {
      if HasSession(msg.disknr) then answers(n, ps, msg.disknr, PacketSize(msg, sessions[msg.disknr].blockSize))
      else NotReady
    }

    /** The answer to the next question. */
    function Answer(msg: Message): Grant
      reads this
    {
      AnswerTo(asked, packets, msg)
    }

    /** The trees and the counters agree with the ledger. */
    ghost predicate Accounts(flying: map<nat, Request>, deferred: set<Request>)
      reads this
    {
      && store != shared && ledger.flying == flying && ledger.deferred == deferred && ledger.commits == commits
      && |ledger.accepted| == issued && ledger.Balanced()
      && (forall r <- deferred :: Restartable(r.msg))
    }

    ghost predicate Restartable(msg: Message) {
      HasSession(msg.disknr) && Deferrable(msg, store.Length)
    }

    predicate HasSession(disknr: nat) {
      disknr in sessions && sessions[disknr].blockSize > 0
    }

    constructor (store: array<Byte>, shared: array<Byte>, sessions: map<nat, Session>, answers: Answers,
        media: map<nat, seq<Byte>>)
      requires store != shared
      requires forall n, ps, disknr, size | answers(n, ps, disknr, size).Allocates() ::
        Free(ps, answers(n, ps, disknr, size).address, size, shared.Length)
      ensures Valid() && this.store == store && this.shared == shared && this.sessions == sessions
      ensures ledger == Ledger([], [], map[], {}, [], []) && this.media == media
    {
      this.store, this.shared, this.sessions, this.answers, asked := store, shared, sessions, answers, 0;
      this.media := media;
      lookup, restart, packets, commits, issued := map[], {}, map[], [], 0;
      ledger := Ledger([], [], map[], {}, [], []);
    }

    /** Asks whether the session can take a packet, and if so for one. */
    method AllocPacket(msg: Message) returns (g: Grant)
      requires Sound() && HasSession(msg.disknr)
      modifies this`asked
      ensures g == old(Answer(msg)) && asked == old(asked) + 1
      ensures g.Allocates() ==>
        Free(packets, g.address, PacketSize(msg, sessions[msg.disknr].blockSize), shared.Length)
    {
      hide Ledger.Balanced, Areas, Flights, Free;
      g := answers(asked, packets, msg.disknr, PacketSize(msg, sessions[msg.disknr].blockSize));
      asked := asked + 1;
    }

    /** What is checked of a copied descriptor: the end of a read only once the data is there. */
    predicate Acceptable(msg: Message, d: Descriptor, packetSize: nat) {
      if msg.kind == Write then Passes(d, msg.physoffset, store.Length, packetSize)
      else Starts(d, msg.physoffset, store.Length)
    }

    method CheckDescriptors(msg: Message, packetSize: nat) returns (ok: bool)
      ensures ok <==> (forall d <- msg.dma :: Acceptable(msg, d, packetSize))
    {
      for i := 0 to |msg.dma|
        invariant forall j | 0 <= j < i :: Acceptable(msg, msg.dma[j], packetSize)
      {
        var d := msg.dma[i];
        assert d in msg.dma;
        if d.byteoffset + msg.physoffset >= store.Length {
          return false;
        }
        if msg.kind == Write
          && (d.bytecount > packetSize || store.Length - d.bytecount < d.byteoffset + msg.physoffset) {
          return false;
        }
      }
      return true;
    }

    // ---------- a request arrives ----------

    method Receive(msg: Message) returns (ok: bool, outcome: Outcome)
      requires Valid()
      modifies this`asked, this`lookup, this`restart, this`packets, this`commits, this`issued, this`ledger, shared
      ensures !(msg.kind in {Read, Write} && HasSession(msg.disknr)) ==>
        unchanged(this) && unchanged(shared) && (ok <==> msg.kind == GetParams && HasSession(msg.disknr))
      ensures msg.kind == Write && HasSession(msg.disknr) && !sessions[msg.disknr].writeable ==>
        && ok && Valid() && ledger == old(ledger).Answer(msg, DiskOk) && unchanged(shared)
        && packets == old(packets) && asked == old(asked)
      ensures Moves(msg) ==>
        outcome == Expected(msg, old(Answer(msg))) && Executed(msg, ok, outcome) && asked == old(asked) + 1
    {
      outcome := Refused;
      if msg.disknr !in sessions || sessions[msg.disknr].blockSize == 0 {
        return false, outcome;
      }
      match msg.kind
      case GetParams =>
        ok := true;
      case Unknown =>
        ok := false;
      case Read =>
        ok, outcome := Execute(msg);
      case Write =>
        if sessions[msg.disknr].writeable {
          ok, outcome := Execute(msg);
        } else {
          AnswerNow(msg);
          ok := true;
        }
    }

    /** The message asks for a transfer that the session offers. */
    predicate Moves(msg: Message) {
      HasSession(msg.disknr) && (msg.kind == Read || (msg.kind == Write && sessions[msg.disknr].writeable))
    }

    /** A write to a read-only medium is confirmed without being done. */
    method AnswerNow(msg: Message)
      requires Valid()
      modifies this`commits, this`issued, this`ledger
      ensures Valid() && ledger == old(ledger).Answer(msg, DiskOk)
    {
      hide Ledger.Balanced, Areas, Flights;
      ledger.AnswerBalances(msg, DiskOk);
      commits := commits + [Commit(msg.disknr, msg.usertag, DiskOk)];
      ledger, issued := ledger.Answer(msg, DiskOk), issued + 1;
    }

    /** How a transfer ends, by the answer to the request for a packet. */
    function Expected(msg: Message, g: Grant): Outcome {
      match g
      case Exhausted => OutOfMemory
      case Offered(a) => if InBounds(msg) then Launched(a) else Leaked(a)
      case Unrecorded(a) => Stranded(a)
      case _ => if Deferrable(msg, store.Length) then Waiting else Refused
    }

    /**
     * What each way of ending means. A transfer with a packet is accepted exactly if its
     * descriptors are in bounds, and otherwise leaves its lookup entry behind. Without a packet,
     * it is accepted exactly if it is deferrable. A packet without entry stays allocated.
     */
    twostate predicate Executed(msg: Message, ok: bool, outcome: Outcome)
      reads this, store, shared
    {
      match outcome
      case Launched(a) => ok && Valid() && Begun(msg, a)
      case Waiting => ok && Valid() && ledger == old(ledger).Defer(msg) && packets == old(packets) && unchanged(shared)
      case Leaked(a) => !ok && !Valid() && Stale(a)
      case Stranded(a) => !ok && Valid() && ledger == old(ledger) && unchanged(shared) && Allocated(msg, a)
      case _ => !ok && Valid() && ledger == old(ledger) && packets == old(packets) && unchanged(shared)
    }

    /** A read is checked in full only when its data arrives. */
    predicate InBounds(msg: Message) {
      if msg.kind == Write then AllInside(msg.dma, msg.physoffset, store.Length)
      else AllStart(msg.dma, msg.physoffset, store.Length)
    }

    /** The request has a packet for its blocks, which for a write holds the segments of the guest. */
    twostate predicate Begun(msg: Message, a: nat)
      reads this, store, shared
    {
      && ledger == old(ledger).Launch(msg, a) && Allocated(msg, a)
      && SameOutside(old(shared[..]), shared[..], a, packets[a].size)
      && if msg.kind == Write then Carries(msg, a) else unchanged(shared)
    }

    /** There is a new packet, for the blocks of the message. */
    twostate predicate Allocated(msg: Message, a: nat)
      reads this
      ensures Allocated(msg, a) ==> a in packets
    {
      && HasSession(msg.disknr) && a !in old(packets) && a in packets && packets == old(packets)[a := packets[a]]
      && Covers(packets[a], msg, sessions[msg.disknr].blockSize) && a + packets[a].size <= shared.Length
    }

    ghost predicate Carries(msg: Message, a: nat)
      reads store, shared
    {
      && AllInside(msg.dma, msg.physoffset, store.Length) && a + SumLength(msg.dma) <= shared.Length
      && shared[a..a + SumLength(msg.dma)] == Gathered(store[..], msg.dma, msg.physoffset)
    }

    /** A lookup entry without packet. */
    twostate predicate Stale(a: nat)
      reads this
    {
      ledger == old(ledger) && packets == old(packets) && a in lookup && a !in packets
    }

    method Execute(msg: Message) returns (ok: bool, outcome: Outcome)
      requires Valid() && Moves(msg)
      modifies this`asked, this`lookup, this`restart, this`packets, this`issued, this`ledger, shared
      ensures outcome == Expected(msg, old(Answer(msg))) && Executed(msg, ok, outcome)
      ensures asked == old(asked) + 1
    {
      hide Ledger.Balanced, Areas, Flights, Free, Covers;
      var packet := PacketOf(msg, sessions[msg.disknr].blockSize);
      var grant := AllocPacket(msg);
      match grant
      case Exhausted =>
        return false, OutOfMemory;
      case Offered(a) =>
        if msg.kind == Write {
          ok, outcome := ExecuteWrite(msg, packet, a);
        } else {
          ok, outcome := ExecuteRead(msg, packet, a);
        }
      case Unrecorded(a) =>
        Strand(msg, a);
        return false, Stranded(a);
      case _ =>
        ok, outcome := ExecuteLater(msg);
    }

    /** A packet is allocated, but its lookup entry is not. */
    method Strand(msg: Message, a: nat)
      requires HasSession(msg.disknr) && Areas(packets, shared.Length) && Flights(lookup, packets, sessions)
      requires Free(packets, a, PacketSize(msg, sessions[msg.disknr].blockSize), shared.Length)
      modifies this`packets
      ensures Areas(packets, shared.Length) && Flights(lookup, packets, sessions) && Allocated(msg, a)
      ensures packets == old(packets)[a := PacketOf(msg, sessions[msg.disknr].blockSize)]
    {
      hide Areas, Flights, Free, PacketSize, Covers;
      var packet := PacketOf(msg, sessions[msg.disknr].blockSize);
      PacketCovers(msg, sessions[msg.disknr].blockSize);
      FreeAddress(packets, a, packet.size, shared.Length, lookup, sessions);
      AreaAdded(packets, a, packet, shared.Length);
      FlightKept(lookup, packets, sessions, a, packet);
      packets := packets[a := packet];
    }

    /** Without a packet, the write check compares with an empty packet. */
    method ExecuteLater(msg: Message) returns (ok: bool, outcome: Outcome)
      requires Valid() && Moves(msg)
      modifies this`restart, this`issued, this`ledger
      ensures outcome == if Deferrable(msg, store.Length) then Waiting else Refused
      ensures Executed(msg, ok, outcome)
    {
      hide Ledger.Balanced, Areas, Flights, Covers;
      ok := CheckDescriptors(msg, 0);
      if ok {
        ledger.DeferBalances(msg);
        restart := restart + {Request(issued, msg)};
        ledger, issued := ledger.Defer(msg), issued + 1;
        return true, Waiting;
      }
      return false, Refused;
    }

    method ExecuteRead(msg: Message, packet: Packet, a: nat) returns (ok: bool, outcome: Outcome)
      requires Valid() && Moves(msg) && msg.kind == Read
      requires packet == PacketOf(msg, sessions[msg.disknr].blockSize) && Free(packets, a, packet.size, shared.Length)
      modifies this`lookup, this`packets, this`issued, this`ledger
      ensures outcome == if InBounds(msg) then Launched(a) else Leaked(a)
      ensures Executed(msg, ok, outcome)
    {
      hide Ledger.Balanced, Areas, Flights, Free, SameOutside, PacketOf, Covers;
      FreeAddress(packets, a, packet.size, shared.Length, lookup, sessions);
      lookup := lookup[a := Request(issued, msg)];
      ok := CheckDescriptors(msg, packet.size);
      if !ok {
        FlightsKeys(lookup, packets, sessions);
        return false, Leaked(a);
      }
      SameEverywhere(shared[..], a, packet.size);
      Enter(msg, packet, a);
      return true, Launched(a);
    }

    /**
     * The guest's segments go to the beginning of the packet: its block number is the sector of
     * the message, so the offset that the code computes from their difference is zero.
     */
    method ExecuteWrite(msg: Message, packet: Packet, a: nat) returns (ok: bool, outcome: Outcome)
      requires Valid() && Moves(msg) && msg.kind == Write
      requires packet == PacketOf(msg, sessions[msg.disknr].blockSize) && Free(packets, a, packet.size, shared.Length)
      modifies this`lookup, this`packets, this`issued, this`ledger, shared
      ensures outcome == if InBounds(msg) then Launched(a) else Leaked(a)
      ensures Executed(msg, ok, outcome)
    {
      hide Ledger.Balanced, Areas, Flights, Free, SameOutside, AllInside, AllPass, Gathered, Blocks, Covers;
      FreeAddress(packets, a, packet.size, shared.Length, lookup, sessions);
      RoundedUpPasses(msg.dma, msg.physoffset, store.Length, sessions[msg.disknr].blockSize);
      lookup := lookup[a := Request(issued, msg)];
      ok := Gather(store, msg.dma, msg.physoffset, shared, a, packet.size);
      if !ok {
        FlightsKeys(lookup, packets, sessions);
        return false, Leaked(a);
      }
      Enter(msg, packet, a);
      return true, Launched(a);
    }

    /** A request whose lookup entry exists and whose packet is filled goes to the session. */
    method Enter(msg: Message, packet: Packet, a: nat)
      requires Sound() && Accounts(ledger.flying, restart) && Flights(ledger.flying, packets, sessions)
      requires Moves(msg) && packet == PacketOf(msg, sessions[msg.disknr].blockSize)
      requires a !in ledger.flying && lookup == ledger.flying[a := Request(issued, msg)]
      requires Areas(packets, shared.Length) && Free(packets, a, packet.size, shared.Length)
      modifies this`packets, this`issued, this`ledger
      ensures Valid() && ledger == old(ledger).Launch(msg, a)
      ensures packets == old(packets)[a := packet] && Allocated(msg, a)
    {
      hide Ledger.Balanced, Areas, Flights, Free, Blocks, Covers;
      PacketCovers(msg, sessions[msg.disknr].blockSize);
      FreeAddress(packets, a, packet.size, shared.Length, ledger.flying, sessions);
      AreaAdded(packets, a, packet, shared.Length);
      FlightAdded(ledger.flying, packets, sessions, a, Request(issued, msg), packet);
      ledger.LaunchBalances(msg, a);
      packets := packets[a := packet];
      ledger, issued := ledger.Launch(msg, a), issued + 1;
    }

    // ---------- deferred requests ----------

    method Restart(r: Request) returns (restarted: bool, a: nat)
      requires r !in restart && Accounts(lookup, restart + {r}) && Areas(packets, shared.Length)
      requires Sound() && Flights(lookup, packets, sessions)
      modifies this`asked, this`lookup, this`packets, this`ledger, shared
      ensures restarted <==> old(Answer(r.msg)).Offered?
      ensures asked == old(asked) + 1 && Undisturbed(old(packets), old(shared[..]), packets, shared[..])
      ensures restarted ==>
        && Valid() && ledger == old(ledger).Restart(r, a) && Allocated(r.msg, a) && a !in old(lookup)
        && (r.msg.kind == Write ==> Carries(r.msg, a))
      ensures !restarted ==>
        && unchanged(shared, `lookup, `ledger) && Areas(packets, shared.Length) && Flights(lookup, packets, sessions)
        && if old(Answer(r.msg)).Unrecorded? then a == old(Answer(r.msg)).address && Allocated(r.msg, a)
           else packets == old(packets)
    {
      hide Ledger.Balanced, Areas, Flights, Free, SameOutside, AllInside, Gathered, Blocks, Deferrable, Covers,
        SameArea, Undisturbed;
      a := 0;
      var msg := r.msg;
      assert Restartable(msg);
      DeferrableIsInside(msg, store.Length, sessions[msg.disknr].blockSize);
      var packet := PacketOf(msg, sessions[msg.disknr].blockSize);
      ghost var before := shared[..];
      UndisturbedSelf(packets, before);
      var grant := AllocPacket(msg);
      if grant.Allocates() {
        SameEverywhere(before, grant.address, packet.size);
        NewDisturbsNone(packets, before, before, grant.address, packet);
      }
      if grant.Unrecorded? {
        Strand(msg, grant.address);
        return false, grant.address;
      }
      if !grant.Offered? {
        return false, a;
      }
      a := grant.address;
      FreeAddress(packets, a, packet.size, shared.Length, lookup, sessions);
      lookup := lookup[a := r];
      if msg.kind == Write {
        GatherUnchecked(store, msg.dma, msg.physoffset, shared, a, packet.size);
        NewDisturbsNone(packets, before, shared[..], a, packet);
      }
      Reenter(r, packet, a);
      restarted := true;
    }

    method Reenter(r: Request, packet: Packet, a: nat)
      requires r !in restart && Accounts(ledger.flying, restart + {r}) && Flights(ledger.flying, packets, sessions)
      requires Sound()
      requires HasSession(r.msg.disknr) && packet == PacketOf(r.msg, sessions[r.msg.disknr].blockSize)
      requires r.msg.kind == Read || r.msg.kind == Write
      requires a !in ledger.flying && lookup == ledger.flying[a := r]
      requires Areas(packets, shared.Length) && Free(packets, a, packet.size, shared.Length)
      modifies this`packets, this`ledger
      ensures Valid() && ledger == old(ledger).Restart(r, a)
      ensures packets == old(packets)[a := packet] && Allocated(r.msg, a)
    {
      hide Ledger.Balanced, Areas, Flights, Free, Blocks, Covers;
      PacketCovers(r.msg, sessions[r.msg.disknr].blockSize);
      FreeAddress(packets, a, packet.size, shared.Length, ledger.flying, sessions);
      AreaAdded(packets, a, packet, shared.Length);
      FlightAdded(ledger.flying, packets, sessions, a, r, packet);
      ledger.RestartBalances(r, a);
      ledger.DeferredPlaced(r);
      packets := packets[a := packet];
      ledger := ledger.Restart(r, a);
      assert restart + {r} - {r} == restart;
    }

    /** A deferred request was the last one to ask for a packet, and it got none. */
    ghost predicate Stuck(m: Moment) {
      m.asked > 0 && exists r <- m.ledger.deferred :: Denied(m.asked - 1, m.packets, r.msg)
    }

    /** The question led to no packet, or to one without entry, which is now among the packets. */
    ghost predicate Denied(n: nat, packets: map<nat, Packet>, msg: Message) {
      || !AnswerTo(n, packets, msg).Allocates()
      || exists a <- packets :: AnswerTo(n, packets - {a}, msg) == Unrecorded(a)
    }

    lemma NoneGranted(n: nat, earlier: map<nat, Packet>, packets: map<nat, Packet>, msg: Message)
      requires !AnswerTo(n, earlier, msg).Offered?
      requires
        var g := AnswerTo(n, earlier, msg);
        if g.Unrecorded? then g.address !in earlier && packets.Keys == earlier.Keys + {g.address}
          && (forall b <- earlier :: packets[b] == earlier[b])
        else packets == earlier
      ensures Denied(n, packets, msg)
    {
      var g := AnswerTo(n, earlier, msg);
      if g.Unrecorded? {
        assert packets - {g.address} == earlier;
      }
    }

    ghost function Now(): Moment
      reads this, store, shared
    {
      Moment(ledger, packets, asked, store[..], shared[..], media)
    }

    /** Tries one of the deferred requests, whichever the tree has at its root. */
    method RestartOne() returns (restarted: bool)
      requires Valid() && restart != {}
      modifies this`asked, this`lookup, this`restart, this`packets, this`ledger, shared
      ensures Valid() && old(ledger).Resumes(ledger) && asked == old(asked) + 1
      ensures if restarted then restart < old(restart) else restart == old(restart) && Stuck(Now())
      ensures old(Now()).Lost() <= Now().Lost()
      ensures Undisturbed(old(packets), old(shared[..]), packets, shared[..])
    {
      hide Ledger.Balanced, Areas, Flights, PacketSize, Denied, Blocks, PacketOf, Covers, Undisturbed;
      var r :| r in restart;
      ghost var all := restart;
      restart := restart - {r};
      assert restart + {r} == all;
      assert Restartable(r.msg);
      var a;
      ghost var before, earlier := ledger, packets;
      restarted, a := Restart(r);
      if restarted {
        before.RestartResumes(r, a);
      } else {
        before.ResumesSelf();
        restart := restart + {r};
        NoneGranted(asked - 1, earlier, packets, r.msg);
      }
    }

    /** Tries deferred requests one after the other until none is left or one has to wait again. */
    method CheckRestart()
      requires Valid()
      modifies this`asked, this`lookup, this`restart, this`packets, this`ledger, shared
      ensures Valid() && old(ledger).Resumes(ledger)
      ensures restart != {} ==> asked > old(asked) && Stuck(Now())
      ensures old(Now()).Lost() <= Now().Lost()
      ensures Undisturbed(old(packets), old(shared[..]), packets, shared[..])
    {
      hide Ledger.Balanced, Areas, Flights, Ledger.Resumes, Stuck, Moment.Lost, Undisturbed;
      var restarted := true;
      ledger.ResumesSelf();
      UndisturbedSelf(packets, shared[..]);
      while restarted
        invariant asked >= old(asked) && (restarted || (asked > old(asked) && Stuck(Now())))
        invariant Valid() && old(ledger).Resumes(ledger)
        invariant old(Now()).Lost() <= Now().Lost()
        invariant Undisturbed(old(packets), old(shared[..]), packets, shared[..])
        decreases restart, restarted
      {
        if restart == {} {
          break;
        }
        ghost var middle, ps, bytes := ledger, packets, shared[..];
        restarted := RestartOne();
        old(ledger).ResumesTwice(middle, ledger);
        UndisturbedTwice(old(packets), old(shared[..]), ps, bytes, packets, shared[..]);
      }
    }

    // ---------- packets come back ----------

    /**
     * Commits the request of the packet, with its own tag. A packet that nobody waits for is
     * dropped. A read fills the segments of the guest from the packet.
     */
    method HandleAck(disknr: nat, ack: Ack)
      requires Valid() && PlausibleAck(packets, disknr, ack)
      modifies this`lookup, this`packets, this`commits, this`ledger, store
      ensures Valid() && Now().Lost() == old(Now()).Lost()
      ensures ack.address !in old(lookup) ==> unchanged(this) && unchanged(store)
      ensures ack.address in old(lookup) ==> Acked(ack)
    {
      hide Ledger.Balanced, Areas, Flights, Scattered, Flight;
      var a := ack.address;
      if a !in lookup {
        return;
      }
      FlightAt(lookup, packets, sessions, a);
      AreaAt(packets, a, shared.Length);
      var r, packet := lookup[a], packets[a];
      if !ack.succeeded || !(ack.kind == Read || ack.kind == Write) {
        Retire(disknr, a, DeviceError);
      } else {
        if ack.kind == Read {
          var ok := Scatter(shared, a, packet.size, store, r.msg.dma, r.msg.physoffset);
        }
        Retire(disknr, a, DiskOk);
      }
    }

    /** Sends the commit and releases the packet. */
    method Retire(disknr: nat, a: nat, status: Status)
      requires Valid() && a in lookup && lookup[a].msg.disknr == disknr
      modifies this`lookup, this`packets, this`commits, this`ledger
      ensures Valid() && ledger == old(ledger).Finish(a, status)
      ensures lookup == old(lookup) - {a} && packets == old(packets) - {a}
      ensures commits == old(commits) + [Commit(disknr, old(lookup)[a].msg.usertag, status)]
    {
      hide Ledger.Balanced, Areas, Flights;
      ledger.FinishBalances(a, status);
      ledger.FlyingPlaced(a);
      PacketRemoved(lookup, packets, sessions, a, shared.Length);
      commits := commits + [Commit(disknr, lookup[a].msg.usertag, status)];
      lookup, packets := lookup - {a}, packets - {a};
      ledger := ledger.Finish(a, status);
    }

    /**
     * The request of the packet is committed, with success exactly if the packet was a read or a
     * write that succeeded. Only a read that succeeded fills the segments, from the packet.
     */
    twostate predicate Acked(ack: Ack)
      requires ack.address in old(lookup)
      reads this, shared, store
    {
      var a, r := ack.address, old(lookup)[ack.address];
      && a in old(packets) && a + old(packets)[a].size <= shared.Length
      && lookup == old(lookup) - {a} && packets == old(packets) - {a}
      && |commits| == |old(commits)| + 1 && commits[..|old(commits)|] == old(commits)
      && (var c := commits[|old(commits)|];
          && c.disknr == r.msg.disknr && c.usertag == r.msg.usertag
          && (c.status == DiskOk <==> ack.succeeded && (ack.kind == Read || ack.kind == Write))
          && ledger == old(ledger).Finish(a, c.status))
      && (if ack.succeeded && ack.kind == Read
          then store[..] == Scattered(old(store[..]), r.msg.dma, r.msg.physoffset, shared[a..a + old(packets)[a].size])
          else store[..] == old(store[..]))
    }

    /** The commits for packets that come back; a packet is known only once. */
    static function Replies(disknr: nat, acks: seq<Ack>, lookup: map<nat, Request>): seq<Commit>
      decreases |acks|
    {
      if acks == [] then [] else
      var a := acks[0].address;
      (if a in lookup then [Commit(disknr, lookup[a].msg.usertag, StatusOf(acks[0]))] else [])
        + Replies(disknr, acks[1..], lookup - {a})
    }

    /**
     * Commits the requests of all packets that came back and fills the segments of reads, then
     * tries the deferred requests.
     */
    method HandleDisk(disknr: nat, acks: seq<Ack>)
      requires Valid() && PlausibleAcks(packets, disknr, acks)
      modifies this`asked, this`lookup, this`restart, this`packets, this`commits, this`ledger, store, shared
      ensures Valid() && Finished(old(ledger), acks).Resumes(ledger)
      ensures commits == old(commits) + Replies(disknr, acks, old(lookup))
      ensures restart != {} ==> asked > old(asked) && Stuck(Now())
      ensures old(Now()).Lost() <= Now().Lost()
      ensures store[..] == Filled(old(Now()), acks)
      ensures Remaining(old(Now()), Finished(old(ledger), acks), packets, shared[..])
    {
      hide Ledger.Balanced, Areas, Flights, Replies, Stuck, Ledger.Finish, Ledger.Resumes, Finished, Filled, FilledOne,
        Moment.Lost, Covers, Undisturbed;
      ghost var goal, begin := commits + Replies(disknr, acks, lookup), Now();
      FinishedNone(ledger, acks);
      FilledNone(begin, acks);
      assert acks[0..] == acks;
      for i := 0 to |acks|
        invariant Valid() && restart == old(restart) && asked == old(asked) && shared[..] == begin.shared
        invariant ledger == Finished(old(ledger), acks[..i])
        invariant goal == commits + Replies(disknr, acks[i..], lookup)
        invariant PlausibleAcks(packets, disknr, acks) && Now().Lost() == begin.Lost()
        invariant store[..] == Filled(begin, acks[..i])
        invariant forall a <- packets :: a in begin.packets && packets[a] == begin.packets[a]
      {
        HandleNext(disknr, acks, i, begin);
      }
      assert acks[..|acks|] == acks;
      RepliesEnd(disknr, acks, lookup);
      FlightsKeys(lookup, packets, sessions);
      ghost var ps := packets;
      CheckRestart();
      StillRemaining(begin, Finished(begin.ledger, acks), ps, packets, shared[..]);
    }

    /** One more packet that comes back. */
    method HandleNext(disknr: nat, acks: seq<Ack>, i: nat, ghost begin: Moment)
      requires Valid() && PlausibleAcks(packets, disknr, acks) && i < |acks|
      requires ledger == Finished(begin.ledger, acks[..i]) && shared[..] == begin.shared
      requires store[..] == Filled(begin, acks[..i])
      requires forall a <- packets :: a in begin.packets && packets[a] == begin.packets[a]
      modifies this`lookup, this`packets, this`commits, this`ledger, store
      ensures Valid() && PlausibleAcks(packets, disknr, acks) && Now().Lost() == old(Now()).Lost()
      ensures ledger == Finished(begin.ledger, acks[..i + 1]) && store[..] == Filled(begin, acks[..i + 1])
      ensures commits + Replies(disknr, acks[i + 1..], lookup) == old(commits) + Replies(disknr, acks[i..], old(lookup))
      ensures forall a <- packets :: a in begin.packets && packets[a] == begin.packets[a]
    {
      hide Ledger.Balanced, Areas, Flights, Replies, Ledger.Finish, Finished, Filled, Moment.Lost, Covers, Scattered;
      assert acks[i] in acks;
      RepliesStep(disknr, acks, i, lookup);
      FinishedStep(begin.ledger, acks, i);
      FilledStep(begin, acks, i);
      if acks[i].address in lookup {
        FlightAt(lookup, packets, sessions, acks[i].address);
      } else {
        FinishUnknown(ledger, acks[i].address, StatusOf(acks[i]));
      }
      FewerPlausible(packets, disknr, acks, acks[i].address);
      ghost var sent := commits;
      HandleAck(disknr, acks[i]);
      if |commits| > |sent| {
        OneCommit(sent, commits);
      }
      OneReply(sent, commits, Replies(disknr, acks[i + 1..], lookup));
    }

    /** The packets whose requests are still in flight keep what they hold. */
    ghost predicate Remaining(m: Moment, l: Ledger, packets: map<nat, Packet>, shared: seq<Byte>) {
      forall a <- l.flying ::
        && a in m.packets && a in packets && packets[a] == m.packets[a]
        && SameArea(m.shared, shared, a, packets[a].size)
    }

    lemma StillRemaining(m: Moment, l: Ledger, ps: map<nat, Packet>, packets: map<nat, Packet>, shared: seq<Byte>)
      requires l.flying.Keys <= ps.Keys && Undisturbed(ps, m.shared, packets, shared)
      requires forall a <- ps :: a in m.packets && ps[a] == m.packets[a]
      ensures Remaining(m, l, packets, shared)
    {
    }

    // ---------- whole runs ----------

    /**
     * What an event does. A transfer is decided by the answer to the next question; packets that
     * come back finish their requests, and then deferred ones may follow until one gets no packet.
     */
    ghost predicate Stepped(m: Moment, e: Event, ok: bool, m': Moment) {
      match e
      case Arrival(msg) =>
        if Moves(msg) then Transferred(m, msg, ok, m')
        else
          && (ok <==> HasSession(msg.disknr) && (msg.kind == GetParams || msg.kind == Write))
          && m' == if ok && msg.kind == Write then m.(ledger := m.ledger.Answer(msg, DiskOk)) else m
      case Signal(disknr, acks) =>
        && (ok <==> PlausibleAcks(m.packets, disknr, acks))
        && if ok then Signalled(m, disknr, acks, m') else m' == m
      case Served(a) =>
        && (ok <==> a in m.ledger.flying && a in m.packets && OnMedium(m, m.ledger.flying[a].msg, m.packets[a].size))
        && if ok then Carried(m, m.ledger.flying[a].msg, a, m') else m' == m
      case Touched(at, data) =>
        && (ok <==> at + |data| <= |m.store|)
        && m' == if ok then m.(store := Overwritten(m.store, at, data)) else m
    }

    ghost predicate Transferred(m: Moment, msg: Message, ok: bool, m': Moment)
      requires Moves(msg)
    {
      && m'.asked == m.asked + 1 && m'.store == m.store && m'.media == m.media
      && match Expected(msg, AnswerTo(m.asked, m.packets, msg))
         case Launched(a) =>
           && ok && m'.ledger == m.ledger.Launch(msg, a) && Adds(m, msg, a, m')
           && SameOutside(m.shared, m'.shared, a, m'.packets[a].size)
           && if msg.kind == Write then Loaded(m, msg, a, m'.shared) else m'.shared == m.shared
         case Waiting =>
           ok && m'.ledger == m.ledger.Defer(msg) && m'.packets == m.packets && m'.shared == m.shared
         case Leaked(a) => false
         case Stranded(a) => !ok && m'.ledger == m.ledger && Adds(m, msg, a, m') && m'.shared == m.shared
         case _ => !ok && m'.ledger == m.ledger && m'.packets == m.packets && m'.shared == m.shared
    }

    /** There is one packet more, for the blocks of the message. */
    ghost predicate Adds(m: Moment, msg: Message, a: nat, m': Moment)
      ensures Adds(m, msg, a, m') ==> a in m'.packets
    {
      && HasSession(msg.disknr) && a !in m.packets && a in m'.packets && m'.packets == m.packets[a := m'.packets[a]]
      && Covers(m'.packets[a], msg, sessions[msg.disknr].blockSize)
    }

    /** The segments of the guest are at the beginning of the packet. */
    ghost predicate Loaded(m: Moment, msg: Message, a: nat, shared: seq<Byte>) {
      && AllInside(msg.dma, msg.physoffset, |m.store|) && a + SumLength(msg.dma) <= |shared|
      && shared[a..a + SumLength(msg.dma)] == Gathered(m.store, msg.dma, msg.physoffset)
    }

    ghost predicate Signalled(m: Moment, disknr: nat, acks: seq<Ack>, m': Moment) {
      && Finished(m.ledger, acks).Resumes(m'.ledger)
      && m'.ledger.commits == m.ledger.commits + Replies(disknr, acks, m.ledger.flying)
      && m'.ledger.flying.Keys <= m'.packets.Keys && m.Lost() <= m'.Lost()
      && (m'.ledger.deferred != {} ==> m'.asked > m.asked && Stuck(m'))
      && m'.store == Filled(m, acks) && m'.media == m.media
      && Remaining(m, Finished(m.ledger, acks), m'.packets, m'.shared)
    }

    /** Where the blocks of a message begin on its medium. */
    function Offset(msg: Message): nat {
      if msg.disknr in sessions then msg.sector * sessions[msg.disknr].blockSize else 0
    }

    predicate OnMedium(m: Moment, msg: Message, size: nat) {
      msg.disknr in m.media && Offset(msg) + size <= |m.media[msg.disknr]|
    }

    /**
     * The session writes the packet to the blocks of the medium from the sector of the message on,
     * or fills it from there.
     */
    ghost predicate Carried(m: Moment, msg: Message, a: nat, m': Moment)
      requires a in m.packets && OnMedium(m, msg, m.packets[a].size)
    {
      var at, n, bytes := Offset(msg), m.packets[a].size, m.media[msg.disknr];
      a + n <= |m.shared| &&
      if msg.kind == Write then
        m' == m.(media := m.media[msg.disknr := Overwritten(bytes, at, m.shared[a..a + n])])
      else m' == m.(shared := Overwritten(m.shared, a, bytes[at..at + n]))
    }

    /** The accounts and the packets agree. */
    ghost predicate Coherent(m: Moment) {
      m.ledger.Balanced() && Areas(m.packets, |m.shared|) && Flights(m.ledger.flying, m.packets, sessions)
    }

    lemma FlyingHasPacket(m: Moment, a: nat)
      requires Coherent(m) && a in m.ledger.flying
      ensures a in m.packets && Flight(m.ledger.flying[a].msg, m.packets[a], sessions)
      ensures a + m.packets[a].size <= |m.shared|
    {
      assert Flight(m.ledger.flying[a].msg, m.packets[a], sessions);
    }

    /** A trace with the answers so far: each event does what it should. */
    ghost predicate IsRun(events: seq<Event>, results: seq<bool>, trace: seq<Moment>) {
      && |results| <= |events| && |trace| == |results| + 1
      && (forall i | 0 <= i < |results| :: Stepped(trace[i], events[i], results[i], trace[i + 1]))
      && (forall i | 0 <= i <= |results| :: Coherent(trace[i]))
    }

    lemma RunBegins(events: seq<Event>, m: Moment)
      requires Coherent(m)
      ensures IsRun(events, [], [m])
    {
      hide Coherent;
    }

    lemma RunGoesOn(events: seq<Event>, results: seq<bool>, trace: seq<Moment>, ok: bool, m: Moment)
      requires IsRun(events, results, trace) && |results| < |events| && Coherent(m)
      requires Stepped(trace[|results|], events[|results|], ok, m)
      ensures IsRun(events, results + [ok], trace + [m])
    {
      hide Coherent, Stepped;
    }

    /** The message leaks its lookup entry. */
    ghost predicate Leaks(m: Moment, e: Event) {
      e.Arrival? && Moves(e.msg) && Expected(e.msg, AnswerTo(m.asked, m.packets, e.msg)).Leaked?
    }

    method Arrive(msg: Message) returns (ok: bool, leaked: bool)
      requires Valid()
      modifies this`asked, this`lookup, this`restart, this`packets, this`commits, this`issued, this`ledger, shared
      ensures leaked <==> Leaks(old(Now()), Arrival(msg))
      ensures !leaked ==> Valid() && Stepped(old(Now()), Arrival(msg), ok, Now())
      ensures leaked ==> ledger == old(ledger) && packets == old(packets)
    {
      hide Ledger.Balanced, Areas, Flights, Sound, Deferrable, InBounds, Covers, SameOutside, AllInside, Gathered;
      var outcome;
      ok, outcome := Receive(msg);
      leaked := Moves(msg) && outcome.Leaked?;
    }

    method Return(disknr: nat, acks: seq<Ack>) returns (ok: bool)
      requires Valid()
      modifies this`asked, this`lookup, this`restart, this`packets, this`commits, this`ledger, store, shared
      ensures Valid() && Stepped(old(Now()), Signal(disknr, acks), ok, Now())
    {
      hide Ledger.Balanced, Areas, Sound, PlausibleAcks, Replies, Finished, Ledger.Resumes, Stuck, Flight, Filled,
        Remaining;
      ok := PlausibleAcks(packets, disknr, acks);
      if ok {
        HandleDisk(disknr, acks);
      }
    }

    /** The session carries out a packet, if its blocks are on the medium. */
    method Serve(a: nat) returns (ok: bool)
      requires Valid()
      modifies this`media, shared
      ensures Valid() && Stepped(old(Now()), Served(a), ok, Now())
    {
      hide Ledger.Balanced, Areas, Flights, Sound, Covers, Offset;
      if a !in lookup {
        return false;
      }
      FlightAt(lookup, packets, sessions, a);
      AreaAt(packets, a, shared.Length);
      var p := packets[a];
      CoveredBlocks(lookup[a].msg, p);
      var at, n := p.block * sessions[p.disknr].blockSize, p.count * sessions[p.disknr].blockSize;
      if p.disknr !in media || at + n > |media[p.disknr]| {
        return false;
      }
      if p.kind == Write {
        media := media[p.disknr := Overwritten(media[p.disknr], at, shared[a..a + n])];
        AreaOf(a, n);
      } else {
        Deposit(a, media[p.disknr][at..at + n]);
      }
      ok := true;
    }

    lemma AreaOf(a: nat, n: nat)
      requires a + n <= shared.Length
      ensures shared[..][a..a + n] == shared[a..a + n]
    {
    }

    method Deposit(a: nat, data: seq<Byte>)
      requires a + |data| <= shared.Length
      modifies shared
      ensures shared[..] == Overwritten(old(shared[..]), a, data)
    {
      forall k | 0 <= k < |data| {
        shared[a + k] := data[k];
      }
    }

    lemma ValidIsCoherent()
      requires Valid()
      ensures Coherent(Now())
    {
    }

    lemma CoveredBlocks(msg: Message, p: Packet)
      requires Flight(msg, p, sessions)
      ensures p.disknr == msg.disknr && p.disknr in sessions && (p.kind == Write <==> msg.kind == Write)
      ensures p.block * sessions[p.disknr].blockSize == Offset(msg) && p.count * sessions[p.disknr].blockSize == p.size
    {
    }

    /** The guest changes its memory. */
    method Touch(at: nat, data: seq<Byte>) returns (ok: bool)
      requires Valid()
      modifies store
      ensures Valid() && Stepped(old(Now()), Touched(at, data), ok, Now())
    {
      hide Ledger.Balanced, Areas, Flights, Sound;
      ok := at + |data| <= store.Length;
      if ok {
        ghost var before := store[..];
        forall k | 0 <= k < |data| {
          store[at + k] := data[k];
        }
        assert store[..] == Overwritten(before, at, data);
      }
    }

    /**
     * Any interleaving of messages, signals and sessions, up to the first message that leaks. The
     * trace shows that each event does what it should. The accepted requests are exactly the
     * transfers answered with true, in this order; each is in one place, committed at most once
     * and with its own disk and tag; and history is never rewritten.
     */
    method Run(events: seq<Event>) returns (results: seq<bool>, ghost trace: seq<Moment>)
      requires Valid()
      modifies this, store, shared
      ensures IsRun(events, results, trace) && trace[0] == old(Now())
      ensures |results| < |events| ==> Leaks(trace[|results|], events[|results|])
      ensures trace[|results|].ledger == ledger && (|results| == |events| ==> Valid() && trace[|results|] == Now())
      ensures ledger.InOrder() && ledger.Extends(old(ledger))
      ensures ledger.accepted == old(ledger.accepted) + Granted(events[..|results|], results)
    {
      hide Ledger.InOrder, Ledger.Balanced, Areas, Flights, Sound, Stepped, Leaks, Granted, Ledger.Extends,
        Coherent, IsRun;
      results, trace := [], [Now()];
      ExtendsSelf(ledger);
      GrantedNone(events);
      ValidIsCoherent();
      RunBegins(events, Now());
      for i := 0 to |events|
        invariant Valid() && |results| == i && |trace| == i + 1
        invariant trace[0] == old(Now()) && trace[i] == Now() && IsRun(events, results, trace)
        invariant ledger.Extends(old(ledger))
        invariant ledger.accepted == old(ledger.accepted) + Granted(events[..i], results)
      {
        ghost var m := Now();
        var ok: bool;
        match events[i] {
          case Arrival(msg) =>
            ledger.BalancedIsInOrder();
            var leaked;
            ok, leaked := Arrive(msg);
            if leaked {
              return;
            }
          case Signal(disknr, acks) =>
            ok := Return(disknr, acks);
          case Served(a) =>
            ok := Serve(a);
          case Touched(at, data) =>
            ok := Touch(at, data);
        }
        ValidIsCoherent();
        StepGrants(m, events[i], ok, Now());
        ExtendsTwice(old(ledger), m.ledger, ledger);
        GrantedStep(events, i, results, ok);
        RunGoesOn(events, results, trace, ok, Now());
        results, trace := results + [ok], trace + [Now()];
      }
      ledger.BalancedIsInOrder();
      assert events[..|events|] == events;
    }

    /** A step accepts its message if it grants a transfer, and otherwise nothing. */
    lemma StepGrants(m: Moment, e: Event, ok: bool, m': Moment)
      requires Stepped(m, e, ok, m')
      ensures m'.ledger.accepted == m.ledger.accepted + GrantedOne(e, ok) && m'.ledger.Extends(m.ledger)
    {
      if e.Signal? && ok {
        FinishedExtends(m.ledger, e.acks);
      }
    }

    /** A packet that was allocated without an entry is never released, and never belongs to a request. */
    lemma StaysLost(m: Moment, e: Event, ok: bool, m': Moment)
      requires Stepped(m, e, ok, m') && m.ledger.flying.Keys <= m.packets.Keys
      ensures m'.ledger.flying.Keys <= m'.packets.Keys
      ensures forall a <- m.packets | a !in m.ledger.flying :: a in m'.packets && a !in m'.ledger.flying
      ensures e.Arrival? && Moves(e.msg) && Expected(e.msg, AnswerTo(m.asked, m.packets, e.msg)).Stranded? ==>
        var a := AnswerTo(m.asked, m.packets, e.msg).address;
        a !in m.packets && a in m'.packets && a !in m'.ledger.flying
    {
      if e.Signal? && ok {
        forall a <- m.packets | a !in m.ledger.flying
          ensures a in m'.packets && a !in m'.ledger.flying
        {
          assert a in m.Lost();
        }
      }
    }
  }

  lemma FinishedNone(l: Ledger, acks: seq<Ack>)
    ensures Finished(l, acks[..0]) == l
  {
  }

  lemma FinishedStep(l: Ledger, acks: seq<Ack>, i: nat)
    requires i < |acks|
    ensures Finished(l, acks[..i + 1]) == Finished(l, acks[..i]).Finish(acks[i].address, StatusOf(acks[i]))
  {
    assert acks[..i + 1][..i] == acks[..i];
  }

  lemma FilledNone(m: Moment, acks: seq<Ack>)
    ensures Filled(m, acks[..0]) == m.store
  {
  }

  lemma FilledStep(m: Moment, acks: seq<Ack>, i: nat)
    requires i < |acks|
    ensures Filled(m, acks[..i + 1])
         == FilledOne(Filled(m, acks[..i]), Finished(m.ledger, acks[..i]), m.packets, m.shared, acks[i])
  {
    assert acks[..i + 1][..i] == acks[..i];
  }

  lemma OneCommit(sent: seq<Commit>, now: seq<Commit>)
    requires |now| == |sent| + 1 && now[..|sent|] == sent
    ensures sent <= now && now == sent + [now[|sent|]] && now[|sent|..] == [now[|sent|]]
  {
  }

  lemma FinishUnknown(l: Ledger, a: nat, status: Status)
    requires a !in l.flying
    ensures l.Finish(a, status) == l
  {
  }

  lemma {:induction false} FinishedExtends(l: Ledger, acks: seq<Ack>)
    ensures Finished(l, acks).Extends(l) && Finished(l, acks).accepted == l.accepted
  {
    if acks != [] {
      FinishedExtends(l, acks[..|acks| - 1]);
    }
  }

  lemma ExtendsSelf(l: Ledger)
    ensures l.Extends(l)
  {
  }

  lemma ExtendsTwice(a: Ledger, b: Ledger, c: Ledger)
    requires b.Extends(a) && c.Extends(b)
    ensures c.Extends(a)
  {
  }

  lemma GrantedNone(events: seq<Event>)
    ensures Granted(events[..0], []) == []
  {
  }

  lemma GrantedStep(events: seq<Event>, i: nat, answers: seq<bool>, ok: bool)
    requires i < |events| && |answers| == i
    ensures Granted(events[..i + 1], answers + [ok]) == Granted(events[..i], answers) + GrantedOne(events[i], ok)
  {
    assert events[..i + 1][..i] == events[..i] && (answers + [ok])[..i] == answers;
  }

  lemma FewerPlausible(packets: map<nat, Packet>, disknr: nat, acks: seq<Ack>, a: nat)
    requires PlausibleAcks(packets, disknr, acks)
    ensures PlausibleAcks(packets - {a}, disknr, acks)
  {
  }

  lemma RepliesStep(disknr: nat, acks: seq<Ack>, i: nat, lookup: map<nat, Request>)
    requires i < |acks|
    ensures
      var a := acks[i].address;
      Disk.Replies(disknr, acks[i..], lookup) ==
        (if a in lookup then [Commit(disknr, lookup[a].msg.usertag, StatusOf(acks[i]))] else [])
          + Disk.Replies(disknr, acks[i + 1..], if a in lookup then lookup - {a} else lookup)
  {
    assert acks[i..][0] == acks[i] && acks[i..][1..] == acks[i + 1..];
    assert acks[i].address !in lookup ==> lookup - {acks[i].address} == lookup;
  }

  lemma OneReply(sent: seq<Commit>, now: seq<Commit>, rest: seq<Commit>)
    requires sent <= now
    ensures sent + (now[|sent|..] + rest) == now + rest
  {
  }

  lemma RepliesEnd(disknr: nat, acks: seq<Ack>, lookup: map<nat, Request>)
    ensures Disk.Replies(disknr, acks[|acks|..], lookup) == []
  {
  }

  /** A deferrable request lies inside the store if it is a write, and always fits its packet. */
  lemma DeferrableIsInside(msg: Message, storeSize: nat, blockSize: nat)
    requires Deferrable(msg, storeSize) && blockSize > 0
    ensures msg.kind == Read || msg.kind == Write
    ensures msg.kind == Write ==> AllInside(msg.dma, msg.physoffset, storeSize)
    ensures SumLength(msg.dma) <= PacketSize(msg, blockSize)
  {
    BlocksCover(SumLength(msg.dma), blockSize);
  }

  /**
   * A read whose segments are disjoint and in bounds arrives complete: the packet is large enough
   * for the checks, and the guest finds the data of the packet in its segments.
   */
  lemma ReadArrives(store: seq<Byte>, msg: Message, blockSize: nat, data: seq<Byte>)
    requires blockSize > 0 && |data| == PacketSize(msg, blockSize)
    requires AllInside(msg.dma, msg.physoffset, |store|) && Disjoint(msg.dma)
    ensures AllPass(msg.dma, msg.physoffset, |store|, |data|) && SumLength(msg.dma) <= |data|
    ensures Gathered(Scattered(store, msg.dma, msg.physoffset, data), msg.dma, msg.physoffset)
         == data[..SumLength(msg.dma)]
  {
    RoundedUpPasses(msg.dma, msg.physoffset, |store|, blockSize);
    BlocksCover(SumLength(msg.dma), blockSize);
    WriteReturnsRead(store, msg.dma, msg.physoffset, data);
  }

  /** Without a packet, a write is taken only if it moves nothing at all. */
  lemma {:induction false} WritesAreNotDeferred(msg: Message, storeSize: nat)
    requires msg.kind == Write
    ensures Deferrable(msg, storeSize) <==>
      AllStart(msg.dma, msg.physoffset, storeSize) && SumLength(msg.dma) == 0
  {
    NothingIsZero(msg.dma);
  }

  /** A write of one block that lies in the store, but would have to wait. */
  lemma RefusedWrite()
    ensures
      var msg := Message(0, Write, 0, 0, [Descriptor(0, 512)], 0);
      AllInside(msg.dma, msg.physoffset, 4096) && !Deferrable(msg, 4096)
  {
    assert [Descriptor(0, 512)][0].bytecount != 0;
  }

  /** A read beyond the store: with a packet, it leaks its lookup entry. */
  lemma LeakedRead(disk: Disk, a: nat)
    requires disk.store.Length <= 4096
    ensures disk.Expected(Message(0, Read, 0, 0, [Descriptor(4096, 512)], 0), Offered(a)) == Leaked(a)
  {
    assert [Descriptor(4096, 512)][0] in [Descriptor(4096, 512)];
  }

  lemma {:induction false} NothingIsZero(dma: seq<Descriptor>)
    ensures NothingToMove(dma) <==> SumLength(dma) == 0
  {
    if dma != [] {
      NothingIsZero(dma[1..]);
      assert dma == [dma[0]] + dma[1..];
    }
  }

  lemma FlightAt(lookup: map<nat, Request>, packets: map<nat, Packet>, sessions: map<nat, Session>, a: nat)
    requires Flights(lookup, packets, sessions) && a in lookup
    ensures a in packets && packets[a].disknr == lookup[a].msg.disknr && Flight(lookup[a].msg, packets[a], sessions)
  {
    assert Flight(lookup[a].msg, packets[a], sessions);
  }

  lemma AreaAt(packets: map<nat, Packet>, a: nat, n: nat)
    requires Areas(packets, n) && a in packets
    ensures a + packets[a].size <= n
  {
  }

  lemma FreeAddress(packets: map<nat, Packet>, a: nat, size: nat, n: nat,
      lookup: map<nat, Request>, sessions: map<nat, Session>)
    requires Free(packets, a, size, n) && Flights(lookup, packets, sessions)
    ensures a !in packets && a !in lookup && a + size <= n
  {
  }

  lemma FlightsKeys(lookup: map<nat, Request>, packets: map<nat, Packet>, sessions: map<nat, Session>)
    ensures Flights(lookup, packets, sessions) ==> lookup.Keys <= packets.Keys
  {
  }
}
