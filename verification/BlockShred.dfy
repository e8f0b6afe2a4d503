/** Overwriting a block device with noise, and checking samples of it afterwards. */
module BlockShred {
  import Words

  const PKT_SIZE: nat := 0x10_0000
  const WORD_SIZE: nat := 4
  const STATES: nat := 0x1_0000_0000_0000_0000  // the period of the noise generator

  datatype Packet = Packet(region: nat, block: nat, count: nat)

  // ---------- positions ----------

  /** The number of words in so many blocks. */
  function Span(n: int, step: nat): int {
    n * step
  }

  lemma SpanAdds(m: int, n: int, step: nat)
    ensures Span(m + n, step) == Span(m, step) + Span(n, step)
  {
  }

  lemma SpanNat(n: nat, step: nat)
    ensures 0 <= Span(n, step) && Span(0, step) == 0
  {
  }

  lemma SpanMonotone(m: nat, n: nat, step: nat)
    requires m <= n
    ensures 0 <= Span(m, step) <= Span(n, step)
  {
    SpanAdds(m, n - m, step);
    SpanNat(n - m, step);
    SpanNat(m, step);
  }

  /** As the code computes the number of words of a packet. */
  lemma SpanOfBytes(n: nat, blockSize: nat)
    requires blockSize % WORD_SIZE == 0
    ensures (n * blockSize) / WORD_SIZE == Span(n, blockSize / WORD_SIZE)
  {
    var step := blockSize / WORD_SIZE;
    assert blockSize == step * WORD_SIZE;
    assert n * blockSize == (n * step) * WORD_SIZE;
  }

  /** The generator's position for a number of words, which may be negative. */
  function State(words: int): (s: nat)
    ensures s < STATES
  {
    words % STATES
  }

  lemma StateAdds(a: int, b: int)
    ensures State(State(a) + b) == State(a + b)
  {
  }

  lemma StateShifts(a: int, k: int)
    ensures State(a + k * STATES) == State(a)
  {
  }

  /** The product of unsigned numbers, computed with wrap-around, is the right distance. */
  lemma StateTimes(blocks: int, step: nat)
    ensures State(Span(State(blocks), step)) == State(Span(blocks, step))
  {
    var q := blocks / STATES;
    assert blocks == q * STATES + State(blocks);
    assert blocks * step == (q * step) * STATES + State(blocks) * step;
    StateShifts(State(blocks) * step, q * step);
  }

  // ---------- how the device is divided ----------

  function PerPacket(blockSize: nat): nat
    requires blockSize > 0
  {
    PKT_SIZE / blockSize
  }

  /** The size of the first packet, which aligns the others with the end of the device. */
  function FirstCount(blockCount: nat, perPacket: nat): nat
    requires perPacket > 0
  {
    if blockCount % perPacket == 0 then perPacket else blockCount % perPacket
  }

  /** The rest after the first packet is a multiple of the packet size. */
  predicate Aligned(blocks: nat, perPacket: nat)
    requires perPacket > 0
  {
    blocks % perPacket == 0
  }

  /** The second packet ends within the device exactly if one packet cannot hold the device. */
  lemma SecondFits(blockCount: nat, perPacket: nat)
    requires perPacket > 0
    ensures 0 < FirstCount(blockCount, perPacket) <= perPacket
    ensures FirstCount(blockCount, perPacket) + perPacket <= blockCount <==> blockCount > perPacket
    ensures blockCount > perPacket ==> Aligned(blockCount - FirstCount(blockCount, perPacket) - perPacket, perPacket)
  {
    var q, r := blockCount / perPacket, blockCount % perPacket;
    assert blockCount == q * perPacket + r;
    if blockCount > perPacket && r == 0 {
      assert q != 0 && q != 1;
      Words.AtLeastOnce(q - 1, perPacket);
      Words.DivUnique(blockCount - 2 * perPacket, perPacket, q - 2, 0);
    } else if blockCount > perPacket {
      assert q != 0;
      Words.AtLeastOnce(q, perPacket);
      Words.DivUnique(blockCount - r - perPacket, perPacket, q - 1, 0);
    } else if blockCount < perPacket {
      Words.DivUnique(blockCount, perPacket, 0, blockCount);
    }
  }

  /** A packet less is aligned as well. */
  lemma AlignedNext(blocks: nat, perPacket: nat)
    requires perPacket > 0 && blocks > 0 && Aligned(blocks, perPacket)
    ensures perPacket <= blocks && Aligned(blocks - perPacket, perPacket)
  {
    var q := blocks / perPacket;
    assert blocks == q * perPacket;
    assert q != 0;
    Words.AtLeastOnce(q, perPacket);
    Words.DivUnique(blocks - perPacket, perPacket, q - 1, 0);
  }

  // ---------- the sequence of write packets ----------

  /** The block behind the last packet. */
  function End(written: seq<Packet>): nat {
    if written == [] then 0 else written[|written| - 1].block + written[|written| - 1].count
  }

  /** Each packet begins where the one before ends: no block is left out and none written twice. */
  predicate Chained(written: seq<Packet>) {
    forall i | 0 <= i < |written| :: written[i].count > 0 && written[i].block == End(written[..i])
  }

  lemma ChainedAppends(written: seq<Packet>, p: Packet)
    requires Chained(written) && p.count > 0 && p.block == End(written)
    ensures Chained(written + [p]) && End(written + [p]) == p.block + p.count
  {
    forall i | 0 <= i < |written|
      ensures (written + [p])[..i] == written[..i]
    {
    }
    assert (written + [p])[..|written|] == written;
  }

  predicate Writes(p: Packet, block: nat) {
    p.block <= block < p.block + p.count
  }

  lemma Follows(written: seq<Packet>, j: nat)
    requires Chained(written) && 0 < j < |written|
    ensures written[j].block == written[j - 1].block + written[j - 1].count
  {
    assert written[..j][j - 1] == written[j - 1];
  }

  lemma StartsAtZero(written: seq<Packet>)
    requires Chained(written) && written != []
    ensures written[0].block == 0
  {
    assert written[..0] == [];
  }

  lemma {:induction false} Ascending(written: seq<Packet>, i: nat, j: nat)
    requires Chained(written) && i < j < |written|
    ensures written[i].block + written[i].count <= written[j].block
    decreases j
  {
    Follows(written, j);
    if i < j - 1 {
      Ascending(written, i, j - 1);
    }
  }

  lemma {:induction false} WriterOf(written: seq<Packet>, last: nat, block: nat) returns (i: nat)
    requires Chained(written) && last < |written| && block < written[last].block + written[last].count
    ensures i < |written| && Writes(written[i], block)
    decreases last
  {
    assert last == 0 ==> End(written[..last]) == 0;
    if written[last].block <= block {
      i := last;
    } else {
      Follows(written, last);
      i := WriterOf(written, last - 1, block);
    }
  }

  /** Every block up to the end is written, and by one packet only. */
  lemma WrittenOnce(written: seq<Packet>, block: nat)
    requires Chained(written) && block < End(written)
    ensures exists i :: 0 <= i < |written| && Writes(written[i], block)
    ensures forall i, j | 0 <= i < |written| && 0 <= j < |written| && i != j ::
      !(Writes(written[i], block) && Writes(written[j], block))
  {
    hide Chained;
    var k := WriterOf(written, |written| - 1, block);
    forall i, j | 0 <= i < j < |written|
      ensures written[i].block + written[i].count <= written[j].block
    {
      Ascending(written, i, j);
    }
  }

  lemma {:induction false} EndsWithin(written: seq<Packet>, p: Packet)
    requires Chained(written) && p in written
    ensures p.block + p.count <= End(written)
  {
    var i: nat :| i < |written| && written[i] == p;
    if i < |written| - 1 {
      Ascending(written, i, |written| - 1);
    }
  }

  /** A packet that was written is acknowledged or outstanding. */
  ghost predicate Tracked(written: seq<Packet>, finished: seq<Packet>, outstanding: seq<Packet>) {
    multiset(written) == multiset(finished) + multiset(outstanding)
  }

  lemma TrackedMore(written: seq<Packet>, finished: seq<Packet>, outstanding: seq<Packet>, p: Packet)
    requires Tracked(written, finished, outstanding)
    ensures Tracked(written + [p], finished, outstanding + [p])
  {
  }

  function Without(packets: seq<Packet>, i: nat): seq<Packet>
    requires i < |packets|
  {
    packets[..i] + packets[i + 1..]
  }

  lemma OthersRemain(packets: seq<Packet>, i: nat)
    requires i < |packets| <= 2 && (|packets| == 2 ==> packets[0].region != packets[1].region)
    ensures |Without(packets, i)| == |packets| - 1
    ensures forall q <- Without(packets, i) :: q in packets && q.region != packets[i].region
  {
  }

  lemma TrackedNext(written: seq<Packet>, finished: seq<Packet>, outstanding: seq<Packet>, i: nat)
    requires Tracked(written, finished, outstanding) && i < |outstanding|
    ensures Tracked(written, finished + [outstanding[i]], Without(outstanding, i))
  {
    assert outstanding == outstanding[..i] + [outstanding[i]] + outstanding[i + 1..];
  }

  class Shredder {
    const blockCount: nat
    const blockSize: nat
    const noise: nat -> nat           // the output of the generator in each of its states
    const device: array<nat>          // the words of the block device
    const works: (nat, nat) -> bool   // whether the session can write so many blocks from a block on
    const readable: nat -> bool       // whether it can read a sector

    var pcg: nat
    var regions: map<nat, seq<nat>>  // packet buffers
    var outstanding: seq<Packet>     // submitted, not acknowledged
    var errors: nat                  // logged

    ghost var written: seq<Packet>
    ghost var finished: seq<Packet>  // acknowledged
    ghost var original: seq<nat>     // what the device held

    function Step(): nat {
      blockSize / WORD_SIZE
    }

    predicate Geometry() {
      && 0 < blockSize <= PKT_SIZE && blockSize % WORD_SIZE == 0
      && device.Length == Span(blockCount, Step())
    }

    function NoiseAt(word: int): nat {
      noise(State(word))
    }

    /** The words are the noise from a word on. */
    predicate IsNoise(words: seq<nat>, from: int) {
      forall j | 0 <= j < |words| :: words[j] == NoiseAt(from + j)
    }

    predicate Fits(p: Packet) {
      p.block + p.count <= blockCount
    }

    /** A packet that leaves the device fails. */
    predicate Succeeds(p: Packet) {
      Fits(p) && works(p.block, p.count)
    }

    /** The buffer of the packet holds the noise of its blocks. */
    predicate Loaded(p: Packet, regions: map<nat, seq<nat>>) {
      && p.count > 0 && p.region in regions && |regions[p.region]| == Span(p.count, Step())
      && IsNoise(regions[p.region], Span(p.block, Step()))
    }

    ghost predicate Queue()
      reads this
    {
      && Geometry() && |outstanding| <= 2 && Tracked(written, finished, outstanding)
      && Chained(written) && pcg == State(Span(End(written), Step()))
      && (forall p <- outstanding :: Loaded(p, regions))
      && (|outstanding| == 2 ==> outstanding[0].region != outstanding[1].region)
      && (errors == 0 <==> AllSucceed(finished))
    }

    predicate AllSucceed(packets: seq<Packet>) {
      forall p <- packets :: Succeeds(p)
    }

    predicate InPacket(word: nat, p: Packet) {
      Span(p.block, Step()) <= word < Span(p.block + p.count, Step())
    }

    /** The word belongs to a packet that could be written. */
    predicate Covered(word: nat, packets: seq<Packet>) {
      exists p <- packets :: Succeeds(p) && InPacket(word, p)
    }

    /** The device holds noise exactly where a packet has been written. */
    ghost predicate Overwritten()
      reads this, device
    {
      && |original| == device.Length
      && forall i | 0 <= i < device.Length :: device[i] == if Covered(i, finished) then NoiseAt(i) else original[i]
    }

    ghost predicate Unused()
      reads this, device
    {
      Queue() && Overwritten() && written == finished == outstanding == []
    }

    constructor (blockCount: nat, blockSize: nat, noise: nat -> nat, works: (nat, nat) -> bool,
        readable: nat -> bool, device: array<nat>)
      requires 0 < blockSize <= PKT_SIZE && blockSize % WORD_SIZE == 0
      requires device.Length == Span(blockCount, blockSize / WORD_SIZE)
      ensures Unused() && this.blockCount == blockCount && this.device == device && original == device[..]
    {
      this.blockCount, this.blockSize, this.noise, this.works := blockCount, blockSize, noise, works;
      this.readable, this.device, original := readable, device, device[..];
      pcg, regions, outstanding, errors, written, finished := 0, map[], [], 0, [], [];
      new;
      SpanNat(0, Step());
    }

    /** Draws a word from the noise generator. */
    method Draw() returns (word: nat)
      modifies this`pcg
      ensures word == noise(old(pcg)) && pcg == State(old(pcg) + 1)
    {
      word := noise(pcg);
      pcg := (pcg + 1) % STATES;
    }

    method DrawWords(n: nat, ghost from: int) returns (words: seq<nat>)
      requires pcg == State(from)
      modifies this`pcg
      ensures |words| == n && IsNoise(words, from) && pcg == State(from + n)
    {
      hide State;
      words := [];
      for i := 0 to n
        invariant |words| == i && IsNoise(words, from) && pcg == State(from + i)
      {
        var word := Draw();
        words := words + [word];
        StateAdds(from + i, 1);
      }
    }

    method SubmitNoise(p: Packet)
      requires Queue() && |outstanding| < 2 && p.count > 0 && p.block == End(written)
      requires forall q <- outstanding :: q.region != p.region
      modifies this`pcg, this`regions, this`outstanding, this`written
      ensures Queue() && outstanding == old(outstanding) + [p] && written == old(written) + [p]
    {
      hide Span, State, IsNoise, End, Chained, AllSucceed, Tracked;
      SpanOfBytes(p.count, blockSize);
      SpanNat(p.count, Step());
      SpanAdds(p.block, p.count, Step());
      ChainedAppends(written, p);
      TrackedMore(written, finished, outstanding, p);
      var words := DrawWords((p.count * blockSize) / WORD_SIZE, Span(p.block, Step()));
      regions := regions[p.region := words];
      outstanding := outstanding + [p];
      written := written + [p];
    }

    /**
     * The session acknowledges one of the outstanding packets, written if this was possible. A
     * failure is logged.
     */
    method GetAckedPacket() returns (p: Packet)
      requires Queue() && Overwritten() && outstanding != []
      modifies this`outstanding, this`finished, this`errors, device
      ensures Queue() && Overwritten() && finished == old(finished) + [p]
      ensures p in old(outstanding) && |outstanding| == |old(outstanding)| - 1
      ensures forall q <- outstanding :: q in old(outstanding) && q.region != p.region
    {
      hide Span, State, IsNoise, Loaded, Chained, InPacket, Succeeds, AllSucceed, Tracked, Covered,
        Without, End;
      var second: bool := *;
      var i := if second && |outstanding| == 2 then 1 else 0;
      p := outstanding[i];
      ghost var before := finished;
      TrackedNext(written, finished, outstanding, i);
      OneMoreSucceeds(finished, p);
      OthersRemain(outstanding, i);
      outstanding := Without(outstanding, i);
      finished := finished + [p];
      if Succeeds(p) {
        Store(p);
      } else {
        errors := errors + 1;
      }
      forall word: nat
        ensures Covered(word, finished) <==> Covered(word, before) || (Succeeds(p) && InPacket(word, p))
      {
        OneMorePacket(word, before, p);
      }
    }

    lemma OneMoreSucceeds(packets: seq<Packet>, p: Packet)
      ensures AllSucceed(packets + [p]) <==> AllSucceed(packets) && Succeeds(p)
    {
      hide Succeeds;
      assert p in packets + [p];
    }

    lemma OneMorePacket(word: nat, packets: seq<Packet>, p: Packet)
      ensures Covered(word, packets + [p]) <==> Covered(word, packets) || (Succeeds(p) && InPacket(word, p))
    {
      hide InPacket, Succeeds;
      if q :| q in packets && Succeeds(q) && InPacket(word, q) {
        assert q in packets + [p];
      }
      assert p in packets + [p];
    }

    method Store(p: Packet)
      requires Geometry() && Loaded(p, regions) && Succeeds(p)
      modifies device
      ensures forall j | 0 <= j < device.Length :: device[j] == if InPacket(j, p) then NoiseAt(j) else old(device[j])
    {
      hide Span, State;
      var at, words := Span(p.block, Step()), regions[p.region];
      SpanAdds(p.block, p.count, Step());
      SpanNat(p.block, Step());
      SpanMonotone(p.block + p.count, blockCount, Step());
      forall j | 0 <= j < |words| {
        device[at + j] := words[j];
      }
      forall j | 0 <= j < device.Length && InPacket(j, p)
        ensures device[j] == NoiseAt(j)
      {
        assert device[at + (j - at)] == words[j - at];
      }
    }

    /** The blocks behind the last packet: only a device of at most one packet is left behind. */
    function LastEnd(): nat
      requires Geometry()
    {
      PerPacketPositive(blockSize);
      var perPacket := PerPacket(blockSize);
      if blockCount > perPacket then blockCount else FirstCount(blockCount, perPacket) + perPacket
    }

    /**
     * Writes every block once, in packets that never leave the device, unless it is not larger than
     * one packet. What the session could write is noise, and nothing else has changed.
     */
    method Shred()
      requires Unused()
      modifies this, device
      ensures Queue() && outstanding == [] && End(written) == LastEnd() && multiset(finished) == multiset(written)
      ensures blockCount > PerPacket(blockSize) ==> forall p <- written :: Fits(p)
      ensures forall i | 0 <= i < device.Length ::
        device[i] == if Covered(i, written) then NoiseAt(i) else old(device[i])
      ensures (forall p <- written | Fits(p) :: Succeeds(p)) ==> IsNoise(device[..], 0)
      ensures errors == 0 <==> blockCount > PerPacket(blockSize) && AllSucceed(written)
    {
      hide Span, State, IsNoise, Loaded, FirstCount, Aligned, Chained, InPacket, Succeeds, AllSucceed, Covered, Tracked;
      Untouched();
      var perPacket := PKT_SIZE / blockSize;
      PerPacketPositive(blockSize);
      SecondFits(blockCount, perPacket);
      var first := blockCount % perPacket;
      if first == 0 {
        first := perPacket;
      }
      FirstIs(blockCount, perPacket);
      SubmitNoise(Packet(0, 0, first));
      SubmitNoise(Packet(1, first, perPacket));
      var blkOffset := first + perPacket;
      while true
        invariant Queue() && Overwritten() && |outstanding| == 2 && End(written) == blkOffset
        invariant |written| >= 2 && written[0] == Packet(0, 0, first) && written[1] == Packet(1, first, perPacket)
        invariant original == old(device[..])
        invariant blockCount > perPacket ==> blkOffset <= blockCount && Aligned(blockCount - blkOffset, perPacket)
        invariant blockCount <= perPacket ==> blkOffset == first + perPacket
        decreases blockCount - blkOffset
      {
        var ack := GetAckedPacket();
        if blkOffset >= blockCount {
          break;
        }
        AlignedNext(blockCount - blkOffset, perPacket);
        SubmitNoise(Packet(ack.region, blkOffset, perPacket));
        blkOffset := blkOffset + perPacket;
      }
      var last := GetAckedPacket();
      Permuted();
      AllFit();
      if forall p <- written | Fits(p) :: Succeeds(p) {
        AllNoise();
      }
    }

    lemma Untouched()
      requires Unused()
      ensures original == device[..]
    {
    }

    lemma Permuted()
      requires Queue() && outstanding == []
      ensures multiset(finished) == multiset(written)
      ensures forall p :: p in finished <==> p in written
      ensures forall word: nat :: Covered(word, finished) <==> Covered(word, written)
      ensures AllSucceed(finished) <==> AllSucceed(written)
    {
      hide InPacket, Succeeds;
      forall p
        ensures p in finished <==> p in written
      {
        assert p in finished <==> p in multiset(finished);
        assert p in written <==> p in multiset(written);
      }
    }

    /** All packets stay within the device exactly if it is larger than one packet. */
    lemma AllFit()
      requires Queue() && End(written) == LastEnd() && |written| >= 2
      requires
        var perPacket := PerPacket(blockSize);
        written[1].block + written[1].count == FirstCount(blockCount, perPacket) + perPacket
      ensures AllSucceed(written) ==> blockCount > PerPacket(blockSize)
      ensures blockCount > PerPacket(blockSize) ==> forall p <- written :: Fits(p)
    {
      hide FirstCount, Chained;
      PerPacketPositive(blockSize);
      SecondFits(blockCount, PerPacket(blockSize));
      forall p <- written
        ensures p.block + p.count <= End(written)
      {
        EndsWithin(written, p);
      }
      assert written[1] in written;
    }

    lemma AllNoise()
      requires Queue() && Overwritten() && outstanding == [] && End(written) == LastEnd() && |written| >= 1
      requires written[0].block == 0 && written[0].count == FirstCount(blockCount, PerPacket(blockSize))
      requires forall p <- written | Fits(p) :: Succeeds(p)
      ensures IsNoise(device[..], 0)
    {
      hide Span, State, FirstCount, Chained, Succeeds, InPacket;
      Permuted();
      forall i | 0 <= i < device.Length
        ensures device[i] == NoiseAt(i)
      {
        var p := FittingWriter(i);
        assert Succeeds(p) && p in finished;
      }
    }

    /** Every word of the device belongs to a packet that stays within it. */
    lemma FittingWriter(word: nat) returns (p: Packet)
      requires Geometry() && word < device.Length && Chained(written) && End(written) == LastEnd() && |written| >= 1
      requires written[0].block == 0 && written[0].count == FirstCount(blockCount, PerPacket(blockSize))
      ensures p in written && Fits(p) && InPacket(word, p)
    {
      hide Span, FirstCount, Chained;
      PerPacketPositive(blockSize);
      FirstIsAll(blockCount, PerPacket(blockSize));
      if blockCount > PerPacket(blockSize) {
        p := WordWriter(|written| - 1, word);
        EndsWithin(written, p);
      } else {
        p := written[0];
        Beginning(Step());
        SpanNat(0, Step());
      }
    }

    lemma {:induction false} WordWriter(last: nat, word: nat) returns (p: Packet)
      requires Chained(written) && last < |written| && word < Span(written[last].block + written[last].count, Step())
      ensures p in written && InPacket(word, p)
      decreases last
    {
      hide Span, Chained;
      p := written[last];
      if word < Span(p.block, Step()) {
        if last == 0 {
          StartsAtZero(written);
          SpanNat(0, Step());
          assert false;
        } else {
          Follows(written, last);
          p := WordWriter(last - 1, word);
        }
      }
    }

    // ---------- the spot check ----------

    /** The sector holds the noise that belongs there. */
    predicate SectorIsNoise(sector: nat)
      requires Geometry() && sector < blockCount
      reads device
    {
      SectorInside(sector);
      IsNoise(device[Span(sector, Step())..Span(sector + 1, Step())], Span(sector, Step()))
    }

    lemma SectorInside(sector: nat)
      requires Geometry() && sector < blockCount
      ensures 0 <= Span(sector, Step()) <= Span(sector + 1, Step()) <= device.Length
      ensures Span(sector + 1, Step()) == Span(sector, Step()) + Step()
    {
      hide Span;
      SpanNat(sector, Step());
      SpanAdds(sector, 1, Step());
      SpanMonotone(sector, sector + 1, Step());
      SpanMonotone(sector + 1, blockCount, Step());
      OneBlock(Step());
    }

    lemma OneBlock(step: nat)
      ensures Span(1, step) == step
    {
    }

    /** The sector can be read, and holds its noise. */
    predicate Passes(sector: nat)
      requires Geometry()
      reads device
    {
      sector < blockCount && readable(sector) && SectorIsNoise(sector)
    }

    /** Compares a sector with the generator, which has to be in position, word by word. */
    method VerifyBlock(sector: nat) returns (ok: bool)
      requires Geometry() && pcg == State(Span(sector, Step()))
      modifies this`pcg
      ensures ok <==> Passes(sector)
      ensures ok ==> pcg == State(Span(sector + 1, Step()))
    {
      hide Span, State;
      if sector >= blockCount || !readable(sector) {
        return false;
      }
      SectorInside(sector);
      var at, step := Span(sector, Step()), Step();
      ghost var words := device[at..at + step];
      assert SectorIsNoise(sector) == IsNoise(words, at);
      for i := 0 to step
        invariant forall j | 0 <= j < i :: words[j] == NoiseAt(at + j)
        invariant pcg == State(at + i)
      {
        var word := Draw();
        assert words[i] == device[at + i];
        if device[at + i] != word {
          assert words[i] != NoiseAt(at + i);
          return false;
        }
        StateAdds(at + i, 1);
      }
      return true;
    }

    /** Moves the generator by the words of so many blocks, computed with wrap-around. */
    method Advance(blocks: int, ghost at: int)
      requires pcg == State(Span(at, Step()))
      modifies this`pcg
      ensures pcg == State(Span(at + blocks, Step()))
    {
      hide Span, State;
      var unsigned := State(blocks);
      SpanNat(unsigned, Step());
      StateTimes(blocks, Step());
      StateAdds(Span(at, Step()), Span(blocks, Step()));
      StateTwice(Span(at, Step()), Span(unsigned, Step()), Span(blocks, Step()));
      SpanAdds(at, blocks, Step());
      pcg := State(pcg + Span(unsigned, Step()));
    }

    /** The sectors after an offset that random jumps, numbered from i on, lead to. */
    function Jumps(skips: nat -> nat, offset: nat, i: nat): seq<nat>
      decreases blockCount - offset
    {
      var next := offset + Skip(skips, i);
      if next >= blockCount then [] else [next] + Jumps(skips, next, i + 1)
    }

    /** The i-th jump, in blocks. */
    function Skip(skips: nat -> nat, i: nat): (d: nat)
      ensures d > 0
    {
      skips(i) % MaxJump() + 1
    }

    /** Jumps are bounded to approximately a megabyte. */
    function MaxJump(): (n: nat)
      ensures n > 0
    {
      var n := if blockSize > 0 then 2 * PKT_SIZE / blockSize else 0;
      if n > 0 then n else 1
    }

    /** The first sector, the ones that the jumps lead to, and the last one. */
    function Samples(skips: nat -> nat): seq<nat>
      requires blockCount > 0
    {
      [0] + Jumps(skips, 0, 0) + [blockCount - 1]
    }

    lemma {:induction false} JumpsInside(skips: nat -> nat, offset: nat, i: nat)
      ensures forall s <- Jumps(skips, offset, i) :: offset < s < blockCount
      decreases blockCount - offset
    {
      var next := offset + Skip(skips, i);
      if next < blockCount {
        JumpsInside(skips, next, i + 1);
      }
    }

    method JumpLimit() returns (maxJump: nat)
      requires Geometry()
      ensures maxJump == MaxJump()
    {
      JumpFits(1);
      maxJump := 2 * PKT_SIZE / blockSize;
    }

    method DrawSkip(skips: nat -> nat, i: nat, maxJump: nat) returns (d: nat)
      requires maxJump == MaxJump()
      ensures d == Skip(skips, i)
    {
      d := skips(i) % maxJump + 1;
    }

    /** A sample is at most two megabytes behind the one before it. */
    lemma {:induction false} JumpsApart(skips: nat -> nat, offset: nat, i: nat, k: nat)
      requires Geometry() && k < |Jumps(skips, offset, i)|
      ensures
        var before := if k == 0 then offset else Jumps(skips, offset, i)[k - 1];
        before < Jumps(skips, offset, i)[k] && (Jumps(skips, offset, i)[k] - before) * blockSize <= 0x20_0000
      decreases k
    {
      hide MaxJump;
      var next := offset + Skip(skips, i);
      if k > 0 {
        JumpsApart(skips, next, i + 1, k - 1);
      } else {
        JumpFits(Skip(skips, i));
      }
    }

    /** The lengths of jumps are those of at most two megabytes. */
    lemma JumpFits(d: nat)
      requires Geometry() && d > 0
      ensures d <= MaxJump() <==> d * blockSize <= 0x20_0000
    {
      var q := 2 * PKT_SIZE / blockSize;
      assert 2 * PKT_SIZE == q * blockSize + 2 * PKT_SIZE % blockSize;
      assert q >= 1;
      if d <= q {
        Products(d, q, blockSize);
      } else {
        Products(q + 1, d, blockSize);
        assert (q + 1) * blockSize == q * blockSize + blockSize;
      }
    }

    lemma Products(a: nat, b: nat, c: nat)
      requires a <= b
      ensures a * c <= b * c
    {
      assert (b - a) * c >= 0;
    }

    /** Every such jump can be the next one. */
    lemma EveryJump(offset: nat, i: nat, d: nat)
      requires Geometry() && 0 < d && d * blockSize <= 0x20_0000 && offset + d < blockCount
      ensures
        var skips := (n: nat) => if n == i then d - 1 else 0;
        Jumps(skips, offset, i) != [] && Jumps(skips, offset, i)[0] == offset + d
    {
      JumpFits(d);
      Words.DivUnique(d - 1, MaxJump(), 0, d - 1);
    }

    lemma JumpsStep(skips: nat -> nat, offset: nat, i: nat)
      ensures
        var next := offset + Skip(skips, i);
        Jumps(skips, offset, i) == if next >= blockCount then [] else [next] + Jumps(skips, next, i + 1)
    {
    }

    /** The first and the last sector are samples, and no two megabytes between samples are skipped. */
    lemma SamplesSpread(skips: nat -> nat, k: nat)
      requires Geometry() && blockCount > 0 && k + 1 < |Samples(skips)|
      ensures Samples(skips)[0] == 0 && Samples(skips)[|Samples(skips)| - 1] == blockCount - 1
      ensures Samples(skips)[k] <= Samples(skips)[k + 1]
      ensures (Samples(skips)[k + 1] - Samples(skips)[k]) * blockSize <= 0x20_0000
    {
      hide Jumps, MaxJump;
      var js := Jumps(skips, 0, 0);
      if k < |js| {
        JumpsApart(skips, 0, 0, k);
      } else {
        LastJump(skips, 0, 0);
      }
    }

    /** The jumps end so near to the end that the next one would leave the device. */
    lemma {:induction false} LastJump(skips: nat -> nat, offset: nat, i: nat)
      requires Geometry() && offset < blockCount
      ensures
        var js := Jumps(skips, offset, i);
        var last := if js == [] then offset else js[|js| - 1];
        last < blockCount && (blockCount - 1 - last) * blockSize <= 0x20_0000
      decreases blockCount - offset
    {
      hide MaxJump;
      var d := Skip(skips, i);
      if offset + d < blockCount {
        LastJump(skips, offset + d, i + 1);
      } else {
        JumpFits(d);
        Products(blockCount - 1 - offset, d, blockSize);
      }
    }

    /**
     * Checks samples until one fails, always against the noise of their own position. The spot
     * check passes exactly if every sample can be read and holds its noise; a device without blocks
     * fails.
     */
    method Verify(skips: nat -> nat) returns (ok: bool, checked: seq<nat>)
      requires Geometry()
      modifies this`pcg
      ensures blockCount > 0 ==> forall s <- Samples(skips) :: s < blockCount
      ensures ok <==> blockCount > 0 && forall s <- Samples(skips) :: Passes(s)
      ensures blockCount > 0 ==> if ok then checked == Samples(skips) else checked <= Samples(skips)
    {
      hide Span, State, SectorIsNoise, Jumps, MaxJump, Skip;
      var maxJump := JumpLimit();
      JumpsInside(skips, 0, 0);
      pcg := 0;
      Beginning(Step());
      var sectorOffset: nat, i: nat := 0, 0;
      checked := [0];
      ok := VerifyBlock(sectorOffset);
      if !ok {
        assert blockCount > 0 ==> Samples(skips)[0] == 0;
        return;
      }
      while true
        invariant sectorOffset < blockCount && pcg == State(Span(sectorOffset + 1, Step()))
        invariant forall s <- checked :: Passes(s)
        invariant Samples(skips) == checked + Jumps(skips, sectorOffset, i) + [blockCount - 1]
        decreases blockCount - sectorOffset
      {
        JumpsStep(skips, sectorOffset, i);
        var skip := DrawSkip(skips, i, maxJump);
        if sectorOffset + skip >= blockCount {
          break;
        }
        Advance(skip - 1, sectorOffset + 1);
        sectorOffset := sectorOffset + skip;
        ghost var before := checked;
        checked, i := checked + [sectorOffset], i + 1;
        OneMoreSample(before, sectorOffset, Jumps(skips, sectorOffset, i), blockCount - 1);
        ok := VerifyBlock(sectorOffset);
        if !ok {
          assert Samples(skips)[|before|] == sectorOffset;
          return;
        }
      }
      Advance(blockCount - (sectorOffset + 2), sectorOffset + 1);
      checked := checked + [blockCount - 1];
      ok := VerifyBlock(blockCount - 1);
      assert checked == Samples(skips) && checked[|checked| - 1] == blockCount - 1;
    }

    /** If the session can write all packets that fit and read all sectors, the spot check passes. */
    method ShredAndVerify(skips: nat -> nat) returns (ok: bool)
      requires Unused()
      modifies this, device
      ensures ok <==> blockCount > 0 && forall s <- Samples(skips) :: Passes(s)
      ensures blockCount > 0 && (forall p <- written | Fits(p) :: works(p.block, p.count)) ==>
        (ok <==> forall s <- Samples(skips) :: readable(s))
    {
      hide Span, State, Chained, PerPacket, FirstCount, LastEnd;
      Shred();
      var checked;
      ok, checked := Verify(skips);
      forall s: nat | s < blockCount && IsNoise(device[..], 0)
        ensures Passes(s) <==> readable(s)
      {
        SectorInside(s);
      }
    }
  }

  lemma OneMoreSample(checked: seq<nat>, s: nat, rest: seq<nat>, last: nat)
    ensures checked + ([s] + rest) + [last] == (checked + [s]) + rest + [last]
  {
  }

  lemma StateTwice(a: int, b: int, c: int)
    requires State(b) == State(c)
    ensures State(State(a) + b) == State(a + c)
  {
    StateAdds(a, b);
    StateAdds(b, a);
    StateAdds(c, a);
  }

  lemma Beginning(step: nat)
    ensures State(Span(0, step)) == 0
  {
  }

  lemma PerPacketPositive(blockSize: nat)
    requires 0 < blockSize <= PKT_SIZE
    ensures PerPacket(blockSize) > 0
  {
    var q := PKT_SIZE / blockSize;
    assert PKT_SIZE == q * blockSize + PKT_SIZE % blockSize;
  }

  lemma FirstIsAll(blockCount: nat, perPacket: nat)
    requires 0 < perPacket
    ensures 0 < blockCount <= perPacket ==> FirstCount(blockCount, perPacket) == blockCount
  {
    if 0 < blockCount < perPacket {
      Words.DivUnique(blockCount, perPacket, 0, blockCount);
    } else if blockCount == perPacket {
      Words.DivUnique(blockCount, perPacket, 1, 0);
    }
  }

  lemma FirstIs(blockCount: nat, perPacket: nat)
    requires perPacket > 0
    ensures FirstCount(blockCount, perPacket)
         == if blockCount % perPacket == 0 then perPacket else blockCount % perPacket
  {
  }
}
