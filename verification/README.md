# Verified models of algorithms in genode-world

This project models the self-contained algorithms and state machines of the genode-world repository and
proves what they are for. Each part is independent of the others. `dafny verify dfyconfig.toml` checks all
of it.

**Smoothsort** (`Leonardo`, `Words`, `TrailingZeros`, `ForestBits`, `LeonardoHeap`, `ForestPhases`,
`ForestEncoding`, `ByteRotation`, `Elements`, `Smoothsort`, `SizeBound`). The sorting function of the lwext4
port works in place on raw bytes. Its forest of Leonardo heaps is encoded in two machine words and a shift,
and element moves are collected in a pointer chain and carried out by a rotation in chunks of 256 bytes.
The model keeps all of this: a flat byte memory, addresses, 64-bit words, the table of scaled Leonardo
numbers, the chain array with its scratch slot. `Smoothsort.Qsort` ends with a sorted permutation of the
elements, and every index, shift and subtraction on the way is in range.

**Anonymous memory** (`Ranges`, `AnonMmap`). A registry of areas; ranges are reserved, backed with memory,
and released in parts, which trims, splits or removes interval records while the list is walked. After any
run of operations, exactly the addresses committed and not released since are mapped.

**Virtual disks** (`Dma`, `DiskLedger`, `Disk`, `DiskRuns`, `AvlEntries`, with `Copies` and `Wrappers` for what
several parts share). Guest requests become packets of block sessions, are deferred when no packet is to be had,
restarted, and committed when packets come back.
The block sessions are a parameter: they may answer every request for a packet as they like, as long as a
granted area is free and no two packets share an address, and carry out packets at any time, on the blocks of
the medium that these name. In every run, what the guest writes to a sector it reads back:
`DiskRuns.WriteThenRead`.

**Checksum** (`Gf2`, `Crc32`, `CrcRemainder`, `CrcBursts`). The checksum of the remote-ROM protocol is the
CRC-32 of section 8 of RFC 1952. The comment in the source calls it compatible to POSIX cksum; the code
neither works from the high bit nor appends the length, and the model follows the code
(`CrcRemainder.NotPosix`).

**Audio** (`Audio`). Guest samples of any granularity are re-chunked into stereo packets of one period.

**Ring buffers** (`Queues`, `RingPositions`, `RingBuffer`, `MagicRing`). Two ring buffers as refinements of a
queue.

**Block shredder** (`BlockShred`). Overwriting a device with generator output, and spot-checking it.

**Random words** (`RandomBytes`). A word source that consumes refills of a stream cipher from the top down.

**Clock slewing** (`ClockSlew`). Frequency and system slews over exact reals, with exact drivers.

**Addresses** (`UdpAddress`). Printing internet addresses, and parsing them with leading components missing.

## Where the code does less than it seems to

- Sorting more than L(65) elements shifts a word by its full width: `SizeBound.SizeBoundExact`.
- The distance to the next tree is wrong exactly if the low word is 1 and the high word odd:
  `ForestBits.PntzCorrect`.
- A partial release reports an area as unused, although something is still mapped, exactly if it split the
  only mapped range: `AnonMmap.UsedExact`, with the example `AnonMmap.UsedIsWrong`.
- A disk write that finds no packet is deferred only if it moves no byte: `Disk.WritesAreNotDeferred`, with
  the example `Disk.RefusedWrite`. A request with a packet that is out of bounds leaves its lookup entry
  behind: the outcome `Leaked` of `Disk.Disk.Execute`, with the example `Disk.LeakedRead`. A packet for whose
  lookup entry there is no memory is never released: `Disk.Disk.StaysLost`.
- A ring buffer that is filled exactly up to the reader reads as empty: `RingPositions.WriteAdds`, with the
  example `RingPositions.FullReadsAsEmpty`. Lengths beyond what is available are clamped only if the access
  does not wrap, or by coincidence (`RingPositions.LongWrite`): `RingBuffer.RingBuffer.Write` and
  `RingBuffer.RingBuffer.Read` work exactly if their calls are guarded.
- From an even offset, all samples of an audio message are submitted if and only if their number is even:
  `Audio.NothingLost`. An odd number drops the last one and makes the offset odd (`Audio.OddMessage`); from
  there, left and right are exchanged, and a packet that becomes even again ends with a frame that was never
  written (`Audio.OddOffset`).
- Stopping the audio streams, also for a full stream, throws away all packets that were submitted and not
  yet played: `Audio.Audio.AudioStop` and `Audio.Audio.Drain`.
- The second packet of the shredder passes the end of the device exactly if the device is not larger than
  one packet: `BlockShred.SecondFits`. Such a device is overwritten all the same, but an error is logged:
  `BlockShred.Shredder.Shred`.
- The correction of the clock is continuous in every state that the clock's own operations reach
  (`ClockSlew.Clock.UpdateSlew`), but not if the system was asked to slew behind its back. With an ideal
  driver, the registered callback `accrue_offset` (src/app/chrony/genode_stubs.c:95-114) leads there:
  `ClockSlew.InheritedRest`. With the `adjtime` of the same file, which never reports a rest, it does not.

## Model

| member | source | states |
|---|---|---|
| TrailingZeros.Ctz64Correct | src/lib/lwext4/qsort.c:39-60 | For every non-zero word the de Bruijn multiplication yields the number of trailing zeros |
| TrailingZeros.TzSplits | src/lib/lwext4/qsort.c:39-60 | The number of trailing zeros is what it should be: so many zero bits below a set bit |
| ForestBits.PntzCorrect | src/lib/lwext4/qsort.c:75-81 | The result is the distance to the next set bit of the pair if and only if not (low word 1 and high word odd); there it is 0 |
| ForestBits.OrdersNext | src/lib/lwext4/qsort.c:185-187 | Shifting by the distance to the next set bit drops exactly the first tree from the encoded orders |
| ForestBits.Shl | src/lib/lwext4/qsort.c:106-116 | For shifts other than 0 and 64 the two words become the 128-bit value shifted left |
| ForestBits.Shr | src/lib/lwext4/qsort.c:118-128 | For shifts other than 0 and 64 the two words become the 128-bit value shifted right |
| ForestBits.ShiftsAreArithmetic | src/lib/lwext4/qsort.c:106-128 | The shifts are multiplication and division by a power of two |
| SizeBound.SizeBoundExact | src/lib/lwext4/qsort.c:213-236 | The first loop asks for a shift by a whole word if and only if there are more than L(65) elements |
| SizeBound.OneTree | src/lib/lwext4/qsort.c:213-236 | L(k) further elements are merged into exactly one tree of order k |
| SizeBound.AfterTiles | src/lib/lwext4/qsort.c:213-236 | The shape after n elements is legal and its trees tile exactly n slots |
| SizeBound.AfterIsGrown | src/lib/lwext4/qsort.c:213-236 | The shapes so described are those of the sorting code: one element is one tree of order 1, and each further one grows the shape as a turn of the first loop does |
| LeonardoHeap.SiftRestores | src/lib/lwext4/qsort.c:130-155 | Sinking makes a heap of a tree whose children are heaps, changes nothing outside the tree, and its root is the sunk value or an old child and dominates all three |
| LeonardoHeap.SiftKeepsElements | src/lib/lwext4/qsort.c:130-155 | Sinking keeps the multiset of elements, up to the value held back |
| LeonardoHeap.TrinkleRestores | src/lib/lwext4/qsort.c:157-194 | If only the last root is out of place, trinkling restores a forest of heaps with ascending roots and touches nothing to its right |
| LeonardoHeap.TrinkleKeepsElements | src/lib/lwext4/qsort.c:157-194 | Trinkling keeps the multiset of elements, up to the value held back |
| LeonardoHeap.RootIsGreatest | src/lib/lwext4/qsort.c:130-155 | The root of a heap is at least every element of its tree |
| LeonardoHeap.ForestGreatest | src/lib/lwext4/qsort.c:240-256 | The last root of a forest is at least every element of the forest |
| ForestPhases.GrowKeeps | src/lib/lwext4/qsort.c:213-236 | One turn of the first loop keeps the invariant of the growing forest: shape, tiling, heaps, and ascending roots of the trees that cannot grow any more |
| ForestPhases.GrowStepElements | src/lib/lwext4/qsort.c:213-236 | One turn of the first loop permutes the elements |
| ForestPhases.GrowEnds | src/lib/lwext4/qsort.c:238 | The last trinkling turns the grown forest into a forest with ascending roots |
| ForestPhases.ShrinkKeeps | src/lib/lwext4/qsort.c:240-256 | One turn of the second loop keeps the forest left of head, and right of it a sorted part that is at least everything to its left |
| ForestPhases.ShrinkStepElements | src/lib/lwext4/qsort.c:240-256 | One turn of the second loop permutes the elements |
| ForestPhases.ShrinkEnds | src/lib/lwext4/qsort.c:240-256 | When one element is left, the sequence is sorted |
| ForestEncoding.EncodesMerges | src/lib/lwext4/qsort.c:214 | The two low bits are set if and only if the last two trees have adjacent orders |
| ForestEncoding.EncodesMerged | src/lib/lwext4/qsort.c:214-217 | Shifting by two and setting the low bit encodes the merged orders |
| ForestEncoding.EncodesAppended | src/lib/lwext4/qsort.c:225-234 | Shifting left and setting the low bit encodes the orders with a new tree |
| ForestEncoding.EncodesLeft | src/lib/lwext4/qsort.c:246-249 | Two shifts and flipping three bits encode the orders with the left child in place of its parent |
| ForestEncoding.EncodesTail | src/lib/lwext4/qsort.c:185-187 | Shifting by the distance encodes the orders without the first tree |
| ForestEncoding.NextDistance | src/lib/lwext4/qsort.c:185 | In a legal shape the computed distance is the difference of the first two orders, and below a word if the orders are as close as those of a legal array |
| ForestEncoding.TreesAtMost | src/lib/lwext4/qsort.c:162-183 | A forest in an array of legal size has at most 66 trees, so the pointer chain is long enough |
| ByteRotation.Memcpy | src/lib/lwext4/qsort.c:96-98 | Copies bytes between places that are equal or do not overlap |
| ByteRotation.Cycle | src/lib/lwext4/qsort.c:83-103 | The rotation in chunks with advancing pointers is one rotation of whole slots, for every width and chain length, and changes nothing else but the scratch bytes |
| Elements.RotateChain | src/lib/lwext4/qsort.c:83-103 | Rotating the slots of a chain moves each element one up and the first one to the end |
| Smoothsort.Sift | src/lib/lwext4/qsort.c:130-155 | The elements become the specification's sifted sequence; nothing else changes but the scratch bytes |
| Smoothsort.StaysHere | src/lib/lwext4/qsort.c:171-181 | The tests of the loop decide whether the element stays in this tree |
| Smoothsort.Trinkle | src/lib/lwext4/qsort.c:157-194 | The elements become the specification's trinkled sequence, for the forest that the bit vector encodes |
| Smoothsort.FillTable | src/lib/lwext4/qsort.c:198-211 | The table holds the scaled size of every tree that fits, without overflow and without leaving the table |
| Smoothsort.GrowOne | src/lib/lwext4/qsort.c:213-236 | The body of the first loop is the specification's step, and the bit vector encodes the grown shape |
| Smoothsort.ShrinkOne | src/lib/lwext4/qsort.c:240-256 | The body of the second loop is the specification's step, and the bit vector encodes the shape after it |
| Smoothsort.SplitTree | src/lib/lwext4/qsort.c:245-254 | The case in which the given-up root has children |
| Smoothsort.GrowForest | src/lib/lwext4/qsort.c:207-238 | The first phase ends with one forest of heaps with ascending roots and the same elements |
| Smoothsort.ShrinkForest | src/lib/lwext4/qsort.c:240-256 | The second phase ends with a sorted array of the same elements |
| Smoothsort.Qsort | src/lib/lwext4/qsort.c:196-257 | For every total preorder the array ends sorted, with the same multiset of elements, and memory outside is unchanged but for the scratch bytes |
| Ranges.Crossing | src/lib/libgo_support/anon_mmap.cc:194-207 | The result says whether record and query meet, and is then exactly their intersection |
| Ranges.SeparatePairs | src/lib/libgo_support/anon_mmap.cc:299-307 | Counting every address at most once is being pairwise disjoint |
| Ranges.TrimsCount | src/lib/libgo_support/anon_mmap.cc:436-488 | Over all records, the pieces kept cover every address as often as before, and the released ones not at all |
| Ranges.OnlyOneCrosses | src/lib/libgo_support/anon_mmap.cc:458-464 | If the query splits a record, it meets no other one, so one remembered piece is enough |
| Ranges.ReleaseExact | src/lib/libgo_support/anon_mmap.cc:421-493 | A partial release leaves disjoint, non-empty ranges that cover exactly the old addresses without the released ones, each inside a backing range |
| Ranges.BackedOnce | src/lib/libgo_support/anon_mmap.cc:299-307 | A mapped range lies inside only one backing range |
| AnonMmap.VmArea.Commit | src/lib/libgo_support/anon_mmap.cc:266-311 | Succeeds exactly if the range lies inside and meets no attached memory, mapped or not; otherwise nothing changes |
| AnonMmap.VmArea.EditRecord | src/lib/libgo_support/anon_mmap.cc:437-483 | What one record becomes in place, in all four cases of overlap, and whether a right part has to wait |
| AnonMmap.VmArea.ReleasePart | src/lib/libgo_support/anon_mmap.cc:429-493 | Walking and editing the list, with the split piece added afterwards, yields the specification's ranges and the reported use |
| AnonMmap.UsedExact | src/lib/libgo_support/anon_mmap.cc:430-490 | The reported use is right if and only if the release did not split the only mapped range |
| AnonMmap.UsedIsWrong | src/lib/libgo_support/anon_mmap.cc:458-464 | An example: two pages stay mapped in an area reported as unused |
| AnonMmap.Registry.Reserve | src/lib/libgo_support/anon_mmap.cc:367-387 | A wanted range becomes a new empty area exactly if it meets no other one |
| AnonMmap.Registry.Commit | src/lib/libgo_support/anon_mmap.cc:389-400 | Commits in the one area that does not refuse; a commit over a hole fails and changes nothing |
| AnonMmap.Registry.Release | src/lib/libgo_support/anon_mmap.cc:421-509 | A part is taken out of its area, a whole area disappears, and the whole main area keeps its records |
| AnonMmap.Perform | src/lib/libgo_support/anon_mmap.cc:367-509 | One operation changes extents and attached memory as specified, and the mapped addresses by its event |
| AnonMmap.Run | src/lib/libgo_support/anon_mmap.cc:367-509 | After every run, exactly the addresses committed and not released since are mapped |
| Dma.BlocksCover | src/app/seoul/disk.cc:256-258 | The rounded-up number of blocks holds all bytes, with less than one block to spare |
| Dma.PassExactly | src/app/seoul/disk.h:147-166 | The checks made descriptor by descriptor reject exactly what leaves the store or overfills the packet |
| Dma.RoundedUpPasses | src/app/seoul/disk.cc:312-314 | With a packet of rounded-up size, only descriptors that leave the store are rejected |
| Dma.Gather | src/app/seoul/disk.cc:406-421 | The write path fills the packet's beginning with the segments, exactly if all checks pass, and touches no other packet |
| Dma.GatherUnchecked | src/app/seoul/disk.cc:290-297 | The copy loop of a restarted write, for descriptors in bounds |
| Dma.Scatter | src/app/seoul/disk.cc:112-131 | The read path fills the segments up to the first one that fails a check |
| Dma.ReadRestoresWritten | src/app/seoul/disk.cc:110-131 | Writing segments and reading them back restores every byte of them, and no other, whatever the guest did in between |
| Dma.WriteReturnsRead | src/app/seoul/disk.cc:404-421 | Data read into disjoint segments and gathered again is the same data |
| Dma.ScatterStays | src/app/seoul/disk.cc:116-131 | Reading changes no byte outside the segments |
| Dma.GatheredAt | src/app/seoul/disk.cc:404-421 | In the packet, each byte of a segment is behind those of the segments before it |
| Dma.ScatteredAt | src/app/seoul/disk.cc:110-131 | Disjoint segments are filled with the bytes of the packet in the same order |
| DiskLedger.Ledger.LaunchBalances | src/app/seoul/disk.cc:323-335 | A message accepted with a packet keeps the accounts |
| DiskLedger.Ledger.DeferBalances | src/app/seoul/disk.cc:384-390 | A deferred message keeps the accounts |
| DiskLedger.Ledger.AnswerBalances | src/app/seoul/disk.cc:207-215 | A message answered at once keeps the accounts |
| DiskLedger.Ledger.RestartBalances | src/app/seoul/disk.cc:228-305 | A restarted request keeps the accounts |
| DiskLedger.Ledger.FinishBalances | src/app/seoul/disk.cc:81-149 | A returned packet keeps the accounts |
| DiskLedger.Ledger.ExactlyOnePlace | src/app/seoul/disk.h:131-134 | Every accepted request is in flight, deferred or committed, and never two of these |
| DiskLedger.Ledger.OnePacketEach | src/app/seoul/disk.h:73-103 | No request has two packets |
| DiskLedger.Ledger.CommittedOnce | src/app/seoul/disk.cc:104-141 | No request is committed twice |
| DiskLedger.Ledger.CommitsStay | src/app/seoul/disk.cc:104-141 | A committed request stays committed, by the same commit, however the accounts go on |
| DiskLedger.Ledger.QuietIsComplete | src/app/seoul/disk.cc:77-153 | Once nothing is in flight or deferred, there are as many commits as accepted requests, one for each |
| Disk.Disk.Receive | src/app/seoul/disk.cc:156-226 | What each kind of message leads to, including the immediate answer to a write on a read-only disk |
| Disk.Disk.Execute | src/app/seoul/disk.cc:308-434 | The outcome is a function of what comes of the request for a packet and the bounds: launched with a packet for exactly the blocks from the sector of the message on, and with the gathered data; deferred, refused, leaked, or stranded with a packet without entry; all but a leak keep the invariant |
| Disk.Disk.ExecuteLater | src/app/seoul/disk.cc:348-401 | Without a packet, a request is deferred exactly if it is deferrable |
| Copies.ClearExact | src/app/seoul/disk.cc:266-276 | Areas (of packets, segments and slots) are clear of each other exactly if they share no byte |
| Disk.PacketCovers | src/app/seoul/disk.cc:253-276 | The packet begins at the sector of the message, its blocks are its size, and hold all segments with less than one block to spare |
| Disk.Disk.ExecuteRead | src/app/seoul/disk.cc:323-401 | A read with a packet is launched, for its blocks, exactly if its segments start inside the store |
| Disk.Disk.ExecuteWrite | src/app/seoul/disk.cc:403-433 | A write with a packet is launched, for its blocks and carrying the segments of the guest, exactly if these lie inside the store |
| Disk.Disk.StaysLost | src/app/seoul/disk.cc:268-346 | In every step of a run, a packet that no lookup entry leads to stays allocated without one, and a request whose entry could not be allocated adds such a packet |
| Disk.Disk.Restart | src/app/seoul/disk.cc:251-305 | A deferred request is launched, for its blocks, exactly if the session grants a packet and its entry can be allocated; otherwise nothing changes, but for a packet without entry; no other packet is disturbed |
| Disk.Disk.CheckRestart | src/app/seoul/disk.cc:228-249 | The loop ends; it only launches deferred requests, commits nothing, and stops only when none is left or one was refused a packet |
| Disk.Disk.HandleAck | src/app/seoul/disk.cc:83-149 | A known packet commits its own request with its own tag, with success exactly if it is a read or a write that succeeded, and only a read that succeeded fills its segments; an unknown one changes nothing |
| Disk.Disk.HandleDisk | src/app/seoul/disk.cc:77-153 | The commits are exactly the replies to the known packets, in order; the memory of the guest is filled by the reads among them; the accounts become those with these finished, and some deferred requests launched; a request still waits only if one was refused a packet; packets in flight are not disturbed |
| Disk.Disk.Run | src/app/seoul/disk.cc:77-434 | Over any interleaving of messages, signals, sessions and changes by the guest, with a trace of what each event did to the accounts, the packets, the media and the memory: the accepted requests are exactly the transfers answered with true, in order, each in one place and committed at most once with its own disk and tag; history is never rewritten; the run is cut short only at the first message that leaks its lookup entry |
| DiskRuns.WriteThenRead | src/app/seoul/disk.cc:77-434 | In every run, the segments of a read hold what the segments of a write to the same sector held, if no other write over them is carried out in between |
| DiskRuns.MediaRemains | src/app/seoul/disk.cc:323-346 | In every run, bytes of a medium outside the blocks of the writes that are carried out stay |
| DiskRuns.OkIsEarned | src/app/seoul/disk.cc:83-142 | In every step of a run, a request is committed with success only after its own packet came back with success, or at once as a write to a read-only disk; and with an error only after its own packet failed |
| Disk.ReadArrives | src/app/seoul/disk.cc:110-131 | A read with disjoint segments in bounds passes all checks, and the guest finds the packet's data in its segments |
| Disk.WritesAreNotDeferred | src/app/seoul/disk.cc:361-376 | A write without a packet is accepted if and only if its segments start in the store and move nothing |
| Disk.RefusedWrite | src/app/seoul/disk.cc:361-376 | An example of a write in bounds that is refused because it would have to wait |
| Disk.LeakedRead | src/app/seoul/disk.cc:354-401 | An example of a read beyond the store that gets a packet and leaks its lookup entry |
| AvlEntries.FindExact | src/app/seoul/disk.h:95-100 | In an ordered tree the search finds an entry with the address if and only if there is one |
| AvlEntries.FindIsLookup | src/app/seoul/disk.h:169-182 | With one entry for each address, the search is a map lookup |
| Crc32.Cksum | include/remote_rom/util.h:35-47 | The checksum is the one that the table-driven code in section 8 of RFC 1952 computes |
| Crc32.Complements | include/remote_rom/util.h:37-46 | The first and the last step of the checksum complement the register |
| Crc32.StepIs | include/remote_rom/util.h:42-43 | The branch-free step is the conditional one of the RFC |
| Crc32.StepLinear | include/remote_rom/util.h:42-43 | The step is linear over GF(2) |
| Crc32.ByteStep | include/remote_rom/util.h:40-44 | Eight steps are one table lookup on the low byte |
| CrcRemainder.CrcIsRemainder | include/remote_rom/util.h:35-47 | The checksum is the only word whose reflected complement is the remainder of the message polynomial, times x^32 and with its first 32 coefficients complemented, by the generator 0x104C11DB7 |
| CrcRemainder.NotPosix | include/remote_rom/util.h:27-34 | The checksum is not the cksum of POSIX: they differ for the empty message |
| CrcRemainder.PosixExamples | include/remote_rom/util.h:27-34 | Examples of the cksum of POSIX: it works from the high bit and takes the length low byte first |
| CrcRemainder.StepDivides | include/remote_rom/util.h:42-43 | A step multiplies the register's polynomial by x, modulo the generator |
| CrcRemainder.CollisionsExact | include/remote_rom/util.h:35-47 | Messages of one length have the same checksum if and only if the generator divides the difference of their polynomials times x^32 |
| CrcBursts.StepBijective | include/remote_rom/util.h:42-43 | The step permutes the registers, with an explicit inverse |
| CrcBursts.RunInjective | include/remote_rom/util.h:40-44 | For every message the final register determines the initial one |
| CrcBursts.BitBurstsAreDetected | include/remote_rom/util.h:35-47 | Messages that differ only within 32 consecutive bits have different checksums, whatever surrounds these |
| CrcBursts.BurstsAreDetected | include/remote_rom/util.h:35-47 | Messages that differ only within four consecutive bytes have different checksums, whatever surrounds these |
| CrcBursts.CrcAffine | include/remote_rom/util.h:35-47 | The checksum of the sum of three messages of one length is the sum of their checksums |
| CrcBursts.ZerosCount | include/remote_rom/util.h:37-40 | A zero byte in front of a message changes its checksum, which is what the first complement is for |
| Audio.NothingLost | src/app/seoul/audio.cc:163-183 | From an even offset, the stream gets all clamped samples, in order, if and only if their number is even |
| Audio.ClampIsNearest | src/app/seoul/audio.cc:173-177 | Clamping a sample gives the value of the range that is nearest to it, and no other one |
| Audio.HeardNearest | src/app/seoul/audio.cc:163-181 | Of each sample of a whole frame, the value nearest to it is heard, on its own channel |
| Audio.LoudMessage | src/app/seoul/audio.cc:173-177 | An example: 1.5 is heard as 1.0 |
| Audio.OddMessage | src/app/seoul/audio.cc:163-183 | An example: a message of three samples loses the last one |
| Audio.OddOffset | src/app/seoul/audio.cc:163-201 | An example: from an odd offset, left and right are exchanged and a frame that was never written is submitted |
| Audio.Audio.Receive | src/app/seoul/audio.cc:75-208 | From any offset, what was submitted with the packet being filled grows by exactly what the samples consumed add; a normal return has consumed all whole samples; only a stop or a full stream throws packets away |
| Audio.Audio.Take | src/app/seoul/audio.cc:147-204 | One turn of the loop consumes what fits, keeps the order, adds a stale frame where an odd packet becomes even, and goes on only with a full packet and samples left; a packet in turn becomes pending behind the others |
| Audio.Audio.Fill | src/app/seoul/audio.cc:163-181 | From any offset, the copied samples follow the frames already in the packet, before the slot that an odd one does not write |
| Audio.Audio.Consume | src/app/seoul/audio.cc:104-207 | The loop ends with the message consumed, or because the stream was full or had no packet |
| Audio.Audio.PlayOne | src/app/seoul/audio.cc:75-208 | A message of whole frames, offered again after each refusal while packets may be played, adds exactly the frames taken so far; each call that does not complete it was refused by the stream |
| Audio.Audio.Play | src/app/seoul/audio.cc:75-208 | Over any run of messages of whole frames, complete or cut short anywhere, nothing is lost, duplicated or reordered |
| Audio.Audio.HeardInOrder | src/app/seoul/audio.cc:195-201 | As long as nothing has been thrown away, what was played is a prefix of the stream |
| Audio.Audio.AudioOut | src/app/seoul/audio.cc:35-72 | Confirms exactly the played packets from the head on, in order, until the guest drains or one is not played |
| Audio.Audio.AudioStart | src/app/seoul/audio.h:60-78 | Starting forgets the pending packets, once |
| Audio.Audio.AudioStop | src/app/seoul/audio.h:80-98 | Stopping throws away all packets that were submitted and not played, and the packet being filled |
| Audio.Audio.Drain | src/app/seoul/audio.cc:120-129 | A reset for a full stream throws away all packets that were submitted and not played; none is being filled |
| Audio.CycleGrows | src/app/seoul/audio.h:45-50 | Advancing the tail appends one packet to the pending ones, unless it reaches the head |
| RingPositions.AvailExact | src/app/audio_player/ring_buffer.h:34-45 | The read formula is the number of items held, and the write formula does not underflow if and only if two items are free while the writer is ahead |
| RingPositions.WriteAdds | src/app/audio_player/ring_buffer.h:40-45 | Of the writes within the available room, those that add up are exactly the ones that do not reach the reader; the others empty the ring |
| RingPositions.FullReadsAsEmpty | src/app/audio_player/ring_buffer.h:43 | An example of a permitted write after which nothing can be read |
| RingPositions.ReadSubtracts | src/app/audio_player/ring_buffer.h:34-38 | Reading subtracts and keeps the free items |
| RingPositions.GuardsBelow | src/app/audio_player/ring_buffer.h:47-101 | For lengths below the capacity, the calls that work are those without room or items, and those that are not clamped across the wrap nor fill up to the reader |
| RingBuffer.RingBuffer.Write | src/app/audio_player/ring_buffer.h:47-73 | For every length, the call appends to the queue the bytes it returns, and keeps it consistent, if and only if it is guarded; what an unguarded one stores |
| RingBuffer.RingBuffer.Read | src/app/audio_player/ring_buffer.h:75-101 | For every length, the call takes from the queue the bytes it returns, and keeps it consistent, if and only if it is guarded; what an unguarded one fetches |
| RingBuffer.RingBuffer.Run | src/app/audio_player/ring_buffer.h:47-101 | Over any run of calls up to the first unguarded one, what the reads return, followed by what is still held, is what was held, followed by what the writes stored |
| MagicRing.MagicRing.StoreItems | src/app/raw_audio_sink/magic_ring_buffer.h:132-135 | Storing behind the write address without regard to the end changes exactly the following items of the ring |
| MagicRing.MagicRing.Fill | src/app/raw_audio_sink/magic_ring_buffer.h:142-146 | Advancing within the available room adds items, or empties the ring if it reaches the reader |
| MagicRing.MagicRing.Produce | src/app/raw_audio_sink/magic_ring_buffer.h:111-146 | Storing and filling appends to the queue, or loses everything if it reaches the reader |
| MagicRing.MagicRing.Drain | src/app/raw_audio_sink/magic_ring_buffer.h:148-152 | Draining drops the first items of the queue |
| MagicRing.MagicRing.Consume | src/app/raw_audio_sink/magic_ring_buffer.h:124-152 | Loading and draining takes the first items of the queue |
| MagicRing.MagicRing.Run | src/app/raw_audio_sink/magic_ring_buffer.h:108-152 | Any run of calls, up to the first that exceeds what is available or meets the reader, is first in, first out |
| BlockShred.SecondFits | src/app/block_shred/main.cc:154-177 | The second packet ends within the device if and only if this is larger than one packet, and the rest is then a multiple of the packet size |
| BlockShred.WrittenOnce | src/app/block_shred/main.cc:154-194 | Every block up to the end is written by exactly one of the packets |
| BlockShred.Shredder.SubmitNoise | src/app/block_shred/main.cc:137-143 | A packet is filled with the generator output for its blocks and joins at most one other outstanding one |
| BlockShred.Shredder.Shred | src/app/block_shred/main.cc:145-202 | For every device, packets follow each other without gap to the end and all are acknowledged; exactly the words of the packets that the session could write are the generator output of their position; an error is logged exactly if some packet failed or the device is not larger than one packet |
| BlockShred.StateTimes | src/app/block_shred/main.cc:262-270 | The distance computed with wrap-around is the right one, also for the negative number of blocks at the end |
| BlockShred.Shredder.VerifyBlock | src/app/block_shred/main.cc:207-226 | With the generator in position, the check passes exactly if the sector can be read and holds its noise |
| BlockShred.Shredder.Advance | src/app/block_shred/main.cc:262-270 | The generator is moved to the words of another sector |
| BlockShred.Shredder.Verify | src/app/block_shred/main.cc:231-275 | The check passes if and only if there are blocks and all samples, the first and the last sector and those reached by the random jumps, can be read and hold their own noise |
| BlockShred.Shredder.JumpsApart | src/app/block_shred/main.cc:241-262 | A sample is at most two megabytes behind the one before it |
| BlockShred.Shredder.EveryJump | src/app/block_shred/main.cc:252-259 | Every jump of at most two megabytes can be the next one |
| BlockShred.Shredder.SamplesSpread | src/app/block_shred/main.cc:241-272 | The first and the last sector are samples, and no two megabytes between samples are skipped |
| BlockShred.Shredder.ShredAndVerify | src/app/block_shred/main.cc:279-287 | If the session can write all packets that fit into the device, the spot check passes exactly if its samples can be read |
| RandomBytes.TopDown | src/lib/libsodium/randombytes_salsa20_jitterentropy.c:94-119 | Within a refill the words come from the top down, and key and nonce stay |
| RandomBytes.OneRefill | src/lib/libsodium/randombytes_salsa20_jitterentropy.c:94-119 | Each 248 words from an empty buffer are one refill without its last 32 bytes, which change the key instead |
| RandomBytes.NextKey | src/lib/libsodium/randombytes_salsa20_jitterentropy.c:46-55 | Refills from one key lead to the same next key exactly if they end alike, and each one moves the nonce |
| RandomBytes.SeedsDiffer | src/lib/libsodium/randombytes_salsa20_jitterentropy.c:57-84 | Entropy that differs only in the part that is mixed in gives different keys |
| RandomBytes.HashesDiffer | src/lib/libsodium/randombytes_salsa20_jitterentropy.c:57-84 | Entropy that differs only in the hashed part gives different keys exactly if the hashes differ |
| RandomBytes.StretchedKeys | src/lib/libsodium/randombytes_salsa20_jitterentropy.c:134-154 | Buffers of different lengths change the key differently, and the key stream of the next nonce changes it again |
| RandomBytes.RandomBytes.GetWord | src/lib/libsodium/randombytes_salsa20_jitterentropy.c:94-119 | The code returns the word of the specification and leaves its state, with every delivered position zero |
| RandomBytes.RandomBytes.Words | src/lib/libsodium/randombytes_salsa20_jitterentropy.c:94-119 | n calls return the n words of the specification; a closed source delivers what is left first and then seeds once |
| RandomBytes.RandomBytes.Refill | src/lib/libsodium/randombytes_salsa20_jitterentropy.c:102-113 | A refill replaces the buffer, the key and the nonce as specified |
| RandomBytes.RandomBytes.Stir | src/lib/libsodium/randombytes_salsa20_jitterentropy.c:57-84 | Seeding erases the buffer and replaces the key; the nonce only the first time |
| RandomBytes.RandomBytes.RandomBuf | src/lib/libsodium/randombytes_salsa20_jitterentropy.c:134-154 | The buffer is the key stream, the key changes twice, and what is left of the refill stays |
| ClockSlew.Clock.UpdateSlew | src/app/chrony/genode_stubs.c:235-322 | In every valid state the correction at this moment stays the same, and the next state is valid; in any other, it jumps by the rest that a starting fast slew inherits; the time planned for the offset, the rate for this time, the start of a fast slew, the requested frequency, the relative speed and the interval follow from each other, within their limits; the offset left at the next update is not larger if the base frequency is in range and the rate at most 1/2 |
| ClockSlew.Progress | src/app/chrony/genode_stubs.c:261-312 | Unless the base frequency is at a limit, an offset is slewed in its own direction, and is strictly smaller at the next update if the greatest rate is below 1/2 |
| ClockSlew.Clock.AccrueOffset | src/app/chrony/genode_stubs.c:95-114 | The registered callback moves the rest of the system by the offset; without a fast slew, the state is then valid only if the offset is zero |
| ClockSlew.InheritedRest | src/app/chrony/genode_stubs.c:95-114 | An example: with the registered limits and an ideal driver, a run with this callback makes the correction jump from -2 to -8 |
| ClockSlew.NotIncreased | src/app/chrony/genode_stubs.c:297-312 | Over its interval a slew does not overshoot by more than the offset was |
| ClockSlew.SlewInDirection | src/app/chrony/genode_stubs.c:261-288 | The slew has the sign of the offset and goes at most twice as far in the estimated time |
| ClockSlew.Clock.StartFastslew | src/app/chrony/genode_stubs.c:190-202 | The offset goes to the system, on top of what that has left |
| ClockSlew.Clock.StopFastslew | src/app/chrony/genode_stubs.c:205-217 | What the system has left comes back to the offset register |
| ClockSlew.Clock.SetFrequency | src/app/chrony/genode_stubs.c:332-338 | In every valid state a new base frequency does not make the correction jump; the offset is slewed as planned for it |
| ClockSlew.Clock.OffsetConvert | src/app/chrony/genode_stubs.c:342-366 | Returns the correction and does not change it, for any time, when it notices that the fast slew is over; the error is what late changes and the slewing system may amount to |
| ClockSlew.Clock.HandleStep | src/app/chrony/genode_stubs.c:145-157 | A known step moves the corrections along |
| ClockSlew.Clock.HandleUnknownStep | src/app/chrony/genode_stubs.c:149-153 | After an unknown step in a valid state, exactly what a fast slew has left and what was slewed since the step remain as a correction |
| UdpAddress.PartialIPAddress | src/app/uhexen2/net_udp_genode.c:175-222 | The parser computes the grammar's result |
| UdpAddress.AcceptedExactly | src/app/uhexen2/net_udp_genode.c:185-215 | Accepted are exactly components of up to three digits and value up to 255 between dots, followed by nothing or a colon |
| UdpAddress.MissingComponents | src/app/uhexen2/net_udp_genode.c:208-219 | k components are the low k bytes, and the own address gives the other ones |
| UdpAddress.PortOfHost | src/app/uhexen2/net_udp_genode.c:212-215 | Without a port in the text, the port is the one of the host |
| UdpAddress.PortInText | src/app/uhexen2/net_udp_genode.c:212-213 | Behind a colon, the port is the number there, after white space and a sign |
| UdpAddress.SpacesAre | src/app/uhexen2/net_udp_genode.c:213 | White space is that of C |
| UdpAddress.PrintFits | src/app/uhexen2/net_udp_genode.c:308-316 | A printed address has at most 21 characters |
| UdpAddress.RoundTrip | src/app/uhexen2/net_udp_genode.c:175-222 | Parsing a printed address gives this address and port, whatever the own address is |
| UdpAddress.Loopback | src/app/uhexen2/net_udp_genode.c:308-316 | An example in full: 127.0.0.1:26000 |

## Left out

- Smoothsort.Qsort: does not model arrays of more than L(65) elements or with 3 * nel * width at or above
  2^64, because shifts or the table would leave the range of a word there.
- Sorting: the 32-bit branches of the trailing-zero count.
- Sorting: the scratch bytes of the rotation are a place in the same memory; that the caller's stack does
  not overlap the array is a precondition.
- Anonymous memory: reservations without a wanted address, which the range allocator serves inside the main
  area, page alignment, alignment hints, and executable against plain attachments. Sizes are positive.
- Anonymous memory: record identity. A list of records is a sequence that is edited in place.
- Disks: creating sessions, parameters of a disk, real locks (a message or a signal is one step), and
  wrap-around of guest addresses. The trees are a map and a set; `AvlEntries` gives the search in a tree.
- Disks: memory that is missing for copies of messages and descriptors, or for the entries of deferred requests.
- Disks: media that change otherwise than by the packets carried out.
- Disks: about operations after a leaked lookup entry nothing is claimed.
- Disks: the guest may change its memory at any time, but not during one step.
- Audio: starting the sessions, differences between the two streams (they play alike), samples as
  floating-point numbers (they are reals), and real concurrency: a confirmation to the guest and its reaction
  are one step.
- Rings: wrap-around of positions at the word size, and the mapping of the same memory twice.
- BlockShred.Shredder.Shred: does not model block sizes that are not divisible by four or larger than a packet,
  for which the source leaves bytes of a packet unwritten or divides by zero. A packet that fails leaves the
  device as it was.
- Shredder: seeding, timing and messages. The generator is a function from its position to a word.
- Random words: the cipher, the keyed hash and the entropy collector are parameters.
- Clock: rounding, sub-microsecond parts of system adjustments, error estimates passed to other parts, and
  drivers of which only one is installed.
- Addresses: byte order of the machine, address families, numbers of a port beyond the range of an integer,
  and the separate conversion from text with five numbers.
- Rendering, key tables, state copies, sessions, signals and configuration of the applications.
