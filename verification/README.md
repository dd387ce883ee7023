# NDP queues and tools: a verified model

This project models the packet data path of the NFB/NDP software in Dafny and proves what
it promises, together with the parts of the tools that do real bookkeeping. Software and an
FPGA exchange packets through rings that are mapped twice back to back; both sides keep only
positions reduced modulo the ring size. Every queue here carries unbounded positions next to
the reduced ones, and the class invariants say how the two relate. Hardware and other
subscribers are methods that may do anything the sync contract allows.

Check everything with `dafny verify dfyconfig.toml`.

| module | what it is |
|---|---|
| `Ring`, `Octets` | masked pointers as residues of unbounded positions; doubled ring memory; bytes and little-endian fields |
| `Driver` | the kernel's half of a sync call: transmit locks, receive release pointer |
| `Frame`, `TxV1`, `RxV1`, `Loopback` | version 1: frames inline in a byte ring, and the end-to-end theorem |
| `TxV2`, `RxV2`, `BurstCopy` | version 2: header ring and offset ring; sending copies |
| `TxV3Layout`, `TxV3`, `RxV3`, `SendV3` | version 3 in userspace mode: byte credit on transmit, phase bit on receive; sending copies |
| `TxV3States` | states of a version 3 transmit queue in which something goes wrong, built; where the slots of a burst lie |
| `Tsu` | the timestamp unit's clock discipline and its increment register |
| `Stats` | traffic counters shared by workers and an aggregator |
| `Pcap` | cached and streamed replay of a capture |
| `BusCopy` | copying to a device in accesses of fixed widths |
| `TestPacket` | self-checking test packets |
| `QueueMap` | spreading queues over interfaces and endpoints |
| `Rbf` | framing a raw bitstream for flash |
| `DmaPump` | the response pump of the remote DMA client |

The main results:

- **Version 1 end to end** (`Loopback.DeliveredIsSent`): whatever mix of gets, puts, flushes,
  rollbacks, bursts and wraps either side went through, the packets handed out are a prefix of
  the packets sent, byte for byte, and all of them once everything was read.
- **Version 3 transmit credit** (`TxV3.TxQueue.Safe`, kept by every step): the credit software
  believes in is the capacity less one block less the rounded bytes charged and not read; it
  never underflows, and every byte and every header hardware still has to read is intact in the
  device. The contracts of get, put and flush also hold in states whose books are wrong.
- **All or nothing** (`TxV1.TxQueue.BurstCopy`, `BurstCopy.CopyQueue.Send`, `SendV3.Send`): over
  each version, sending copies returns zero or the count and sends the payloads in order, over
  versions 2 and 3 padded with zeros to the shortest frame. Over version 3 that holds in every
  state of the books, and the books stay right unless a get had to lock with frames in flight.
  Apart from payloads that are too long and, over version 3, bursts of more than 256, zero is
  never returned without need: what is at hand is used, and every refused attempt made a lock that
  another subscriber held or that left too little.
- **A put that ends** (`TxV3.TxQueue.BurstPut`, `TxV3States.PutNeverEnds`): a put ends only if its
  frames fit the device; if they do and it looks at the update buffer, prompt hardware lets it end
  after two polls a frame. It is bound to look exactly for frames of up to 4096 bytes, rings of up
  to 512 headers or memory of up to 4128 bytes.
- **Version 3 receive phase bit** (`RxV3.RxQueue.Scan`, `BurstPut`, `Run`): the scan ends
  exactly at the hardware position if and only if it starts in the lap its flag describes or
  already there, within one lap of steps. Packets handed out never overlap in the data buffer
  and lie in exactly the blocks given back for them (`RxV3.FramesApart`, `FrameInBlocks`).
- **Version 2** (`RxV2.RxQueue.Run`, `TxV2.TxQueue`): bursts together are the hardware stream,
  once each and in order, although the index is reduced lazily; each flush publishes exactly
  what was reserved since the last one.
- **Clock discipline** (`Tsu.Converges`, `Tsu.Settles`): from every offset the loop comes and stays
  within any distance of system time, never changing side; with the increment rounded to the
  register in every period it ends up no further off than ten register units per tick.
- **Statistics** (`Stats.TotalIsWhatArrivedIff`): for every interleaving, either mode and either
  aggregator, reports and the final total are together the packets and bytes of all bursts, if and
  only if no worker with a non-zero count ran on a private copy of its parameters and no signal
  found anything to count twice or to lose.
- **Replay** (`Pcap.Transmitter.Run`, `Pcap.CacheAgreesIff`): a replay ends at the first place where
  it looks and finds a reason; a cached and a streamed replay of one capture send the same packets
  if and only if streaming it ends where the cache looks.

## Where the code does not do what one would expect

Each of these is a lemma or a contract, with an if-and-only-if or a method that builds the state.

- A version 3 transmit lock (`ndp_tx.h:358-384`) enters the sync at the hardware position. The
  books survive it exactly when nothing is in flight (`TxV3.TxQueue.Lock`, `BurstGet`);
  otherwise it charges every other header of the ring again (`LockCharges`), and the credit is
  short by their rounded lengths in 32-bit arithmetic. `TxV3States.LockUnderflows` builds
  such a state, whose next get is left with almost 2^32 bytes of credit for 64 bytes of memory.
- A version 3 put polls for credit, but a sync looks at the update buffer only when headers or
  credit run short. A wait for `len` bytes is certain to look exactly if `len` is at most 4096, the
  ring has at most 512 headers or the memory at most 4128 bytes (`TxV3.TxQueue.AlwaysLooks`); for
  every other choice `TxV3States.NeverLooks` builds a queue whose put never ends although the
  frame would fit and hardware is prompt (`PutNeverEnds`). These numbers are for hardware that
  reports single bytes; if it reports whole blocks they are 4128 and 4160
  (`TxV3States.AlwaysLooksInBlocks`, `NeverLooks`). A frame that with its rounding is longer than
  the memory less one block is never sent either.
- The zeroing of short version 2 and 3 frames starts one metadata length too far
  (`ndp_tx.h:229`, `ndp_tx.h:448`): the padding is zero exactly when what is left out was zero
  before (`TxV2.TailClearedIff`, `TxV3Layout.PaddingClearedIff`).
- The slots of a version 3 burst are never reduced: they share no byte of host memory exactly when
  the burst is no longer than that memory (`TxV3States.SlotsApartIff`).
- A version 3 receive get without a put in between, behind a wrap, counts packets it has not
  filled in (`RxV3.RxQueue.BurstGet`); `RxV3.GetGetAcrossWrap` proves it of
  a queue it builds.
- Version 1 lengths survive the 16-bit fields exactly when the aligned frame is below 65536
  bytes (`Frame.LengthsRoundTripIff`); version 2 similarly (`TxV2.HeaderRoundTripIff`).
- Stopping and starting a receive queue leaves fields behind. Version 1 is right afterwards exactly
  when nothing was handed out and at most half the ring locked (`RxV1.RxQueue.Restart`): otherwise
  the next lock claims bytes never written, or the next put releases them (`GetAfterRestart`,
  `PutAfterRestart`, `RxV1.RestartInventsPacket`). Version 2 is right exactly when no packet was
  available and unread and, on an exclusive queue, hardware starts where the index stands
  (`RxV2.RxQueue.Restart`, `GetAfterRestart`, `LockAfterRestart`, `RxV2.RestartInventsPacket`).
  Version 3 is right exactly when what is left is what a fresh queue has (`RxV3.RxQueue.Restart`,
  `TxV3.TxQueue.Restart`): otherwise the first scan in an odd lap finds packets up to the end of
  the ring (`ScanAfterRestart`), and the first look of a transmitter adds to a credit that is full
  (`LookAfterRestart`). Even where version 1 is right, `v1.swptr + bytes == total` fails from a
  restart over an old total to the next lock.
- A clock behind never gets nearer if the true increment is not below the largest the register
  holds (`Tsu.NeverCatchesUp`).
- With a capture for each thread (`-m`) the workers count on a copy of their parameters, and the
  totals stay empty (`transmit.c:81-91`, `Stats.OwnCaptureIsNotCounted`).
- Answering a signal clears a worker's counter but not its mark: packets not published are lost
  (`Stats.SignalLosesPacket`), published ones are taken back and the final total can show
  2^64 - 1 packets (`Stats.SignalUnderflows`).
- With a minimal frame length, cached replay drops the whole burst that holds the first short
  frame: without a byte limit it agrees with streaming exactly when that frame is out of reach or
  starts a burst (`Pcap.CacheAgreesIff`, `Pcap.CacheDropsBurst`).
- A queue and its interface get the same endpoint for every number of queues exactly when the
  endpoints divide the interfaces evenly (`QueueMap.SameEndpointIff`).
- The test packet check with timestamps looks beyond packets shorter than eight bytes unless
  they have no unaligned tail (`TestPacket.ChecksPacketIff`).
- The bus copy's shortcut for 4 and 8 bytes ignores alignment (`BusCopy.CopyNoopt`).
- After a failed write the DMA pump stops for good (`DmaPump.FailureIsFinal`).

## Model

| member | source | states |
|---|---|---|
| Ring.AndIsMask | libnfb/include/netcope/ndp_tx.h:35 | ANDing with size - 1, bit by bit, is the residue modulo a power-of-two size |
| Ring.WrappedDifference | libnfb/include/netcope/ndp_tx.h:49 | an unsigned difference that wraps at the word width, masked by the ring size, is the residue of the true difference |
| Ring.MaskedDifference | libnfb/include/netcope/ndp_rx.h:22-23 | pointers may be masked before they are subtracted and masked again |
| Ring.Distance | libnfb/include/netcope/ndp_rx.h:22-23 | the masked difference of two masked pointers less an offset is the true distance whenever that fits the ring |
| Ring.LazyDistance | libnfb/include/netcope/ndp_rx.h:156-160 | a pointer that was not reduced yet gives the same masked distance as the position it stands for |
| Ring.StoreCell | libnfb/include/netcope/ndp.h:322-324 | a write through the doubled mapping, wherever it wraps, changes exactly the cells it covers |
| Ring.StoreInto | libnfb/include/netcope/ndp.h:322-324 | writing cell by cell through the mapping is that store |
| Driver.TxSyncContract | drivers/kernel/drivers/nfb/ndp/channel.c:249-311 | for unbounded positions: the caller learns the published position and a grant no larger than asked that ends before data hardware has not read; it holds the lock exactly when the grant is not empty |
| Driver.ReleasePointer | drivers/kernel/drivers/nfb/ndp/channel.c:220-231 | the scan over all subscribers finds the pointer of the slowest reader in any order |
| Driver.TxPort.Environment | drivers/kernel/drivers/nfb/ndp/channel.c:265-311 | what may happen outside a subscriber: hardware reads published data; without a lock others may publish or lock; a held lock keeps its place |
| Driver.TxPort.SyncCall | libnfb/include/netcope/ndp_tx.h:13-27 | a sync publishes exactly what the lock holder wrote and answers with the published position and a grant: all that was asked for or all hardware has read, unless somebody else holds the lock; an active lock does not shrink |
| Frame.LengthsRoundTripIff | libnfb/include/netcope/ndp_tx.h:97-98 | the receiver recovers both lengths and a step that holds the frame if and only if the aligned frame fits 16 bits |
| Frame.ParsesIff | libnfb/include/netcope/ndp_rx.h:89-120 | the parser goes on exactly if the metadata fits the packet and the packet the lock; step and data position are the next multiples of eight, and when the data length wraps |
| Frame.ParseFrame | libnfb/include/netcope/ndp_rx.h:83-121 | the receiver's arithmetic on the header of a frame yields exactly its lengths, data position and span, and no error exit |
| Frame.HeaderMakesFrame | libnfb/include/netcope/ndp_tx.h:124-126 | writing the four header bytes frames whatever lies behind them and leaves the rest of the lap alone |
| Frame.FillMakesFrame | libnfb/include/netcope/ndp_tx.h:128-130 | filling the areas handed out makes it the frame of those bytes and touches no other frame |
| Frame.FramedPrefix | libnfb/include/netcope/ndp_rx.h:64-129 | decoding is unambiguous: if one run of frames extends another byte for byte, so do the packets |
| Frame.FramedReplace | libnfb/include/netcope/ndp_tx.h:128-130 | rewriting one packet inside its frame changes that packet only |
| Frame.CarriesMore | libnfb/include/netcope/ndp_tx.h:147-166 | publishing a window of framed ring memory appends exactly its packets to what the wire carries |
| Frame.WirePrefix | libnfb/include/netcope/ndp_rx.h:46-134 | bytes taken that are a prefix of bytes sent carry the same prefix of packets, and all of them when all bytes were taken |
| Frame.PlacedShow | libnfb/include/netcope/ndp_rx.h:113-120 | descriptors show their packets as long as the frames are in memory |
| TxV1.FrameStep | libnfb/include/netcope/ndp_tx.h:97-139 | one more header behind framed memory frames one more packet and disturbs none before it |
| TxV1.TxQueue.constructor | libnfb/include/netcope/ndp.h:43-68 | an opened queue satisfies the invariant with nothing queued or sent |
| TxV1.TxQueue.Lock | libnfb/include/netcope/ndp_tx.h:29-54 | an active lock keeps its place and does not shrink; everything hardware has read is granted unless another subscriber holds the lock; afterwards v1.swptr + bytes == total, the cursor is the published position plus v1.swptr, and cursor + bytes < 2 * size |
| TxV1.TxQueue.Flush | libnfb/include/netcope/ndp_tx.h:159-166 | publishes exactly the queued packets, as the bytes that lie in the lock, and gives the lock up |
| TxV1.TxQueue.BurstPut | libnfb/include/netcope/ndp_tx.h:147-157 | publishes everything once more than a quarter of the ring waits, and otherwise changes nothing |
| TxV1.TxQueue.Place | libnfb/include/netcope/ndp_tx.h:97-139 | frames one packet at the cursor; the cursor to roll back to stays good |
| TxV1.TxQueue.Relock | libnfb/include/netcope/ndp_tx.h:103-121 | taking more room in the middle of a burst keeps both the burst so far and the cursor to roll back to |
| TxV1.TxQueue.BurstGet | libnfb/include/netcope/ndp_tx.h:75-145 | reserves the whole burst or nothing; bytes at hand are used without a lock; it refuses only after a lock that another subscriber held or that granted everything hardware has read and still less than queued and requested frames need; a zero leaves queued packets and cursor as they were; placeholders point at the new frames |
| TxV1.TxQueue.Fill | libnfb/include/netcope/ndp_tx.h:128-130 | writing a placeholder changes exactly that queued packet |
| TxV1.TxQueue.CopyInto | libnfb/include/netcope/ndp_core.h:412-415 | the placeholders of a burst receive the payloads in order |
| TxV1.TxQueue.BurstCopy | libnfb/include/netcope/ndp_core.h:392-426 | sends copies of all payloads in order, or of none; enough bytes at hand are used; nothing is sent only after a thousand locks, the last of which, unless nothing is queued, left too little; at most a quarter of the ring is left unpublished |
| RxV1.RxQueue.constructor | libnfb/include/netcope/ndp.h:43-68 | an opened queue satisfies the invariant with nothing received |
| RxV1.RxQueue.Hardware | libnfb/include/netcope/ndp_rx.h:11-26 | frames hardware appends within the released space disturb nothing held, ready or unseen |
| RxV1.RxQueue.Take | libnfb/include/netcope/ndp_rx.h:21-23 | in any state, total is what hardware wrote and was not released, and bytes that less v1.swptr modulo the ring |
| RxV1.RxQueue.Lock | libnfb/include/netcope/ndp_rx.h:11-26 | learns everything hardware wrote: v1.swptr + bytes == total, cursor congruent to released + v1.swptr, cursor + bytes < 2 * size |
| RxV1.RxQueue.Unlock | libnfb/include/netcope/ndp_rx.h:28-44 | releases exactly what was handed out and tells the driver so; v1.swptr + bytes == total is kept |
| RxV1.RxQueue.BurstPut | libnfb/include/netcope/ndp_rx.h:136-145 | releases once more than half the ring was handed out, otherwise nothing changes; v1.swptr + bytes == total is kept |
| RxV1.RxQueue.Next | libnfb/include/netcope/ndp_rx.h:83-128 | stepping over a ready frame never takes an error exit and yields the next packet |
| RxV1.RxQueue.BurstGet | libnfb/include/netcope/ndp_rx.h:46-134 | hands out exactly the next packets hardware wrote, in order, with their bytes; fewer than asked only if there are no more; v1.swptr + bytes == total is kept |
| RxV1.RxQueue.Restart | libnfb/include/netcope/ndp.h:388-434 | after stop and start every later get and put is right if and only if nothing was handed out and the old total is at most half the ring; the total is still what is locked if and only if it was what was handed out |
| RxV1.RxQueue.GetAfterRestart | libnfb/include/netcope/ndp_rx.h:21-23 | with bytes handed out before, the next lock claims all but those bytes of the ring though nothing was written, and the next header parsed is the one that was next before |
| RxV1.RxQueue.PutAfterRestart | libnfb/include/netcope/ndp_rx.h:136-145 | with an old total over half the ring, the next put releases that many bytes hardware has not written |
| RxV1.RestartInventsPacket | libnfb/include/netcope/ndp.h:422-434 | a queue with two frames, one of them handed out: after stop and start the next get parses a packet hardware has not written |
| Loopback.DeliveredIsSent | libnfb/include/netcope/ndp_rx.h:46-134 | packets handed out are a prefix of packets sent, all of them once everything was read, for all runs of both queues |
| RxV2.RxQueue.Hardware | libnfb/include/netcope/ndp_rx.h:147-162 | entries hardware appends within the released space disturb no entry not yet released |
| RxV2.DecodeSplitsIff | libnfb/include/netcope/ndp_rx.h:203-219 | metadata and data split the buffer from its offset to the end of the packet without gap or overlap if and only if the metadata length is within the packet |
| RxV2.RxQueue.Lock | libnfb/include/netcope/ndp_rx.h:147-162 | all entries written become available and the index is reduced below the ring size |
| RxV2.RxQueue.Show | libnfb/include/netcope/ndp_rx.h:193-220 | the entries read through the doubled mapping, every index below 2 * hdr_items, are the next ones of the hardware stream; in any state each packet lies where the cells behind the index say |
| RxV2.RxQueue.BurstGet | libnfb/include/netcope/ndp_rx.h:177-226 | hands out exactly the next packets of the stream, metadata at the buffer the offset gives, data behind the metadata, lengths and flags as the header says; fewer than asked only if hardware wrote no more; in any state, hands out as many as asked without looking if it counts them available |
| RxV2.RxQueue.BurstPut | libnfb/include/netcope/ndp_rx.h:164-175 | releases exactly what was handed out and tells the driver so |
| RxV2.RxQueue.Run | libnfb/include/netcope/ndp_rx.h:177-231 | over any run of gets and puts the bursts together are the stream from start to read position, once each, in order, each packet where its entry says |
| RxV2.RxQueue.Restart | libnfb/include/netcope/ndp.h:384-405 | after stop and start every later get and put is right if and only if no packet was available and unread and, unless the queue is shared, hardware starts where the index stands |
| RxV2.RxQueue.GetAfterRestart | libnfb/include/netcope/ndp_rx.h:186-190 | with packets left over, a get hands out as many although hardware wrote none |
| RxV2.RxQueue.LockAfterRestart | libnfb/include/netcope/ndp_rx.h:156 | with the index elsewhere on an exclusive queue, the next lock counts packets although hardware wrote none |
| RxV2.RestartInventsPacket | libnfb/include/netcope/ndp.h:396-405 | a queue with one packet available: after stop and start a get hands it out although hardware wrote none |
| TxV2.HeaderRoundTripIff | libnfb/include/netcope/ndp_tx.h:224-239 | a receiver sees the four flag bits and the metadata at the offset; it sees the requested lengths and the data behind the metadata if and only if metadata fits 8 bits and the frame 16 |
| TxV2.TooLargeIff | libnfb/include/netcope/ndp_tx.h:227-234 | a packet is too large exactly if its enlarged frame exceeds the longest |
| TxV2.TxQueue.constructor | libnfb/include/netcope/ndp.h:70-143 | an opened queue satisfies the invariant |
| TxV2.TxQueue.Lock | libnfb/include/netcope/ndp_tx.h:168-188 | a held lock keeps its place; otherwise all cursors move to the new one; reserved plus available is what was granted: everything hardware has read unless another subscriber holds the lock |
| TxV2.TxQueue.WriteHeaders | libnfb/include/netcope/ndp_tx.h:214-246 | succeeds exactly if no packet is too large; headers and buffers of the burst lie in the cells behind the reserved ones, which stay as they were; packet memory changes by clearing the tails of short frames |
| TxV2.TailClearedIff | libnfb/include/netcope/ndp_tx.h:227-230 | the tail of a short frame is zero afterwards if and only if the stretch of one metadata length that the clearing leaves out was zero |
| TxV2.ClearedSpares | libnfb/include/netcope/ndp_tx.h:227-230 | without metadata the clearing of a burst touches nothing outside its shortest frames |
| TxV2.ClearedTail | libnfb/include/netcope/ndp_tx.h:227-230 | without metadata all tails of a burst are zero afterwards |
| TxV2.TxQueue.Behind | libnfb/include/netcope/ndp_tx.h:221-222 | either cursor reaches the same cell, inside the doubled mapping, different from every cell before it |
| TxV2.TxQueue.BurstGet | libnfb/include/netcope/ndp_tx.h:190-252 | reserves headers for the whole burst or none; headers at hand are used without a lock; a burst of packets none too large is refused only after a lock that another subscriber held or that granted everything hardware has read and still too few; a zero leaves nothing a later flush would publish; slots are where a receiver of header and offset finds metadata and data |
| TxV2.TxQueue.BurstPut | libnfb/include/netcope/ndp_tx.h:256-264 | publishes once more than a quarter of the ring is reserved, otherwise changes nothing |
| TxV2.TxQueue.Flush | libnfb/include/netcope/ndp_tx.h:266-283 | publishes exactly the headers reserved since the last publication and reduces all cursors together |
| BurstCopy.CopyQueue.CopyAll | libnfb/include/netcope/ndp_core.h:412-415 | payloads go into the buffers just reserved, in order, in front of zeroed tails, and no buffer waiting for publication is touched |
| BurstCopy.CopyQueue.Reserve | libnfb/include/netcope/ndp_core.h:410-415 | one attempt reserves and copies all payloads or none, the latter only for a payload that is too long or after a lock that left too few headers; headers state no metadata and the padded lengths |
| BurstCopy.CopyQueue.Send | libnfb/include/netcope/ndp_core.h:392-426 | over a version 2 queue, all payloads are sent in order, or none, whatever flags the unset descriptors hold; headers published describe the padded payloads; enough headers at hand are used; fitting payloads are given up only after a thousand locks, the last of which, if anything is reserved, left too few; at most a quarter of the ring is left unpublished |
| SendV3.CopyStep | libnfb/include/netcope/ndp_core.h:412-415 | copying the next payload into its slot spares the other slots and all padding |
| SendV3.ContentsCopied | libnfb/include/netcope/ndp_core.h:412-415 | what then lies in the slots, frame length by frame length, is the payloads padded with zeros |
| SendV3.RoomIsStretch | libnfb/include/netcope/ndp_tx.h:467 | a burst takes the rounded lengths of its frames in the stream sent to the device |
| SendV3.Load | libnfb/include/netcope/ndp_core.h:410-415 | in any state one get and copy makes the put send what was reserved before or exactly the padded payloads; payloads of fitting length are taken if the headers are at hand or nothing is in flight and the ring holds them, and refused only after a sync in this call; the books survive if and only if no lock is taken with frames in flight, and otherwise the credit is short by the rounded lengths of the headers not in flight |
| SendV3.Attempt | libnfb/include/netcope/ndp_core.h:410-419 | one get, copy and put that ends has sent what was reserved before and then the payloads or nothing, in any state; when it must take them, and that it refuses only after a sync and breaks off only after all polls |
| SendV3.Send | libnfb/include/netcope/ndp_core.h:392-426 | over a version 3 queue in any state: zero or all; a call that ends has sent what was reserved and then the payloads in order, padded, if the burst fits host memory; all are sent if headers are at hand or nothing is in flight; otherwise none only after a sync in each of a thousand attempts, except that the first may have found frames reserved; right books stay right without a lock over frames in flight |
| RxV3.DecodeSplitsIff | libnfb/include/netcope/ndp_rx.h:350-364 | metadata and data split a frame without a gap if and only if the metadata length is within it |
| RxV3.BlockCount | libnfb/include/netcope/ndp_rx.h:246 | the blocks of a packet are the least number of 128 bytes each that hold its frame |
| RxV3.FrameInBlocks | libnfb/include/netcope/ndp_rx.h:239-258 | if hardware places every frame behind the blocks of those before it, each byte handed out lies in the blocks by which the packet moves the space given back |
| RxV3.FramesApart | libnfb/include/netcope/ndp_rx.h:350-364 | then no two packets handed out and not given back share a byte of the data buffer, as long as the frames there fit it |
| RxV3.PhaseStep | libnfb/include/netcope/ndp_rx.h:264-268 | moving on by one changes the phase exactly when the index wraps to zero |
| RxV3.RxQueue.constructor | libnfb/include/netcope/ndp.h:145-245 | an opened queue satisfies the invariant |
| RxV3.RxQueue.Scan | libnfb/include/netcope/ndp_rx.h:260-272 | in any state stops at the first header unlike the flag within a lap; ends at the hardware position if and only if it starts there or in the lap its flag describes, and otherwise stays put |
| RxV3.RxQueue.Hardware | libnfb/include/netcope/ndp_rx.h:260-270 | headers appended with the phase of their lap within the space reported free keep the ring well formed |
| RxV3.RxQueue.Account | libnfb/include/netcope/ndp_rx.h:239-258 | the data pointer given back is exactly the blocks of all released packets, reported exactly once 32 packets have gathered |
| RxV3.RxQueue.CountBlocks | libnfb/include/netcope/ndp_rx.h:244-247 | adds up the blocks of exactly the packets being released |
| RxV3.RxQueue.Sync | libnfb/include/netcope/ndp_rx.h:233-273 | accounts for what was released and moves the known hardware position to where the scan ends |
| RxV3.RxQueue.Lock | libnfb/include/netcope/ndp_rx.h:275-291 | packets available are those found and not handed out; all that were written, when the flag fits |
| RxV3.RxQueue.BurstPut | libnfb/include/netcope/ndp_rx.h:293-312 | releases exactly what was handed out, reported once 32 packets have gathered; the flag flips exactly when the release pointer enters the next lap |
| RxV3.RxQueue.BurstGet | libnfb/include/netcope/ndp_rx.h:314-373 | the packets counted are filled in, and are the next of the stream, if and only if the release pointer is not behind a wrap of the read pointer; each lies at 128 times the frame pointer of its header, data behind the metadata, lengths and flags as the header says; available packets are counted without looking |
| RxV3.RxQueue.Run | libnfb/include/netcope/ndp_rx.h:314-378 | over any run of gets each followed by a put, the bursts together are the hardware stream, once each, in order, each packet where its header says |
| RxV3.GetGetAcrossWrap | libnfb/include/netcope/ndp_rx.h:307-310 | on a queue built at a wrap, the second of two gets without a put counts one packet and fills in none |
| RxV3.RxQueue.Restart | libnfb/include/netcope/ndp.h:388-405 | after stop and start every later get and put is right if and only if what is left is what a fresh queue has |
| RxV3.RxQueue.ScanAfterRestart | libnfb/include/netcope/ndp_rx.h:260-272 | started again in an odd lap, the first scan finds packets up to the end of the ring though none was written |
| TxV3.TxQueue.constructor | libnfb/include/netcope/ndp.h:408-417 | a started queue has the whole capacity less one block as credit |
| TxV3Layout.SpaceSumIs | libnfb/include/netcope/ndp_tx.h:303-308 | the rounded lengths of headers in the ring are the stretch their frames take in the stream |
| TxV3.TxQueue.Spaces | libnfb/include/netcope/ndp_tx.h:303-308 | charging subtracts the rounded lengths of the headers it walks over, in 32-bit arithmetic |
| TxV3.TxQueue.ChargedSum | libnfb/include/netcope/ndp_tx.h:303-308 | for headers written and not charged that cannot underflow |
| TxV3.TxQueue.Charge | libnfb/include/netcope/ndp_tx.h:293-319 | entered at the last header written, everything written is charged and the credit equation holds |
| TxV3.TxQueue.Refresh | libnfb/include/netcope/ndp_tx.h:322-339 | credit returned is exactly what hardware reported since the last look; without need nothing is looked at; in any state, by how much the credit grows and which header position is known |
| TxV3.TxQueue.Sync | libnfb/include/netcope/ndp_tx.h:285-355 | keeps the books when entered at the last header written; entered anywhere, it grants what was asked for or all headers free, and the credit changes by exactly what was charged and what hardware returned |
| TxV3.TxQueue.LockCharges | libnfb/include/netcope/ndp_tx.h:358-370 | a lock taken with frames in flight charges all other headers of the ring |
| TxV3.TxQueue.Lock | libnfb/include/netcope/ndp_tx.h:358-384 | the books survive a lock if and only if nothing is in flight, and then the whole ring is granted; otherwise the credit is short by the rounded lengths of the headers not in flight, modulo 2^32; the header cursor goes back to the hardware position exactly if the last sync granted nothing |
| TxV3.TxQueue.RequestSpace | libnfb/include/netcope/ndp_tx.h:386-397 | afterwards the bytes that may be written are the capacity less a block less the bytes not reported read; whether it looked follows from headers and credit |
| TxV3.TxQueue.WriteFrame | libnfb/include/netcope/ndp_tx.h:542-546 | the bytes of the slot and the header go to the device; covered by credit, they overwrite no byte and no header hardware still has to read |
| TxV3.TxQueue.AlwaysLooks | libnfb/include/netcope/ndp_tx.h:326-328 | a put waiting for a frame of at most 4096 bytes, or with at most 512 headers or 4128 bytes of memory, looks at the update buffer |
| TxV3.TxQueue.AwaitSpace | libnfb/include/netcope/ndp_tx.h:537-540 | ends with credit for the frame only if the frame is no longer than the memory less a block, and without only after as many syncs as polls were given; two polls suffice with prompt hardware if it looks; a stuck queue never gets credit |
| TxV3.TxQueue.SendAll | libnfb/include/netcope/ndp_tx.h:533-550 | in any state, what is sent is a prefix of the reserved frames in order, with the bytes their slots hold and the lengths their headers say, and all of them when it ends; it breaks off only after syncing as often as it may; with right books each is written with credit |
| TxV3.TxQueue.BurstPut | libnfb/include/netcope/ndp_tx.h:524-555 | in any state, when it ends the reserved slots have been sent in order; with right books the invariant holds, every frame fits the device, and it ends with prompt hardware if they fit and the put looks; at every stop all unread bytes and headers are intact |
| TxV3.TxQueue.Flush | libnfb/include/netcope/ndp_tx.h:490-521 | settles the books, reduces the lazily advanced cursors and is granted 64 headers or all that are free |
| TxV3.TxQueue.BurstFlush | libnfb/include/netcope/ndp_tx.h:481-521 | in any state, a flush with reserved frames is a put, otherwise it ends and settles the books, syncing unless nothing was sent since; either way what was reserved is sent |
| TxV3.TxQueue.Prepare | libnfb/include/netcope/ndp_tx.h:433-468 | succeeds exactly if every packet can be sent; in any state the headers state the enlarged lengths and the slots follow one another rounded to blocks; reserved headers are untouched; without metadata and with room all padding is zero |
| TxV3Layout.PaddingClearedIff | libnfb/include/netcope/ndp_tx.h:446-449 | the padding of a short frame is zero afterwards if and only if the stretch of one metadata length that the clearing leaves out was zero |
| TxV3Layout.SendableIff | libnfb/include/netcope/ndp_tx.h:440-453 | a packet can be sent exactly if its metadata fits 8 bits and its enlarged frame is not too long |
| TxV3.TxQueue.Claim | libnfb/include/netcope/ndp_tx.h:420-426 | headers at hand are enough without a sync; with nothing in flight they are enough exactly if the ring less one holds the burst; otherwise a refusal follows a sync of this call that charged up to the hardware position and left too few |
| TxV3.TxQueue.BurstGet | libnfb/include/netcope/ndp_tx.h:401-479 | in any state reserves the whole burst or nothing: all of it if every packet can be sent and the headers are at hand or nothing is in flight and the ring holds them; a refusal of up to 256 packets that can be sent comes after a sync in this call; slots and headers fit the requests and the places of their frames; the invariant survives if and only if no lock is taken with frames in flight, and otherwise the shortfall is stated |
| TxV3.TxQueue.Restart | libnfb/include/netcope/ndp.h:399-416 | after stop and start every later call is right if and only if the pointers were at zero and nothing was reserved |
| TxV3.TxQueue.LookAfterRestart | libnfb/include/netcope/ndp_tx.h:322-336 | with the hardware data pointer left over, the first look adds the rest of the memory to a full credit |
| TxV3States.LockUnderflows | libnfb/include/netcope/ndp_tx.h:303-308 | on a queue built with one frame in flight, a get leaves a credit of at least 2^32 - 96 bytes for 64 bytes of memory |
| TxV3States.AlwaysLooksInBlocks | libnfb/include/netcope/ndp_tx.h:326-328 | with hardware that reports whole blocks a put waiting for a fitting frame of at most 4128 bytes, or with at most 512 headers or 4160 bytes of memory, looks at the update buffer |
| TxV3States.NeverLooks | libnfb/include/netcope/ndp_tx.h:328 | for every other ring, memory and fitting frame, with prompt hardware that reports bytes or blocks, there is a valid queue whose put has to wait and will not look |
| TxV3States.PutNeverEnds | libnfb/include/netcope/ndp_tx.h:537-540 | there the put does not end for any number of polls, with prompt hardware |
| TxV3States.BurstChained | libnfb/include/netcope/ndp_tx.h:462-467 | the slots of a get follow one another at whole blocks |
| TxV3States.SlotsApartIff | libnfb/include/netcope/ndp_tx.h:462-467 | no two bytes of a burst share a cell of host memory if and only if the burst is no longer than it; then it also lies inside the double mapping |
| Tsu.ForgetsLast | tools/tsu/tsu.c:254-277 | with a constant tick count the controller's output does not depend on its last output |
| Tsu.StepIsDecay | tools/tsu/tsu.c:254-302 | one period takes a tenth of the offset away, cut off at half speed or at the register limit, for every offset |
| Tsu.ContractsIff | tools/tsu/tsu.c:254-277 | every nonzero offset keeps its side and strictly shrinks if and only if the true increment is below INC_MAX |
| Tsu.Unclamped | tools/tsu/tsu.c:260-264 | n periods without cut-off leave 0.9 to the n of the offset |
| Tsu.ReachesUnclamped | tools/tsu/tsu.c:265-274 | the cut-off periods come first and are finitely many |
| Tsu.RunIsDecay | tools/tsu/tsu.c:282-302 | any number of periods, each fed with the last increment, is that decay |
| Tsu.Converges | tools/tsu/tsu.c:254-302 | from every offset and first increment the clock, with exact increments, comes and stays within any distance of system time, on its side |
| Tsu.StepQuantised | tools/tsu/tsu.c:254-302 | one period at the increment the register holds: ahead as without rounding or slower; behind, the distance beyond ten units decays |
| Tsu.Settles | tools/tsu/tsu.c:254-302 | with the increment rounded down to 2^-64 in every period, from every offset the clock ends up no further ahead than any distance and no further behind than ten units per tick and any distance, if full speed is faster than the true rate |
| Tsu.NeverCatchesUp | tools/tsu/tsu.c:271-274 | otherwise a clock never gets nearer from behind |
| Tsu.IncrementPositive | tools/tsu/tsu.c:266-274 | every computed increment is positive and at most INC_MAX |
| Tsu.Frac64IsFloor | tools/tsu/tsu.c:77-87 | the two 32-bit halves are the fraction times 2^64 rounded down |
| Tsu.CapIsNearTop | tools/tsu/tsu.c:42 | the largest increment is below the top of the 39-bit register by less than one part in 150000 |
| Tsu.IncrementFits | tools/tsu/tsu.c:271-274 | every computed increment fits the 39-bit register |
| Tsu.Registers.SetInc | libnfb/include/netcope/tsu.h:174-181 | the register holds the value modulo 2^39, hence the value itself exactly if it fits |
| Tsu.Registers.GetInc | libnfb/include/netcope/tsu.h:160-172 | reads back the register |
| Tsu.Registers.Adjust | tools/tsu/tsu.c:297-302 | an adjustment stores the computed increment times 2^64 rounded down, losing nothing more |
| Stats.StepDrift | tools/ndptool/stats.c:244-260 | every step keeps totals, reports, published, hidden and unpublished counts together equal to what was seen, except for the harm of answering a signal |
| Stats.RunDrift | tools/ndptool/stats.c:61-176 | so does every interleaving, with the harm of all its signals, and what the workers have seen grows by exactly what the steps of the run deliver |
| Stats.RunSees | tools/ndptool/stats.c:203-212 | over any run the workers see the packets and bytes of its bursts, added up from the steps alone |
| Stats.HarmAddsUp | tools/ndptool/stats.c:66-83 | signals err on one side only, so errors never cancel; with the periodic aggregator or private copies there are none |
| Stats.GatherAdds | tools/ndptool/main.c:399-405 | the final gather adds what all workers have published and clears it exactly in the mode that is not incremental |
| Stats.TotalAfterRun | tools/ndptool/main.c:397-405 | reports and final total are what arrived, corrected by the harm of signals and by what private copies kept back, for packets and bytes, every number of workers and every interleaving |
| Stats.TotalIsWhatArrivedIff | tools/ndptool/main.c:397-405 | they are exactly what arrived if and only if no worker with a non-zero count ran on a private copy and no signal did harm |
| Stats.UpdateRuns | tools/ndptool/stats.c:244-261 | the steps of one update form a run that leaves the worker counting, and after an empty burst with nothing unpublished |
| Stats.Counters.UpdateStatsThread | tools/ndptool/stats.c:203-261 | one call is the run of counting packet by packet and, when due, publishing and moving the marks: it adds the number of packets and the sum of their lengths, and publishes exactly after more than 100000 packets or for an empty burst |
| Stats.Counters.CollectOne | tools/ndptool/stats.c:128-141 | one thread's turn of the aggregator is the collecting step: unless incremental, what was published goes to the total and is cleared |
| Stats.Counters.OnSignal | tools/ndptool/stats.c:66-83 | answering a signal is the run of gathering from and clearing every worker and then reporting; the report is the total and all that was published |
| Stats.Counters.GatherJoined | tools/ndptool/stats.c:35-44 | the loop over joined threads is the final gather |
| Stats.OwnCaptureIsNotCounted | tools/ndptool/transmit.c:81-91 | a run with one packet and a capture per thread whose totals are zero |
| Stats.SignalLosesPacket | tools/ndptool/stats.c:68-83 | a run with one packet that is in no report and not in the final total |
| Stats.SignalUnderflows | tools/ndptool/stats.c:251-253 | a run whose packet is reported and whose final total then shows 2^64 - 1 |
| Pcap.File.Read | tools/ndptool/transmit.c:337 | one item is read in full or the file is at its end; an empty item never counts as read |
| Pcap.NextRecord | tools/ndptool/transmit.c:337-341 | at a record of a well-formed capture the header states the frame's length and the frame and other records follow |
| Pcap.CreateCache | tools/ndptool/transmit.c:402-471 | succeeds exactly on well-formed captures and then holds their frames; there is always room for the next one, and no more than twice what is needed beyond the first 1024 |
| Pcap.Source.constructor | tools/ndptool/transmit.c:290-307 | a source opens unless it is cached and the capture malformed, and then stands at the first frame |
| Pcap.Source.CachedMeta | tools/ndptool/transmit.c:317-335 | the lengths of the next frames of the loop, starting the next loop while there is one |
| Pcap.Source.StreamedMeta | tools/ndptool/transmit.c:336-366 | the length of the next frame, rewinding at the end while loops remain |
| Pcap.Source.FillMeta | tools/ndptool/transmit.c:309-367 | nothing exactly when the burst is empty, the capture is empty or all loops are done |
| Pcap.Source.FillData | tools/ndptool/transmit.c:369-393 | the frames whose lengths were announced |
| Pcap.EndIsUnique | tools/ndptool/transmit.c:172-201 | a plan has at most one end |
| Pcap.NextBoundary | tools/ndptool/transmit.c:172-201 | from a place where the replay looks, one step leads to the next such place |
| Pcap.CacheEndsToo | tools/ndptool/transmit.c:192-201 | where streaming ends the cache ends too if and only if it looks there |
| Pcap.StreamedEnd | tools/ndptool/transmit.c:172-201 | without a byte limit streaming ends at the first short frame if it gets there, otherwise with loops or limit |
| Pcap.ReplayLength | tools/ndptool/transmit.c:172-201 | without byte limit and short frames in reach either kind sends the capture as often as asked, cut at the limit |
| Pcap.Transmitter.Choose | tools/ndptool/transmit.c:172-201 | finishes exactly if there is a reason to stop, limits, loops, byte limit and short frames considered, and otherwise announces the next step |
| Pcap.Transmitter.Run | tools/ndptool/transmit.c:148-219 | what is sent walks round the capture and holds no short frame; unless stopped it ends at the first place where the replay looks and finds a reason, cached or streamed; with a prompt queue and enough polls it gets there |
| Pcap.BytesAtEnd | tools/ndptool/transmit.c:172-201 | a replay ended by the byte limit alone has sent more bytes than the limit, and without its last packet, or from the cache its last burst, no more |
| Pcap.CacheAgreesIff | tools/ndptool/transmit.c:192-201 | two finished replays of one capture, one cached and one streamed, have sent the same packets if and only if streaming the plan ends where the cache looks; without a byte limit, if and only if no short frame is in reach or the first starts a burst |
| Pcap.CacheDropsBurst | tools/ndptool/transmit.c:192-201 | a plan for which they differ |
| BusCopy.Transfer.Move | libnfb/include/netcope/mi.h:17-27 | one access moves the next bytes and nothing else, and stops when it was the last |
| BusCopy.Transfer.Cycle | libnfb/include/netcope/mi.h:29-53 | accesses of one width while enough bytes remain, keeping alignment |
| BusCopy.Transfer.Simple | libnfb/include/netcope/mi.h:56-79 | handles exactly 4 and 8 bytes; aligned exactly if the offset is |
| BusCopy.Transfer.Prelude | libnfb/include/netcope/mi.h:81-104 | at most three aligned accesses bring the offset to a multiple of eight unless the bytes run out |
| BusCopy.Transfer.Interlude | libnfb/include/netcope/mi.h:107-141 | vector accesses leave fewer than 16 bytes and are at most one more than n/32; strict instructions only on aligned addresses; from a settled offset all start at multiples of eight |
| BusCopy.Transfer.Postlude | libnfb/include/netcope/mi.h:144-165 | finishes with at most n/8 + 3 accesses, aligned if the prelude settled |
| BusCopy.CopyNoopt | libnfb/include/netcope/mi.h:185-197 | a plain byte copy that touches nothing else, each byte once, at most n/8 + 6 accesses, all aligned unless the shortcut applies at an unaligned offset |
| BusCopy.CopyAvx2 | libnfb/include/netcope/mi.h:167-183 | the same plain byte copy, with no access that faults on an unaligned address, at most n/32 + 8 accesses, and all settled to their width or eight bytes unless the shortcut applies |
| TestPacket.Init | tools/ndptool/structured_packet.h:66-85 | shifts and ORs build the block from hash, burst and packet identifier; the time is stored in network order |
| TestPacket.SizeHashIs | tools/ndptool/structured_packet.h:16 | the hash is the sum of the two bytes of the size without the carry |
| TestPacket.Swap64Twice | tools/ndptool/structured_packet.h:74 | converting the time twice gives it back |
| TestPacket.Swap64Reverses | tools/ndptool/structured_packet.h:74 | network order is the eight bytes the other way round |
| TestPacket.Reconstruct | tools/ndptool/structured_packet.h:88-104 | the fields a receiver takes out of a block |
| TestPacket.RebuiltBuilt | tools/ndptool/structured_packet.h:66-104 | reconstruction from block and time as sent undoes initialisation, and the time can be recovered |
| TestPacket.BuiltRebuilt | tools/ndptool/structured_packet.h:88-104 | a block whose hash fits the size is that of a packet with the reconstructed fields |
| TestPacket.Generate | tools/ndptool/structured_packet.h:108-113 | the buffer repeats the block over the packet, the timestamp aside |
| TestPacket.TailCompare | tools/ndptool/structured_packet.h:152-156 | comparing after shifting compares exactly the bytes of the unaligned tail |
| TestPacket.Check | tools/ndptool/structured_packet.h:118-160 | returns 0 exactly if the hash fits the size and every byte looked at, tail included, is that of the block |
| TestPacket.ChecksPacketIff | tools/ndptool/structured_packet.h:134-140 | the check stays within the packet if and only if there is no timestamp, the packet holds it or has no unaligned tail |
| TestPacket.AcceptedIffGenerated | tools/ndptool/loopback_hw.c:228-264 | a received packet of at least 12 bytes is accepted if and only if its bytes are those generated for its size with some identifiers |
| QueueMap.PlaceIff | libnfb/include/netcope/info.h:345-346 | interfaces get runs of consecutive queues |
| QueueMap.PlaceInRange | libnfb/include/netcope/info.h:345-347 | every queue has an existing interface |
| QueueMap.PlaceMonotone | libnfb/include/netcope/info.h:345 | later queues never go to earlier interfaces |
| QueueMap.ShareBalanced | libnfb/include/netcope/info.h:340-349 | every interface gets the quotient of queues and interfaces rounded down or up |
| QueueMap.SharesSumToAll | libnfb/include/netcope/info.h:340-349 | all queues are handed out |
| QueueMap.SameEndpointIff | libnfb/include/netcope/info.h:323-343 | queues sit at their interface's endpoint for every queue count if and only if endpoints divide interfaces evenly |
| QueueMap.Distribute | libnfb/include/netcope/info.h:340-358 | the loop counts exactly each interface's share |
| QueueMap.IfcMap.CreateOrdinary | libnfb/include/netcope/info.h:301-358 | one interface at least; ids, endpoints, shares and queue maps as specified |
| Rbf.FramedUnframes | libnfb/src/boot/boot.c:194-210 | following the block headers of a framed image recovers the file |
| Rbf.WriteBlock | libnfb/src/boot/boot.c:199-209 | one more block behind whole blocks keeps the framing |
| Rbf.WriteHeader | libnfb/src/boot/boot.c:183-189 | start and end address in words and the flags are where they belong, 0xFF elsewhere |
| Rbf.OpenRbf | libnfb/src/boot/boot.c:150-215 | fails exactly on a short read; otherwise the image stays inside the allocation, which ends at the next multiple of 4096, start, end, flags and first block header have the values of the format, every block header is at an even address, and the file comes back |
| DmaPump.StepPumps | ext/libnfb_ext_grpc/client_dma_vas.cc:35-82 | every step keeps a single owner of the response buffer, the buffer equal to the queue's head, and answers in order |
| DmaPump.RunPumps | ext/libnfb_ext_grpc/client_dma_vas.cc:35-82 | so does every interleaving |
| DmaPump.RunAsks | ext/libnfb_ext_grpc/client_dma_vas.cc:35-82 | over any run the requests taken and the responses sent are those of its steps |
| DmaPump.PumpIsSequential | ext/libnfb_ext_grpc/client_dma_vas.cc:35-82 | responses go out once for every write that succeeds, in the order requests arrive, as a sequential execution would answer; never two writes at once; one is under way exactly when the queue is not empty if and only if none failed |
| DmaPump.AnswerIs | ext/libnfb_ext_grpc/client_dma_vas.cc:53-82 | a read answers byte for byte what the writes before it put last at its addresses, a write nothing, both with status zero |
| DmaPump.FailureIsFinal | ext/libnfb_ext_grpc/client_dma_vas.cc:35-37 | after a failed write nothing is ever sent again |
| DmaPump.DmaAccess.OnReadDone | ext/libnfb_ext_grpc/client_dma_vas.cc:53-82 | one call is the run of its two steps: access memory and push under the lock, start the first write |
| DmaPump.DmaAccess.OnWriteDone | ext/libnfb_ext_grpc/client_dma_vas.cc:35-50 | one call is the run of its steps: pop and pick the next response under the lock, and start its write if there is one |

## Left out

- ioctl, mmap, memory allocation, device tree and failing syncs: a sync always succeeds and sizes are given.
- TxV1.TxQueue.BurstGet: requests whose aligned frame does not fit 16 bits are excluded, because their headers state other lengths; `Frame.LengthsRoundTripIff` says exactly which.
- TxV1.TxQueue.BurstCopy: the same for payloads.
- RxV1.RxQueue.Hardware: hardware is taken to publish whole well-formed frames, so the two fatal exits of the parser are shown unreachable and what happens behind them is not modelled.
- BurstCopy.CopyQueue.constructor: entries of the offset ring are taken to have buffers of their own, large enough for the largest frame, as the driver allocates them.
- TxV3.TxQueue.constructor: the device memory is a multiple of the block size between 64 and 65536 bytes and frames are below 65536 bytes.
- Version 3 queues in kernel mode: the driver's credit computation is not modelled, only the userspace one.
- TxV3.TxQueue.BurstPut: the code polls for credit without bound; here a budget of polls, given by the caller, ends the wait. Everything is proved for every budget, and so are the frames and queues for which no budget is enough.
- TxV2.TxQueue.constructor: two shortest frames behind every offset are taken to be addressable, as the doubled mapping of packet memory makes them.
- TxV3.TxQueue.BurstGet: metadata and data lengths whose sum exceeds 32 bits.
- SendV3.Send: when the burst is longer than host memory nothing is said about the bytes sent. After a get that had to lock with frames in flight the books are followed to the shortfall of that get, and no further; the headers may then go to other cells of the device's ring.
- The receive data pointer v3.sdp: written by the get and read nowhere.
- Tsu.Settles: ideal reals within a period and no measurement noise; true increments below two register units, for which the rounded increment can be zero.
- Reading and subtracting times (tsx_diff and conversions): the differences are parameters.
- Pcap.Transmitter.Run: throughput control and statistics of the transmit loop, signals that clear the packet count a limit is compared with; the stop flag is a number of polls.
- Captures with empty or cut records when streamed: the cache refuses them, the streaming source is modelled for well-formed captures.
- BusCopy: memory fences, write combining and the bus beyond its byte contents.
- Stats: data races on single counters; each step is atomic, and printing rates is left out.
- DmaPump: the request buffer is reused while it is read in the code; here a request is a snapshot and read callbacks do not overlap.
- Rbf.OpenRbf: 32-bit overflow of the write index for files of two gigabytes.
- QueueMap: overflow of q * ifc in 32-bit arithmetic.
- Flash, I2C, MDIO, transceiver and ADC register sequences, the command line tools, the Python wrappers and the gRPC server: plumbing or short lookups that would only add easy members.
