/** States of a version 3 transmit queue in which something goes wrong, built; and where the
slots of a burst lie in host memory. */
module TxV3States {
  import opened Ring
  import opened Octets
  import opened TxV3Layout
  import opened TxV3

  // ----- a lock taken while a frame is in flight -----

  lemma ZerosKept(m: seq<Byte>, frames: seq<nat>, pos: seq<nat>, bodies: seq<seq<Byte>>, hw: int)
    requires |m| > 0 && |bodies| <= |frames| && |bodies| <= |pos|
    requires forall x :: 0 <= x < |m| ==> m[x] == 0
    requires forall k :: 0 <= k < |bodies| ==> bodies[k] == Zeros(frames[k])
    ensures AllKept(m, frames, pos, bodies, hw)
  {
    hide Mask;
    forall k: nat | k < |bodies| ensures |bodies[k]| == frames[k] && Kept(m, pos[k], bodies[k], hw) {
      forall x | pos[k] <= x < pos[k] + |bodies[k]| && hw <= x ensures m[Mask(x, |m|)] == bodies[k][x - pos[k]] { }
    }
  }

  /** Set a queue with nothing left to reserve: hardware has read what software knows. */
  method Place(q: TxQueue, log: History, known: Known, us: Userspace, txPkts: seq<nat>, shp: nat, sdp: nat, deviceData: nat)
    modifies q
    ensures q.log == log && q.known == known && q.us == us && q.txPkts == txPkts && q.pktsToSend == |txPkts|
    ensures q.hdrCursor == q.shp == shp && q.sdp == sdp && q.pktsAvailable == 0 && q.bytesAvailable == us.free
    ensures q.sync == Pointers(us.hhp, us.hhp, us.free) && q.hw == Progress(known.data, known.hdr, known.data, known.hdr)
    ensures q.deviceData == deviceData && q.deviceHdr == log.written
  {
    q.log, q.known, q.us, q.txPkts, q.pktsToSend := log, known, us, txPkts, |txPkts|;
    q.hdrCursor, q.shp, q.sdp, q.pktsAvailable, q.bytesAvailable := shp, shp, sdp, 0, us.free;
    q.sync, q.hw := Pointers(us.hhp, us.hhp, us.free), Progress(known.data, known.hdr, known.data, known.hdr);
    q.deviceData, q.deviceHdr := deviceData, log.written;
  }

  /** Such a queue is valid if its numbers fit together. */
  lemma PlacedValid(q: TxQueue)
    requires q.Sized() && Layout(q.log.frames, q.log.pos) && q.HeadersFrom(q.log.written)
    requires q.log.written <= |q.log.frames| && q.Intact() && q.Cursors() && q.Announced()
    requires q.log.written == q.known.charged == q.deviceHdr && q.known.hdr == q.hw.updateHdr == q.hw.hdr <= q.log.written
    requires |q.log.frames| <= q.known.hdr + q.n - 1 && q.pktsAvailable == 0 && |q.txPkts| == q.pktsToSend
    requires q.known.data == q.hw.updateData == q.hw.data <= q.deviceData == q.log.pos[q.log.written]
    requires q.us.shp == Mask(q.log.written, q.n) && q.us.hhp == q.sync.hwptr == Mask(q.known.hdr, q.n)
    requires q.us.sdp == Mask(q.log.pos[q.log.written], q.cap) && q.us.hdp == Mask(q.known.data, q.cap)
    requires q.us.free == q.bytesAvailable && q.us.free + q.log.pos[q.log.written] == q.cap - BLOCK + q.known.data
    requires q.shp < 2 * q.n && q.us.free < WORD
    ensures q.Valid()
  {
    hide Mask, AllKept, InRing, Layout, Announces;
  }

  lemma Residues()
    ensures Mask(5, 4) == 1 && Mask(4, 4) == 0 && Mask(160, 64) == 32 && Mask(128, 64) == 0
    ensures Ceil(32) == 32 && Mask(0 - 1, 4) == 3
  {
    ModIs(5, 4, 1, 1);
    ModIs(4, 4, 1, 0);
    ModIs(160, 64, 2, 32);
    ModIs(128, 64, 2, 0);
    ModIs(0 - 1, 4, 0 - 1, 3);
  }

  /** Four headers and 64 bytes of device memory: five frames of 32 bytes have been sent and
      charged, hardware has read four of them. */
  method OneInFlight() returns (q: TxQueue)
    ensures fresh(q) && fresh(q.hdrs) && fresh(q.deviceHdrs) && fresh(q.buffer) && fresh(q.device) && q.Valid() && q.Risky(1)
    ensures q.cap == 64 && q.log.written == q.known.charged == 5 && q.log.pos == FiveStarts()
    ensures q.known.data == 128 && q.deviceData == 160 && q.hdrs.Length == 4 && q.Due() == 96
  {
    hide Mask, SpaceSum, TxQueue.Valid;
    q := new TxQueue(4, 64, 64, 0, 64, false);
    for i := 0 to 4
      invariant fresh(q.hdrs) && q.Sized() && q.hdrs.Length == 4
      invariant forall k :: 0 <= k < q.device.Length ==> q.device[k] == 0
      invariant forall k :: 0 <= k < i ==> q.hdrs[k].frameLen == 32
    {
      q.hdrs[i] := Header(32, 0, 0, 0);
    }
    q.deviceHdrs[0] := Header(32, 0, 0, 0);
    FiveSent(q);
    Residues();
    ThreeSpaces(q.hdrs[..], 1);
  }

  function FiveLengths(): seq<nat> { [32, 32, 32, 32, 32] }

  function FiveStarts(): seq<nat> { [0, 32, 64, 96, 128, 160] }

  function FiveBodies(): seq<seq<Byte>> { [Zeros(32), Zeros(32), Zeros(32), Zeros(32), Zeros(32)] }

  method FiveSent(q: TxQueue)
    requires q.Sized() && q.n == 4 && q.cap == 64 && q.deviceHdrs[0] == Header(32, 0, 0, 0)
    requires forall k :: 0 <= k < q.device.Length ==> q.device[k] == 0
    modifies q
    ensures q.Valid() && q.log.written == q.known.charged == 5 && q.log.pos == FiveStarts() && q.pktsToSend == q.pktsAvailable == 0
    ensures q.known.data == 128 && q.deviceData == 160 && q.us.shp == 1 && q.sync.hwptr == 0
  {
    hide Mask, TxQueue.Valid, TxQueue.Sized, FiveStarts;
    PlaceFive(q);
    FiveSentValid(q);
  }

  method PlaceFive(q: TxQueue)
    modifies q
    ensures FivePlaced(q)
  {
    hide FiveLengths, FiveStarts, FiveBodies;
    Place(q, History(FiveLengths(), FiveStarts(), FiveBodies(), 5), Known(5, 128, 4), Userspace(1, 0, 32, 0, 0), [], 1, 32, 160);
  }

  ghost predicate FivePlaced(q: TxQueue)
    reads q
  {
    && q.log.frames == FiveLengths() && q.log.pos == FiveStarts() && q.log.bodies == FiveBodies()
    && q.txPkts == [] && q.pktsToSend == q.pktsAvailable == 0 && q.hdrCursor == q.shp == 1 && q.sdp == 32
    && q.known.charged == q.log.written == q.deviceHdr == 5 && q.known.hdr == q.hw.updateHdr == q.hw.hdr == 4
    && q.known.data == q.hw.updateData == q.hw.data == 128 && q.deviceData == 160 && q.us.free == q.bytesAvailable == 0
    && q.us.shp == 1 && q.us.hhp == q.sync.hwptr == 0 && q.us.sdp == 32 && q.us.hdp == 0
  }

  lemma FiveSentValid(q: TxQueue)
    requires q.Sized() && q.n == 4 && q.cap == 64 && q.deviceHdrs[0] == Header(32, 0, 0, 0)
    requires forall k :: 0 <= k < q.device.Length ==> q.device[k] == 0
    requires FivePlaced(q)
    ensures q.Valid()
  {
    hide Mask, AllKept, TxQueue.Valid, TxQueue.Sized, Layout, InRing, Ceil;
    SizedIs(q);
    ZerosKept(q.device[..], q.log.frames, q.log.pos, q.log.bodies, 128);
    Residues();
    FiveFrames(q.log.frames, q.log.pos);
    NoneFrom(q.hdrs[..], q.log.frames, q.log.pos, 64);
    LastAnnounced(q.deviceHdrs[..]);
    PlacedValid(q);
  }

  lemma SizedIs(q: TxQueue)
    requires q.Sized()
    ensures q.hdrs.Length == q.deviceHdrs.Length == q.n && q.device.Length == q.cap
  {
  }

  lemma FiveFrames(frames: seq<nat>, pos: seq<nat>)
    requires frames == FiveLengths() && pos == FiveStarts()
    ensures Layout(frames, pos)
  {
    assert Ceil(32) == 32;
  }

  /** Only the fifth header is still to be read. */
  lemma LastAnnounced(h: seq<Header>)
    requires |h| == 4 && h[0].frameLen == 32 && h[0].framePtr == 0
    ensures Announces(h, 4, 5, FiveLengths(), FiveStarts(), 64)
  {
    hide Mask;
    Residues();
  }

  lemma NoneFrom(h: seq<Header>, frames: seq<nat>, pos: seq<nat>, cap: Pos)
    requires |h| > 0 && Layout(frames, pos)
    ensures InRing(h, |frames|, frames, pos, cap)
  {
  }

  lemma ThreeSpaces(h: seq<Header>, from: nat)
    requires |h| == 4 && forall k :: 0 <= k < 4 ==> h[k].frameLen == 32
    ensures SpaceSum(h, from, 3) == 96
  {
    hide Mask;
    assert SpaceSum(h, from, 1) == Ceil(32);
    assert SpaceSum(h, from, 2) == 64;
  }

  /** A get that has to lock the queue there charges the three other headers as well, and is
      left with a credit of almost 2^32 bytes for 64 bytes of memory. */
  method LockUnderflows() returns (q: TxQueue)
    ensures q.cap == 64 && q.bytesAvailable >= WORD - 96
  {
    hide Mask, TxQueue.Valid, TxQueue.Shape;
    q := OneInFlight();
    ValidIs(q);
    var slots, cnt;
    ghost var end;
    slots, cnt, end := q.BurstGet([Request(0, 32, 0)]);
    var d := q.known.data;
    InLap(WORD + (64 - BLOCK + d - 160 - 96), WORD);
    OneLap(64 - BLOCK + d - 160 - 96, WORD);
  }

  lemma ValidIs(q: TxQueue)
    requires q.Valid()
    ensures q.Shape()
  {
  }

  // ----- a put that never looks -----

  /** How the first frame is chosen: it leaves `back` bytes of the memory, hardware has read `read`
      bytes of it.  Hardware that reports single bytes allows for a credit of 4097, hardware that
      reports whole blocks for one of 4128. */
  function Back(blocks: bool): nat { if blocks then 4160 else 4128 }

  function ReadBytes(blocks: bool): nat { if blocks then 0 else 1 }

  /** Longer frames than this may wait in vain, in memories that hold them. */
  function Bound(blocks: bool): nat { Back(blocks) - BLOCK }

  function StuckLengths(cap: nat, len: nat, back: nat): seq<nat>
    requires cap >= back
  {
    [cap - back, len]
  }

  function StuckStarts(cap: nat, len: nat, back: nat): seq<nat>
    requires cap >= back
  {
    [0, cap - back, cap - back + Ceil(len)]
  }

  /** The first frame is sent and but for `read` bytes still to be read. */
  ghost predicate StuckPlaced(q: TxQueue, cap: nat, len: nat, back: nat, read: nat)
    requires cap >= back >= BLOCK && Ceil(len) >= back
    reads q
  {
    && q.log == History(StuckLengths(cap, len, back), StuckStarts(cap, len, back), [Zeros(cap - back)], 1)
    && q.known == Known(1, read, 1) && q.hw == Progress(read, 1, read, 1) && q.deviceHdr == 1 && q.deviceData == cap - back
    && q.us == Userspace(1, 1, cap - back, read, back - BLOCK + read) && q.sync.hwptr == 1 && q.bytesAvailable == q.us.free
    && q.txPkts == [0] && q.pktsToSend == 1 && q.pktsAvailable == 0 && q.hdrCursor == q.shp == 2 && q.sdp == Mask(Ceil(len) - back, cap)
  }

  method PlaceStuck(q: TxQueue, cap: Pos, len: nat, back: nat, read: nat)
    requires cap >= back >= BLOCK && Ceil(len) >= back
    modifies q
    ensures StuckPlaced(q, cap, len, back, read)
  {
    hide StuckLengths, StuckStarts, Mask, Ceil;
    Place(q, History(StuckLengths(cap, len, back), StuckStarts(cap, len, back), [Zeros(cap - back)], 1), Known(1, read, 1),
          Userspace(1, 1, cap - back, read, back - BLOCK + read), [0], 2, Mask(Ceil(len) - back, cap), cap - back);
  }

  lemma StuckLayout(cap: nat, len: nat, back: nat)
    requires cap >= back && cap % 32 == 0 && back % 32 == 0
    ensures Layout(StuckLengths(cap, len, back), StuckStarts(cap, len, back))
  {
    WholeBlocks(cap, back);
  }

  lemma WholeBlocks(cap: nat, back: nat)
    requires cap >= back && cap % 32 == 0 && back % 32 == 0
    ensures (cap - back) % 32 == 0 && Ceil(cap - back) == cap - back
  {
  }

  lemma StuckNumbers(n: Pos, cap: Pos, len: nat, back: nat, read: nat)
    requires n > 512 && BLOCK <= back < cap && cap % 32 == 0 && back % 32 == 0 && read <= 1
    requires Ceil(len) >= back && Ceil(len) <= cap - BLOCK
    ensures Mask(1, n) == 1 && Mask(read, cap) == read && Mask(cap - back, cap) == cap - back
    ensures Mask(cap - back + Ceil(len), cap) == Mask(Ceil(len) - back, cap) == Ceil(len) - back
    ensures (Ceil(len) - back) % 32 == 0
  {
    hide Mask;
    CeilIsBlocks(len);
    InLap(1, n);
    InLap(read, cap);
    InLap(cap - back, cap);
    InLap(Ceil(len) - back, cap);
    OneLap(Ceil(len) - back, cap);
  }

  lemma StuckRing(h: seq<Header>, cap: Pos, len: nat, back: nat)
    requires |h| > 512 && cap >= back && h[1].frameLen == len && h[1].framePtr == cap - back
    requires Mask(1, |h|) == 1 && Mask(cap - back, cap) == cap - back && Layout(StuckLengths(cap, len, back), StuckStarts(cap, len, back))
    ensures InRing(h, 1, StuckLengths(cap, len, back), StuckStarts(cap, len, back), cap)
  {
    hide Mask, Ceil;
  }

  lemma StuckValid(q: TxQueue, cap: Pos, len: nat, blocks: bool)
    requires q.Sized() && q.n > 512 && q.cap == cap > Back(blocks) && len > Bound(blocks) && Ceil(len) <= cap - BLOCK
    requires Ceil(len) >= Back(blocks) && q.hdrs[1].frameLen == len && q.hdrs[1].framePtr == cap - Back(blocks)
    requires StuckPlaced(q, cap, len, Back(blocks), ReadBytes(blocks)) && forall k :: 0 <= k < q.device.Length ==> q.device[k] == 0
    ensures q.Valid() && q.Stuck()
  {
    hide Mask, AllKept, TxQueue.Valid, Layout, InRing, Ceil;
    var back, read := Back(blocks), ReadBytes(blocks);
    StuckNumbers(q.n, cap, len, back, read);
    StuckLayout(cap, len, back);
    StuckRing(q.hdrs[..], cap, len, back);
    ZerosKept(q.device[..], q.log.frames, q.log.pos, q.log.bodies, read);
    PlacedValid(q);
    ValidIsSafe(q);
  }

  lemma ValidIsSafe(q: TxQueue)
    requires q.Valid()
    ensures q.Safe()
  {
  }

  lemma LongEnough(len: nat, blocks: bool)
    requires len > Bound(blocks)
    ensures Ceil(len) >= Back(blocks)
  {
    CeilIsBlocks(len);
  }

  /** For every ring of more than 512 headers, every frame longer than the bound and every device
      memory that holds it and is longer than the bound and a block, there is a queue whose put
      waits for that frame and never looks at the update buffer.  With hardware that reports
      single bytes the bound is 4096, with hardware that reports whole blocks it is 4128. */
  method NeverLooks(n: Pos, cap: Pos, len: nat, blocks: bool) returns (q: TxQueue)
    requires n > 512 && (if blocks then 4160 else 4128) < cap <= 0x1_0000 && cap % 32 == 0
    requires len > (if blocks then 4128 else 4096) && Ceil(len) <= cap - BLOCK
    ensures fresh(q) && fresh(q.hdrs) && fresh(q.deviceHdrs) && fresh(q.device) && fresh(q.buffer)
    ensures q.Valid() && q.Stuck() && q.n == n && q.cap == cap && q.log.written < |q.log.frames| && q.log.frames[q.log.written] == len
    ensures q.prompt && (blocks ==> q.known.data % BLOCK == 0)
  {
    hide Mask, TxQueue.Valid, TxQueue.Stuck, Ceil;
    LongEnough(len, blocks);
    q := new TxQueue(n, cap, cap, 0, 0xFFFF, true);
    q.hdrs[1] := Header(len, cap - Back(blocks), 0, 0);
    PlaceStuck(q, cap, len, Back(blocks), ReadBytes(blocks));
    StuckValid(q, cap, len, blocks);
  }

  /** There the put does not finish, however often it polls and although hardware is prompt. */
  method PutNeverEnds(n: Pos, cap: Pos, len: nat, blocks: bool, budget: nat) returns (done: bool)
    requires n > 512 && (if blocks then 4160 else 4128) < cap <= 0x1_0000 && cap % 32 == 0
    requires len > (if blocks then 4128 else 4096) && Ceil(len) <= cap - BLOCK
    ensures !done
  {
    hide TxQueue.Stuck, Ceil;
    var q := NeverLooks(n, cap, len, blocks);
    done := q.BurstPut(budget);
  }

  /** With hardware that reports whole blocks, a put waiting for a frame that fits the device looks at
      the update buffer whenever that frame is within the bound, or there are few headers or little
      memory. */
  lemma AlwaysLooksInBlocks(q: TxQueue, len: nat)
    requires q.Safe() && q.known.charged == q.log.written && q.us.free < Ceil(len) <= q.cap - BLOCK && q.known.data % BLOCK == 0
    requires len <= 4128 || q.n <= 512 || q.cap <= 4160
    ensures q.Short()
  {
    hide Mask, AllKept, InRing, Announces, Layout;
    StartsAreBlocks(q.log.frames, q.log.pos, q.log.written);
    CeilIsBlocks(len);
    assert q.us.free % 32 == 0;
    assert len <= 4128 ==> Ceil(len) <= 4128;
  }

  lemma {:induction false} StartsAreBlocks(frames: seq<nat>, pos: seq<nat>, i: nat)
    requires Layout(frames, pos) && i <= |frames|
    ensures i < |pos| && pos[i] % 32 == 0
    decreases i
  {
    hide Ceil;
    if i > 0 {
      StartsAreBlocks(frames, pos, i - 1);
      CeilIsBlocks(frames[i - 1]);
      assert pos[i - 1 + 1] == pos[i - 1] + Ceil(frames[i - 1]);
    }
  }

  // ----- the slots of a burst in host memory -----

  /** Positions `x` of some slot. */
  predicate InSlot(x: int, slots: seq<Slot>, sizes: seq<nat>)
    requires |sizes| == |slots|
  {
    exists j :: 0 <= j < |slots| && slots[j].header <= x < slots[j].header + sizes[j]
  }

  /** Slots follow one another at multiples of the block. */
  predicate Chained(slots: seq<Slot>, sizes: seq<nat>) {
    && |sizes| == |slots| > 0 && slots[0].header % 32 == 0
    && (forall j :: 0 <= j < |slots| ==> sizes[j] > 0)
    && forall j :: 0 <= j < |slots| - 1 ==> slots[j + 1].header == slots[j].header + Ceil(sizes[j])
  }

  /** Where the last slot ends. */
  function EndOf(slots: seq<Slot>, sizes: seq<nat>): int
    requires |sizes| == |slots| > 0
  {
    slots[|slots| - 1].header + sizes[|slots| - 1]
  }

  lemma {:induction false} ChainBefore(slots: seq<Slot>, sizes: seq<nat>, j: nat)
    requires Chained(slots, sizes) && j < |slots|
    ensures slots[j].header % 32 == 0 && slots[0].header <= slots[j].header
  {
    hide Ceil;
    if j > 0 {
      var k := j - 1;
      ChainBefore(slots, sizes, k);
      assert slots[k + 1].header == slots[k].header + Ceil(sizes[k]);
      CeilIsBlocks(sizes[k]);
    }
  }

  lemma {:induction false} ChainAfter(slots: seq<Slot>, sizes: seq<nat>, j: nat)
    requires Chained(slots, sizes) && j < |slots|
    ensures slots[j].header + sizes[j] <= EndOf(slots, sizes)
    decreases |slots| - j
  {
    hide Ceil;
    if j < |slots| - 1 {
      ChainAfter(slots, sizes, j + 1);
      assert slots[j + 1].header == slots[j].header + Ceil(sizes[j]);
    }
  }

  /** Every block from the first to the last belongs to a slot and begins inside it. */
  lemma {:induction false} BlockInSlot(slots: seq<Slot>, sizes: seq<nat>, t: int, j: nat)
    requires Chained(slots, sizes) && t % 32 == 0 && j < |slots| && slots[0].header <= t < slots[j].header + sizes[j]
    ensures InSlot(t, slots, sizes)
    decreases j
  {
    if t < slots[j].header {
      assert j > 0;
      var k := j - 1;
      ChainBefore(slots, sizes, k);
      assert slots[k + 1].header == slots[k].header + Ceil(sizes[k]);
      BlockBefore(t, slots[k].header, sizes[k]);
      BlockInSlot(slots, sizes, t, k);
    }
  }

  lemma BlockBefore(t: int, a: int, s: nat)
    requires t % 32 == 0 && a % 32 == 0 && t < a + Ceil(s) && s > 0
    ensures t < a + s
  {
    CeilIsBlocks(s);
  }

  /** No two bytes of a burst share a cell of a host buffer of whole blocks if and only if the burst,
      from the start of its first slot to the end of its last, is no longer than the buffer; then it
      also lies inside the double mapping if it starts inside the buffer. */
  lemma SlotsApartIff(slots: seq<Slot>, sizes: seq<nat>, bufSize: Pos)
    requires Chained(slots, sizes) && bufSize % 32 == 0
    ensures (forall x, y :: InSlot(x, slots, sizes) && InSlot(y, slots, sizes) && x != y ==> Mask(x, bufSize) != Mask(y, bufSize))
            <==> EndOf(slots, sizes) <= slots[0].header + bufSize
    ensures EndOf(slots, sizes) <= slots[0].header + bufSize && slots[0].header < bufSize ==> EndOf(slots, sizes) < 2 * bufSize
  {
    hide Mask, InSlot;
    var a := slots[0].header;
    if EndOf(slots, sizes) <= a + bufSize {
      forall x, y | InSlot(x, slots, sizes) && InSlot(y, slots, sizes) && x != y ensures Mask(x, bufSize) != Mask(y, bufSize) {
        SlotWithin(x, slots, sizes);
        SlotWithin(y, slots, sizes);
        CellsDiffer(x, y, bufSize);
      }
    } else {
      BlockInSlot(slots, sizes, a + bufSize, |slots| - 1);
      BlockInSlot(slots, sizes, a, 0);
      OneLap(a, bufSize);
      assert Mask(a, bufSize) == Mask(a + bufSize, bufSize);
    }
  }

  lemma SlotWithin(x: int, slots: seq<Slot>, sizes: seq<nat>)
    requires Chained(slots, sizes) && InSlot(x, slots, sizes)
    ensures slots[0].header <= x < EndOf(slots, sizes)
  {
    hide Ceil;
    var j :| 0 <= j < |slots| && slots[j].header <= x < slots[j].header + sizes[j];
    ChainBefore(slots, sizes, j);
    ChainAfter(slots, sizes, j);
  }

  /** The slots of a get are such a chain. */
  lemma BurstChained(slots: seq<Slot>, reqs: seq<Request>, frames: seq<nat>, pos: seq<nat>, from: nat, base: nat, frameMin: nat)
    requires Layout(frames, pos) && from + |slots| <= |frames| && |slots| == |reqs| > 0 && base % 32 == 0
    requires Slotted(slots, reqs, pos, from, base) && frames[from..from + |slots|] == SizesOf(reqs, frameMin)
    requires forall r :: r in reqs ==> FrameSize(r, frameMin) > 0
    ensures Chained(slots, SizesOf(reqs, frameMin)) && slots[0].header == base
  {
    hide Ceil, FrameSize;
    var sizes := SizesOf(reqs, frameMin);
    forall j | 0 <= j < |slots| ensures sizes[j] > 0 && frames[from + j] == sizes[j] {
      assert reqs[j] in reqs;
      assert frames[from..from + |slots|][j] == frames[from + j];
    }
    forall j | 0 <= j < |slots| - 1 ensures slots[j + 1].header == slots[j].header + Ceil(sizes[j]) {
      assert pos[(from + j) + 1] == pos[from + j] + Ceil(frames[from + j]);
    }
  }
}
