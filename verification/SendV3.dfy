/** Sending copies of payloads over a version 3 queue: reserve, copy, put, and try again a
bounded number of times. */
module SendV3 {
  import opened Ring
  import opened Octets
  import opened TxV3Layout
  import opened TxV3

  const ATTEMPTS := 1000

  /** Requests for packets without metadata; the flags of the descriptors are never set. */
  function Lengths(payloads: seq<seq<Byte>>, flags: seq<nat>): (rs: seq<Request>)
    requires |flags| == |payloads|
    ensures |rs| == |payloads| && forall i :: 0 <= i < |rs| ==> rs[i] == Request(0, |payloads[i]|, flags[i])
  {
    seq(|payloads|, i requires 0 <= i < |payloads| => Request(0, |payloads[i]|, flags[i]))
  }

  lemma {:induction false} RoomIsStretch(frames: seq<nat>, pos: seq<nat>, from: nat, sizes: seq<nat>)
    requires Layout(frames, pos) && from + |sizes| <= |frames| && frames[from..from + |sizes|] == sizes
    ensures pos[from] + RoomFor(sizes) == pos[from + |sizes|]
    decreases |sizes|
  {
    hide Ceil;
    if sizes != [] {
      var k := |sizes| - 1;
      assert frames[from..from + k] == frames[from..from + |sizes|][..k];
      RoomIsStretch(frames, pos, from, sizes[..k]);
      assert frames[from + k] == frames[from..from + |sizes|][k];
      assert pos[(from + k) + 1] == pos[from + k] + Ceil(frames[from + k]);
    }
  }

  // ----- copying into host memory -----

  /** Memory shows `f` at address `at`. */
  ghost predicate Shows(m: seq<Byte>, at: int, f: seq<Byte>)
    requires |m| > 0
  {
    forall x :: at <= x < at + |f| ==> m[Mask(x, |m|)] == f[x - at]
  }

  /** The first `k` payloads stand in their slots, padded. */
  ghost predicate Copied(m: seq<Byte>, slots: seq<Slot>, payloads: seq<seq<Byte>>, frameMin: nat, k: nat)
    requires |m| > 0
  {
    k <= |slots| == |payloads| && forall j :: 0 <= j < k ==> Shows(m, slots[j].header, Enlarged(payloads[j], frameMin))
  }

  /** The slots fit host memory without overlapping. */
  ghost predicate Roomy(m: seq<Byte>, slots: seq<Slot>, reqs: seq<Request>, frameMin: nat, base: nat, end: nat)
    requires |m| > 0
  {
    Row(slots, reqs, frameMin, base, end) && end <= base + |m| && |slots| == |reqs|
  }

  /** Copying the next payload leaves the others and all padding alone. */
  lemma CopyStep(m: seq<Byte>, slots: seq<Slot>, payloads: seq<seq<Byte>>, flags: seq<nat>, frameMin: nat, base: nat, end: nat, k: nat)
    requires |flags| == |payloads| && |m| > 0 && Roomy(m, slots, Lengths(payloads, flags), frameMin, base, end)
    requires Copied(m, slots, payloads, frameMin, k) && k < |payloads| && Padded(m, slots, Lengths(payloads, flags), frameMin)
    ensures
      var m' := Store(m, slots[k].header, payloads[k]);
      Copied(m', slots, payloads, frameMin, k + 1) && Padded(m', slots, Lengths(payloads, flags), frameMin)
  {
    hide Mask, Enlarged, Store, Roomy, Shows, AllZero;
    var reqs, m' := Lengths(payloads, flags), Store(m, slots[k].header, payloads[k]);
    forall j | 0 <= j < |slots|
      ensures AllZero(m', slots[j].header + reqs[j].dataLen, slots[j].header + frameMin)
      ensures j <= k ==> Shows(m', slots[j].header, Enlarged(payloads[j], frameMin))
    {
      if j == k {
        FrameInside(m, slots, reqs, frameMin, base, end, k);
        OwnTail(m, slots[k].header, payloads[k], frameMin);
        OwnSlot(m, slots[k].header, payloads[k], frameMin);
      } else {
        OtherStays(m, slots, reqs, frameMin, base, end, k, payloads, j);
      }
    }
  }

  lemma FrameInside(m: seq<Byte>, slots: seq<Slot>, reqs: seq<Request>, frameMin: nat, base: nat, end: nat, k: nat)
    requires |m| > 0 && Roomy(m, slots, reqs, frameMin, base, end) && k < |slots|
    ensures FrameSize(reqs[k], frameMin) <= |m|
  {
    hide FrameSize;
  }

  /** What another slot shows, and its padding, stay. */
  lemma OtherStays(m: seq<Byte>, slots: seq<Slot>, reqs: seq<Request>, frameMin: nat, base: nat, end: nat, k: nat,
                   payloads: seq<seq<Byte>>, j: nat)
    requires |m| > 0 && Roomy(m, slots, reqs, frameMin, base, end) && k < |slots| && j < |slots| && j != k
    requires |payloads| == |slots| && reqs[j].headerLen == 0 == reqs[k].headerLen
    requires reqs[j].dataLen == |payloads[j]| && reqs[k].dataLen == |payloads[k]|
    requires AllZero(m, slots[j].header + reqs[j].dataLen, slots[j].header + frameMin)
    ensures
      var m' := Store(m, slots[k].header, payloads[k]);
      && AllZero(m', slots[j].header + reqs[j].dataLen, slots[j].header + frameMin)
      && (Shows(m, slots[j].header, Enlarged(payloads[j], frameMin)) ==> Shows(m', slots[j].header, Enlarged(payloads[j], frameMin)))
  {
    hide Mask, Enlarged, Store, Roomy;
    OtherSlot(m, slots, reqs, frameMin, base, end, k, payloads[k], j);
  }

  /** Every byte of another slot is spared. */
  lemma OtherSlot(m: seq<Byte>, slots: seq<Slot>, reqs: seq<Request>, frameMin: nat, base: nat, end: nat, k: nat, p: seq<Byte>, j: nat)
    requires |m| > 0 && Roomy(m, slots, reqs, frameMin, base, end) && k < |slots| && j < |slots| && j != k
    requires |p| <= FrameSize(reqs[k], frameMin)
    ensures forall x :: slots[j].header <= x < slots[j].header + FrameSize(reqs[j], frameMin) ==>
              Store(m, slots[k].header, p)[Mask(x, |m|)] == m[Mask(x, |m|)]
  {
    hide Mask, FrameSize;
    forall x | slots[j].header <= x < slots[j].header + FrameSize(reqs[j], frameMin)
      ensures Store(m, slots[k].header, p)[Mask(x, |m|)] == m[Mask(x, |m|)]
    {
      StoreElsewhere(m, slots[k].header, p, x);
    }
  }

  lemma OwnTail(m: seq<Byte>, at: nat, p: seq<Byte>, frameMin: nat)
    requires |m| > 0 && AllZero(m, at + |p|, at + frameMin) && |p| <= |m| && frameMin <= |m|
    ensures AllZero(Store(m, at, p), at + |p|, at + frameMin)
  {
    hide Mask;
    forall x | at + |p| <= x < at + frameMin ensures Store(m, at, p)[Mask(x, |m|)] == 0 { StoreCell(m, at, p, x); }
  }

  lemma OwnSlot(m: seq<Byte>, at: nat, p: seq<Byte>, frameMin: nat)
    requires |m| > 0 && AllZero(m, at + |p|, at + frameMin) && |p| <= |m| && frameMin <= |m|
    ensures Shows(Store(m, at, p), at, Enlarged(p, frameMin))
  {
    hide Mask;
    var f := Enlarged(p, frameMin);
    forall x | at <= x < at + |f| ensures Store(m, at, p)[Mask(x, |m|)] == f[x - at] { StoreCell(m, at, p, x); }
  }

  /** Copy all payloads into the slots just reserved. */
  method CopyAll(q: TxQueue, slots: seq<Slot>, payloads: seq<seq<Byte>>, flags: seq<nat>, ghost base: nat, ghost end: nat)
    requires q.Shape() && |flags| == |payloads| == |slots| && Row(slots, Lengths(payloads, flags), q.frameMin, base, end)
    modifies q.buffer
    ensures q.buffer.Length > 0
    ensures end <= base + q.buffer.Length && old(Padded(q.buffer[..], slots, Lengths(payloads, flags), q.frameMin)) ==>
              Copied(q.buffer[..], slots, payloads, q.frameMin, |payloads|)
  {
    hide TxQueue.Shape, Padded, Copied, Roomy, Row;
    q.ShapeIs();
    ghost var good := end <= base + q.buffer.Length && Padded(q.buffer[..], slots, Lengths(payloads, flags), q.frameMin);
    NoneCopied(q.buffer[..], slots, payloads, q.frameMin);
    if good { IsRoomy(q.buffer[..], slots, Lengths(payloads, flags), q.frameMin, base, end); }
    RowData(slots, Lengths(payloads, flags), q.frameMin, base, end);
    for i := 0 to |payloads|
      invariant good ==> Copied(q.buffer[..], slots, payloads, q.frameMin, i)
      invariant good ==> Padded(q.buffer[..], slots, Lengths(payloads, flags), q.frameMin)
      invariant good ==> Roomy(q.buffer[..], slots, Lengths(payloads, flags), q.frameMin, base, end)
    {
      if good { CopyStep(q.buffer[..], slots, payloads, flags, q.frameMin, base, end, i); }
      ghost var m := q.buffer[..];
      StoreInto(q.buffer, slots[i].data, payloads[i]);
      if good { StillRoomy(m, q.buffer[..], slots, Lengths(payloads, flags), q.frameMin, base, end); }
    }
  }

  lemma NoneCopied(m: seq<Byte>, slots: seq<Slot>, payloads: seq<seq<Byte>>, frameMin: nat)
    requires |m| > 0 && |slots| == |payloads|
    ensures Copied(m, slots, payloads, frameMin, 0)
  {
  }

  lemma IsRoomy(m: seq<Byte>, slots: seq<Slot>, reqs: seq<Request>, frameMin: nat, base: nat, end: nat)
    requires |m| > 0 && Row(slots, reqs, frameMin, base, end) && end <= base + |m| && |slots| == |reqs|
    ensures Roomy(m, slots, reqs, frameMin, base, end)
  {
  }

  lemma StillRoomy(m: seq<Byte>, m': seq<Byte>, slots: seq<Slot>, reqs: seq<Request>, frameMin: nat, base: nat, end: nat)
    requires |m| == |m'| > 0 && Roomy(m, slots, reqs, frameMin, base, end)
    ensures Roomy(m', slots, reqs, frameMin, base, end)
  {
  }

  lemma RowData(slots: seq<Slot>, reqs: seq<Request>, frameMin: nat, base: nat, end: nat)
    requires Row(slots, reqs, frameMin, base, end) && |slots| == |reqs|
    ensures forall j :: 0 <= j < |slots| ==> slots[j].data == slots[j].header + reqs[j].headerLen
  {
  }

  /** What lies in the slots is what was copied. */
  lemma ContentsCopied(m: seq<Byte>, slots: seq<Slot>, payloads: seq<seq<Byte>>, flags: seq<nat>, frameMin: nat)
    requires |m| > 0 && |flags| == |payloads| && Copied(m, slots, payloads, frameMin, |payloads|)
    ensures Contents(m, Starts(slots), SizesOf(Lengths(payloads, flags), frameMin)) == EnlargedAll(payloads, frameMin)
  {
    hide Mask, Enlarged;
    var sizes := SizesOf(Lengths(payloads, flags), frameMin);
    forall j | 0 <= j < |payloads| ensures Unroll(m, slots[j].header, sizes[j]) == Enlarged(payloads[j], frameMin) {
      assert Shows(m, slots[j].header, Enlarged(payloads[j], frameMin));
      forall i | 0 <= i < sizes[j] ensures Unroll(m, slots[j].header, sizes[j])[i] == Enlarged(payloads[j], frameMin)[i] {
        assert m[Mask(slots[j].header + i, |m|)] == Enlarged(payloads[j], frameMin)[(slots[j].header + i) - slots[j].header];
      }
    }
  }

  // ----- sending -----

  /** Reserve frames for all payloads and copy them, or do nothing: what a put will then send.
      Right books stay right unless the get has to lock with frames in flight; then the credit
      is short of what it should be by the rounded lengths of the headers that are not. */
  method Load(q: TxQueue, payloads: seq<seq<Byte>>, flags: seq<nat>) returns (count: nat)
    requires q.Shape() && |flags| == |payloads| > 0
    modifies q, q.hdrs, q.buffer
    ensures q.Shape() && q.hdrs.Length == q.n && q.buffer.Length > 0 && |q.txPkts| <= q.hdrCursor
    ensures (count == 0 || count == |payloads|) && q.log.bodies == old(q.log.bodies)
    ensures count == 0 ==> q.Pending() == old(q.Pending())
    ensures count > 0 ==> old(q.Pending()) == []
    ensures count > 0 && RoomFor(SizesOf(Lengths(payloads, flags), q.frameMin)) <= q.buffer.Length ==>
              q.Pending() == EnlargedAll(payloads, q.frameMin)
    ensures old(q.Valid()) ==> (q.Valid() <==> !old(q.Risky(|payloads|))) && (!q.Valid() ==> q.Robbed(old(q.Due())))
    ensures old(q.Granting(|payloads|)) && AllShort(payloads, q.frameMax) ==> count == |payloads|
    ensures count == 0 && old(q.pktsToSend) == 0 && |payloads| <= 256 && AllShort(payloads, q.frameMax) ==>
              q.syncs == old(q.syncs) + 1 && q.us.shp == old(q.sync.hwptr) && q.pktsAvailable == q.Room() < |payloads|
    ensures q.syncs >= old(q.syncs) && (|payloads| > 256 || !AllShort(payloads, q.frameMax) ==> count == 0)
  {
    hide AllShort, TxQueue.Granting, TxQueue.HeaderRoom, TxQueue.Valid, TxQueue.Shape, TxQueue.Due, TxQueue.Pending, TxQueue.Robbed, TxQueue.Safe, Padded, Copied, Row, Contents,
      Slotted, Labelled, RoomFor, Mask, Headerless, Sendable, EnlargedAll, Lens;
    q.ShapeIs();
    ghost var sizes, sdp0 := SizesOf(Lengths(payloads, flags), q.frameMin), q.sdp;
    if q.pktsToSend == 0 { q.NothingPending(); }
    Descriptors(payloads, flags, q.frameMin, q.frameMax);
    var slots;
    ghost var end;
    slots, count, end := q.BurstGet(Lengths(payloads, flags));
    q.ShapeIs();
    if count > 0 {
      CopyAll(q, slots, payloads, flags, sdp0, end);
      if RoomFor(sizes) <= q.buffer.Length { PendingIs(q, slots, payloads, flags); }
    }
  }

  /** One attempt: load, then put what is reserved. */
  method Attempt(q: TxQueue, payloads: seq<seq<Byte>>, flags: seq<nat>, budget: nat) returns (count: nat, done: bool)
    requires q.Shape() && |flags| == |payloads| > 0
    modifies q, q.hdrs, q.buffer, q.device, q.deviceHdrs
    ensures q.Shape() && q.hdrs.Length == q.n && q.buffer.Length > 0 && |q.txPkts| <= q.hdrCursor
    ensures (count == 0 || count == |payloads|) && (done ==> q.pktsToSend == 0 && q.Pending() == [])
    ensures done && count == 0 ==> q.log.bodies == old(q.log.bodies + q.Pending())
    ensures done && count > 0 && RoomFor(SizesOf(Lengths(payloads, flags), q.frameMin)) <= q.buffer.Length ==>
              q.log.bodies == old(q.log.bodies + q.Pending()) + EnlargedAll(payloads, q.frameMin)
    ensures old(q.Valid() && !q.Risky(|payloads|)) ==> q.Safe() && (done ==> q.Valid())
    ensures old(q.Granting(|payloads|)) && AllShort(payloads, q.frameMax) ==> count == |payloads|
    ensures count == 0 && old(q.pktsToSend) == 0 && |payloads| <= 256 && AllShort(payloads, q.frameMax) ==> q.syncs > old(q.syncs)
    ensures q.syncs >= old(q.syncs) + (if done then 0 else budget) && (|payloads| > 256 || !AllShort(payloads, q.frameMax) ==> count == 0)
  {
    hide AllShort, TxQueue.Granting, TxQueue.HeaderRoom, TxQueue.Valid, TxQueue.Shape, TxQueue.Due, TxQueue.Pending, TxQueue.Robbed, TxQueue.Safe, RoomFor, Mask, EnlargedAll;
    q.ShapeIs();
    count := Load(q, payloads, flags);
    done := q.BurstPut(budget);
    q.ShapeIs();
  }

  /** Send copies of `payloads`: all of them, or none.  Whatever state the queue was in, a call that
      ends has sent the device what was reserved before and then the payloads in order, padded,
      provided the burst fits host memory.  Right books are still right unless some get had to
      lock with frames in flight, which `risky` tells. */
  method Send(q: TxQueue, payloads: seq<seq<Byte>>, flags: seq<nat>, budget: nat)
    returns (packetsSent: nat, done: bool, ghost risky: bool)
    requires q.Shape() && |flags| == |payloads|
    modifies q, q.hdrs, q.buffer, q.device, q.deviceHdrs
    ensures q.Shape() && q.hdrs.Length == q.n && q.buffer.Length > 0 && |q.txPkts| <= q.hdrCursor
    ensures packetsSent == 0 || packetsSent == |payloads|
    ensures done && packetsSent == 0 ==> q.log.bodies + q.Pending() == old(q.log.bodies + q.Pending())
    ensures done && packetsSent > 0 && RoomFor(SizesOf(Lengths(payloads, flags), q.frameMin)) <= q.buffer.Length ==>
              q.log.bodies == old(q.log.bodies + q.Pending()) + EnlargedAll(payloads, q.frameMin)
    ensures payloads != [] && old(q.Risky(|payloads|)) ==> risky
    ensures done && payloads != [] ==> q.pktsToSend == 0
    ensures old(q.Valid()) && !risky ==> q.Safe() && (done ==> q.Valid())
    ensures old(q.Granting(|payloads|)) && AllShort(payloads, q.frameMax) && done ==> packetsSent == |payloads| && !risky
    ensures done && packetsSent == 0 && 0 < |payloads| <= 256 && AllShort(payloads, q.frameMax) ==>
              q.syncs >= old(q.syncs) + if old(q.pktsToSend) == 0 then 1000 else 999
    ensures (!done ==> q.syncs >= old(q.syncs) + budget) && (|payloads| > 256 || !AllShort(payloads, q.frameMax) ==> packetsSent == 0)
  {
    hide AllShort, TxQueue.Granting, TxQueue.Valid, TxQueue.Shape, TxQueue.Pending, TxQueue.Safe, EnlargedAll, RoomFor;
    packetsSent, done, risky := 0, true, false;
    var attempts := 0;
    q.ShapeIs();
    ghost var good, start := q.Valid(), q.log.bodies + q.Pending();
    ghost var short, granting := AllShort(payloads, q.frameMax), q.Granting(|payloads|);
    GrantingIsCalm(q, |payloads|);
    if good { ValidIsSafe(q); }
    while packetsSent < |payloads| && attempts < ATTEMPTS
      invariant q.Shape() && q.hdrs.Length == q.n && q.buffer.Length > 0 && |q.txPkts| <= q.hdrCursor
      invariant attempts <= ATTEMPTS && (packetsSent == 0 || packetsSent == |payloads|)
      invariant attempts == 0 ==> packetsSent == 0 && !risky && unchanged(q) && unchanged(q.hdrs) && unchanged(q.buffer) && unchanged(q.device) && unchanged(q.deviceHdrs)
      invariant attempts > 0 ==> (old(q.Risky(|payloads|)) ==> risky) && q.pktsToSend == 0 && q.Pending() == []
      invariant good && !risky ==> q.Valid() && q.Safe()
      invariant packetsSent == 0 ==> q.log.bodies + q.Pending() == start
      invariant packetsSent > 0 && RoomFor(SizesOf(Lengths(payloads, flags), q.frameMin)) <= q.buffer.Length ==>
                  q.log.bodies == start + EnlargedAll(payloads, q.frameMin)
      invariant attempts > 0 && granting && short ==> packetsSent == |payloads| && !risky
      invariant packetsSent == 0 && |payloads| <= 256 && short ==>
                  q.syncs >= old(q.syncs) + if old(q.pktsToSend) == 0 || attempts == 0 then attempts else attempts - 1
      invariant q.syncs >= old(q.syncs) && (|payloads| > 256 || !short ==> packetsSent == 0)
    {
      risky := risky || q.Risky(|payloads|);
      var count;
      count, done := Attempt(q, payloads, flags, budget);
      if !done {
        return;
      }
      packetsSent := packetsSent + count;
      attempts := attempts + 1;
    }
  }

  lemma ValidIsSafe(q: TxQueue)
    requires q.Valid()
    ensures q.Safe()
  {
  }

  lemma Descriptors(payloads: seq<seq<Byte>>, flags: seq<nat>, frameMin: nat, frameMax: nat)
    requires |flags| == |payloads| && frameMin <= frameMax
    ensures Headerless(Lengths(payloads, flags))
    ensures AllShort(payloads, frameMax) <==> forall r :: r in Lengths(payloads, flags) ==> Sendable(r, frameMin, frameMax)
  {
    if forall r :: r in Lengths(payloads, flags) ==> Sendable(r, frameMin, frameMax) {
      forall i | 0 <= i < |payloads| ensures |payloads[i]| <= frameMax {
        assert Lengths(payloads, flags)[i] in Lengths(payloads, flags);
      }
    }
  }

  /** A get that cannot be refused headers does not lock with frames in flight. */
  lemma GrantingIsCalm(q: TxQueue, count: nat)
    ensures q.Granting(count) ==> !q.Risky(count)
  {
  }

  /** No payload is longer than the longest frame. */
  predicate AllShort(payloads: seq<seq<Byte>>, frameMax: nat) {
    forall i :: 0 <= i < |payloads| ==> |payloads[i]| <= frameMax
  }

  /** What the put will send is what was copied. */
  lemma PendingIs(q: TxQueue, slots: seq<Slot>, payloads: seq<seq<Byte>>, flags: seq<nat>)
    requires q.hdrs.Length == q.n && q.buffer.Length > 0 && |flags| == |payloads| == |slots| <= q.hdrCursor && q.txPkts == Starts(slots)
    requires Lens(q.hdrs[..], q.hdrCursor - |slots|, |slots|) == SizesOf(Lengths(payloads, flags), q.frameMin)
    requires Copied(q.buffer[..], slots, payloads, q.frameMin, |payloads|)
    ensures q.Pending() == EnlargedAll(payloads, q.frameMin)
  {
    hide Copied, Contents, Lens;
    ContentsCopied(q.buffer[..], slots, payloads, flags, q.frameMin);
  }
}
