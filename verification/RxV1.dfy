/** The receive half of a version 1 queue: frames written by hardware are parsed in
place, handed out as pointers into the ring and released in bulk. */
module RxV1 {
  import opened Ring
  import opened Octets
  import opened Frame
  import opened Driver

  lemma FieldCongruent(m: seq<Byte>, d: int, a: int)
    requires |m| > 0 && Mask(d, |m|) == Mask(a, |m|)
    ensures Field(m, d) == Field(m, a) && Field(m, d + 2) == Field(m, a + 2)
  {
    hide Mask;
    ModAdd(d, 1, |m|);
    ModAdd(a, 1, |m|);
    ModAdd(d, 2, |m|);
    ModAdd(a, 2, |m|);
    ModAdd(d, 3, |m|);
    ModAdd(a, 3, |m|);
  }

  class RxQueue {
    const size: Pos
    const ring: array<Byte>
    var sync: Sync
    var data: nat
    var bytes: nat
    var total: nat
    var swptr: nat
    /** Unbounded positions of software release and hardware write. */
    var released: nat
    var written: nat
    /** Every packet hardware wrote, split by its state: given back, handed out, locked
        but not handed out, not seen yet. */
    ghost var done: seq<Packet>
    ghost var held: seq<Packet>
    ghost var ready: seq<Packet>
    ghost var coming: seq<Packet>
    /** The byte stream hardware wrote. */
    ghost var stream: seq<Byte>

    ghost predicate Valid()
      reads this, ring
    {
      Linked() && Cursor(data, bytes, swptr, held, ready)
    }

    ghost predicate Linked()
      reads this, ring
    {
      && ring.Length == size
      && released + Locked() <= written <= released + size - 1
      && sync.swptr == Mask(released, size)
      && Framed(ring[..], released + Locked(), written, coming)
      && Carries(stream, done + held + ready + coming)
      && (total == Locked() || (Locked() == 0 && total <= size / 2))
    }

    /** Bytes handed out or ready.  The lock's total is the same, unless the queue was
        started again over an old total, too small for a put to act on. */
    ghost function Locked(): nat
      reads this`swptr, this`bytes
    {
      swptr + bytes
    }

    /** A read cursor: `s` bytes hold the packets handed out, the next `b` bytes those
        ready, and `d` points between them whenever any are. */
    ghost predicate Cursor(d: nat, b: nat, s: nat, hs: seq<Packet>, rs: seq<Packet>)
      reads this, ring
    {
      && ring.Length > 0 && s + b == Locked()
      && (b > 0 ==> Mask(d, size) == Mask(released + s, size) && d + b < 2 * size)
      && Framed(ring[..], released, released + s, hs)
      && Framed(ring[..], released + s, released + Locked(), rs)
    }

    constructor (size: Pos, start: nat)
      ensures Valid() && done == held == ready == coming == [] && fresh(ring)
      ensures this.size == size && released == written == start && swptr == bytes == total == 0
    {
      this.size := size;
      ring := new Byte[size](_ => 0);
      sync := Sync(Mask(start, size), Mask(start, size));
      data, bytes, total, swptr := 0, 0, 0, 0;
      released, written := start, start;
      done, held, ready, coming, stream := [], [], [], [], [];
    }

    /** Hardware writes whole frames into released space; nothing still held, ready or
        unseen is disturbed. */
    method Arrive(chunk: seq<Byte>, ghost ps: seq<Packet>)
      requires Valid() && Carries(chunk, ps) && written + |chunk| <= released + size - 1
      modifies this`written, this`coming, this`stream, ring
      ensures Valid() && written == old(written) + |chunk| && coming == old(coming) + ps && old(stream) <= stream
    {
      hide Mask, Framed, Carries;
      ghost var m := ring[..];
      StoreInto(ring, written, chunk);
      Arrival(m, released, written, chunk, ps);
      KeepsFrames(m, released, written, chunk, released, released + swptr, held);
      KeepsFrames(m, released, written, chunk, released + swptr, released + Locked(), ready);
      KeepsFrames(m, released, written, chunk, released + Locked(), written, coming);
      FramedAppend(ring[..], released + Locked(), written, written + |chunk|, coming, ps);
      CarriesMore(stream, done + held + ready + coming, ring[..], written, |chunk|, ps);
      stream := stream + Unroll(ring[..], written, |chunk|);
      assert done + held + ready + coming + ps == done + held + ready + (coming + ps);
      coming := coming + ps;
      written := written + |chunk|;
    }

    /** Hardware may append frames as far as the released space allows. */
    method Hardware()
      requires Valid()
      modifies this`written, this`coming, this`stream, ring
      ensures Valid() && released <= written && old(coming) <= coming && old(stream) <= stream
    {
      var chunk: seq<Byte>, ps: seq<Packet> := *, *;
      if Carries(chunk, ps) && written + |chunk| <= released + size - 1 {
        Arrive(chunk, ps);
      }
    }

    /** What a lock computes from the pointers, in any state. */
    method Take()
      requires sync == Sync(Mask(written, size), Mask(released, size)) && released <= written <= released + size - 1
      modifies this`data, this`bytes, this`total
      ensures total == written - released && Mask(data, size) == Mask(released + swptr, size)
      ensures bytes == Mask(written - released - swptr, size) && data == Mask(released, size) + swptr
    {
      hide Mask;
      data := sync.swptr + swptr;
      bytes := Mask(sync.hwptr - sync.swptr - swptr, size);
      total := Mask(sync.hwptr - sync.swptr, size);
      MaskedDifference(written, released, swptr, size);
      MaskedDifference(written, released, 0, size);
      InLap(written - released, size);
      ModAdd(released, swptr, size);
    }

    /** Lock what hardware has written so far. */
    method Learn()
      requires Valid()
      modifies this`sync, this`data, this`bytes, this`total, this`ready, this`coming
      ensures Valid() && coming == [] && ready == old(ready + coming)
      ensures swptr + bytes == total == written - released
      ensures Mask(data, size) == Mask(released + swptr, size) && data + bytes < 2 * size
    {
      hide Mask, Framed, Carries;
      sync := Sync(Mask(written, size), sync.swptr);
      FramedAppend(ring[..], released + swptr, released + Locked(), written, ready, coming);
      assert done + held + ready + coming == done + held + (ready + coming) + [];
      ready := ready + coming;
      coming := [];
      Take();
      InLap(written - released - swptr, size);
      FramedEmpty(ring[..], written);
    }

    /** Learn how far hardware got. */
    method Lock()
      requires Valid()
      modifies this`sync, this`data, this`bytes, this`total, this`written, this`ready, this`coming, this`stream, ring
      ensures Valid() && coming == [] && old(ready + coming) <= ready && old(stream) <= stream
      ensures swptr + bytes == total == written - released
      ensures Mask(data, size) == Mask(released + swptr, size) && data + bytes < 2 * size
    {
      hide Mask, Framed, Carries, Cursor, Linked;
      Hardware();
      Learn();
    }

    /** What an unlock does to the pointers, in any state. */
    method Give()
      requires sync.swptr == Mask(released, size) && bytes <= total
      modifies this`sync, this`total, this`swptr, this`released
      ensures released == old(released) + old(total) - bytes && total == bytes && swptr == 0
      ensures sync == Sync(old(sync.hwptr), Mask(released, size))
    {
      hide Mask;
      var unlockBytes := total - bytes;
      ModAdd(released, unlockBytes, size);
      sync := Sync(sync.hwptr, Mask(sync.swptr + unlockBytes, size));
      released := released + unlockBytes;
      total := total - unlockBytes;
      swptr := 0;
    }

    /** Give back exactly what was handed out. */
    method Unlock()
      requires Valid() && total == Locked()
      modifies this`sync, this`total, this`swptr, this`released, this`done, this`held,
               this`written, this`coming, this`stream, ring
      ensures total == Locked() && sync == Sync(Mask(written, size), Mask(released, size))
      ensures Valid() && held == [] && done == old(done + held) && swptr == 0
      ensures released == old(released) + old(swptr) && bytes == old(bytes) && old(coming) <= coming
      ensures old(stream) <= stream
    {
      hide Mask, Framed, Carries;
      Give();
      FramedEmpty(ring[..], released);
      assert done + held + ready + coming == (done + held) + [] + ready + coming;
      done := done + held;
      held := [];
      Hardware();
      sync := Sync(Mask(written, size), sync.swptr);
    }

    /** Put releases only once more than half a ring is waiting to be released. */
    method BurstPut()
      requires Valid()
      modifies this`sync, this`total, this`swptr, this`released, this`done, this`held,
               this`written, this`coming, this`stream, ring
      ensures old(total == Locked()) ==> total == Locked()
      ensures Valid() && done + held == old(done + held) && ready == old(ready)
      ensures old(swptr) > size / 2 ==> held == [] && released == old(released) + old(swptr)
      ensures old(swptr) <= size / 2 ==> held == old(held) && released == old(released)
      ensures old(stream) <= stream
    {
      if total - bytes > size / 2 {
        Unlock();
        assert done + held == done;
      }
    }

    /** Step over the next ready frame.  Neither error exit of the parser can be taken:
        the header is well formed and the frame lies inside the lock. */
    method Next(d: nat, b: nat, s: nat, ghost hs: seq<Packet>, ghost rs: seq<Packet>)
      returns (desc: Desc, step: nat, ghost p: Packet)
      requires Linked() && Cursor(d, b, s, hs, rs) && b > 0
      ensures rs != [] && p == rs[0] && 0 < step == Span(p) <= b
      ensures Cursor(d + step, b - step, s + step, hs + [p], rs[1..])
      ensures Points(desc, released + s, p, size)
    {
      hide Mask, Framed, Carries, FrameAt, ParseHeader, Field;
      ghost var a, m := released + s, ring[..];
      FramedLength(m, a, released + Locked(), rs);
      p := rs[0];
      assert rs == [p] + rs[1..];
      FramedHead(m, a, released + Locked(), p, rs[1..]);
      FieldCongruent(m, d, a);
      ParseFrame(m, a, p, b);
      var parsed := ParseHeader(Field(ring[..], d), Field(ring[..], d + 2), b);
      assert parsed.Frame?;
      desc := Desc(d + PACKET_HEADER, parsed.headerLen, d + parsed.dataOffset, parsed.dataLen);
      step := parsed.advance;
      FramedOne(m, a, p);
      FramedAppend(m, released, a, a + step, hs, [p]);
      SameStep(d, a, step, size);
      SameStep(d, a, PACKET_HEADER, size);
      SameStep(d, a, parsed.dataOffset, size);
    }

    /** Make `(d, b, s)` the queue's cursor. */
    method Settle(d: nat, b: nat, s: nat, ghost hs: seq<Packet>, ghost rs: seq<Packet>)
      requires Linked() && Cursor(d, b, s, hs, rs) && hs + rs == held + ready
      modifies this`data, this`bytes, this`swptr, this`held, this`ready
      ensures total == old(total) && Locked() == old(Locked())
      ensures Valid() && data == d && bytes == b && swptr == s && held == hs && ready == rs
    {
      hide Mask, Framed, Carries;
      assert done + held + ready + coming == done + (held + ready) + coming;
      assert done + hs + rs + coming == done + (hs + rs) + coming;
      data, bytes, swptr, held, ready := d, b, s, hs, rs;
    }

    /** The lock was read to its end: settle, and lock again. */
    method Refill(d: nat, s: nat, ghost hs: seq<Packet>, ghost rs: seq<Packet>) returns (d': nat, b': nat, ghost rs': seq<Packet>)
      requires Linked() && Cursor(d, 0, s, hs, rs) && hs + rs == held + ready
      modifies this`sync, this`data, this`bytes, this`total, this`swptr, this`written,
               this`held, this`ready, this`coming, this`stream, ring
      ensures total == Locked()
      ensures Valid() && Cursor(d', b', s, hs, rs') && hs == held && rs' == ready && b' == bytes && swptr == s
      ensures coming == [] && rs + old(coming) <= rs' && old(stream) <= stream
    {
      hide Mask, Framed, Carries, Linked, Cursor;
      Settle(d, 0, s, hs, rs);
      Lock();
      d', b', rs' := data, bytes, ready;
    }

    /** Hand out up to `count` packets.  They are exactly the next ones hardware wrote,
        in order, with their bytes; fewer than asked only if hardware had no more. */
    method BurstGet(count: nat) returns (descs: seq<Desc>, ghost got: seq<Packet>)
      requires Valid()
      modifies this`sync, this`data, this`bytes, this`total, this`swptr, this`written,
               this`held, this`ready, this`coming, this`stream, ring
      ensures old(total == Locked()) ==> total == Locked()
      ensures Valid() && |descs| == |got| <= count && old(stream) <= stream
      ensures held == old(held) + got && old(ready + coming) <= got + ready + coming
      ensures |descs| < count ==> ready == [] && coming == []
      ensures PlacedAt(descs, released + Bytes(old(held)), got, size)
      ensures AllShow(ring[..], descs, got)
    {
      hide Mask, Linked, Cursor, PlacedAt, AllShow, Points, Span, Bytes;
      var d: nat, b: nat, s: nat := data, bytes, swptr;
      ghost var h0, rs, all := held, ready, ready + coming;
      descs, got := [], [];
      assert h0 + got == h0 && got + rs + coming == all;
      NonePlaced(released + Bytes(h0), size);
      HeldBytes();
      while |descs| < count
        invariant old(total == Locked()) ==> total == Locked()
        invariant |descs| == |got| <= count && Linked() && Cursor(d, b, s, h0 + got, rs)
        invariant h0 + got + rs == held + ready && all <= got + rs + coming && old(stream) <= stream
        invariant s == Bytes(h0) + Bytes(got) && PlacedAt(descs, released + Bytes(h0), got, size)
      {
        if b == 0 {
          d, b, rs := Refill(d, s, h0 + got, rs);
          assert got + rs + coming == got + (rs + coming);
          if b == 0 {
            Finish(h0, got, descs);
            return;
          }
        }
        var desc, step;
        ghost var p;
        desc, step, p := Next(d, b, s, h0 + got, rs);
        PlacedSnoc(descs, released + Bytes(h0), got, size, desc, p);
        BytesSnoc(got, p);
        descs := descs + [desc];
        assert h0 + got + rs == (h0 + (got + [p])) + rs[1..];
        assert got + rs + coming == (got + [p]) + rs[1..] + coming;
        assert h0 + (got + [p]) == (h0 + got) + [p];
        got, rs := got + [p], rs[1..];
        d, b, s := d + step, b - step, s + step;
      }
      Settle(d, b, s, h0 + got, rs);
      Finish(h0, got, descs);
    }

    lemma HeldBytes()
      requires Valid()
      ensures swptr == Bytes(held)
    {
      FramedLength(ring[..], released, released + swptr, held);
    }

    /** In any later state in which packets are still held, their descriptors show them. */
    lemma Finish(h0: seq<Packet>, got: seq<Packet>, descs: seq<Desc>)
      requires Valid() && held == h0 + got && PlacedAt(descs, released + Bytes(h0), got, size)
      ensures AllShow(ring[..], descs, got)
      ensures bytes == 0 && coming == [] ==> ready == []
    {
      hide Mask, AllShow, PlacedAt, Framed, Carries;
      FramedSplit(ring[..], released, released + swptr, h0, got);
      PlacedShow(ring[..], released + Bytes(h0), released + swptr, got, descs);
      FramedLength(ring[..], released + swptr, released + Locked(), ready);
    }

    /** Stop and start again.  Stopping clears only `bytes`.  The old total and the old
        count of bytes handed out stay, and every later get and put is correct if and only
        if none were handed out and the total is too small for a put to act on it;
        `GetAfterRestart` and `PutAfterRestart` tell what goes wrong otherwise.  Even where it
        is right, the total is not what is locked until the next lock, unless it was zero. */
    method Restart(start: nat)
      requires Valid()
      modifies this
      ensures Valid() <==> old(swptr == 0 && total <= size / 2)
      ensures total == Locked() <==> old(total == swptr)
      ensures bytes == 0 && total == old(total) && swptr == old(swptr)
      ensures sync == Sync(Mask(start, size), Mask(start, size)) && released == written == start && stream == []
    {
      hide Mask, Framed;
      FramedEmpty(ring[..], start);
      bytes := 0;
      sync := Sync(Mask(start, size), Mask(start, size));
      released, written := start, start;
      done, held, ready, coming, stream := [], [], [], [], [];
    }

    /** With bytes handed out before the restart, the next lock claims all of the ring but
        those bytes although hardware has written nothing; and if hardware starts over where
        the last release was, the first packet found is the one that was next before. */
    method GetAfterRestart(start: nat) returns (parsed: Parsed)
      requires Valid() && swptr > 0
      modifies this
      ensures written == released == start && stream == [] && bytes == size - old(swptr) > 0
      ensures
        Mask(start, size) == Mask(old(released), size) && old(ready) != [] ==>
        var p := old(ready)[0];
        parsed == Parsed.Frame(|p.header|, Body(p), |p.data|, Span(p)) && FrameAt(ring[..], data, p)
    {
      hide Mask, Framed, Carries, FrameAt, ParseHeader, Field;
      ghost var r, s, rs, e := released, swptr, ready, released + Locked();
      assert s < size;
      FramedLength(ring[..], r, r + s, held);
      Restart(start);
      Take();
      OneLapBack(s, size);
      parsed := ParseHeader(Field(ring[..], data), Field(ring[..], data + 2), bytes);
      if Mask(start, size) == Mask(r, size) && rs != [] {
        StaleFrame(r, s, start, rs, e);
      }
    }

    /** The frame that was next shows at a congruent address. */
    lemma StaleFrame(r: nat, s: nat, start: nat, rs: seq<Packet>, e: nat)
      requires ring.Length == size && Mask(start, size) == Mask(r, size) && Mask(data, size) == Mask(start + s, size)
      requires rs != [] && Framed(ring[..], r + s, e, rs) && e <= r + size - 1 && bytes == size - s
      ensures FrameAt(ring[..], data, rs[0])
      ensures ParseHeader(Field(ring[..], data), Field(ring[..], data + 2), bytes)
              == Parsed.Frame(|rs[0].header|, Body(rs[0]), |rs[0].data|, Span(rs[0]))
    {
      hide Mask, Framed, FrameAt, ParseHeader, Field;
      var m := ring[..];
      SameStep(start, r, s, size);
      FramedLength(m, r + s, e, rs);
      assert rs == [rs[0]] + rs[1..];
      FramedHead(m, r + s, e, rs[0], rs[1..]);
      var d := data - (r + s);
      forall x | r + s <= x < r + s + Span(rs[0]) ensures At(m, x + d) == At(m, x) {
        SameStep(data, r + s, x - (r + s), size);
      }
      FrameMoves(m, r + s, rs[0], m, d);
      ParseFrame(m, data, rs[0], bytes);
    }

    /** With an old total over half a ring, the next put releases that many bytes, none of
        which hardware has written. */
    method PutAfterRestart(start: nat)
      requires Valid() && total > size / 2
      modifies this
      ensures written == start && released == start + old(total) > written && sync.swptr == Mask(released, size)
    {
      hide Mask, Framed, Carries;
      Restart(start);
      if total - bytes > size / 2 {
        Give();
      }
    }
  }

  const FRAME: seq<Byte> := [16, 0, 0, 0, 0, 0, 0, 0, 0, 0, 0, 0, 0, 0, 0, 0]

  ghost const ZEROS := Packet([], seq(8, _ => 0))

  lemma FrameOfZeros()
    ensures Carries(FRAME, [ZEROS]) && Span(ZEROS) == 16 && Body(ZEROS) == 8
    ensures Carries(FRAME + FRAME, [ZEROS, ZEROS])
  {
    forall i | 0 <= i < 16 ensures At(FRAME, i) == FRAME[i] { InLap(i, 16); }
    assert FrameAt(FRAME, 0, ZEROS);
    FramedOne(FRAME, 0, ZEROS);
    hide FrameAt, Framed, At;
    assert Unroll(FRAME, 0, 16) == FRAME;
    CarriesMore(FRAME, [ZEROS], FRAME, 0, 16, [ZEROS]);
    assert [ZEROS] + [ZEROS] == [ZEROS, ZEROS];
  }

  /** A queue with two frames of eight zero bytes, the first handed out and the second ready. */
  method HalfRead() returns (q: RxQueue)
    ensures fresh(q) && fresh(q.ring) && q.Valid() && q.size == 64 && q.released == 0
    ensures q.swptr == q.bytes == 16 && q.total == 32 && q.ready == [ZEROS]
  {
    hide Mask, Framed, Carries, Span, Body, RxQueue.Cursor, RxQueue.Linked;
    q := new RxQueue(64, 0);
    FrameOfZeros();
    q.Arrive(FRAME + FRAME, [ZEROS, ZEROS]);
    q.Learn();
    assert q.ready == [ZEROS, ZEROS] && q.ready[1..] == [ZEROS];
    TakeFirst(q);
  }

  /** Hand out the first ready packet. */
  method TakeFirst(q: RxQueue)
    requires q.Valid() && q.bytes > 0
    modifies q`data, q`bytes, q`swptr, q`held, q`ready
    ensures q.Valid() && old(q.ready) != [] && q.ready == old(q.ready)[1..]
    ensures q.swptr == old(q.swptr) + Span(old(q.ready)[0]) && q.bytes == old(q.bytes) - Span(old(q.ready)[0])
  {
    hide Mask, Framed, Carries, Span, RxQueue.Cursor, RxQueue.Linked;
    var desc, step;
    ghost var p;
    desc, step, p := q.Next(q.data, q.bytes, q.swptr, q.held, q.ready);
    assert q.held + [p] + q.ready[1..] == q.held + q.ready;
    q.Settle(q.data + step, q.bytes - step, q.swptr + step, q.held + [p], q.ready[1..]);
  }

  /** On that queue, stopped and started again at zero with no word from hardware, the next
      get parses a packet of eight bytes. */
  method RestartInventsPacket() returns (q: RxQueue, parsed: Parsed)
    ensures q.written == q.released && q.stream == [] && parsed == Parsed.Frame(0, 8, 8, 16)
  {
    hide Mask, Framed, Carries, FrameAt, Span, Body, RxQueue.Valid;
    q := HalfRead();
    FrameOfZeros();
    parsed := q.GetAfterRestart(0);
  }

  /** Frames before the write position survive a write that stays within the lap. */
  lemma KeepsFrames(m: seq<Byte>, r: nat, w: nat, chunk: seq<Byte>, a: int, e: int, ps: seq<Packet>)
    requires |m| > 0 && r <= a <= e <= w && w + |chunk| <= r + |m| && Framed(m, a, e, ps)
    ensures Framed(Store(m, w, chunk), a, e, ps)
  {
    hide Framed, Mask;
    forall x | a <= x < e ensures At(Store(m, w, chunk), x + 0) == At(m, x) {
      StoreKeepsCell(m, w, chunk, x);
    }
    FramedMoves(m, a, e, ps, Store(m, w, chunk), 0);
  }

  /** Written frames appear in the ring as framed packets. */
  lemma Arrival(m: seq<Byte>, r: nat, w: nat, chunk: seq<Byte>, ps: seq<Packet>)
    requires |m| > 0 && r <= w && w + |chunk| <= r + |m| && Carries(chunk, ps)
    ensures Framed(Store(m, w, chunk), w, w + |chunk|, ps)
  {
    if chunk == [] {
    } else {
      hide Framed, Mask, Store;
      forall x | 0 <= x < |chunk| ensures At(Store(m, w, chunk), x + w) == At(chunk, x) {
        StoreCell(m, w, chunk, x + w);
        LinearCell(chunk, x);
      }
      FramedMoves(chunk, 0, |chunk|, ps, Store(m, w, chunk), w);
    }
  }
}
