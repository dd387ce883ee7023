/** The transmit half of a version 1 queue: packets are framed straight into the byte
ring inside a lock obtained from the driver and published later, possibly many bursts
at a time. */
module TxV1 {
  import opened Ring
  import opened Octets
  import opened Frame
  import opened Driver

  /** Lengths a caller fills in before asking for a placeholder. */
  datatype Request = Request(headerLen: nat, dataLen: nat)

  predicate AllFit(reqs: seq<Request>) {
    forall i :: 0 <= i < |reqs| ==> Fits(reqs[i].headerLen, reqs[i].dataLen)
  }

  predicate Matches(ps: seq<Packet>, reqs: seq<Request>) {
    |ps| == |reqs|
    && forall i :: 0 <= i < |ps| ==> |ps[i].header| == reqs[i].headerLen && |ps[i].data| == reqs[i].dataLen
  }

  lemma NoneMatched(reqs: seq<Request>)
    ensures Matches([], reqs[..0])
  {
  }

  lemma MatchesSnoc(ps: seq<Packet>, reqs: seq<Request>, p: Packet)
    requires |ps| < |reqs| && Matches(ps, reqs[..|ps|])
    requires |p.header| == reqs[|ps|].headerLen && |p.data| == reqs[|ps|].dataLen
    ensures Matches(ps + [p], reqs[..|ps| + 1])
  {
  }

  lemma BodyIs(p: Packet)
    ensures Body(p) == Align8(|p.header| + PACKET_HEADER)
  {
  }

  /** Bytes of the ring that placeholders for `reqs` take: header and metadata, and the data, each
      rounded up to eight bytes. */
  function Needed(reqs: seq<Request>): (n: nat)
    ensures n >= 4 * |reqs| && (n == 0 <==> reqs == [])
  {
    if reqs == [] then 0 else Align8(reqs[0].headerLen + 4) + Align8(reqs[0].dataLen) + Needed(reqs[1..])
  }

  lemma NeededStep(reqs: seq<Request>, k: nat)
    requires k < |reqs| && AllFit(reqs)
    ensures Fits(reqs[k].headerLen, reqs[k].dataLen)
    ensures Needed(reqs[k..]) == FrameSpan(reqs[k].headerLen, reqs[k].dataLen) + Needed(reqs[k + 1..])
  {
    hide Align8, FrameSpan;
    LengthsFit(reqs[k].headerLen, reqs[k].dataLen);
    assert reqs[k..][1..] == reqs[k + 1..];
  }

  /** Writing one more header behind framed memory frames one more packet and disturbs
      none of the frames before it. */
  lemma FrameStep(m: seq<Byte>, w: nat, s: nat, ps: seq<Packet>, r: Request)
    requires |m| >= 8 && Fits(r.headerLen, r.dataLen) && s + FrameSpan(r.headerLen, r.dataLen) < |m|
    requires Framed(m, w, w + s, ps)
    ensures
      var m' := Store(m, w + s, HeaderBytes(r.headerLen, r.dataLen));
      var p := PacketAt(m', w + s, r.headerLen, r.dataLen);
      && Span(p) == FrameSpan(r.headerLen, r.dataLen)
      && Framed(m', w, w + s + Span(p), ps + [p])
      && forall x :: w <= x < w + s ==> At(m', x) == At(m, x)
  {
    hide Framed, FrameAt, At, Align8, PacketAt, HeaderBytes, Store, Mask;
    LengthsFit(r.headerLen, r.dataLen);
    HeaderMakesFrame(m, w + s, r.headerLen, r.dataLen);
    var m' := Store(m, w + s, HeaderBytes(r.headerLen, r.dataLen));
    var p := PacketAt(m', w + s, r.headerLen, r.dataLen);
    assert Span(p) == FrameSpan(r.headerLen, r.dataLen);
    hide Span, FrameSpan, Fits;
    FramedMoves(m, w, w + s, ps, m', 0);
    FramedOne(m', w + s, p);
    FramedAppend(m', w, w + s, w + s + Span(p), ps, [p]);
  }

  /** Packets without metadata carrying the given payloads. */
  function Bare(payloads: seq<seq<Byte>>): (ps: seq<Packet>)
    ensures |ps| == |payloads|
    ensures forall i :: 0 <= i < |ps| ==> ps[i] == Packet([], payloads[i])
  {
    seq(|payloads|, i requires 0 <= i < |payloads| => Packet([], payloads[i]))
  }

  function Lengths(payloads: seq<seq<Byte>>): (rs: seq<Request>)
    ensures |rs| == |payloads|
    ensures forall i :: 0 <= i < |rs| ==> rs[i] == Request(0, |payloads[i]|)
  {
    seq(|payloads|, i requires 0 <= i < |payloads| => Request(0, |payloads[i]|))
  }

  lemma SameSpan(p: Packet, q: Packet)
    requires |p.header| == |q.header| && |p.data| == |q.data|
    ensures Span(p) == Span(q)
  {
  }

  lemma FilledIs(m: seq<Byte>, a: int, p: Packet, h: int, d: int)
    requires |m| > 0 && Mask(h, |m|) == Mask(a + PACKET_HEADER, |m|) && Mask(d, |m|) == Mask(a + Body(p), |m|)
    ensures Store(Store(m, h, p.header), d, p.data) == Filled(m, a, p)
  {
    hide Mask;
    StoreCongruent(m, h, a + PACKET_HEADER, p.header);
    StoreCongruent(Store(m, h, p.header), d, a + Body(p), p.data);
  }

  class TxQueue {
    const size: Pos
    const ring: array<Byte>
    const port: TxPort
    var sync: Sync
    var data: nat
    var bytes: nat
    var total: nat
    var swptr: nat
    /** Packets framed in the lock and not published yet. */
    ghost var queued: seq<Packet>
    /** Packets published so far, and the bytes that carried them. */
    ghost var sent: seq<Packet>
    ghost var wire: seq<Byte>

    ghost predicate Valid()
      reads this, ring, port
    {
      Linked() && Cursor(data, bytes, swptr, queued)
    }

    /** The lock and the published history. */
    ghost predicate Linked()
      reads this, ring, port
    {
      && ring.Length == size == port.n && size >= 8
      && port.Valid() && total == port.granted
      && (total > 0 ==> sync == Sync(Mask(port.published, size), Mask(port.published + total, size)))
      && Carries(wire, sent)
    }

    /** A write cursor: `s` bytes of the lock hold the frames of `ps`, `b` bytes behind
        them are free, and `d` points there whenever there is room at all. */
    ghost predicate Cursor(d: nat, b: nat, s: nat, ps: seq<Packet>)
      reads this, ring, port
    {
      && ring.Length > 0 && s + b <= total
      && (b > 0 ==> Mask(d, size) == Mask(port.published + s, size) && d + b < 2 * size)
      && Framed(ring[..], port.published, port.published + s, ps)
    }

    constructor (port: TxPort)
      requires port.Valid() && port.granted == 0 && port.n >= 8
      ensures Valid() && this.port == port && queued == [] && sent == [] && fresh(ring)
    {
      this.port := port;
      size := port.n;
      ring := new Byte[port.n](_ => 0);
      sync := Sync(0, 0);
      data, bytes, total, swptr := 0, 0, 0, 0;
      queued, sent, wire := [], [], [];
    }

    /** Ask for the whole ring.  An active lock keeps its place and never shrinks, so
        the unpublished frames stay where they are. */
    method Lock()
      requires Valid()
      modifies this`sync, this`data, this`bytes, this`total, port
      ensures Valid() && swptr + bytes == total == port.granted && port.AllGranted() && port.syncs == old(port.syncs) + 1
      ensures Mask(data, size) == Mask(port.published + swptr, size) && data + bytes < 2 * size
      ensures old(total) > 0 ==> port.published == old(port.published) && total >= old(total)
    {
      hide Mask, Framed, Carries;
      ghost var m := ring[..];
      FramedLength(m, port.published, port.published + swptr, queued);
      WholeRing(sync.hwptr, size);
      var s := Sync(sync.hwptr, Mask(sync.hwptr - 1, size));
      sync := port.SyncCall(s, 0, size - 1);
      data := sync.hwptr + swptr;
      bytes := Mask(sync.swptr - sync.hwptr - swptr, size);
      total := Mask(sync.swptr - sync.hwptr, size);
      Distance(port.published + port.granted, port.published, swptr, size);
      Distance(port.published + port.granted, port.published, 0, size);
      ModAdd(port.published, swptr, size);
      assert ring[..] == m;
      if old(total) == 0 { FramedEmpty(m, port.published); }
    }

    /** Publish whatever is unpublished and give the lock up. */
    method Flush()
      requires Valid()
      modifies this, port
      ensures Valid() && queued == [] && swptr == bytes == total == 0
      ensures sent == old(sent + queued) && port.syncs == old(port.syncs) + 1
      ensures wire == old(wire + Unroll(ring[..], port.published, swptr))
      ensures old(swptr) > 0 ==> port.published == old(port.published) + old(swptr)
    {
      hide Mask, Framed, Carries;
      ghost var m := ring[..];
      FramedLength(m, port.published, port.published + swptr, queued);
      CarriesMore(wire, sent, m, port.published, swptr, queued);
      wire := wire + Unroll(m, port.published, swptr);
      sent := sent + queued;
      queued := [];
      var hw := Mask(sync.hwptr + swptr, size);
      ModAdd(port.published, swptr, size);
      ghost var k := swptr;
      total, bytes, swptr := 0, 0, 0;
      SelfDistance(hw, size);
      sync := port.SyncCall(Sync(hw, hw), k, 0);
      FramedEmpty(ring[..], port.published);
    }

    /** Put publishes only once more than a quarter of the ring is waiting; until then
        it changes nothing. */
    method BurstPut()
      requires Valid()
      modifies this, port
      ensures Valid() && sent + queued == old(sent + queued)
      ensures old(swptr) > size / 4 ==> queued == [] && sent == old(sent + queued)
      ensures old(swptr) <= size / 4 ==> queued == old(queued) && sent == old(sent) && swptr == old(swptr)
      ensures swptr <= size / 4 && port.syncs >= old(port.syncs)
      ensures old(swptr) <= size / 4 ==> unchanged(port) && bytes == old(bytes)
    {
      if swptr > size / 4 {
        Flush();
        assert sent + queued == sent;
      }
    }

    /** Frame one packet at the cursor `(d, b, s)`, keeping a cursor to roll back to. */
    method Place(d: nat, b: nat, s: nat, r: Request, ghost ps: seq<Packet>,
                 ghost d0: nat, ghost b0: nat, ghost s0: nat, ghost q0: seq<Packet>)
      returns (slot: Desc, ghost p: Packet)
      requires Linked() && Cursor(d, b, s, ps) && Cursor(d0, b0, s0, q0) && s0 <= s
      requires Fits(r.headerLen, r.dataLen) && FrameSpan(r.headerLen, r.dataLen) <= b
      modifies ring
      ensures Linked() && Cursor(d0, b0, s0, q0)
      ensures Span(p) == FrameSpan(r.headerLen, r.dataLen) <= b
      ensures Cursor(d + Span(p), b - Span(p), s + Span(p), ps + [p])
      ensures |p.header| == r.headerLen && |p.data| == r.dataLen
      ensures Points(slot, port.published + s, p, size)
    {
      hide Mask, Framed, Carries, FrameSpan, Span, HeaderBytes, PacketAt, At, Body, Fits;
      LengthsFit(r.headerLen, r.dataLen);
      ghost var a, m := port.published + s, ring[..];
      FrameStep(m, port.published, s, ps, r);
      var h := HeaderBytes(r.headerLen, r.dataLen);
      assert b > 0;
      StoreCongruent(m, d, a, h);
      StoreInto(ring, d, h);
      p := PacketAt(ring[..], a, r.headerLen, r.dataLen);
      slot := Desc(d + PACKET_HEADER, r.headerLen, d + HeaderSpan(r.headerLen), r.dataLen);
      FramedMoves(m, port.published, port.published + s0, q0, ring[..], 0);
      SameStep(d, a, Span(p), size);
      SameStep(d, a, PACKET_HEADER, size);
      SameStep(d, a, HeaderSpan(r.headerLen), size);
      BodyIs(p);
    }

    /** Make `(d, b, s)` the queue's cursor. */
    method Settle(d: nat, b: nat, s: nat, ghost ps: seq<Packet>)
      requires Linked() && Cursor(d, b, s, ps)
      modifies this`data, this`bytes, this`swptr, this`queued
      ensures Valid() && data == d && bytes == b && swptr == s && queued == ps
    {
      hide Mask, Framed, Carries;
      data, bytes, swptr, queued := d, b, s, ps;
    }

    /** Store the cursor `(d, b, s)` in the queue and try to get more room behind it,
        keeping a cursor to roll back to. */
    method Relock(d: nat, b: nat, s: nat, ghost ps: seq<Packet>,
                  ghost d0: nat, ghost b0: nat, ghost s0: nat, ghost q0: seq<Packet>)
      returns (d': nat, b': nat)
      requires Linked() && Cursor(d, b, s, ps) && Cursor(d0, b0, s0, q0) && s0 <= s
      modifies this`sync, this`data, this`bytes, this`total, this`swptr, this`queued, port
      ensures Linked() && Cursor(d', b', s, ps) && Cursor(d0, b0, s0, q0)
      ensures port.published != old(port.published) ==> s == 0 && ps == []
      ensures s + b' == port.granted && port.AllGranted() && port.syncs == old(port.syncs) + 1
    {
      hide Mask, Framed, Carries;
      Settle(d, b, s, ps);
      Lock();
      d', b' := data, bytes;
      FramedLength(ring[..], old(port.published), old(port.published) + s, ps);
      FramedLength(ring[..], old(port.published), old(port.published) + s0, q0);
      if s0 == 0 { FramedEmpty(ring[..], port.published); }
    }

    /** Reserve and frame placeholders for a whole burst, or for nothing at all.  Bytes at hand are
        used without a lock; a burst is refused only after a lock that another subscriber held
        or that granted everything hardware has read and still too little. */
    method BurstGet(reqs: seq<Request>) returns (slots: seq<Desc>, cnt: nat, ghost got: seq<Packet>)
      requires Valid() && AllFit(reqs)
      modifies this, port, ring
      ensures Valid() && sent == old(sent) && wire == old(wire)
      ensures cnt == |slots| && (cnt == |reqs| || cnt == 0)
      ensures old(swptr) > 0 ==> port.published == old(port.published)
      ensures cnt == 0 ==> queued == old(queued) && swptr == old(swptr) && bytes == old(bytes)
      ensures old(bytes) >= Needed(reqs) ==> cnt == |reqs| && unchanged(port)
      ensures cnt == 0 && reqs != [] ==> Refused(old(port.syncs), old(swptr), reqs)
      ensures port.syncs >= old(port.syncs)
      ensures cnt == |reqs| ==> queued == old(queued) + got && Matches(got, reqs)
      ensures cnt == |reqs| ==> PlacedAt(slots, port.published + old(swptr), got, size)
    {
      hide Mask, FrameSpan, Span, Body, Linked, Cursor, PlacedAt, Points, Bytes, Matches, Fits, AllFit, Needed, TxPort.AllGranted;
      assert reqs[0..] == reqs;
      var d: nat, b: nat, s: nat := data, bytes, swptr;
      var d0: nat, b0: nat, s0: nat := data, bytes, swptr;
      ghost var q0 := queued;
      slots, cnt, got := [], 0, [];
      assert q0 + got == q0;
      NonePlaced(port.published + s0, size);
      NoneMatched(reqs);
      while cnt < |reqs|
        invariant cnt == |slots| == |got| <= |reqs| && Linked() && sent == old(sent) && wire == old(wire)
        invariant Cursor(d, b, s, q0 + got) && Cursor(d0, b0, s0, q0)
        invariant cnt == 0 ==> s == s0 && b == b0 && got == []
        invariant Matches(got, reqs[..cnt]) && s == s0 + Bytes(got)
        invariant PlacedAt(slots, port.published + s0, got, size)
        invariant s0 > 0 ==> port.published == old(port.published)
        invariant s + Needed(reqs[cnt..]) == s0 + Needed(reqs) && port.syncs >= old(port.syncs)
        invariant b0 >= Needed(reqs) ==> unchanged(port) && s + b == s0 + b0
      {
        var r := reqs[cnt];
        NeededStep(reqs, cnt);
        var span := FrameSpan(r.headerLen, r.dataLen);
        if b < span {
          d, b := Relock(d, b, s, q0 + got, d0, b0, s0, q0);
          NonePlaced(port.published + s0, size);
          if b < span {
            Settle(d0, b0, s0, q0);
            return [], 0, [];
          }
        }
        var slot;
        ghost var p;
        slot, p := Place(d, b, s, r, q0 + got, d0, b0, s0, q0);
        PlacedSnoc(slots, port.published + s0, got, size, slot, p);
        BytesSnoc(got, p);
        MatchesSnoc(got, reqs, p);
        assert (q0 + got) + [p] == q0 + (got + [p]);
        slots := slots + [slot];
        got := got + [p];
        d, s, b, cnt := d + span, s + span, b - span, cnt + 1;
      }
      Settle(d, b, s, q0 + got);
      assert reqs[..cnt] == reqs;
    }

    /** A lock was made and left fewer free bytes than `reqs` need behind `s`. */
    ghost predicate Refused(before: nat, s: nat, reqs: seq<Request>)
      reads port
    {
      port.syncs > before && port.AllGranted() && port.granted < s + Needed(reqs)
    }

    lemma StillRefused(before: nat, earlier: nat, s: nat, reqs: seq<Request>)
      requires Refused(before, s, reqs) && earlier <= before
      ensures Refused(earlier, s, reqs) && port.syncs > before
    {
    }

    /** The caller writes a placeholder it was given: exactly that queued packet
        changes, wherever the frame lies on the ring. */
    method Fill(slot: Desc, p: Packet, ghost before: seq<Packet>, ghost p0: Packet, ghost after: seq<Packet>)
      requires Valid() && queued == before + ([p0] + after)
      requires |p.header| == |p0.header| && |p.data| == |p0.data|
      requires Points(slot, port.published + Bytes(before), p0, size)
      modifies this`queued, ring
      ensures Valid() && queued == before + ([p] + after)
    {
      hide Mask, Framed, Carries, FrameAt, At, Filled;
      ghost var w, m := port.published, ring[..];
      ghost var a := w + Bytes(before);
      FramedSplit(m, w, w + swptr, before, [p0] + after);
      FramedLength(m, a, w + swptr, [p0] + after);
      FramedHead(m, a, w + swptr, p0, after);
      FillMakesFrame(m, a, p0, p);
      StoreInto(ring, slot.header, p.header);
      StoreInto(ring, slot.data, p.data);
      FilledIs(m, a, p, slot.header, slot.data);
      FramedReplace(m, w, w + swptr, before, p0, after, ring[..], p);
      queued := before + ([p] + after);
    }

    /** Copy payloads into the placeholders of packets just reserved. */
    method CopyInto(slots: seq<Desc>, payloads: seq<seq<Byte>>, ghost q0: seq<Packet>, ghost got: seq<Packet>)
      requires Valid() && queued == q0 + got && Matches(got, Lengths(payloads))
      requires PlacedAt(slots, port.published + Bytes(q0), got, size)
      modifies this`queued, ring
      ensures Valid() && queued == q0 + Bare(payloads)
    {
      hide Mask, PlacedAt, Points, Bytes, Span, Body, Valid, Bare;
      NoneCopied(q0, payloads);
      assert queued == q0 + Bare(payloads[..0]) + got[0..] && q0 + Bare(payloads[..0]) == q0;
      PlacedSize(slots, port.published + Bytes(q0), got, size);
      assert slots[0..] == slots && got[0..] == got;
      for i := 0 to |payloads|
        invariant Valid() && queued == (q0 + Bare(payloads[..i])) + got[i..]
        invariant PlacedAt(slots[i..], port.published + Bytes(q0 + Bare(payloads[..i])), got[i..], size)
      {
        ghost var before := q0 + Bare(payloads[..i]);
        var p := Packet([], payloads[i]);
        PlacedFirst(slots[i..], port.published + Bytes(before), got[i..], size);
        assert slots[i..][0] == slots[i] && slots[i..][1..] == slots[i + 1..];
        NextCopied(q0, payloads, got, i);
        Fill(slots[i], p, before, got[i], got[i + 1..]);
        BytesSnoc(before, p);
        SameSpan(p, got[i]);
      }
      assert payloads[..|payloads|] == payloads;
    }

    lemma NoneCopied(q0: seq<Packet>, payloads: seq<seq<Byte>>)
      ensures q0 + Bare(payloads[..0]) == q0
    {
    }

    lemma NextCopied(q0: seq<Packet>, payloads: seq<seq<Byte>>, got: seq<Packet>, i: nat)
      requires i < |payloads| == |got|
      ensures got[i..][0] == got[i] && got[i..][1..] == got[i + 1..] && got[i..] == [got[i]] + got[i + 1..]
      ensures q0 + Bare(payloads[..i + 1]) == (q0 + Bare(payloads[..i])) + [Packet([], payloads[i])]
      ensures (q0 + Bare(payloads[..i])) + ([Packet([], payloads[i])] + got[i + 1..]) == (q0 + Bare(payloads[..i + 1])) + got[i + 1..]
    {
      assert Bare(payloads[..i + 1]) == Bare(payloads[..i]) + [Packet([], payloads[i])];
    }

    /** Send copies of `payloads`, retrying a bounded number of times: all of them, in
        order, or none. */
    method BurstCopy(payloads: seq<seq<Byte>>) returns (packetsSent: nat)
      requires Valid() && AllFit(Lengths(payloads))
      modifies this, port, ring
      ensures Valid() && (packetsSent == 0 || packetsSent == |payloads|)
      ensures sent + queued == old(sent + queued) + Bare(payloads[..packetsSent])
      ensures old(bytes) >= Needed(Lengths(payloads)) ==> packetsSent == |payloads|
      ensures packetsSent == 0 && payloads != [] ==> port.syncs >= old(port.syncs) + 1000
      ensures payloads != [] ==> swptr <= size / 4
      ensures packetsSent == 0 && payloads != [] ==> queued == [] || Refused(old(port.syncs), swptr, Lengths(payloads))
    {
      hide Mask, PlacedAt, Bytes, Matches, Linked, Cursor, AllFit, Needed, Refused;
      packetsSent := 0;
      var attempts := 0;
      while packetsSent < |payloads| && attempts < 1000
        invariant Valid() && attempts <= 1000 && (packetsSent == 0 || packetsSent == |payloads|)
        invariant sent + queued == old(sent + queued) + Bare(payloads[..packetsSent])
        invariant if attempts == 0 then bytes == old(bytes) && packetsSent == 0 else swptr <= size / 4
        invariant attempts > 0 && old(bytes) >= Needed(Lengths(payloads)) ==> packetsSent == |payloads|
        invariant packetsSent == 0 ==> port.syncs >= old(port.syncs) + attempts
        invariant packetsSent == 0 && attempts > 0 ==> queued == [] || Refused(old(port.syncs), swptr, Lengths(payloads))
      {
        assert payloads[packetsSent..] == payloads;
        ghost var q0, before := queued, port.syncs;
        QueuedBytes();
        var slots, count;
        ghost var got;
        slots, count, got := BurstGet(Lengths(payloads[packetsSent..]));
        if count > 0 {
          CopyInto(slots, payloads, q0, got);
          assert sent + (q0 + Bare(payloads)) == (sent + q0) + Bare(payloads);
          assert payloads[..|payloads|] == payloads;
        }
        if count == 0 { StillRefused(before, old(port.syncs), swptr, Lengths(payloads)); }
        BurstPut();
        packetsSent := packetsSent + count;
        attempts := attempts + 1;
      }
    }

    lemma QueuedBytes()
      requires Valid()
      ensures swptr == Bytes(queued)
    {
      FramedLength(ring[..], port.published, port.published + swptr, queued);
    }
  }
}
