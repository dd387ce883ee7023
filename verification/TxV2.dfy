/** The transmit half of a version 2 queue: packet headers go into a header ring inside
a lock obtained from the driver; the buffers they describe are given by an offset ring. */
module TxV2 {
  import opened Ring
  import opened Octets
  import opened Driver
  import RxV2

  type Header = RxV2.Header

  datatype Request = Request(headerLen: nat, dataLen: nat, flags: nat)

  /** Buffer positions the caller may write a packet to. */
  datatype Slot = Slot(header: nat, data: nat)

  /** Frame length after short packets are enlarged. */
  function FrameSize(r: Request, frameMin: nat): (size: nat)
    ensures size >= frameMin && size >= r.headerLen + r.dataLen
  {
    if r.headerLen + r.dataLen < frameMin then frameMin else r.headerLen + r.dataLen
  }

  predicate TooLarge(r: Request, frameMin: nat, frameMax: nat) {
    r.headerLen + r.dataLen >= frameMin && r.headerLen + r.dataLen > frameMax
  }

  /** A packet is too large exactly if its enlarged frame is longer than the longest, or, should that
      be below the shortest, if it need not be enlarged. */
  lemma TooLargeIff(r: Request, frameMin: nat, frameMax: nat)
    ensures FrameSize(r, frameMin) == r.headerLen + r.dataLen || r.headerLen + r.dataLen < FrameSize(r, frameMin) == frameMin
    ensures TooLarge(r, frameMin, frameMax) <==>
            if frameMin <= frameMax then FrameSize(r, frameMin) > frameMax else r.headerLen + r.dataLen == FrameSize(r, frameMin)
  {
  }

  /** The header written for a request: a 16-bit size, an 8-bit metadata size and four
      flag bits. */
  function HeaderOf(r: Request, frameMin: nat): Header {
    RxV2.Header(FrameSize(r, frameMin) % 0x1_0000, r.headerLen % 0x100, r.flags % 16)
  }

  function HeadersOf(rs: seq<Request>, frameMin: nat): (hs: seq<Header>)
    ensures |hs| == |rs| && forall i :: 0 <= i < |rs| ==> hs[i] == HeaderOf(rs[i], frameMin)
  {
    seq(|rs|, i requires 0 <= i < |rs| => HeaderOf(rs[i], frameMin))
  }

  // ----- the tail of a short frame -----

  /** Memory with the tail of a short frame cleared, one metadata length too far, as the code
      does it. */
  function Cleared(m: seq<Byte>, at: nat, r: Request, frameMin: nat): (m': seq<Byte>)
    requires at + 2 * frameMin <= |m|
    ensures |m'| == |m|
  {
    var t := r.headerLen + r.dataLen;
    if t < frameMin then m[..at + r.headerLen + t] + Zeros(frameMin - t) + m[at + r.headerLen + frameMin..] else m
  }

  predicate InMemory(m: seq<Byte>, offs: seq<nat>, frameMin: nat) {
    forall i :: 0 <= i < |offs| ==> offs[i] + 2 * frameMin <= |m|
  }

  /** The same for one request after the other. */
  function ClearedAll(m: seq<Byte>, offs: seq<nat>, reqs: seq<Request>, frameMin: nat): (m': seq<Byte>)
    requires |offs| <= |reqs| && InMemory(m, offs, frameMin)
    ensures |m'| == |m|
  {
    if offs == [] then m
    else
      var k := |offs| - 1;
      Cleared(ClearedAll(m, offs[..k], reqs, frameMin), offs[k], reqs[k], frameMin)
  }

  lemma ClearedSnoc(m: seq<Byte>, offs: seq<nat>, reqs: seq<Request>, frameMin: nat, at: nat)
    requires |offs| < |reqs| && InMemory(m, offs, frameMin) && at + 2 * frameMin <= |m|
    ensures ClearedAll(m, offs + [at], reqs, frameMin) == Cleared(ClearedAll(m, offs, reqs, frameMin), at, reqs[|offs|], frameMin)
  {
    hide Cleared;
    assert (offs + [at])[..|offs|] == offs;
  }

  /** Without metadata, memory outside the shortest frames at the given offsets stays as it is. */
  lemma {:induction false} ClearedSpares(m: seq<Byte>, offs: seq<nat>, reqs: seq<Request>, frameMin: nat, x: nat)
    requires |offs| <= |reqs| && InMemory(m, offs, frameMin) && x < |m|
    requires forall i :: 0 <= i < |offs| ==> reqs[i].headerLen == 0 && !(offs[i] + reqs[i].dataLen <= x < offs[i] + frameMin)
    ensures ClearedAll(m, offs, reqs, frameMin)[x] == m[x]
    decreases |offs|
  {
    if offs != [] {
      var k := |offs| - 1;
      ClearedSpares(m, offs[..k], reqs, frameMin, x);
    }
  }

  /** Without metadata, the tail of each short frame is zero afterwards. */
  lemma {:induction false} ClearedTail(m: seq<Byte>, offs: seq<nat>, reqs: seq<Request>, frameMin: nat, i: nat, x: nat)
    requires |offs| <= |reqs| && InMemory(m, offs, frameMin) && i < |offs|
    requires forall j :: 0 <= j < |offs| ==> reqs[j].headerLen == 0
    requires offs[i] + reqs[i].dataLen <= x < offs[i] + frameMin
    ensures x < |m| && ClearedAll(m, offs, reqs, frameMin)[x] == 0
    decreases |offs|
  {
    var k := |offs| - 1;
    assert x < |m|;
    if i < k { ClearedTail(m, offs[..k], reqs, frameMin, i, x); }
  }

  /** After the call, the tail of a short frame is zero if and only if what is left out, one
      metadata length from the end of the data, was zero before. */
  lemma TailClearedIff(m: seq<Byte>, at: nat, r: Request, frameMin: nat)
    requires at + 2 * frameMin <= |m| && r.headerLen + r.dataLen < frameMin
    ensures
      var t := r.headerLen + r.dataLen;
      (forall x :: at + t <= x < at + frameMin ==> Cleared(m, at, r, frameMin)[x] == 0)
      <==> (forall x :: at + t <= x < Min(at + frameMin, at + r.headerLen + t) ==> m[x] == 0)
  {
    var t, m' := r.headerLen + r.dataLen, Cleared(m, at, r, frameMin);
    forall x | at + t <= x < at + frameMin ensures m'[x] == if x < at + r.headerLen + t then m[x] else 0 { }
  }

  /** The offsets of `k` cells of the offset ring from position `a` on. */
  function OffsetsFrom(o: seq<nat>, a: nat, k: nat): (os: seq<nat>)
    requires |o| > 0
    ensures |os| == k && forall i :: 0 <= i < k ==> os[i] == o[Mask(a + i, |o|)]
  {
    seq<nat>(k, i requires 0 <= i < k => o[Mask(a + i, |o|)])
  }

  /** A receiver decoding the header sees the four flag bits and finds the metadata at the given
      offset; it sees the requested metadata length and the enlarged data length, and finds the
      data behind the metadata, if and only if that length fits eight bits and the frame
      sixteen. */
  lemma HeaderRoundTripIff(r: Request, frameMin: nat, offset: nat)
    requires r.headerLen < 0x1_0000 && r.dataLen < 0x8000_0000 && frameMin < 0x1_0000
    ensures
      var p := RxV2.Decode(RxV2.Entry(HeaderOf(r, frameMin), offset));
      && p.flags == r.flags % 16 && p.header == offset
      && (r.headerLen < 0x100 && FrameSize(r, frameMin) < 0x1_0000 <==>
          p.headerLen == r.headerLen && p.dataLen == FrameSize(r, frameMin) - r.headerLen && p.data == offset + r.headerLen)
  {
  }

  class TxQueue {
    const items: Pos
    const frameMin: nat
    const frameMax: nat
    const port: TxPort
    const hdr: array<Header>
    const off: array<nat>
    /** Packet memory, as far as it can be addressed. */
    const buffer: array<Byte>
    var sync: Sync
    var rhp: nat
    /** The two cursors into the rings, as distances from their bases. */
    var hdrCursor: int
    var offCursor: int
    var pktsAvailable: nat
    /** Headers reserved in the lock and not published; headers published so far. */
    ghost var queued: seq<Header>
    ghost var sent: seq<Header>

    ghost predicate Valid()
      reads this, port, hdr, off
    {
      && hdr.Length == off.Length == items == port.n && port.Valid()
      && Linked() && Coherent() && Memory()
      && forall i :: 0 <= i < |queued| ==> hdr[Cell(i)] == queued[i]
    }

    /** Packet memory is apart from the rings and holds two shortest frames at every offset. */
    ghost predicate Memory()
      requires off.Length == items
      reads off
    {
      && buffer as object != off as object && buffer as object != hdr as object
      && forall c :: 0 <= c < items ==> off[c] + 2 * frameMin <= buffer.Length
    }

    /** The ring cell `i` places behind the published position. */
    ghost function Cell(i: nat): (c: nat)
      reads port`published
      ensures c < items
    {
      Mask(port.published + i, items)
    }

    /** Pointers last received from the driver describe the lock. */
    ghost predicate Linked()
      reads this`sync, port
    {
      if port.granted > 0
      then sync == Sync(Mask(port.published, items), Mask(port.published + port.granted, items))
      else sync.hwptr == sync.swptr
    }

    /** Cursors move together and stay inside the doubled mapping. */
    ghost predicate Coherent()
      reads this`rhp, this`hdrCursor, this`offCursor, this`pktsAvailable, this`queued, port
    {
      && hdrCursor == offCursor == rhp && rhp + pktsAvailable < 2 * items
      && |queued| + pktsAvailable <= port.granted
      && (port.granted > 0 ==> rhp == Mask(port.published, items) + |queued|)
    }

    constructor (port: TxPort, frameMin: nat, frameMax: nat, offsets: seq<nat>, buffer: array<Byte>)
      requires port.Valid() && port.granted == 0 && |offsets| == port.n
      requires forall c :: 0 <= c < |offsets| ==> offsets[c] + 2 * frameMin <= buffer.Length
      ensures Valid() && this.port == port && queued == sent == [] && fresh(hdr) && fresh(off) && off[..] == offsets
    {
      this.port, this.frameMin, this.frameMax, this.buffer := port, frameMin, frameMax, buffer;
      items := port.n;
      hdr := new Header[port.n](_ => RxV2.Header(0, 0, 0));
      off := new nat[port.n](i requires 0 <= i < |offsets| => offsets[i]);
      sync := Sync(0, 0);
      rhp, hdrCursor, offCursor, pktsAvailable := 0, 0, 0, 0;
      queued, sent := [], [];
    }

    /** Ask for the whole ring.  A lock already held keeps its place; otherwise all
        cursors are moved to where the driver starts the new one. */
    method Lock()
      requires Valid()
      modifies this`sync, this`rhp, this`hdrCursor, this`offCursor, this`pktsAvailable, port
      ensures Valid() && |queued| + pktsAvailable == port.granted && port.AllGranted() && port.syncs == old(port.syncs) + 1
      ensures old(port.granted) > 0 || |queued| > 0 ==> port.published == old(port.published) && rhp == old(rhp)
    {
      hide Mask, Memory;
      var lockValid := sync.swptr != sync.hwptr;
      if port.granted > 0 { CellsDiffer(port.published, port.published + port.granted, items); }
      WholeRing(sync.hwptr, items);
      sync := port.SyncCall(Sync(sync.hwptr, Mask(sync.hwptr - 1, items)), 0, items - 1);
      assert forall i :: 0 <= i < |queued| ==> Cell(i) == old(Cell(i));
      if !lockValid {
        var offset := sync.hwptr - rhp;
        rhp := rhp + offset;
        hdrCursor := hdrCursor + offset;
        offCursor := offCursor + offset;
      }
      ModAdd(port.published, |queued|, items);
      LazyDistance(port.published + port.granted, rhp, port.published + |queued|, items);
      pktsAvailable := Mask(sync.swptr - rhp, items);
    }

    /** Publish exactly the headers reserved since the last publication and give the
        lock up. */
    method Flush()
      requires Valid()
      modifies this`sync, this`rhp, this`hdrCursor, this`offCursor, this`pktsAvailable, this`queued, this`sent, port
      ensures Valid() && queued == [] && pktsAvailable == 0 && sent == old(sent + queued) && rhp < items
      ensures port.syncs == old(port.syncs) + 1
      ensures old(port.granted) > 0 ==> port.published == old(port.published) + |old(queued)|
    {
      hide Mask;
      ModAdd(port.published, |queued|, items);
      if rhp >= items {
        OneLap(rhp, items);
        rhp := rhp - items;
        hdrCursor := hdrCursor - items;
        offCursor := offCursor - items;
      }
      InLap(rhp, items);
      SelfDistance(rhp, items);
      ghost var k := |queued|;
      pktsAvailable, sent, queued := 0, sent + queued, [];
      sync := port.SyncCall(Sync(rhp, rhp), k, 0);
    }

    /** Put publishes only once more than a quarter of the ring is reserved. */
    method BurstPut()
      requires Valid()
      modifies this`sync, this`rhp, this`hdrCursor, this`offCursor, this`pktsAvailable, this`queued, this`sent, port
      ensures Valid() && sent + queued == old(sent + queued) && port.syncs >= old(port.syncs)
      ensures old(|queued|) > items / 4 || old(|queued|) == 0 ==> queued == []
      ensures 0 < old(|queued|) <= items / 4 ==> queued == old(queued) && sent == old(sent) && unchanged(port) && pktsAvailable == old(pktsAvailable)
    {
      hide Mask;
      ModAdd(port.published, |queued|, items);
      if port.granted > 0 { QueuedDistance(rhp, port.published, |queued|, items); }
      if Mask(rhp - sync.hwptr, items) > items / 4 {
        Flush();
        assert sent + queued == sent;
      }
    }

    /** The offsets of the next `k` cells behind the reserved ones. */
    ghost function Offsets(k: nat): (os: seq<nat>)
      requires off.Length == items
      reads this`queued, port`published, off
    {
      OffsetsFrom(off[..], port.published + |queued|, k)
    }

    lemma OffsetsAre(k: nat)
      requires off.Length == items
      ensures |Offsets(k)| == k && forall i :: 0 <= i < k ==> Offsets(k)[i] == off[Cell(|queued| + i)]
      ensures Memory() ==> InMemory(buffer[..], Offsets(k), frameMin)
    {
      hide Mask;
    }

    lemma OffsetsSnoc(k: nat)
      requires off.Length == items
      ensures Offsets(k + 1) == Offsets(k) + [off[Cell(|queued| + k)]]
    {
      hide Mask;
    }

    lemma NextCleared(m: seq<Byte>, reqs: seq<Request>, i: nat, at: nat)
      requires off.Length == items && Memory() && |m| == buffer.Length && i < |reqs| && at == off[Cell(|queued| + i)]
      ensures InMemory(m, Offsets(i), frameMin) && InMemory(m, Offsets(i + 1), frameMin)
      ensures |Offsets(i)| == i && |Offsets(i + 1)| == i + 1 && at + 2 * frameMin <= |m|
      ensures ClearedAll(m, Offsets(i + 1), reqs, frameMin) == Cleared(ClearedAll(m, Offsets(i), reqs, frameMin), at, reqs[i], frameMin)
    {
      hide Mask, Cleared, Offsets, Cell;
      OffsetsAre(i);
      OffsetsAre(i + 1);
      OffsetsSnoc(i);
      ClearedSnoc(m, Offsets(i), reqs, frameMin, at);
    }

    /** Clear the tail of a short frame. */
    method Clear(at: nat, r: Request)
      requires at + 2 * frameMin <= buffer.Length
      modifies buffer
      ensures buffer[..] == Cleared(old(buffer[..]), at, r, frameMin)
    {
      var size := r.headerLen + r.dataLen;
      if size < frameMin {
        Fill(buffer, at + r.headerLen + size, at + r.headerLen + frameMin, 0);
      }
    }

    /** Write the headers of a burst behind the reserved ones, stopping at the first
        packet that is too large; what is reserved stays as it was.  Of packet memory, the tails
        of the short frames among the first `k` are cleared. */
    method WriteHeaders(reqs: seq<Request>) returns (slots: seq<Slot>, ok: bool, ghost k: nat)
      requires Valid() && |reqs| <= pktsAvailable
      modifies hdr, buffer
      ensures Valid() && k <= |reqs| && (ok ==> k == |reqs|)
      ensures |Offsets(k)| == k && InMemory(old(buffer[..]), Offsets(k), frameMin)
      ensures buffer[..] == ClearedAll(old(buffer[..]), Offsets(k), reqs, frameMin)
      ensures ok <==> forall r :: r in reqs ==> !TooLarge(r, frameMin, frameMax)
      ensures ok ==> |slots| == |reqs| && forall i :: 0 <= i < |reqs| ==>
                var cell := Cell(|queued| + i);
                hdr[cell] == HeaderOf(reqs[i], frameMin) && slots[i] == Slot(off[cell], off[cell] + reqs[i].headerLen)
    {
      hide Mask, HeaderOf, TooLarge, Linked, Coherent, Cell, Cleared, ClearedAll, InMemory, Offsets;
      slots, ok, k := [], true, 0;
      NoneOffset(reqs);
      for i := 0 to |reqs|
        invariant Valid() && |slots| == i && k == i && forall j :: 0 <= j < i ==> !TooLarge(reqs[j], frameMin, frameMax)
        invariant |Offsets(k)| == k && InMemory(old(buffer[..]), Offsets(k), frameMin)
        invariant buffer[..] == ClearedAll(old(buffer[..]), Offsets(k), reqs, frameMin)
        invariant forall j :: 0 <= j < i ==>
                    var cell := Cell(|queued| + j);
                    hdr[cell] == HeaderOf(reqs[j], frameMin) && slots[j] == Slot(off[cell], off[cell] + reqs[j].headerLen)
      {
        var r := reqs[i];
        if TooLarge(r, frameMin, frameMax) {
          ok := false;
          return;
        }
        Behind(i);
        var cell := Mask(hdrCursor + i, items);
        var at := off[Mask(offCursor + i, items)];
        NextCleared(old(buffer[..]), reqs, i, at);
        Clear(at, r);
        hdr[cell] := HeaderOf(r, frameMin);
        slots := slots + [Slot(at, at + r.headerLen)];
        k := k + 1;
      }
    }

    /** The cell `i` places behind the reserved headers, reached through either cursor,
        is none of the cells before it. */
    lemma Behind(i: nat)
      requires Valid() && i < pktsAvailable
      ensures hdrCursor == offCursor && 0 <= hdrCursor && hdrCursor + i < 2 * items
      ensures Mask(hdrCursor + i, items) == Cell(|queued| + i)
      ensures forall j :: 0 <= j < |queued| + i ==> Cell(j) != Cell(|queued| + i)
    {
      hide Mask;
      ModAdd(port.published, |queued| + i, items);
      forall j | 0 <= j < |queued| + i ensures Cell(j) != Cell(|queued| + i) {
        CellsDiffer(port.published + j, port.published + |queued| + i, items);
      }
    }

    /** Reserve headers for a whole burst, or reserve nothing.  Headers at hand are used without a
        lock; a burst of sendable packets is refused only after a lock that another subscriber
        held or that granted everything hardware has read and still too little.  Where the caller
        may write is where a receiver of the header and the offset finds the packet. */
    method BurstGet(reqs: seq<Request>) returns (slots: seq<Slot>, cnt: nat, ghost offs: seq<nat>)
      requires Valid()
      modifies this`sync, this`rhp, this`hdrCursor, this`offCursor, this`pktsAvailable, this`queued, port, hdr, buffer
      ensures Valid() && cnt == |slots| && (cnt == 0 || cnt == |reqs|)
      ensures queued == old(queued) + HeadersOf(reqs[..cnt], frameMin)
      ensures old(|queued|) > 0 ==> port.published == old(port.published)
      ensures |offs| <= |reqs| && (cnt > 0 ==> |offs| == |reqs|) && |old(queued)| + |offs| < items
      ensures forall i :: 0 <= i < |offs| ==> offs[i] == off[Cell(|old(queued)| + i)]
      ensures InMemory(old(buffer[..]), offs, frameMin) && buffer[..] == ClearedAll(old(buffer[..]), offs, reqs, frameMin)
      ensures cnt > 0 ==> forall r :: r in reqs ==> !TooLarge(r, frameMin, frameMax)
      ensures cnt < |reqs| ==> pktsAvailable < |reqs| || exists r :: r in reqs && TooLarge(r, frameMin, frameMax)
      ensures old(pktsAvailable) >= |reqs| ==> unchanged(port)
      ensures (forall r :: r in reqs ==> !TooLarge(r, frameMin, frameMax)) ==>
                (old(pktsAvailable) >= |reqs| ==> cnt == |reqs|) && (cnt < |reqs| ==> Refused(old(port.syncs), |reqs|))
      ensures port.syncs >= old(port.syncs) && (cnt == 0 ==> queued == old(queued))
      ensures forall i :: 0 <= i < cnt && reqs[i].headerLen < 0x100 ==>
                var p := RxV2.Decode(RxV2.Entry(HeaderOf(reqs[i], frameMin), off[Cell(|old(queued)| + i)]));
                p.header == slots[i].header && p.data == slots[i].data
      ensures forall i :: 0 <= i < cnt ==>
                var buffer := off[Cell(|old(queued)| + i)];
                slots[i] == Slot(buffer, buffer + reqs[i].headerLen)
    {
      hide Mask, HeaderOf, TooLarge, Cell, Coherent, Linked, Valid, ClearedAll;
      slots, cnt, offs := [], 0, [];
      NothingCleared(reqs);
      Room();
      if pktsAvailable < |reqs| {
        Lock();
        Room();
        if pktsAvailable < |reqs| || |reqs| == 0 {
          return;
        }
      }
      var ok;
      ghost var k;
      slots, ok, k := WriteHeaders(reqs);
      offs := Offsets(k);
      OffsetsAre(k);
      if !ok {
        return [], 0, offs;
      }
      cnt := |reqs|;
      assert reqs[..cnt] == reqs;
      forall i | 0 <= i < cnt && reqs[i].headerLen < 0x100
        ensures
          var p := RxV2.Decode(RxV2.Entry(HeaderOf(reqs[i], frameMin), off[Cell(|queued| + i)]));
          p.header == slots[i].header && p.data == slots[i].data
      {
        Found(reqs[i], off[Cell(|queued| + i)]);
      }
      Commit(reqs);
    }

    /** A lock was made and left fewer than `count` headers. */
    ghost predicate Refused(before: nat, count: nat)
      reads this`queued, port
    {
      port.syncs > before && port.AllGranted() && port.granted < |queued| + count
    }

    lemma StillRefused(before: nat, earlier: nat, count: nat)
      requires Refused(before, count) && earlier <= before
      ensures Refused(earlier, count) && port.syncs > before
    {
    }

    /** Decoding finds the metadata at the offset and the data behind it. */
    lemma Found(r: Request, offset: nat)
      requires r.headerLen < 0x100
      ensures
        var p := RxV2.Decode(RxV2.Entry(HeaderOf(r, frameMin), offset));
        p.header == offset && p.data == offset + r.headerLen
    {
    }

    lemma NoneOffset(reqs: seq<Request>)
      requires off.Length == items
      ensures Offsets(0) == [] && InMemory(buffer[..], Offsets(0), frameMin) && ClearedAll(buffer[..], Offsets(0), reqs, frameMin) == buffer[..]
    {
    }

    lemma NothingCleared(reqs: seq<Request>)
      ensures InMemory(buffer[..], [], frameMin) && ClearedAll(buffer[..], [], reqs, frameMin) == buffer[..]
    {
    }

    lemma Room()
      requires Valid()
      ensures off.Length == items && |queued| + pktsAvailable < items
    {
    }

    /** Move every cursor over the headers just written. */
    method Commit(reqs: seq<Request>)
      requires Valid() && |reqs| <= pktsAvailable
      requires forall i :: 0 <= i < |reqs| ==> hdr[Cell(|queued| + i)] == HeaderOf(reqs[i], frameMin)
      modifies this`rhp, this`hdrCursor, this`offCursor, this`pktsAvailable, this`queued
      ensures Valid() && queued == old(queued) + HeadersOf(reqs, frameMin)
    {
      hide Mask, HeaderOf, Linked;
      ghost var q := queued + HeadersOf(reqs, frameMin);
      forall i | 0 <= i < |q| ensures hdr[Cell(i)] == q[i] {
        if i >= |queued| { assert hdr[Cell(|queued| + (i - |queued|))] == HeaderOf(reqs[i - |queued|], frameMin); }
      }
      hide Cell;
      var cnt := |reqs|;
      hdrCursor, offCursor, rhp := hdrCursor + cnt, offCursor + cnt, rhp + cnt;
      pktsAvailable, queued := pktsAvailable - cnt, q;
    }
  }

  lemma QueuedDistance(r: nat, w: nat, k: nat, n: Pos)
    requires r == Mask(w, n) + k && k < n
    ensures Mask(r - Mask(w, n), n) == k
  {
    InLap(k, n);
  }
}
