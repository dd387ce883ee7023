/** Sending copies of payloads over a version 2 queue: reserve, copy, put, and try again a
bounded number of times. */
module BurstCopy {
  import opened Octets
  import opened Ring
  import V2 = TxV2

  const ATTEMPTS := 1000

  /** Requests for packets without metadata; the flags of the descriptors are never set. */
  function Lengths(payloads: seq<seq<Byte>>, flags: seq<nat>): (rs: seq<V2.Request>)
    requires |flags| == |payloads|
    ensures |rs| == |payloads| && forall i :: 0 <= i < |rs| ==> rs[i] == V2.Request(0, |payloads[i]|, flags[i])
  {
    seq(|payloads|, i requires 0 <= i < |payloads| => V2.Request(0, |payloads[i]|, flags[i]))
  }

  /** The headers state no metadata and the lengths of the padded payloads. */
  predicate Describe(hs: seq<V2.Header>, payloads: seq<seq<Byte>>, frameMin: nat) {
    |hs| == |payloads| && forall i :: 0 <= i < |hs| ==>
      hs[i].headerSize == 0 && hs[i].packetSize == |Enlarged(payloads[i], frameMin)| % 0x1_0000
  }

  lemma DescribeMore(hs: seq<V2.Header>, ps: seq<seq<Byte>>, hs': seq<V2.Header>, ps': seq<seq<Byte>>, frameMin: nat)
    requires Describe(hs, ps, frameMin) && Describe(hs', ps', frameMin)
    ensures Describe(hs + hs', ps + ps', frameMin)
  {
    hide Enlarged;
    var h, p := hs + hs', ps + ps';
    forall i | 0 <= i < |h|
      ensures h[i].headerSize == 0 && h[i].packetSize == |Enlarged(p[i], frameMin)| % 0x1_0000
    {
      if i < |hs| { assert h[i] == hs[i] && p[i] == ps[i]; } else { assert h[i] == hs'[i - |hs|] && p[i] == ps'[i - |hs|]; }
    }
  }

  lemma DescribeReserved(payloads: seq<seq<Byte>>, flags: seq<nat>, frameMin: nat)
    requires |flags| == |payloads|
    ensures Describe(V2.HeadersOf(Lengths(payloads, flags), frameMin), payloads, frameMin)
  {
  }

  /** Memory holds `f` at `at`. */
  predicate HoldsAt(m: seq<Byte>, at: nat, f: seq<Byte>) {
    at + |f| <= |m| && m[at..at + |f|] == f
  }

  /** The tail of a short frame at `at` is zero. */
  predicate TailZero(m: seq<Byte>, at: nat, p: seq<Byte>, frameMin: nat) {
    at + frameMin <= |m| && forall x :: at + |p| <= x < at + frameMin ==> m[x] == 0
  }

  /** Memory changed outside a stretch only: what lay there is still there. */
  lemma HoldsOn(m: seq<Byte>, m': seq<Byte>, at: nat, f: seq<Byte>)
    requires |m| == |m'| && HoldsAt(m, at, f) && forall x :: at <= x < at + |f| ==> m'[x] == m[x]
    ensures HoldsAt(m', at, f)
  {
    assert m'[at..at + |f|] == m[at..at + |f|];
  }

  lemma HoldsNew(m: seq<Byte>, at: nat, p: seq<Byte>, frameMin: nat)
    requires at + |p| <= |m| && m[at..at + |p|] == p && TailZero(m, at, p, frameMin)
    ensures HoldsAt(m, at, Enlarged(p, frameMin))
  {
    var f := Enlarged(p, frameMin);
    forall k | 0 <= k < |f| ensures m[at..at + |f|][k] == f[k] {
      if k < |p| { assert m[at..at + |p|][k] == p[k]; }
    }
  }

  class CopyQueue {
    const q: V2.TxQueue
    /** Payloads of the frames reserved and not published; payloads published so far. */
    ghost var waiting: seq<seq<Byte>>
    ghost var published: seq<seq<Byte>>

    ghost predicate Valid()
      reads this, q, q.port, q.hdr, q.off, q.buffer
    {
      && q.Valid() && Buffers() && Describe(q.queued, waiting, q.frameMin) && Describe(q.sent, published, q.frameMin)
      && forall i :: 0 <= i < |waiting| ==> Holds(i, waiting[i])
    }

    /** Every entry of the offset ring has a buffer of its own. */
    ghost predicate Buffers()
      reads q.off
    {
      && q.off.Length == q.items && q.frameMin <= q.frameMax
      && (forall c :: 0 <= c < q.items ==> q.off[c] + q.frameMax <= q.buffer.Length)
      && (forall c, d :: 0 <= c < q.items && 0 <= d < q.items && c != d ==>
            q.off[c] + q.frameMax <= q.off[d] || q.off[d] + q.frameMax <= q.off[c])
    }

    /** The buffer of the reserved frame `i` holds `p`, padded. */
    ghost predicate Holds(i: nat, p: seq<Byte>)
      requires Buffers()
      reads q.port`published, q.off, q.buffer
    {
      |p| <= q.frameMax && HoldsAt(q.buffer[..], q.off[q.Cell(i)], Enlarged(p, q.frameMin))
    }

    constructor (q: V2.TxQueue)
      requires q.Valid() && q.queued == q.sent == [] && q.frameMin <= q.frameMax
      requires forall c :: 0 <= c < q.items ==> q.off[c] + q.frameMax <= q.buffer.Length
      requires forall c, d :: 0 <= c < q.items && 0 <= d < q.items && c != d ==>
                 q.off[c] + q.frameMax <= q.off[d] || q.off[d] + q.frameMax <= q.off[c]
      ensures Valid() && this.q == q && waiting == published == []
    {
      this.q := q;
      waiting, published := [], [];
    }

    /** Bytes `a` up to `b` belong to no other buffer than that of cell `i`. */
    lemma Apart(i: nat, j: nat)
      requires q.Valid() && Buffers() && i < j && j < q.items
      ensures q.off[q.Cell(i)] + q.frameMax <= q.off[q.Cell(j)] || q.off[q.Cell(j)] + q.frameMax <= q.off[q.Cell(i)]
    {
      hide Mask;
      CellsDiffer(q.port.published + i, q.port.published + j, q.items);
    }

    /** Copy one payload into its buffer; nothing else in memory changes. */
    method CopyOne(ghost i: nat, at: nat, p: seq<Byte>)
      requires q.Valid() && Buffers() && |p| <= q.frameMax && at == q.off[q.Cell(i)] && TailZero(q.buffer[..], at, p, q.frameMin)
      modifies q.buffer
      ensures q.Valid() && Holds(i, p)
      ensures forall x :: 0 <= x < q.buffer.Length && !(at <= x < at + |p|) ==> q.buffer[x] == old(q.buffer[x])
    {
      hide V2.TxQueue.Valid, V2.TxQueue.Cell, HoldsAt, Enlarged;
      Apartness();
      Copy(q.buffer, at, p);
      HoldsNew(q.buffer[..], at, p, q.frameMin);
    }

    lemma Apartness()
      requires q.Valid()
      ensures q.buffer as object != q.off as object && q.buffer as object != q.hdr as object && |q.queued| < q.items
    {
    }

    /** The payloads from `k` on still have clear tails. */
    ghost predicate Ready(slots: seq<V2.Slot>, payloads: seq<seq<Byte>>, k: nat)
      reads q.buffer
    {
      |slots| == |payloads| && forall i :: k <= i < |payloads| ==> TailZero(q.buffer[..], slots[i].data, payloads[i], q.frameMin)
    }

    /** Copy all payloads into the buffers just reserved. */
    method CopyAll(slots: seq<V2.Slot>, payloads: seq<seq<Byte>>)
      requires q.Valid() && Buffers() && Ready(slots, payloads, 0) && |waiting| + |payloads| == |q.queued|
      requires forall i :: 0 <= i < |waiting| ==> Holds(i, waiting[i])
      requires forall i :: 0 <= i < |payloads| ==> |payloads[i]| <= q.frameMax && slots[i].data == q.off[q.Cell(|waiting| + i)]
      modifies this`waiting, q.buffer
      ensures q.Valid() && waiting == old(waiting) + payloads && forall i :: 0 <= i < |waiting| ==> Holds(i, waiting[i])
    {
      hide V2.TxQueue.Valid, V2.TxQueue.Cell, Buffers, HoldsAt, TailZero, Enlarged;
      Apartness();
      ghost var w0 := waiting;
      assert w0 + payloads[..0] == w0;
      for i := 0 to |payloads|
        invariant q.Valid() && Buffers() && waiting == w0 + payloads[..i] && Ready(slots, payloads, i)
        invariant forall j :: 0 <= j < |waiting| ==> Holds(j, waiting[j])
      {
        ghost var m := q.buffer[..];
        CopyOne(|w0| + i, slots[i].data, payloads[i]);
        forall j | 0 <= j < |waiting| ensures Holds(j, waiting[j]) {
          Apart(j, |w0| + i);
          StillHolds(m, j, waiting[j], slots[i].data, payloads[i]);
        }
        forall j | i < j < |payloads| ensures TailZero(q.buffer[..], slots[j].data, payloads[j], q.frameMin) {
          Apart(|w0| + i, |w0| + j);
          StillZero(m, slots[j].data, payloads[j], slots[i].data, payloads[i]);
        }
        assert w0 + payloads[..i] + [payloads[i]] == w0 + payloads[..i + 1];
        waiting := waiting + [payloads[i]];
      }
      assert payloads[..|payloads|] == payloads;
    }

    /** A copy elsewhere leaves a buffer as it was in `m`. */
    lemma StillHolds(m: seq<Byte>, j: nat, f: seq<Byte>, at: nat, p: seq<Byte>)
      requires Buffers() && |p| <= q.frameMax && |m| == q.buffer.Length
      requires |f| <= q.frameMax && HoldsAt(m, q.off[q.Cell(j)], Enlarged(f, q.frameMin))
      requires q.off[q.Cell(j)] + q.frameMax <= at || at + q.frameMax <= q.off[q.Cell(j)]
      requires forall x :: 0 <= x < q.buffer.Length && !(at <= x < at + |p|) ==> q.buffer[x] == m[x]
      ensures Holds(j, f)
    {
      hide HoldsAt, Mask;
      HoldsOn(m, q.buffer[..], q.off[q.Cell(j)], Enlarged(f, q.frameMin));
    }

    lemma StillZero(m: seq<Byte>, b: nat, f: seq<Byte>, at: nat, p: seq<Byte>)
      requires Buffers() && TailZero(m, b, f, q.frameMin) && |p| <= q.frameMax && |m| == q.buffer.Length
      requires b + q.frameMax <= at || at + q.frameMax <= b
      requires forall x :: 0 <= x < q.buffer.Length && !(at <= x < at + |p|) ==> q.buffer[x] == m[x]
      ensures TailZero(q.buffer[..], b, f, q.frameMin)
    {
    }

    /** Publish what the queue decides to publish. */
    method Put()
      requires Valid()
      modifies this`waiting, this`published, q`sync, q`rhp, q`hdrCursor, q`offCursor, q`pktsAvailable, q`queued, q`sent, q.port
      ensures Valid() && published + waiting == old(published + waiting) && q.port.syncs >= old(q.port.syncs)
      ensures |q.queued| <= q.items / 4
      ensures q.queued == [] || (unchanged(q.port) && q.queued == old(q.queued) && q.pktsAvailable == old(q.pktsAvailable))
      ensures forall before: nat, count: nat :: old(q.Refused(before, count)) && q.queued != [] ==> q.Refused(before, count)
    {
      hide V2.TxQueue.Valid, Buffers, Mask, Describe;
      ghost var n, hs := |q.queued|, q.sent + q.queued;
      SameCount();
      q.BurstPut();
      if n == 0 || n > q.items / 4 {
        assert q.sent == hs;
        DescribeMore(old(q.sent), published, old(q.queued), waiting, q.frameMin);
        published, waiting := published + waiting, [];
        assert published + waiting == published;
        DescribeNone(q.frameMin);
      }
    }

    lemma SameCount()
      requires Valid()
      ensures |waiting| == |q.queued|
    {
    }

    lemma DescribeNone(frameMin: nat)
      ensures Describe([], [], frameMin)
    {
    }

    /** No payload is longer than the longest frame. */
    predicate AllShort(payloads: seq<seq<Byte>>) {
      forall i :: 0 <= i < |payloads| ==> |payloads[i]| <= q.frameMax
    }

    /** Send copies of `payloads`: all of them, in order, or none.  Reserved buffers hold the
        payloads padded to the shortest frame, and the headers published state those lengths.
        Enough headers at hand are used; sendable payloads are given up only after a thousand
        locks, and if anything is still reserved, the last of them left too few headers. */
    method Send(payloads: seq<seq<Byte>>, flags: seq<nat>) returns (packetsSent: nat)
      requires Valid() && |flags| == |payloads|
      modifies this, q`sync, q`rhp, q`hdrCursor, q`offCursor, q`pktsAvailable, q`queued, q`sent, q.port, q.hdr, q.buffer
      ensures Valid() && (packetsSent == 0 || packetsSent == |payloads|)
      ensures published + waiting == old(published + waiting) + payloads[..packetsSent]
      ensures AllShort(payloads) && old(q.pktsAvailable) >= |payloads| ==> packetsSent == |payloads|
      ensures AllShort(payloads) && packetsSent == 0 && payloads != [] ==>
                q.port.syncs >= old(q.port.syncs) + 1000 && (q.queued == [] || q.Refused(old(q.port.syncs), |payloads|))
      ensures !AllShort(payloads) ==> packetsSent == 0
      ensures payloads != [] ==> |q.queued| <= q.items / 4
    {
      hide V2.TxQueue.Valid, V2.TxQueue.Cell, Mask, Valid, AllShort, V2.TxQueue.Refused;
      packetsSent := 0;
      var attempts := 0;
      while packetsSent < |payloads| && attempts < ATTEMPTS
        invariant Valid() && attempts <= ATTEMPTS && (packetsSent == 0 || packetsSent == |payloads|)
        invariant published + waiting == old(published + waiting) + payloads[..packetsSent]
        invariant attempts == 0 ==> q.pktsAvailable == old(q.pktsAvailable)
        invariant attempts > 0 ==> |q.queued| <= q.items / 4
        invariant attempts == 0 ==> packetsSent == 0
        invariant attempts > 0 && AllShort(payloads) && old(q.pktsAvailable) >= |payloads| ==> packetsSent == |payloads|
        invariant AllShort(payloads) && packetsSent == 0 ==> q.port.syncs >= old(q.port.syncs) + attempts
        invariant AllShort(payloads) && packetsSent == 0 && attempts > 0 ==> q.queued == [] || q.Refused(old(q.port.syncs), |payloads|)
        invariant !AllShort(payloads) ==> packetsSent == 0
      {
        assert payloads[packetsSent..] == payloads && flags[packetsSent..] == flags;
        ghost var before := q.port.syncs;
        var count := Reserve(payloads[packetsSent..], flags[packetsSent..]);
        if count == 0 && AllShort(payloads) { q.StillRefused(before, old(q.port.syncs), |payloads|); }
        Put();
        packetsSent := packetsSent + count;
        attempts := attempts + 1;
        assert payloads[..|payloads|] == payloads;
      }
    }

    /** One attempt: reserve frames for all payloads and copy them, or do nothing. */
    method Reserve(payloads: seq<seq<Byte>>, flags: seq<nat>) returns (count: nat)
      requires Valid() && |flags| == |payloads|
      modifies this`waiting, q`sync, q`rhp, q`hdrCursor, q`offCursor, q`pktsAvailable, q`queued, q.port, q.hdr, q.buffer
      ensures Valid() && (count == 0 || count == |payloads|)
      ensures waiting == old(waiting) + payloads[..count] && published == old(published)
      ensures AllShort(payloads) && old(q.pktsAvailable) >= |payloads| ==> count == |payloads|
      ensures AllShort(payloads) && count < |payloads| ==> q.Refused(old(q.port.syncs), |payloads|)
      ensures !AllShort(payloads) ==> count == 0
    {
      hide V2.TxQueue.Valid, Buffers, Mask, Describe, V2.HeaderOf, AllShort, V2.TxQueue.Refused, V2.TxQueue.Cell, HoldsAt, TailZero;
      SameCount();
      var slots;
      slots, count := Get(payloads, flags);
      assert waiting + payloads[..0] == waiting && payloads[..|payloads|] == payloads;
      if count == 0 {
        assert q.queued == old(q.queued) + [];
        assert q.queued == old(q.queued);
      } else {
        CopyAll(slots, payloads);
        DescribeReserved(payloads, flags, q.frameMin);
        DescribeMore(old(q.queued), old(waiting), V2.HeadersOf(Lengths(payloads, flags), q.frameMin), payloads, q.frameMin);
      }
    }

    /** Reserve frames for all payloads or for none; either way what waits for publication stays in
        its buffers. */
    method Get(payloads: seq<seq<Byte>>, flags: seq<nat>) returns (slots: seq<V2.Slot>, count: nat)
      requires Valid() && |flags| == |payloads|
      modifies q`sync, q`rhp, q`hdrCursor, q`offCursor, q`pktsAvailable, q`queued, q.port, q.hdr, q.buffer
      ensures q.Valid() && Buffers() && (count == 0 || count == |payloads|)
      ensures q.queued == old(q.queued) + if count == 0 then [] else V2.HeadersOf(Lengths(payloads, flags), q.frameMin)
      ensures forall i :: 0 <= i < |waiting| ==> Holds(i, waiting[i])
      ensures count > 0 ==> Ready(slots, payloads, 0)
      ensures count > 0 ==> forall i :: 0 <= i < |payloads| ==>
                              |payloads[i]| <= q.frameMax && slots[i].data == q.off[q.Cell(|waiting| + i)]
      ensures AllShort(payloads) && old(q.pktsAvailable) >= |payloads| ==> count == |payloads|
      ensures AllShort(payloads) && count < |payloads| ==> q.Refused(old(q.port.syncs), |payloads|)
      ensures !AllShort(payloads) ==> count == 0
    {
      hide V2.TxQueue.Valid, Mask, Describe, V2.ClearedAll, V2.InMemory, V2.HeaderOf;
      ghost var offs;
      ghost var reqs := Lengths(payloads, flags);
      SameCount();
      ghost var m := q.buffer[..];
      Sizes(payloads, flags);
      hide AllShort, V2.TooLarge, V2.TxQueue.Refused;
      slots, count, offs := q.BurstGet(Lengths(payloads, flags));
      assert forall i :: 0 <= i < |waiting| ==> q.Cell(i) == old(q.Cell(i));
      hide V2.TxQueue.Cell, HoldsAt, TailZero;
      forall i | 0 <= i < |waiting| ensures Holds(i, waiting[i]) {
        Spared(m, i, waiting[i], |waiting|, offs, reqs);
      }
      assert reqs[..0] == [] && reqs[..|reqs|] == reqs;
      if count > 0 {
        WithinMax(payloads);
        forall i | 0 <= i < |payloads| ensures TailZero(q.buffer[..], slots[i].data, payloads[i], q.frameMin) {
          Tail(m, offs, payloads, flags, i);
        }
      }
    }

    /** Clearing tails behind the reserved frames spares those. */
    lemma Spared(m: seq<Byte>, i: nat, p: seq<Byte>, from: nat, offs: seq<nat>, reqs: seq<V2.Request>)
      requires q.Valid() && Buffers() && |p| <= q.frameMax && HoldsAt(m, q.off[q.Cell(i)], Enlarged(p, q.frameMin))
      requires |offs| <= |reqs| && i < from && from + |offs| < q.items
      requires forall r :: r in reqs ==> r.headerLen == 0
      requires forall k :: 0 <= k < |offs| ==> offs[k] == q.off[q.Cell(from + k)]
      requires V2.InMemory(m, offs, q.frameMin) && q.buffer[..] == V2.ClearedAll(m, offs, reqs, q.frameMin)
      ensures Holds(i, p)
    {
      hide V2.TxQueue.Valid, Mask, V2.ClearedAll, V2.InMemory, HoldsAt, V2.TxQueue.Cell;
      var at, f := q.off[q.Cell(i)], Enlarged(p, q.frameMin);
      HoldsInside(m, at, f);
      forall k | 0 <= k < |offs| ensures at + q.frameMax <= offs[k] || offs[k] + q.frameMax <= at {
        Apart(i, from + k);
      }
      forall x | at <= x < at + |f| ensures q.buffer[..][x] == m[x] {
        V2.ClearedSpares(m, offs, reqs, q.frameMin, x);
      }
      HoldsOn(m, q.buffer[..], at, f);
    }

    lemma HoldsInside(m: seq<Byte>, at: nat, f: seq<Byte>)
      requires HoldsAt(m, at, f)
      ensures at + |f| <= |m|
    {
    }

    lemma Tail(m: seq<Byte>, offs: seq<nat>, payloads: seq<seq<Byte>>, flags: seq<nat>, i: nat)
      requires |flags| == |payloads| == |offs| && i < |offs| && V2.InMemory(m, offs, q.frameMin)
      ensures TailZero(V2.ClearedAll(m, offs, Lengths(payloads, flags), q.frameMin), offs[i], payloads[i], q.frameMin)
    {
      hide V2.ClearedAll;
      forall x | offs[i] + |payloads[i]| <= x < offs[i] + q.frameMin
        ensures V2.ClearedAll(m, offs, Lengths(payloads, flags), q.frameMin)[x] == 0
      {
        V2.ClearedTail(m, offs, Lengths(payloads, flags), q.frameMin, i, x);
      }
    }

    lemma Sizes(payloads: seq<seq<Byte>>, flags: seq<nat>)
      requires |flags| == |payloads| && q.frameMin <= q.frameMax
      ensures AllShort(payloads) <==> forall r :: r in Lengths(payloads, flags) ==> !V2.TooLarge(r, q.frameMin, q.frameMax)
    {
      if forall r :: r in Lengths(payloads, flags) ==> !V2.TooLarge(r, q.frameMin, q.frameMax) {
        forall i | 0 <= i < |payloads| ensures |payloads[i]| <= q.frameMax { assert Lengths(payloads, flags)[i] in Lengths(payloads, flags); }
      }
    }

    lemma WithinMax(payloads: seq<seq<Byte>>)
      requires AllShort(payloads)
      ensures forall i :: 0 <= i < |payloads| ==> |payloads[i]| <= q.frameMax
    {
    }
  }
}
