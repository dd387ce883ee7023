/** The receive half of a version 2 queue: hardware fills a ring of packet headers and
a ring of buffer offsets; software walks both with one index that it reduces lazily. */
module RxV2 {
  import opened Ring
  import Driver

  datatype Header = Header(packetSize: nat, headerSize: nat, flags: nat)

  /** One packet as hardware describes it: its header and where its buffer is. */
  datatype Entry = Entry(hdr: Header, offset: nat)

  datatype Packet = Packet(header: nat, headerLen: nat, data: nat, dataLen: nat, flags: nat)

  /** The packet record the caller gets for an entry. */
  function Decode(e: Entry): Packet {
    Packet(e.offset, e.hdr.headerSize, e.offset + e.hdr.headerSize,
           (e.hdr.packetSize - e.hdr.headerSize) % 0x1_0000_0000, e.hdr.flags % 16)
  }

  /** Metadata and data split the buffer at the entry's offset without gap or overlap if and only
      if the metadata length is within the packet. */
  lemma DecodeSplitsIff(e: Entry)
    requires e.hdr.packetSize < 0x1_0000 && e.hdr.headerSize < 0x1_0000
    ensures
      var p := Decode(e);
      && p.header == e.offset && p.header + p.headerLen == p.data
      && (p.data + p.dataLen == e.offset + e.hdr.packetSize <==> e.hdr.headerSize <= e.hdr.packetSize)
  {
  }

  /** Where the packets lie that are handed out for entries `es`, field by field. */
  lemma Told(es: seq<Entry>)
    ensures forall i :: 0 <= i < |es| ==>
              var p, e := DecodeAll(es)[i], es[i];
              && p.header == e.offset && p.headerLen == e.hdr.headerSize && p.data == e.offset + e.hdr.headerSize
              && p.dataLen == (e.hdr.packetSize - e.hdr.headerSize) % 0x1_0000_0000 && p.flags == e.hdr.flags % 16
  {
  }

  function DecodeAll(es: seq<Entry>): (ps: seq<Packet>)
    ensures |ps| == |es|
    ensures forall i :: 0 <= i < |ps| ==> ps[i] == Decode(es[i])
  {
    seq(|es|, i requires 0 <= i < |es| => Decode(es[i]))
  }

  /** A longer stream decodes to the same packets, and more. */
  lemma DecodedMore(s: seq<Entry>, t: seq<Entry>, a: nat, r: nat, e: nat)
    requires s <= t && a <= r <= |s| && r <= e <= |t|
    ensures DecodeAll(s[a..r]) + DecodeAll(t[r..e]) == DecodeAll(t[a..e])
    ensures s[a..r] == t[a..r]
  {
    hide Decode;
    assert s[a..r] == t[a..r];
    assert t[a..e] == t[a..r] + t[r..e];
  }

  class RxQueue {
    const items: Pos
    const hdr: array<Header>
    const off: array<nat>
    var sync: Driver.Sync
    var rhp: nat
    var pktsAvailable: nat
    /** Unbounded positions: released by software, handed out, written by hardware. */
    var released: nat
    var read: nat
    var written: nat
    /** Everything hardware wrote since position `base`. */
    ghost var base: nat
    ghost var stream: seq<Entry>

    ghost predicate Valid()
      reads this, hdr, off
    {
      Linked() && Cursor()
    }

    /** The rings hold every entry written and not released. */
    ghost predicate Linked()
      reads this`base, this`released, this`written, this`stream, this`sync, hdr, off
    {
      && hdr.Length == off.Length == items
      && base <= released && released <= written <= released + items - 1
      && |stream| == written - base
      && sync.swptr == Mask(released, items)
      && forall x :: released <= x < written ==>
           hdr[Mask(x, items)] == stream[x - base].hdr && off[Mask(x, items)] == stream[x - base].offset
    }

    /** The lazily reduced index follows the read position and never leaves the doubled
        mapping. */
    ghost predicate Cursor()
      reads this
    {
      && released <= read && read + pktsAvailable <= written
      && Mask(rhp, items) == Mask(read, items) && rhp + pktsAvailable < 2 * items
    }

    constructor (items: Pos, start: nat)
      ensures Valid() && read == released == written == base == start && stream == []
      ensures this.items == items && fresh(hdr) && fresh(off)
    {
      this.items := items;
      hdr := new Header[items](_ => Header(0, 0, 0));
      off := new nat[items](_ => 0);
      sync := Driver.Sync(Mask(start, items), Mask(start, items));
      rhp, pktsAvailable := Mask(start, items), 0;
      released, read, written, base, stream := start, start, start, start, [];
      ModAdd(start, 0, items);
    }

    /** Hardware writes an entry into released space. */
    method Arrive(e: Entry)
      requires Linked() && written < released + items - 1
      modifies this`written, this`stream, hdr, off
      ensures Linked() && (old(Cursor()) ==> Cursor()) && written == old(written) + 1 && stream == old(stream) + [e]
    {
      hide Mask;
      forall x | released <= x < written ensures Mask(x, items) != Mask(written, items) {
        CellsDiffer(x, written, items);
      }
      hdr[Mask(written, items)] := e.hdr;
      off[Mask(written, items)] := e.offset;
      stream := stream + [e];
      written := written + 1;
    }

    /** Hardware may append entries as far as the released space allows. */
    method Hardware()
      requires Linked()
      modifies this`written, this`stream, hdr, off
      ensures Linked() && old(written) <= written && old(stream) <= stream
    {
      hide Linked, Mask;
      var more: bool := *;
      while more && written < released + items - 1
        invariant Linked() && old(written) <= written && old(stream) <= stream
        decreases released + items - 1 - written
      {
        var e: Entry := *;
        Arrive(e);
        more := *;
      }
    }

    /** The sync call: hardware may have moved, and its position is returned. */
    method Sync()
      requires Linked()
      modifies this`sync, this`written, this`stream, hdr, off
      ensures Linked() && old(written) <= written && old(stream) <= stream && sync.hwptr == Mask(written, items)
      ensures sync.swptr == old(sync.swptr)
    {
      Hardware();
      sync := Driver.Sync(Mask(written, items), sync.swptr);
    }

    /** What a lock computes from the pointers, in any state. */
    method Take()
      requires sync.hwptr == Mask(written, items)
      modifies this`rhp, this`pktsAvailable
      ensures pktsAvailable == Mask(Mask(written, items) - old(rhp), items)
      ensures rhp == if old(rhp) >= items then old(rhp) - items else old(rhp)
    {
      pktsAvailable := Mask(sync.hwptr - rhp, items);
      if rhp >= items {
        rhp := rhp - items;
      }
    }

    method Lock()
      requires Linked()
      modifies this`sync, this`rhp, this`pktsAvailable, this`written, this`stream, hdr, off
      ensures Linked() && old(stream) <= stream && old(written) <= written
      ensures old(Cursor()) ==> Cursor() && rhp < items && read + pktsAvailable == written
    {
      hide Mask, Linked;
      ghost var good := Cursor();
      Sync();
      if good { SpanBound(); LazyDistance(written, rhp, read, items); OneLap(rhp, items); }
      Take();
    }

    lemma SpanBound()
      requires Linked()
      ensures released <= written < released + items && base <= released && |stream| == written - base
    {
    }

    lemma Bounds()
      requires Valid()
      ensures base <= read && read + pktsAvailable <= written && |stream| == written - base
    {
    }

    /** The loop over the two rings, in any state. */
    method Show(n: nat) returns (packets: seq<Packet>)
      requires Linked()
      ensures |packets| == n
      ensures Valid() && n <= pktsAvailable ==> packets == DecodeAll(stream[read - base..read - base + n])
      ensures forall i :: 0 <= i < n ==>
                var p, cell := packets[i], Mask(rhp + i, items);
                && p.header == off[cell] && p.headerLen == hdr[cell].headerSize && p.data == off[cell] + hdr[cell].headerSize
                && p.dataLen == (hdr[cell].packetSize - hdr[cell].headerSize) % 0x1_0000_0000 && p.flags == hdr[cell].flags % 16
    {
      hide Mask, Decode;
      packets := [];
      for i := 0 to n
        invariant |packets| == i && forall j :: 0 <= j < i ==> packets[j] == Decode(Here(j))
      {
        packets := packets + [Decode(Here(i))];
      }
      if Valid() && n <= pktsAvailable {
        forall i | 0 <= i < n ensures Here(i) == stream[read - base + i] { SameStep(rhp, read, i, items); }
      }
      forall i | 0 <= i < n
        ensures
          var p, cell := packets[i], Mask(rhp + i, items);
          && p.header == off[cell] && p.headerLen == hdr[cell].headerSize && p.data == off[cell] + hdr[cell].headerSize
          && p.dataLen == (hdr[cell].packetSize - hdr[cell].headerSize) % 0x1_0000_0000 && p.flags == hdr[cell].flags % 16
      {
        Told([Here(i)]);
        assert DecodeAll([Here(i)])[0] == packets[i];
      }
    }

    /** The entry `i` cells behind the index. */
    function Here(i: nat): Entry
      requires hdr.Length == off.Length == items
      reads this`rhp, hdr, off
    {
      Entry(hdr[Mask(rhp + i, items)], off[Mask(rhp + i, items)])
    }

    /** Hand out up to `count` packets: exactly the next ones in the hardware stream. */
    method BurstGet(count: nat) returns (packets: seq<Packet>)
      requires Linked()
      modifies this`sync, this`rhp, this`pktsAvailable, this`read, this`written, this`stream, hdr, off
      ensures Linked() && old(stream) <= stream && read == old(read) + |packets| && |packets| <= count
      ensures
        old(Cursor()) ==>
        && Cursor() && base <= old(read) <= read <= base + |stream|
        && packets == DecodeAll(stream[old(read) - base..read - base]) && (|packets| < count ==> read == written)
      ensures old(Cursor()) ==>
                forall i :: 0 <= i < |packets| ==>
                var p, e := packets[i], stream[old(read) - base + i];
                && p.header == e.offset && p.headerLen == e.hdr.headerSize && p.data == e.offset + e.hdr.headerSize
                && p.dataLen == (e.hdr.packetSize - e.hdr.headerSize) % 0x1_0000_0000 && p.flags == e.hdr.flags % 16
      ensures old(pktsAvailable) >= count ==> |packets| == count && stream == old(stream)
    {
      hide Linked, Mask, DecodeAll, Decode, Cursor;
      ghost var good := Cursor();
      var n := Supply(count);
      if n == 0 {
        assert good ==> stream[read - base..read - base] == [];
        return [];
      }
      packets := Show(n);
      if good { Told(stream[read - base..read - base + n]); }
      Advance(n);
    }

    /** Lock if fewer than `count` packets are at hand, and take at most what is there. */
    method Supply(count: nat) returns (n: nat)
      requires Linked()
      modifies this`sync, this`rhp, this`pktsAvailable, this`written, this`stream, hdr, off
      ensures Linked() && old(stream) <= stream && n == Min(pktsAvailable, count)
      ensures old(Cursor()) ==> Cursor() && base <= read && read + n <= base + |stream| && (n < count ==> read + n == written)
      ensures old(pktsAvailable) >= count ==> n == count && stream == old(stream)
    {
      hide Linked, Mask;
      SpanBound();
      n := count;
      if pktsAvailable < count {
        Lock();
        SpanBound();
        n := Min(pktsAvailable, count);
      }
    }

    /** Count `n` packets as handed out. */
    method Advance(n: nat)
      requires Linked() && n <= pktsAvailable
      modifies this`rhp, this`pktsAvailable, this`read
      ensures Linked() && read == old(read) + n && (old(Cursor()) ==> Cursor())
    {
      hide Linked, Mask;
      if Cursor() { SameStep(rhp, read, n, items); }
      rhp, read, pktsAvailable := rhp + n, read + n, pktsAvailable - n;
    }

    /** Release exactly what was handed out. */
    method BurstPut()
      requires Valid()
      modifies this`sync, this`released, this`written, this`stream, hdr, off
      ensures Valid() && released == read == old(read) && old(stream) <= stream
      ensures sync == Driver.Sync(Mask(written, items), Mask(released, items))
    {
      hide Mask;
      sync := Driver.Sync(sync.hwptr, Mask(rhp, items));
      released := read;
      Sync();
    }

    /** Any run of gets, each followed by a put or not: the bursts together are exactly the
        packets hardware described, once each and in order, from where the run began to
        where it stands. */
    method Run(counts: seq<nat>, puts: seq<bool>) returns (all: seq<Packet>)
      requires Valid() && |puts| == |counts|
      modifies this`sync, this`rhp, this`pktsAvailable, this`read, this`released, this`written, this`stream, hdr, off
      ensures Valid() && old(stream) <= stream && old(read) <= read
      ensures counts != [] && puts[|puts| - 1] ==> released == read
      ensures base <= old(read) && read - base <= |stream| && all == DecodeAll(stream[old(read) - base..read - base])
      ensures forall i :: 0 <= i < |all| ==>
                var p, e := all[i], stream[old(read) - base + i];
                && p.header == e.offset && p.headerLen == e.hdr.headerSize && p.data == e.offset + e.hdr.headerSize
                && p.dataLen == (e.hdr.packetSize - e.hdr.headerSize) % 0x1_0000_0000 && p.flags == e.hdr.flags % 16
    {
      hide Linked, Cursor, DecodeAll, Mask, Decode;
      Bounds();
      ghost var start := read - base;
      all := [];
      for i := 0 to |counts|
        invariant Valid() && old(stream) <= stream && old(read) <= read && base <= old(read) && read - base <= |stream|
        invariant all == DecodeAll(stream[start..read - base])
        invariant i > 0 && puts[i - 1] ==> released == read
      {
        ghost var s, r := stream, read - base;
        var packets := Turn(counts[i], puts[i]);
        DecodedMore(s, stream, start, r, read - base);
        all := all + packets;
      }
      Told(stream[start..read - base]);
    }

    /** One get, and a put or not. */
    method Turn(count: nat, put: bool) returns (packets: seq<Packet>)
      requires Valid()
      modifies this`sync, this`rhp, this`pktsAvailable, this`read, this`released, this`written, this`stream, hdr, off
      ensures Valid() && old(stream) <= stream && base <= old(read) <= read <= base + |stream|
      ensures released == if put then read else old(released)
      ensures old(read) <= base + |old(stream)| && packets == DecodeAll(stream[old(read) - base..read - base])
    {
      hide Linked, Cursor, DecodeAll, Mask, Decode;
      Bounds();
      packets := BurstGet(count);
      Bounds();
      if put {
        ghost var t := stream;
        BurstPut();
        Bounds();
        DecodedMore(t, stream, old(read) - base, read - base, read - base);
      }
    }

    /** Stop and start again.  Starting leaves the count of available packets, and re-reads
        the index only for a shared queue, so every later get and put is correct if and only if
        no packet was available and unread and, on an exclusive queue, hardware starts over
        where the index stands; `GetAfterRestart` and `LockAfterRestart` tell what goes wrong
        otherwise. */
    method Restart(start: nat, shared: bool)
      requires Valid()
      modifies this
      ensures Linked() && stream == [] && read == written == base == start && pktsAvailable == old(pktsAvailable)
      ensures sync.hwptr == Mask(start, items) && rhp == if shared then Mask(start, items) else old(rhp)
      ensures Cursor() <==> old(pktsAvailable) == 0 && (shared || Mask(old(rhp), items) == Mask(start, items))
    {
      sync := Driver.Sync(Mask(start, items), Mask(start, items));
      if shared {
        rhp := sync.hwptr;
      }
      released, read, written, base, stream := start, start, start, start, [];
      ModAdd(start, 0, items);
    }

    /** With packets left over from before, a get hands out as many that hardware never wrote. */
    method GetAfterRestart(start: nat, shared: bool, count: nat) returns (packets: seq<Packet>)
      requires Valid() && count <= pktsAvailable
      modifies this, hdr, off
      ensures |packets| == count && stream == []
    {
      Restart(start, shared);
      packets := BurstGet(count);
    }

    /** With the index elsewhere on an exclusive queue, the next lock counts packets although
        hardware has written none. */
    method LockAfterRestart(start: nat)
      requires Valid() && Mask(rhp, items) != Mask(start, items)
      modifies this
      ensures stream == [] && written == start && pktsAvailable > 0
    {
      hide Linked, Mask;
      Restart(start, false);
      if Mask(Mask(start, items) - rhp, items) == 0 {
        ModAdd(Mask(start, items) - rhp, rhp, items);
        ModAdd(start, 0, items);
        assert false;
      }
      Take();
    }
  }

  /** One packet is available; after stopping and starting again at zero, a get hands it out
      although hardware has written none. */
  method RestartInventsPacket(e: Entry, shared: bool) returns (q: RxQueue, packets: seq<Packet>)
    ensures |packets| == 1 && q.stream == []
  {
    hide Mask, RxQueue.Linked;
    q := new RxQueue(4, 0);
    q.Arrive(e);
    q.Lock();
    packets := q.GetAfterRestart(0, shared, 1);
  }
}
