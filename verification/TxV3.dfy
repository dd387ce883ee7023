/** The transmit half of a version 3 queue in userspace mode.  Frames are written
straight into device memory, so before each write software must own enough byte credit;
credit is charged from the header ring and returned from a pair of positions hardware
reports. */
module TxV3 {
  import opened Ring
  import opened Octets
  import opened TxV3Layout

  /** The pointers of a sync. */
  datatype Pointers = Pointers(hwptr: nat, swptr: nat, size: nat)

  /** The userspace books: headers charged, hardware position, their data positions, credit. */
  datatype Userspace = Userspace(shp: nat, hhp: nat, sdp: nat, hdp: nat, free: nat)

  /** The update buffer and the true progress of hardware, as unbounded positions. */
  datatype Progress = Progress(updateData: nat, updateHdr: nat, data: nat, hdr: nat)

  /** Headers charged, and the hardware positions software has learnt. */
  datatype Known = Known(charged: nat, data: nat, hdr: nat)

  /** Frame lengths in the order they were reserved and where each frame starts; the frames
      written to the device so far, and how many. */
  datatype History = History(frames: seq<nat>, pos: seq<nat>, bodies: seq<seq<Byte>>, written: nat)

  class TxQueue {
    const n: Pos
    const cap: Pos
    const frameMin: nat
    const frameMax: nat
    /** Hardware reads everything it is given at once and says so. */
    const prompt: bool
    const hdrs: array<Header>
    /** The device's memory and its header ring. */
    const device: array<Byte>
    const deviceHdrs: array<Header>
    /** Host memory the slots point into; it is mapped twice, back to back. */
    const buffer: array<Byte>
    var sync: Pointers
    var shp: nat
    var hdrCursor: nat
    var sdp: nat
    var pktsAvailable: nat
    var pktsToSend: nat
    /** Where the packets reserved by the last get lie in host memory. */
    var txPkts: seq<nat>
    var bytesAvailable: nat
    var us: Userspace
    var hw: Progress
    /** What has reached the device, as unbounded positions. */
    var deviceData: nat
    var deviceHdr: nat
    ghost var known: Known
    ghost var log: History
    /** How often software has synced. */
    ghost var syncs: nat

    ghost predicate Sized()
      reads hdrs, device, deviceHdrs
    {
      && hdrs.Length == deviceHdrs.Length == n && hdrs != deviceHdrs && device.Length == cap && buffer.Length > 0 && buffer != device
      && 64 <= cap <= 0x1_0000 && cap % 32 == 0 && frameMin <= frameMax < 0x1_0000
    }

    /** Orders of all positions. */
    ghost predicate Ordered()
      reads this`log, this`known, this`hw, this`deviceData, this`deviceHdr, this`pktsAvailable
    {
      && Layout(log.frames, log.pos)
      && known.hdr <= known.charged <= log.written <= |log.frames| && |log.frames| + pktsAvailable <= known.hdr + n - 1
      && known.hdr <= hw.updateHdr <= hw.hdr <= deviceHdr == log.written
      && known.data <= hw.updateData <= hw.data <= deviceData == log.pos[log.written] && known.data <= log.pos[known.charged]
    }

    /** The byte credit: what software believes free is the capacity less one block less
        the rounded bytes charged and not yet read by hardware; what it may still write
        is covered by that, including frames written but not charged. */
    ghost predicate Credit()
      requires Layout(log.frames, log.pos) && known.charged <= log.written <= |log.frames|
      reads this`log, this`known, this`us, this`bytesAvailable
    {
      && us.shp == Mask(known.charged, n) && us.hhp == Mask(known.hdr, n)
      && us.sdp == Mask(log.pos[known.charged], cap) && us.hdp == Mask(known.data, cap)
      && us.free + log.pos[known.charged] == cap - BLOCK + known.data
      && bytesAvailable + log.pos[log.written] <= us.free + log.pos[known.charged]
    }

    /** Headers from position `c` on are in the ring and say what was reserved. */
    ghost predicate HeadersFrom(c: nat)
      requires hdrs.Length == n && Layout(log.frames, log.pos)
      reads this`log, hdrs
    {
      InRing(hdrs[..], c, log.frames, log.pos, cap)
    }

    /** Every byte sent and not read by hardware yet is intact in device memory. */
    ghost predicate Intact()
      requires device.Length == cap && Layout(log.frames, log.pos) && log.written <= |log.frames|
      reads this`log, this`hw, device
    {
      |log.bodies| == log.written && AllKept(device[..], log.frames, log.pos, log.bodies, hw.data)
    }

    /** Every header written and not read by hardware yet is intact in the device's ring. */
    ghost predicate Announced()
      requires deviceHdrs.Length == n
      reads this`log, this`hw, deviceHdrs
    {
      Announces(deviceHdrs[..], hw.hdr, log.written, log.frames, log.pos, cap)
    }

    ghost predicate Cursors()
      requires Layout(log.frames, log.pos) && log.written <= |log.frames|
      reads this`log, this`shp, this`hdrCursor, this`sdp, this`pktsToSend
    {
      && hdrCursor == shp && pktsToSend == |log.frames| - log.written && shp == Mask(log.written, n) + pktsToSend
      && sdp == Mask(log.pos[|log.frames|], cap) && sdp % 32 == 0
    }

    /** The books are right and nothing unread is lost; holds also in the middle of a put. */
    ghost predicate Safe()
      reads this`log, this`known, this`hw, this`deviceData, this`deviceHdr, this`pktsAvailable, this`us, this`bytesAvailable, hdrs, device, deviceHdrs
    {
      Sized() && Ordered() && Credit() && HeadersFrom(known.charged) && Intact() && Announced()
    }

    /** Holds between calls. */
    ghost predicate Valid()
      reads this, hdrs, device, deviceHdrs
    {
      Shape() && Safe() && Cursors() && known.charged == log.written
    }

    /** Holds between calls, with right or wrong books. */
    ghost predicate Shape()
      reads this
    {
      && Wired() && sync.hwptr == us.hhp && pktsAvailable < n && |txPkts| == pktsToSend
      && hdrCursor == shp < 2 * n && pktsToSend <= shp < pktsToSend + n
      && cap % 32 == 0 && sdp % 32 == 0 && frameMin <= frameMax < 0x1_0000
    }

    constructor (n: Pos, cap: Pos, bufSize: Pos, frameMin: nat, frameMax: nat, prompt: bool)
      requires 64 <= cap <= 0x1_0000 && cap % 32 == 0 && frameMin <= frameMax < 0x1_0000
      ensures Valid() && log.frames == [] && log.bodies == [] && fresh(hdrs) && fresh(deviceHdrs) && fresh(device) && fresh(buffer)
      ensures this.n == n && this.cap == cap && this.prompt == prompt && this.frameMin == frameMin && this.frameMax == frameMax && buffer.Length == bufSize
      ensures Sized() && log.written == 0 && pktsToSend == 0 && us.free == cap - 32 && sync.hwptr == us.shp
      ensures forall k :: 0 <= k < device.Length ==> device[k] == 0
    {
      this.n, this.cap, this.frameMin, this.frameMax, this.prompt := n, cap, frameMin, frameMax, prompt;
      hdrs := new Header[n](_ => Header(0, 0, 0, 0));
      deviceHdrs := new Header[n](_ => Header(0, 0, 0, 0));
      device := new Byte[cap](_ => 0);
      buffer := new Byte[bufSize](_ => 0);
      sync, shp, hdrCursor, sdp := Pointers(0, 0, 0), 0, 0, 0;
      pktsAvailable, pktsToSend, txPkts, bytesAvailable := 0, 0, [], 0;
      us, hw := Userspace(0, 0, 0, 0, cap - BLOCK), Progress(0, 0, 0, 0);
      deviceData, deviceHdr := 0, 0;
      known, log := Known(0, 0, 0), History([], [0], [], 0);
      InLap(0, n);
      InLap(0, cap);
    }

    ghost predicate Reported()
      reads this`hw, this`deviceData, this`deviceHdr
    {
      hw.updateData <= hw.data <= deviceData && hw.updateHdr <= hw.hdr <= deviceHdr
    }

    /** Hardware reads what was written, at any pace, and reports some earlier state of
        its progress in the update buffer. */
    method Hardware()
      requires Reported()
      modifies this`hw
      ensures Reported() && old(hw.updateData) <= hw.updateData && old(hw.updateHdr) <= hw.updateHdr
      ensures prompt ==> hw.updateData == deviceData && hw.updateHdr == deviceHdr
      ensures old(Safe()) ==> Safe()
    {
      hide Safe;
      var data := Between(hw.data, deviceData);
      var hdr := Between(hw.hdr, deviceHdr);
      var updateData := Between(hw.updateData, data);
      var updateHdr := Between(hw.updateHdr, hdr);
      hw := Progress(updateData, updateHdr, data, hdr);
      if old(Safe()) { Progressed(); }
    }

    /** Some position from `a` to `b`; prompt hardware is always at the end. */
    method Between(a: nat, b: nat) returns (x: nat)
      requires a <= b
      ensures a <= x <= b && (prompt ==> x == b)
    {
      x :| a <= x <= b && (prompt ==> x == b);
    }

    twostate lemma Progressed()
      requires old(Safe()) && Reported()
      requires unchanged(this`log, this`known, this`deviceData, this`deviceHdr, this`us, this`bytesAvailable, this`pktsAvailable, hdrs, device, deviceHdrs)
      requires old(hw.updateData) <= hw.updateData && old(hw.updateHdr) <= hw.updateHdr && old(hw.data) <= hw.data
      requires old(hw.hdr) <= hw.hdr
      ensures Safe()
    {
      hide Mask, Credit, HeadersFrom, Layout, AllKept, Announces;
      assert device[..] == old(device[..]);
      AllKeptLater(device[..], log.frames, log.pos, log.bodies, old(hw.data), hw.data);
      assert deviceHdrs[..] == old(deviceHdrs[..]);
      AnnouncesLater(deviceHdrs[..], old(hw.hdr), hw.hdr, log.written, log.frames, log.pos, cap);
    }

    /** Add up the space of `count` headers, subtracting it from the credit with 32-bit
        wrap-around. */
    method Spaces(from: nat, count: nat) returns (left: nat, sum: nat)
      requires hdrs.Length == n && us.free < WORD
      ensures sum == SpaceSum(hdrs[..], from, count) && left == Mask(us.free - sum, WORD)
    {
      hide Mask, Ceil;
      left, sum := us.free, 0;
      InLap(us.free, WORD);
      for i := 0 to count
        invariant sum == SpaceSum(hdrs[..], from, i) && left == Mask(us.free - sum, WORD)
      {
        var space := Ceil(hdrs[Mask(from + i, n)].frameLen);
        ModAdd(us.free - sum, (0 as int) - space, WORD);
        left := Mask(left - space, WORD);
        sum := sum + space;
      }
    }

    /** Charge the headers up to `hwptr`.  The subtraction is unchecked; when `hwptr` is
        the position of the last header written it cannot underflow. */
    method Charge()
      requires hdrs.Length == n && us.shp < n && sync.hwptr < n && us.free < WORD
      modifies this`us, this`known
      ensures us.hhp == old(us.hhp) && us.hdp == old(us.hdp) && known == old(known).(charged := known.charged)
      ensures us.shp == old(sync.hwptr)
      ensures us.free == Mask(old(us.free) - SpaceSum(hdrs[..], old(us.shp), Mask(sync.hwptr - old(us.shp), n)), WORD)
      ensures old(Safe()) && sync.hwptr == Mask(log.written, n) ==> Safe() && known.charged == log.written
      ensures sync.hwptr != Mask(log.written, n) ==> known.charged == old(known.charged)
    {
      hide Mask, Safe, Layout;
      ghost var good := Safe() && sync.hwptr == Mask(log.written, n);
      var count := Mask(sync.hwptr - us.shp, n);
      ZeroDistance(sync.hwptr, us.shp, n);
      if good { InRange(); Distance(log.written, known.charged, 0, n); ChargedSum(count); }
      var left, sum := Spaces(us.shp, count);
      us := us.(free := left);
      if count > 0 {
        us := us.(sdp := Mask(us.sdp + sum, cap), shp := sync.hwptr);
      }
      if good {
        known := known.(charged := log.written);
        ChargedAll(sum);
      }
    }

    /** The headers not charged yet take no more than the credit. */
    lemma ChargedSum(count: nat)
      requires Safe() && known.charged < |log.pos| && log.written < |log.pos| && count == log.written - known.charged
      ensures us.shp < n && SpaceSum(hdrs[..], us.shp, count) == log.pos[log.written] - log.pos[known.charged] <= us.free
      ensures Mask(us.free - SpaceSum(hdrs[..], us.shp, count), WORD) == us.free - (log.pos[log.written] - log.pos[known.charged])
    {
      hide Mask, Intact, AllKept, Ceil, SpaceSum;
      SpaceSumIs(hdrs[..], known.charged, log.frames, log.pos, cap, count);
      LayoutMonotone(log.frames, log.pos, known.charged, log.written);
      InLap(us.free - (log.pos[log.written] - log.pos[known.charged]), WORD);
    }

    twostate lemma ChargedAll(sum: nat)
      requires old(Safe()) && log.written < |log.pos| && known.charged == log.written && old(known.charged) < |log.pos|
      requires unchanged(this`log, this`hw, this`deviceData, this`deviceHdr, this`bytesAvailable, this`pktsAvailable, hdrs, device, deviceHdrs)
      requires known == old(known).(charged := known.charged) && us.hhp == old(us.hhp) && us.hdp == old(us.hdp)
      requires sum + log.pos[old(known.charged)] == log.pos[log.written] && us.free + log.pos[log.written] == old(us.free) + log.pos[old(known.charged)]
      requires us.shp == Mask(log.written, n)
      requires us.sdp == Mask(old(us.sdp) + sum, cap) || (sum == 0 && us.sdp == old(us.sdp))
      ensures Safe()
    {
      hide Mask, AllKept, Layout, HeadersFrom;
      ModAdd(log.pos[old(known.charged)], sum, cap);
      HeadersLater(old(known.charged), log.written);
    }

    /** Header slots left, as software computes them. */
    function HeaderRoom(): nat
      reads this`us
    {
      Mask(us.hhp - us.shp - 1, n)
    }

    lemma RoomIs()
      requires Safe()
      ensures HeaderRoom() == known.hdr + n - 1 - known.charged
    {
      hide Mask, HeadersFrom, Intact, Layout;
      Distance(known.hdr + n, known.charged, 1, n);
      OneLap(known.hdr, n);
    }

    /** What software last learnt of hardware is in its pointers, less than a lap ago. */
    ghost predicate Tracked()
      reads this`hw, this`known, this`us
    {
      us.hdp == Mask(known.data, cap) && known.data <= hw.updateData < known.data + cap
    }

    /** Look at the update buffer, but only when headers or credit run short. */
    method Refresh()
      requires us.free < WORD
      modifies this`us, this`known
      ensures us.shp == old(us.shp) && us.sdp == old(us.sdp) && known.charged == old(known.charged)
      ensures us.hhp == if old(HeaderRoom() < 512 || us.free <= 4096) then Mask(hw.updateHdr, n) else old(us.hhp)
      ensures old(known.data) == known.data || known.data == hw.updateData
      ensures us.free == if old(HeaderRoom() < 512 || us.free <= 4096)
                         then Mask(old(us.free) + Mask(Mask(hw.updateData, cap) - old(us.hdp), cap), WORD) else old(us.free)
      ensures us.free < WORD && (old(Tracked()) ==> us.free == Mask(old(us.free) + known.data - old(known.data), WORD))
      ensures old(Safe()) && known.charged == log.written ==> Safe()
      ensures old(Safe()) && known.charged == log.written && old(HeaderRoom() < 512 || us.free <= 4096) ==>
                known.data == hw.updateData && known.hdr == hw.updateHdr
      ensures !old(HeaderRoom() < 512 || us.free <= 4096) ==>
                us == old(us) && known.data == old(known.data) && known.hdr == old(known.hdr)
    {
      hide Mask, Safe, Layout, HeaderRoom;
      InLap(us.free, WORD);
      if HeaderRoom() < 512 || us.free <= 4096 {
        ghost var good := Safe() && known.charged == log.written;
        var hdp, hhp := Mask(hw.updateData, cap), Mask(hw.updateHdr, n);
        var count := Mask(hdp - us.hdp, cap);
        if Tracked() { Distance(hw.updateData, known.data, 0, cap); }
        if good { Returned(); }
        us := us.(hdp := hdp, hhp := hhp, free := Mask(us.free + count, WORD));
        known := known.(data := hw.updateData, hdr := hw.updateHdr);
        if good { Refreshed(); }
      }
    }

    lemma TrackedIs()
      requires Safe()
      ensures Tracked() && known.data <= hw.updateData <= deviceData < known.data + cap && us.free < WORD
      ensures us.hdp == Mask(known.data, cap)
    {
      hide Mask, HeadersFrom, Intact, Layout;
      PosSize();
      LayoutMonotone(log.frames, log.pos, known.charged, log.written);
    }

    lemma TrackedOn()
      requires us.hdp == Mask(known.data, cap) && known.data <= hw.updateData <= deviceData < known.data + cap
      ensures Tracked()
    {
    }

    lemma DueIs()
      requires hdrs.Length == n
      ensures Due() == SpaceSum(hdrs[..], us.shp, Mask(sync.hwptr - us.shp, n))
    {
    }

    /** The credit hardware returned since the last look, and no 32-bit overflow in it. */
    lemma Returned()
      requires Safe() && known.charged == log.written
      ensures Mask(Mask(hw.updateData, cap) - us.hdp, cap) == hw.updateData - known.data
      ensures Mask(us.free + (hw.updateData - known.data), WORD) == us.free + hw.updateData - known.data
    {
      hide Mask, HeadersFrom, Intact, Layout;
      PosSize();
      Distance(hw.updateData, known.data, 0, cap);
      InLap(us.free + (hw.updateData - known.data), WORD);
    }

    twostate lemma Refreshed()
      requires old(Safe()) && known.charged == log.written
      requires unchanged(this`log, this`hw, this`deviceData, this`deviceHdr, this`bytesAvailable, this`pktsAvailable, hdrs, device, deviceHdrs)
      requires known.charged == old(known.charged) && us.shp == old(us.shp) && us.sdp == old(us.sdp)
      requires known.data == hw.updateData && known.hdr == hw.updateHdr
      requires us.hdp == Mask(hw.updateData, cap) && us.hhp == Mask(hw.updateHdr, n)
      requires us.free == old(us.free) + hw.updateData - old(known.data)
      ensures Safe()
    {
      hide Mask, AllKept, Layout, HeadersFrom;
    }

    /** Headers or credit are short once everything written is charged. */
    ghost predicate Short()
      reads this`log, this`known
    {
      log.written < |log.pos| && (known.hdr + n - 1 - log.written < 512 || cap - BLOCK + known.data <= 4096 + log.pos[log.written])
    }

    lemma ShortIs()
      requires Safe() && known.charged == log.written
      ensures Short() <==> HeaderRoom() < 512 || us.free <= 4096
    {
      hide Mask, HeadersFrom, Intact, HeaderRoom;
      RoomIs();
    }

    lemma PointersAre()
      requires Safe()
      ensures us.hhp == Mask(known.hdr, n) && us.shp == Mask(known.charged, n)
    {
    }

    /** State after a good sync that asked for `q` headers. */
    ghost predicate Synced(q: nat)
      reads this, hdrs, device, deviceHdrs
    {
      && Safe() && known.charged == log.written && sync.hwptr == us.hhp && sync.size == us.free
      && Mask(sync.swptr - sync.hwptr, n) == Min(q, known.hdr + n - 1 - known.charged)
    }

    /** What the code relies on in any state, with right or wrong books. */
    ghost predicate Wired()
      reads this`us, this`hw, this`deviceData, this`deviceHdr
    {
      && hdrs.Length == deviceHdrs.Length == n && hdrs != deviceHdrs && device.Length == cap && buffer.Length > 0 && buffer != device
      && us.shp < n && us.hhp < n && us.free < WORD && Reported()
    }

    /** Rounded lengths of the headers a sync would charge. */
    ghost function Due(): nat
      requires hdrs.Length == n
      reads this`sync, this`us, hdrs
    {
      SpaceSum(hdrs[..], us.shp, Mask(sync.hwptr - us.shp, n))
    }

    /** The bookkeeping half of a sync: charge, let hardware move, refresh. */
    method Books()
      requires Wired() && sync.hwptr < n
      modifies this`us, this`known, this`hw
      ensures Wired() && us.shp == old(sync.hwptr) && old(hw.updateData) <= hw.updateData && old(hw.updateHdr) <= hw.updateHdr
      ensures us.hhp == Mask(hw.updateHdr, n) || (us.hhp == old(us.hhp) && HeaderRoom() >= 512)
      ensures prompt ==> hw.updateData == deviceData && hw.updateHdr == deviceHdr
      ensures old(Safe()) ==> us.free == Mask(old(us.free) - old(Due()) + known.data - old(known.data), WORD)
      ensures old(Safe()) ==> old(known.data) <= known.data <= deviceData
      ensures sync.hwptr != Mask(log.written, n) ==> known.charged == old(known.charged)
      ensures old(Safe()) && sync.hwptr == Mask(log.written, n) ==> Safe() && known.charged == log.written
      ensures old(Safe()) && sync.hwptr == Mask(log.written, n) && old(Short()) ==> hw.updateData == known.data && hw.updateHdr == known.hdr
      ensures old(Safe()) && sync.hwptr == Mask(log.written, n) && !old(Short()) ==>
                known.data == old(known.data) && known.hdr == old(known.hdr)
    {
      hide Mask, Safe, HeaderRoom, Due, Tracked, SpaceSum;
      ghost var due := Due();
      DueIs();
      if Safe() { TrackedIs(); }
      Charge();
      Hardware();
      if old(Safe()) { TrackedOn(); }
      if old(Safe()) && sync.hwptr == Mask(log.written, n) { ShortIs(); }
      Refresh();
      ModAdd(old(us.free) - due, known.data - old(known.data), WORD);
    }

    /** The sync step.  Entered with `hwptr` at the last header written, it keeps the
        books; its answer names the hardware position and at most the free headers. */
    method Sync()
      requires Wired() && sync.hwptr < n
      modifies this`us, this`known, this`hw, this`sync, this`syncs
      ensures Wired() && us.shp == old(sync.hwptr) && sync.hwptr == us.hhp && sync.swptr < n && sync.size == us.free
      ensures syncs == old(syncs) + 1 && (us.hhp == Mask(hw.updateHdr, n) || (us.hhp == old(us.hhp) && HeaderRoom() >= 512))
      ensures sync.swptr == Mask(us.hhp + Min(old(Mask(sync.swptr - sync.hwptr, n)), HeaderRoom()), n)
      ensures prompt ==> hw.updateData == deviceData && hw.updateHdr == deviceHdr
      ensures old(sync.hwptr) != Mask(log.written, n) ==> known.charged == old(known.charged)
      ensures old(hw.updateData) <= hw.updateData && old(hw.updateHdr) <= hw.updateHdr
      ensures old(Safe()) ==> us.free == Mask(old(us.free) - old(Due()) + known.data - old(known.data), WORD)
      ensures old(Safe()) ==> old(known.data) <= known.data <= deviceData
      ensures old(Safe()) && old(sync.hwptr) == Mask(log.written, n) ==> Synced(old(Mask(sync.swptr - sync.hwptr, n)))
      ensures old(Safe()) && old(sync.hwptr) == Mask(log.written, n) && old(Short()) ==> hw.updateData == known.data && hw.updateHdr == known.hdr
      ensures old(Safe()) && old(sync.hwptr) == Mask(log.written, n) && !old(Short()) ==>
                known.data == old(known.data) && known.hdr == old(known.hdr)
    {
      hide Mask, Safe, Reported, Short, HeaderRoom, Due;
      ghost var q := Mask(sync.swptr - sync.hwptr, n);
      Books();
      var len := Min(Mask(sync.swptr - sync.hwptr, n), HeaderRoom());
      sync := Pointers(us.hhp, Mask(us.hhp + len, n), us.free);
      syncs := syncs + 1;
      if Safe() && known.charged == log.written { Answered(q, len); }
    }


    lemma Answered(q: nat, len: nat)
      requires Safe() && known.charged == log.written && sync.hwptr == us.hhp && sync.size == us.free
      requires q < n && len == Min(q, HeaderRoom()) && sync.swptr == Mask(sync.hwptr + len, n)
      ensures Synced(q)
    {
      hide Mask, Safe, HeaderRoom;
      RoomIs();
      PointersAre();
      Distance(known.hdr + len, known.hdr, 0, n);
      ModAdd(known.hdr, len, n);
    }

    /** Fewer headers remain to be charged, so fewer need to be in the ring. */
    lemma HeadersLater(c: nat, d: nat)
      requires hdrs.Length == n && Layout(log.frames, log.pos) && c <= d && HeadersFrom(c)
      ensures HeadersFrom(d)
    {
    }

    lemma PosSize()
      requires Layout(log.frames, log.pos)
      ensures |log.pos| == |log.frames| + 1
    {
    }

    lemma InRange()
      requires Safe()
      ensures frameMin <= frameMax < 0x1_0000 && hdrs.Length == n && Reported() && Layout(log.frames, log.pos) && known.hdr <= hw.updateHdr
      ensures known.hdr <= known.charged <= log.written <= |log.frames| < |log.pos| && |log.frames| + pktsAvailable <= known.hdr + n - 1
      ensures us.shp == Mask(known.charged, n) && us.hhp == Mask(known.hdr, n)
      ensures us.free + log.pos[known.charged] == cap - BLOCK + known.data
      ensures bytesAvailable + log.pos[log.written] <= us.free + log.pos[known.charged] && us.free < 0x1_0000
    {
      hide Mask;
    }

    /** Changing only what may still be reserved or written keeps the books if it stays
        within them. */
    twostate lemma Rebalanced()
      requires old(Safe())
      requires unchanged(this`log, this`known, this`hw, this`deviceData, this`deviceHdr, this`us, hdrs, device, deviceHdrs)
      requires |log.frames| + pktsAvailable <= known.hdr + n - 1 && known.charged <= log.written < |log.pos|
      requires bytesAvailable + log.pos[log.written] <= us.free + log.pos[known.charged]
      ensures Safe()
    {
      hide Mask, AllKept, Layout;
    }

    /** Entered at the hardware position, a sync charges every header from the last one
        charged round to it: with `known.charged - known.hdr` headers in flight, all the others of
        the ring. */
    lemma LockCharges()
      requires Valid() && sync.hwptr != us.shp
      ensures hdrs.Length == n && 0 < known.charged - known.hdr < n && Mask(sync.hwptr - us.shp, n) == n - (known.charged - known.hdr)
      ensures Due() == SpaceSum(hdrs[..], us.shp, n - (known.charged - known.hdr))
    {
      hide Mask, HeadersFrom, Intact, Layout, SpaceSum;
      Distance(known.hdr + n, known.charged, 0, n);
      OneLap(known.hdr, n);
    }

    /** Ask for the whole header ring.  The sync is entered with whatever `hwptr` the last
        one left, which is the hardware position: the books survive if and only if that
        is also where software stands, that is, if nothing is in flight.  Otherwise the
        credit is short of what it should be by the rounded lengths of the headers that are
        not in flight, in 32-bit arithmetic.  The header cursor goes back to the hardware
        position whenever the last sync granted nothing. */
    method Lock()
      requires Shape() && pktsToSend == 0
      modifies this`us, this`known, this`hw, this`sync, this`syncs, this`shp, this`hdrCursor, this`pktsAvailable, this`bytesAvailable
      ensures Shape() && shp == if old(sync.swptr == sync.hwptr) then sync.hwptr else old(shp)
      ensures syncs == old(syncs) + 1 && us.shp == old(sync.hwptr) && pktsAvailable == Room()
      ensures old(Valid()) ==> (Valid() <==> old(sync.hwptr == us.shp))
      ensures old(Valid()) && Valid() ==> pktsAvailable == n - 1 && bytesAvailable == us.free
      ensures old(Valid()) && !Valid() ==> us.shp != Mask(known.charged, n) && known.charged == old(known.charged) && Robbed(old(Due()))
      ensures old(Valid()) ==> old(known.data) <= known.data <= deviceData
    {
      hide Mask, Safe, Short, Layout, Due, Idle, Wired;
      if Valid() { InRange(); WhatIsDue(); }
      var lockValid := sync.swptr != sync.hwptr;
      WiredRing();
      Grab();
      WiredRing();
      Rebase(lockValid);
      ModAdd(us.hhp + HeaderRoom(), (0 as int) - shp, n);
      if Safe() { PointersAre(); }
    }

    /** What a lock leaves at hand: the headers between where it charged to and where
        hardware is, counted from the cursor. */
    function Room(): nat
      reads this`us, this`shp
    {
      Mask(us.hhp + HeaderRoom() - shp, n)
    }

    /** The sync of a lock request. */
    method Grab()
      requires Wired() && sync.hwptr == us.hhp
      modifies this`us, this`known, this`hw, this`sync, this`syncs
      ensures Wired() && sync.hwptr == us.hhp && us.shp == old(sync.hwptr) && sync.size == us.free
      ensures syncs == old(syncs) + 1 && sync.swptr == Mask(us.hhp + HeaderRoom(), n)
      ensures old(Valid()) && old(sync.hwptr == us.shp) && pktsToSend == 0 ==> Idle() && known.charged == log.written
      ensures old(Valid()) && old(sync.hwptr != us.shp) ==> known.charged == old(known.charged)
      ensures old(Safe()) ==> us.free == Mask(old(us.free) - old(Due()) + known.data - old(known.data), WORD)
      ensures old(Safe()) ==> old(known.data) <= known.data <= deviceData
    {
      hide Mask, Safe, Reported, Short, Layout, SpaceSum, Wired;
      if Safe() { InRange(); }
      WiredRing();
      ghost var good := Valid() && sync.hwptr == us.shp && pktsToSend == 0;
      if good { SameCell(known.hdr, known.charged, n); }
      WholeRing(sync.hwptr, n);
      sync := sync.(swptr := Mask(sync.hwptr - 1, n));
      Sync();
      if good { InRange(); InLap(n - 1, n); }
    }

    /** The credit is short by `stale` bytes. */
    ghost predicate Robbed(stale: nat)
      reads this`log, this`known, this`us, this`bytesAvailable
    {
      && |log.pos| == |log.frames| + 1 && known.charged <= |log.frames| && bytesAvailable == us.free
      && us.free == Mask(cap - BLOCK + known.data - log.pos[known.charged] - stale, WORD)
    }

    lemma WhatIsDue()
      requires Safe()
      ensures |log.pos| == |log.frames| + 1 && known.charged <= |log.frames| && us.free == cap - BLOCK + known.data - log.pos[known.charged]
    {
      hide Mask, Intact, HeadersFrom;
    }

    /** Nothing is in flight and the whole ring was granted. */
    ghost predicate Idle()
      reads this, hdrs, device, deviceHdrs
    {
      && Safe() && log.written < |log.pos| && known.hdr == known.charged == log.written == |log.frames| && sync.hwptr == shp && sync.size == us.free
      && Mask(sync.swptr - sync.hwptr, n) == n - 1
    }

    /** Take the answer to a lock request into the cursors. */
    method Rebase(lockValid: bool)
      requires hdrCursor == shp < n && sync.hwptr < n
      modifies this`shp, this`hdrCursor, this`pktsAvailable, this`bytesAvailable
      ensures hdrCursor == shp < n && pktsAvailable < n && bytesAvailable == sync.size
      ensures shp == (if lockValid then old(shp) else sync.hwptr) && pktsAvailable == Mask(sync.swptr - shp, n)
      ensures old(Idle()) ==>
                Safe() && shp == old(shp) && hdrCursor == shp && pktsAvailable == n - 1 && bytesAvailable == us.free
    {
      hide Mask, Safe;
      if old(Safe()) { InRange(); }
      if !lockValid {
        var offset := sync.hwptr - shp;
        shp := shp + offset;
        hdrCursor := hdrCursor + offset;
      }
      pktsAvailable := Mask(sync.swptr - shp, n);
      bytesAvailable := sync.size;
      if old(Idle()) { Rebalanced(); }
    }

    /** Sync for credit in the middle of a put. */
    method RequestSpace(at: nat)
      requires Wired() && at < n
      modifies this`us, this`known, this`hw, this`sync, this`syncs, this`bytesAvailable
      ensures Wired() && sync.hwptr == us.hhp && bytesAvailable == us.free && syncs == old(syncs) + 1
      ensures prompt ==> hw.updateData == deviceData
      ensures old(Safe()) && at == Mask(log.written, n) ==> Safe() && known.charged == log.written < |log.pos|
      ensures old(Safe() && Short()) && at == Mask(log.written, n) ==>
                old(hw.updateData) <= hw.updateData && bytesAvailable + log.pos[log.written] == cap - BLOCK + hw.updateData
      ensures old(Safe() && !Short()) && at == Mask(log.written, n) ==>
                bytesAvailable + log.pos[log.written] == cap - BLOCK + old(known.data) && !Short()
    {
      hide Mask, Safe, Reported, Due;
      ghost var good := Safe() && at == Mask(log.written, n);
      if good { InRange(); }
      sync := sync.(hwptr := at);
      Sync();
      label Answered:
      if good { InRange(); }
      bytesAvailable := sync.size;
      if good { Rebalanced@Answered(); }
    }

    /** A put that has to wait for a frame of `len` bytes looks at the update buffer, whatever
        the state of the queue, as `AlwaysLooks` and `NeverLooks` show. */
    predicate Looking(len: nat) {
      len <= 4096 || n <= 512 || cap <= 4128
    }

    lemma AlwaysLooks(len: nat)
      requires Safe() && known.charged == log.written && us.free < Ceil(len) && (len <= 4096 || n <= 512 || cap <= 4128)
      ensures Short()
    {
      hide Mask, Intact, HeadersFrom;
      assert len <= 4096 ==> Ceil(len) <= 4096;
    }

    lemma MustLook(len: nat)
      requires Safe() && known.charged == log.written && us.free < Ceil(len) && Looking(len)
      ensures Short()
    {
      hide Safe, Short, Ceil;
      AlwaysLooks(len);
    }

    /** No credit ever covers more than the capacity less one block. */
    lemma CreditBound()
      requires Safe()
      ensures bytesAvailable <= cap - BLOCK
    {
      hide Mask, Intact, HeadersFrom, Ceil;
      LayoutMonotone(log.frames, log.pos, known.charged, log.written);
    }

    /** With prompt hardware a look returns all credit. */
    lemma AllReturned()
      requires Safe() && known.charged == log.written < |log.pos| && hw.updateData == deviceData
      requires bytesAvailable + log.pos[log.written] == cap - BLOCK + hw.updateData
      ensures bytesAvailable == cap - BLOCK
    {
      hide Mask, Intact, HeadersFrom, Layout;
    }

    /** The next frame has to wait although the last look was at all there is, and polling will
        not look again. */
    ghost predicate Stuck()
      reads this`log, this`known, this`hw, this`deviceData, this`deviceHdr, this`pktsAvailable, this`us, this`bytesAvailable, hdrs, device, deviceHdrs
    {
      && Safe() && known.charged == log.written < |log.frames| && bytesAvailable == us.free && !Short()
      && bytesAvailable < Ceil(log.frames[log.written])
    }

    lemma StuckHas()
      requires Stuck()
      ensures Safe() && log.written < |log.frames|
    {
    }

    lemma StuckIs()
      requires Stuck()
      ensures !Looking(log.frames[log.written]) && log.written < |log.pos| && bytesAvailable + log.pos[log.written] == cap - BLOCK + known.data
    {
      hide Mask, Intact, HeadersFrom, Ceil;
      if Looking(log.frames[log.written]) { MustLook(log.frames[log.written]); }
    }

    /** Poll until credit covers a frame of `len` bytes or the polls are used up.  It never does
        if the frame is too long for the device; if it is not, and the put looks at the update
        buffer, two polls are enough for prompt hardware. */
    method AwaitSpace(at: nat, len: nat, budget: nat) returns (polls: nat, ok: bool)
      requires Wired() && at < n && sync.hwptr == us.hhp
      modifies this`us, this`known, this`hw, this`sync, this`syncs, this`bytesAvailable
      ensures Wired() && sync.hwptr == us.hhp && (ok <==> bytesAvailable >= Ceil(len)) && polls <= budget && (!ok ==> polls == 0)
      ensures syncs + polls == old(syncs) + budget
      ensures old(Safe()) && at == Mask(log.written, n) ==> Safe() && (ok ==> Ceil(len) <= cap - BLOCK)
      ensures old(Safe()) && at == Mask(log.written, n) && prompt && Looking(len) && Ceil(len) <= cap - BLOCK && budget >= 2 ==>
                ok && polls + 2 >= budget
      ensures old(Stuck()) && at == Mask(log.written, n) && len == log.frames[log.written] ==> !ok
    {
      hide Mask, Safe, Short, Ceil, Layout, Looking, Wired;
      polls := budget;
      ghost var good := Safe() && at == Mask(log.written, n);
      ghost var stuck := Stuck() && good && len == log.frames[log.written];
      while bytesAvailable < Ceil(len) && polls > 0
        invariant Wired() && sync.hwptr == us.hhp && polls <= budget && (good ==> Safe())
        invariant syncs + polls == old(syncs) + budget
        invariant good && polls < budget ==> known.charged == log.written && bytesAvailable == us.free
        invariant good && prompt && Looking(len) && polls + 1 < budget ==> bytesAvailable == cap - BLOCK
        invariant good && prompt && Looking(len) && Ceil(len) <= cap - BLOCK ==> polls + 2 >= budget
        invariant stuck ==> Stuck()
        decreases polls
      {
        if stuck { StuckIs(); }
        ghost var second := good && polls < budget && Looking(len);
        if second { MustLook(len); }
        RequestSpace(at);
        if second && prompt { AllReturned(); }
        polls := polls - 1;
      }
      ok := bytesAvailable >= Ceil(len);
      if good { CreditBound(); }
    }

    /** Write one frame from host memory to the device.  If the books are right, credit covers
        it, so nothing hardware still has to read is overwritten. */
    method WriteFrame(slot: nat, hd: Header, at: nat)
      requires Wired() && Ceil(hd.frameLen) <= bytesAvailable && at < n
      modifies this`bytesAvailable, this`deviceData, this`deviceHdr, this`log, device, deviceHdrs
      ensures log.frames == old(log.frames) && log.pos == old(log.pos)
      ensures Wired() && log.written == old(log.written) + 1
      ensures log.bodies == old(log.bodies) + [Unroll(buffer[..], slot, hd.frameLen)]
      ensures old(Safe() && IsNext(hd, at)) ==> Safe() && deviceData + BLOCK <= hw.data + cap
    {
      hide Mask, Ceil, Safe, Unroll, Store;
      ghost var w, m := log.written, device[..];
      ghost var good := Safe() && IsNext(hd, at);
      var body := Unroll(buffer[..], slot, hd.frameLen);
      if good { StoreCongruentMask(m, hd.framePtr, log.pos[w], body); BodiesAre(); }
      StoreInto(device, hd.framePtr, body);
      bytesAvailable := bytesAvailable - Ceil(hd.frameLen);
      deviceHdrs[at] := hd;
      deviceData := deviceData + Ceil(hd.frameLen);
      deviceHdr := deviceHdr + 1;
      log := log.(written := log.written + 1, bodies := log.bodies + [body]);
      if good { Wrote(hd); }
    }

    lemma BodiesAre()
      requires Safe()
      ensures device.Length == cap && |log.bodies| == log.written && |log.pos| == |log.frames| + 1
    {
      hide Mask, AllKept, InRing, Credit;
    }

    /** The header of the next frame to be written says so. */
    ghost predicate IsNext(hd: Header, at: nat)
      reads this`log
    {
      && log.written < |log.frames| && log.written < |log.pos|
      && hd.frameLen == log.frames[log.written] && hd.framePtr == Mask(log.pos[log.written], cap) && at == Mask(log.written, n)
    }

    twostate lemma Wrote(hd: Header)
      requires old(Safe()) && old(log.written) < |log.frames| && |log.bodies| == log.written == old(log.written) + 1 && |log.pos| == |log.frames| + 1
      requires log.frames == old(log.frames) && log.pos == old(log.pos) && unchanged(this`known, this`hw, this`us, this`pktsAvailable, hdrs)
      requires log.bodies == old(log.bodies) + [log.bodies[old(log.written)]] && |log.bodies[old(log.written)]| == log.frames[old(log.written)]
      requires device.Length > 0 && device[..] == Store(old(device[..]), log.pos[old(log.written)], log.bodies[old(log.written)])
      requires bytesAvailable + Ceil(log.frames[old(log.written)]) == old(bytesAvailable)
      requires deviceData == old(deviceData) + Ceil(log.frames[old(log.written)]) && deviceHdr == old(deviceHdr) + 1
      requires hd.frameLen == log.frames[old(log.written)] && hd.framePtr == Mask(log.pos[old(log.written)], cap)
      requires deviceHdrs.Length == n && deviceHdrs[..] == old(deviceHdrs[..])[Mask(old(log.written), n) := hd]
      ensures Safe() && deviceData + BLOCK <= hw.data + cap
    {
      hide Mask, AllKept, InRing, Layout, Ceil, Announces;
      AnnouncesNext(old(deviceHdrs[..]), hw.hdr, old(log.written), log.frames, log.pos, cap, hd);
      ghost var w := old(log.written);
      PosAfter(w);
      ghost var body := log.bodies[w];
      KeepsAll(old(device[..]), log.frames, log.pos, old(log.bodies), hw.data, body);
      assert AllKept(device[..], log.frames, log.pos, old(log.bodies) + [body], hw.data);
      assert log.bodies == old(log.bodies) + [body];
      assert hdrs[..] == old(hdrs[..]);
    }

    lemma PosAfter(w: nat)
      requires Layout(log.frames, log.pos) && w < |log.frames|
      ensures w + 1 < |log.pos| && log.pos[w + 1] == log.pos[w] + Ceil(log.frames[w])
    {
    }

    /** All headers are written and the lazily reduced cursors stand behind them. */
    ghost predicate Drained()
      reads this`log, this`shp, this`hdrCursor, this`sdp, this`pktsToSend
    {
      && |log.pos| == |log.frames| + 1 && log.written == |log.frames| && pktsToSend == 0 && hdrCursor == shp < 2 * n
      && Mask(shp, n) == Mask(log.written, n) && sdp == Mask(log.pos[|log.frames|], cap) && sdp % 32 == 0
    }

    /** Settle the books after a put and ask for the next 64 headers. */
    method Flush()
      requires Wired() && sync.hwptr == us.hhp && hdrCursor == shp < 2 * n && pktsAvailable < n
      modifies this`us, this`known, this`hw, this`sync, this`syncs, this`shp, this`hdrCursor, this`pktsAvailable, this`bytesAvailable
      ensures Wired() && sync.hwptr == us.hhp && hdrCursor == shp < n && pktsAvailable < n
      ensures shp == Mask(old(shp), n) && syncs == old(syncs) + if old(sync.hwptr) == Mask(old(shp), n) then 0 else 1
      ensures old(Safe() && Drained()) ==> Safe() && Cursors() && known.charged == log.written
      ensures old(Safe() && Drained()) && old(sync.hwptr) != Mask(log.written, n) ==>
                pktsAvailable == Min(Mask(64, n), known.hdr + n - 1 - log.written) && bytesAvailable == us.free
    {
      hide Mask, Safe, Reported, Short, Layout, Due, Wired, Cursors;
      ghost var good := Safe() && Drained();
      if good { InRange(); }
      WiredRing();
      Reduce();
      if good { InLap(shp, n); AtEnd(); }
      if sync.hwptr == shp {
        if good { SameCell(known.hdr, log.written, n); }
        return;
      }
      sync := sync.(hwptr := shp, swptr := Mask(shp + 64, n));
      ModAdd(shp + 64, 0 - shp, n);
      Ask();
    }

    lemma AtEnd()
      requires Layout(log.frames, log.pos) && Drained() && shp < n
      ensures shp == Mask(log.written, n) && Cursors()
    {
      InLap(shp, n);
    }

    /** Bring the header cursors back into the first lap of the mapping. */
    method Reduce()
      requires hdrCursor == shp < 2 * n
      modifies this`shp, this`hdrCursor
      ensures shp == hdrCursor == Mask(old(shp), n)
    {
      hide Mask;
      if shp >= n {
        OneLap(shp, n);
        shp := shp - n;
        hdrCursor := hdrCursor - n;
      }
      InLap(shp, n);
    }

    method Ask()
      requires Wired() && sync.hwptr < n
      modifies this`us, this`known, this`hw, this`sync, this`syncs, this`pktsAvailable, this`bytesAvailable
      ensures Wired() && sync.hwptr == us.hhp && pktsAvailable < n && syncs == old(syncs) + 1
      ensures old(Safe()) && log.written == |log.frames| && old(sync.hwptr) == Mask(log.written, n) ==>
                && Safe() && known.charged == log.written && bytesAvailable == us.free
                && pktsAvailable == Min(old(Mask(sync.swptr - sync.hwptr, n)), known.hdr + n - 1 - log.written)
    {
      hide Mask, Safe, Reported, Short, Layout, Due, Wired;
      ghost var good := Safe() && log.written == |log.frames| && sync.hwptr == Mask(log.written, n);
      if good { InRange(); }
      Sync();
      label Answered:
      if good { InRange(); }
      pktsAvailable := Mask(sync.swptr - sync.hwptr, n);
      bytesAvailable := sync.size;
      if good { Rebalanced@Answered(); }
    }

    /** The frames from `from` on are not too long for the device. */
    predicate AllFit(frames: seq<nat>, from: nat) {
      FitTo(frames, from, |frames|)
    }

    predicate FitTo(frames: seq<nat>, from: nat, to: nat)
      requires to <= |frames|
    {
      forall k :: from <= k < to ==> Ceil(frames[k]) <= cap - BLOCK
    }

    lemma FitOne(frames: seq<nat>, from: nat, k: nat)
      requires from <= k < |frames| && FitTo(frames, from, k) && Ceil(frames[k]) <= cap - BLOCK
      ensures FitTo(frames, from, k + 1)
    {
      hide Ceil;
    }

    predicate AllLook(frames: seq<nat>, from: nat) {
      forall k :: from <= k < |frames| ==> Looking(frames[k])
    }

    lemma SwiftAt(frames: seq<nat>, from: nat, k: nat)
      requires AllFit(frames, from) && AllLook(frames, from) && from <= k < |frames|
      ensures Ceil(frames[k]) <= cap - BLOCK && Looking(frames[k])
    {
    }

    /** The put stands at the first of the reserved frames. */
    ghost predicate AtFirst(first: nat, start: nat)
      reads this`log, this`pktsToSend
    {
      first == start == Mask(log.written, n) && log.written + pktsToSend == |log.frames|
    }

    /** The next reserved frame: its header is `first + i`, its place in host memory `txPkts[i]`. */
    ghost predicate AtNext(at: nat, cell: nat)
      reads this`log
    {
      log.written < |log.frames| && at == cell == Mask(log.written, n)
    }

    /** Wait for credit and write one frame. */
    method SendOne(cell: nat, slot: nat, at: nat, budget: nat) returns (polls: nat, ok: bool)
      requires Wired() && sync.hwptr == us.hhp && at < n && cell < n
      modifies this`us, this`known, this`hw, this`sync, this`syncs, this`bytesAvailable, this`deviceData, this`deviceHdr, this`log, device, deviceHdrs
      ensures log.frames == old(log.frames) && log.pos == old(log.pos)
      ensures Wired() && sync.hwptr == us.hhp && polls <= budget && buffer.Length > 0
      ensures syncs + polls == old(syncs) + budget && (!ok ==> polls == 0)
      ensures hdrs.Length == n && (ok ==> log.written == old(log.written) + 1)
      ensures !ok ==> log.written == old(log.written) && log.bodies == old(log.bodies)
      ensures ok ==> log.bodies == old(log.bodies) + [Unroll(buffer[..], slot, hdrs[cell].frameLen)]
      ensures old(Safe() && AtNext(at, cell)) ==>
                var len := log.frames[old(log.written)];
                && Safe() && (ok ==> Ceil(len) <= cap - BLOCK)
                && (prompt && Looking(len) && Ceil(len) <= cap - BLOCK && budget >= 2 ==> ok && polls + 2 >= budget)
      ensures old(Stuck() && AtNext(at, cell)) ==> !ok
    {
      hide Mask, Safe, Layout, Ceil, Short, Reported, Wired, Looking;
      WiredRing();
      ghost var good := Safe() && AtNext(at, cell);
      if good { HeaderHere(cell); InRange(); }
      var h := hdrs[cell];
      polls, ok := AwaitSpace(at, h.frameLen, budget);
      if ok {
        WriteFrame(slot, h, at);
      }
    }

    /** After `i` of the reserved frames: the books are right and those frames fit the device;
        a stuck queue has sent none. */
    ghost predicate Halfway(from: nat, i: nat, at: nat, stuck: bool)
      reads this, hdrs, device, deviceHdrs
    {
      && Safe() && log.written == from + i <= |log.frames| && at == Mask(log.written, n) && FitTo(log.frames, from, from + i)
      && (stuck ==> i == 0 && Stuck())
    }

    /** Write the next of the reserved frames. */
    method SendNext(first: nat, i: nat, at: nat, budget: nat, ghost from: nat, ghost stuck: bool)
      returns (polls: nat, ok: bool, next: nat)
      requires Wired() && sync.hwptr == us.hhp && at < n && i < |txPkts|
      modifies this`us, this`known, this`hw, this`sync, this`syncs, this`bytesAvailable, this`deviceData, this`deviceHdr, this`log, device, deviceHdrs
      ensures log.frames == old(log.frames) && log.pos == old(log.pos)
      ensures syncs + polls == old(syncs) + budget && (!ok ==> polls == 0)
      ensures Wired() && sync.hwptr == us.hhp && polls <= budget && next < n && hdrs.Length == n && buffer.Length > 0
      ensures !ok ==> log.bodies == old(log.bodies)
      ensures ok ==> log.bodies == old(log.bodies) + [Unroll(buffer[..], txPkts[i], hdrs[Mask(first + i, n)].frameLen)]
      ensures old(Halfway(from, i, at, stuck)) && from + i < |log.frames| && first == Mask(from, n) ==>
                && (if ok then Halfway(from, i + 1, next, stuck) else Safe() && log.written == from + i)
                && (prompt && AllFit(log.frames, from) && AllLook(log.frames, from) && budget >= 2 ==> ok && polls + 2 >= budget)
                && (stuck ==> !ok)
    {
      hide Mask, Safe, Layout, Ceil, Short, Wired, Looking, Contents, Unroll, Stuck, FitTo, AllLook, AllFit;
      WiredRing();
      ModAdd(from, i, n);
      ghost var good := Halfway(from, i, at, stuck) && from + i < |log.frames| && first == Mask(from, n);
      if good && AllFit(log.frames, from) && AllLook(log.frames, from) { SwiftAt(log.frames, from, from + i); }
      polls, ok := SendOne(Mask(first + i, n), txPkts[i], at, budget);
      if good && ok { FitOne(log.frames, from, from + i); }
      ModAdd(from + i, 1, n);
      next := Mask(at + 1, n);
    }

    /** Write the reserved frames in order, waiting for credit before each. */
    method SendAll(first: nat, start: nat, budget: nat) returns (done: bool)
      requires Wired() && sync.hwptr == us.hhp && start < n && |txPkts| == pktsToSend
      modifies this`us, this`known, this`hw, this`sync, this`syncs, this`bytesAvailable, this`deviceData, this`deviceHdr, this`log, device, deviceHdrs
      ensures log.frames == old(log.frames) && log.pos == old(log.pos)
      ensures Wired() && sync.hwptr == us.hhp && hdrs.Length == n && buffer.Length > 0
      ensures old(syncs) <= syncs <= old(syncs) + budget && (!done ==> syncs == old(syncs) + budget)
      ensures old(log.bodies) <= log.bodies <= old(log.bodies) + Contents(buffer[..], txPkts, Lens(hdrs[..], first, |txPkts|))
      ensures done ==> log.bodies == old(log.bodies) + Contents(buffer[..], txPkts, Lens(hdrs[..], first, |txPkts|))
      ensures old(Safe() && AtFirst(first, start)) ==>
                Safe() && old(log.written) <= log.written <= |log.frames| && (done <==> log.written == |log.frames|) && (done ==> AllFit(log.frames, old(log.written)))
      ensures old(Safe() && AtFirst(first, start)) ==>
                (prompt && AllFit(log.frames, old(log.written)) && AllLook(log.frames, old(log.written)) && budget >= 2 * pktsToSend ==> done)
      ensures old(Stuck() && AtFirst(first, start)) ==> !done
    {
      hide Mask, Safe, Wired, Contents, Lens, Unroll, Stuck, Halfway, AllLook, AllFit, AfterSome;
      var at: nat, polls: nat, i: nat := start, budget, 0;
      ghost var from, sent, stuck, good := log.written, log.bodies, Stuck() && AtFirst(first, start), Safe() && AtFirst(first, start);
      ghost var swift := good && prompt && AllFit(log.frames, from) && AllLook(log.frames, from) && budget >= 2 * pktsToSend;
      if stuck { StuckHas(); }
      WiredRing();
      if good { Starting(at, stuck); }
      AfterNone(sent, first);
      while i < pktsToSend
        invariant 0 <= i <= pktsToSend && Wired() && sync.hwptr == us.hhp && at < n
        invariant log.frames == old(log.frames) && log.pos == old(log.pos)
        invariant log.bodies == AfterSome(sent, first, i) && polls <= budget && syncs + polls == old(syncs) + budget
        invariant good ==> Halfway(from, i, at, stuck)
        invariant swift ==> polls >= 2 * (pktsToSend - i)
      {
        AfterMore(sent, first, i);
        if good { Arrived(from, i, at, stuck); }
        var ok, next;
        polls, ok, next := SendNext(first, i, at, polls, from, stuck);
        if !ok {
          AfterPart(sent, first, i);
          return false;
        }
        at, i := next, i + 1;
      }
      AfterPart(sent, first, i);
      if good { Arrived(from, i, at, stuck); }
      done := true;
    }

    /** `sent` and the first `i` of the reserved frames. */
    ghost function AfterSome(sent: seq<seq<Byte>>, first: nat, i: nat): seq<seq<Byte>>
      requires hdrs.Length == n && buffer.Length > 0 && i <= |txPkts|
      reads this`txPkts, hdrs, buffer
    {
      sent + Contents(buffer[..], txPkts[..i], Lens(hdrs[..], first, i))
    }

    lemma AfterNone(sent: seq<seq<Byte>>, first: nat)
      requires hdrs.Length == n && buffer.Length > 0
      ensures AfterSome(sent, first, 0) == sent
    {
      NoContents(buffer[..], txPkts, hdrs[..], first);
    }

    lemma AfterMore(sent: seq<seq<Byte>>, first: nat, i: nat)
      requires hdrs.Length == n && buffer.Length > 0 && i < |txPkts|
      ensures AfterSome(sent, first, i + 1)
              == AfterSome(sent, first, i) + [Unroll(buffer[..], txPkts[i], hdrs[Mask(first + i, n)].frameLen)]
    {
      hide Mask, Contents, Lens, Unroll;
      MoreContents(buffer[..], txPkts, hdrs[..], first, i);
    }

    lemma AfterPart(sent: seq<seq<Byte>>, first: nat, i: nat)
      requires hdrs.Length == n && buffer.Length > 0 && i <= |txPkts|
      ensures sent <= AfterSome(sent, first, i) <= sent + Contents(buffer[..], txPkts, Lens(hdrs[..], first, |txPkts|))
      ensures i == |txPkts| ==> AfterSome(sent, first, i) == sent + Contents(buffer[..], txPkts, Lens(hdrs[..], first, |txPkts|))
    {
      hide Contents, Lens;
      SomeContents(buffer[..], txPkts, hdrs[..], first, i);
    }

    lemma Starting(at: nat, stuck: bool)
      requires Safe() && log.written <= |log.frames| && at == Mask(log.written, n) && (stuck ==> Stuck())
      ensures Halfway(log.written, 0, at, stuck)
    {
      hide Mask, Safe;
    }

    lemma Arrived(from: nat, i: nat, at: nat, stuck: bool)
      requires Halfway(from, i, at, stuck)
      ensures (stuck ==> i == 0) && Safe() && log.written == from + i <= |log.frames|
      ensures from + i == |log.frames| ==> AllFit(log.frames, from)
    {
      hide Safe;
    }

    lemma WiredRing()
      requires Wired()
      ensures hdrs.Length == n && hdrs != deviceHdrs && buffer.Length > 0 && buffer != device && us.shp < n && us.hhp < n
    {
    }

    /** The reserved frames as they lie in host memory, with the lengths their headers say. */
    ghost function Pending(): seq<seq<Byte>>
      requires hdrs.Length == n && buffer.Length > 0 && |txPkts| <= hdrCursor
      reads this`txPkts, this`hdrCursor, hdrs, buffer
    {
      Contents(buffer[..], txPkts, Lens(hdrs[..], hdrCursor - |txPkts|, |txPkts|))
    }

    lemma NothingPending()
      requires hdrs.Length == n && buffer.Length > 0 && txPkts == []
      ensures Pending() == []
    {
    }

    /** Send the reserved frames.  `budget` limits how often the put polls for credit;
        whatever it is, and at every stop, the books are right and no unread byte was
        lost.  A put that finishes has sent the reserved frames, and it can finish only if
        none of them is too long for the device; then prompt hardware lets it finish,
        provided it looks at the update buffer. */
    method BurstPut(budget: nat) returns (done: bool)
      requires Shape()
      modifies this, device, deviceHdrs
      ensures Shape() && log.frames == old(log.frames) && log.pos == old(log.pos) && hdrs.Length == n && buffer.Length > 0
      ensures old(log.bodies) <= log.bodies <= old(log.bodies + Pending())
      ensures done ==> pktsToSend == 0 && log.bodies == old(log.bodies + Pending()) && Pending() == []
      ensures syncs >= old(syncs) && (!done ==> syncs == old(syncs) + budget)
      ensures old(Valid()) ==> Safe()
      ensures old(Valid()) && done ==> Valid() && log.written == |log.frames| && AllFit(log.frames, old(log.written))
      ensures old(Valid()) && prompt && AllFit(log.frames, old(log.written)) && AllLook(log.frames, old(log.written)) && budget >= 2 * old(pktsToSend) ==> done
      ensures old(Valid() && Stuck()) ==> !done
    {
      hide Mask, Safe, Layout, Ceil, Short, Reported, Wired, Looking, Contents, Lens, Stuck;
      WiredRing();
      ghost var w0, good := log.written, Valid();
      if good { InRange(); }
      done := SendAll(hdrCursor - pktsToSend, shp - pktsToSend, budget);
      if done {
        if good { ModAdd(w0, pktsToSend, n); InRange(); PosSize(); }
        EndPut();
      }
    }

    /** Nothing is left to send. */
    method EndPut()
      requires Wired() && sync.hwptr == us.hhp && hdrCursor == shp < 2 * n && pktsAvailable < n
      requires cap % 32 == 0 && sdp % 32 == 0 && frameMin <= frameMax < 0x1_0000
      modifies this
      ensures Shape() && hdrs.Length == n && buffer.Length > 0 && pktsToSend == 0 && Pending() == []
      ensures log.bodies == old(log.bodies) && log.frames == old(log.frames) && log.pos == old(log.pos) && log.written == old(log.written)
      ensures syncs >= old(syncs)
      ensures old(Safe() && Sent()) ==> Valid()
    {
      hide Mask, Safe, Layout, Wired, Contents, Lens;
      WiredRing();
      pktsToSend, txPkts := 0, [];
      Flush();
      NothingPending();
    }

    /** All headers are written. */
    ghost predicate Sent()
      reads this`log, this`shp, this`sdp
    {
      |log.pos| == |log.frames| + 1 && log.written == |log.frames| && Mask(shp, n) == Mask(log.written, n) && sdp == Mask(log.pos[|log.frames|], cap)
    }

    /** Flushing sends what is reserved and settles the books. */
    method BurstFlush(budget: nat) returns (done: bool)
      requires Shape()
      modifies this, device, deviceHdrs
      ensures Shape() && log.frames == old(log.frames) && log.pos == old(log.pos) && hdrs.Length == n && buffer.Length > 0
      ensures done ==> pktsToSend == 0 && log.bodies == old(log.bodies + Pending())
      ensures (old(pktsToSend) == 0 ==> done) && (!done ==> syncs == old(syncs) + budget)
      ensures old(pktsToSend) == 0 ==>
                shp == Mask(old(shp), n) && syncs == old(syncs) + if old(sync.hwptr) == Mask(old(shp), n) then 0 else 1
      ensures old(Valid()) ==> Safe()
      ensures old(Valid()) && done ==> Valid() && log.written == |log.frames|
    {
      hide Mask, Safe, Layout, Wired, Contents, Lens;
      WiredRing();
      if pktsToSend > 0 {
        done := BurstPut(budget);
      } else {
        NothingPending();
        if Valid() { InRange(); PosSize(); InLap(shp, n); }
        Flush();
        done := true;
      }
    }

    lemma HeaderHere(cell: nat)
      requires Safe() && log.written < |log.frames| && cell == Mask(log.written, n)
      ensures cell < hdrs.Length && IsNext(hdrs[cell], cell)
    {
      hide Mask, Intact, Credit;
    }

    /** Write the headers of a burst behind the reserved ones, stopping at the first
        packet that cannot be sent; what is reserved stays as it was. */
    method Prepare(reqs: seq<Request>)
      returns (slots: seq<Slot>, sdpInt: nat, ok: bool, ghost fs: seq<nat>, ghost ps: seq<nat>)
      requires Shape() && |reqs| <= pktsAvailable && pktsToSend == 0
      modifies hdrs, buffer
      ensures Shape() && hdrs.Length == n && buffer.Length > 0 && sdpInt % 32 == 0
      ensures ok ==> Lens(hdrs[..], hdrCursor, |reqs|) == SizesOf(reqs, frameMin) && sdpInt == sdp + RoomFor(SizesOf(reqs, frameMin))
      ensures ok <==> forall r :: r in reqs ==> Sendable(r, frameMin, frameMax)
      ensures ok ==> |slots| == |reqs| && Row(slots, reqs, frameMin, sdp, sdpInt)
      ensures ok && Headerless(reqs) && sdpInt <= sdp + buffer.Length ==> Padded(buffer[..], slots, reqs, frameMin)
      ensures old(Valid()) ==> Valid()
      ensures old(Valid()) && ok ==> fs == log.frames + SizesOf(reqs, frameMin) && Extends(fs, ps)
      ensures old(Valid()) && ok ==> Slotted(slots, reqs, ps, |log.frames|, sdp) && Labelled(hdrs[..], |log.frames|, reqs, |reqs|)
      ensures old(Valid()) && ok ==>
                |log.frames| < |ps| && ps[|log.frames|] == log.pos[|log.frames|] && sdpInt + log.pos[|log.frames|] == sdp + ps[|fs|]
    {
      hide Mask, Ceil, Safe, Layout, InRing, FrameSize, Sendable;
      hide Slotted, Labelled, Row, Padded, Headerless, Lens, RoomFor, Wired;
      ghost var good := Valid();
      WiredRing();
      if good {
        InRange();
        Unextended();
        SlotCell(0);
      }
      slots, sdpInt, ok, fs, ps := WriteHeaders(reqs, good);
      if good {
        InRingPrefix(hdrs[..], known.charged, log.frames, log.pos, fs, ps, cap);
        Untouched();
      }
    }

    /** Clear the padding of a request whose slot is at `at`. */
    method Clear(at: nat, r: Request)
      requires buffer.Length > 0
      modifies buffer
      ensures buffer[..] == Cleared(old(buffer[..]), at, r, frameMin)
    {
      var size := r.headerLen + r.dataLen;
      if size < frameMin {
        StoreInto(buffer, at + r.headerLen + size, Zeros(frameMin - size));
      }
    }

    /** The headers and where the data pointer ends up; in a `good` state, also the history
        they extend. */
    method WriteHeaders(reqs: seq<Request>, ghost good: bool)
      returns (slots: seq<Slot>, sdpInt: nat, ok: bool, ghost fs: seq<nat>, ghost ps: seq<nat>)
      requires hdrs.Length == n && buffer.Length > 0 && |reqs| <= n && sdp % 32 == 0 && frameMin <= frameMax < 0x1_0000
      requires good ==> Extends(log.frames, log.pos) && known.charged <= |log.frames| && |log.frames| + |reqs| <= known.charged + n
      requires good ==> sdp == Mask(log.pos[|log.frames|], cap) && Mask(hdrCursor, n) == Mask(|log.frames|, n)
      modifies hdrs, buffer
      ensures ok ==> Lens(hdrs[..], hdrCursor, |reqs|) == SizesOf(reqs, frameMin) && sdpInt == sdp + RoomFor(SizesOf(reqs, frameMin))
      ensures ok <==> forall r :: r in reqs ==> Sendable(r, frameMin, frameMax)
      ensures ok ==> |slots| == |reqs| && Row(slots, reqs, frameMin, sdp, sdpInt)
      ensures ok && Headerless(reqs) && sdpInt <= sdp + buffer.Length ==> Padded(buffer[..], slots, reqs, frameMin)
      ensures good ==> Extends(fs, ps) && (ok ==> fs == log.frames + SizesOf(reqs, frameMin))
      ensures good && ok ==> Slotted(slots, reqs, ps, |log.frames|, sdp) && Labelled(hdrs[..], |log.frames|, reqs, |reqs|)
      ensures sdpInt % 32 == 0 && (good ==> sdpInt + log.pos[|log.frames|] == sdp + ps[|fs|])
    {
      hide Mask, Ceil, Layout, InRing, FrameSize, Sendable, Slotted, Labelled, Row, Padded, Headerless, Cleared, RoomFor, Lens;
      slots, sdpInt, ok, fs, ps := [], sdp, true, log.frames, log.pos;
      NoRow(reqs, sdp);
      if good { NoneYet(reqs); }
      NoLens(reqs);
      assert SizesOf(reqs[..0], frameMin) == [] && fs == log.frames + [];
      for i := 0 to |reqs|
        invariant |slots| == i && Row(slots, reqs, frameMin, sdp, sdpInt)
        invariant Headerless(reqs) && sdpInt <= sdp + buffer.Length ==> Padded(buffer[..], slots, reqs, frameMin)
        invariant good ==> Extends(fs, ps) && fs == log.frames + SizesOf(reqs[..i], frameMin)
        invariant sdpInt % 32 == 0 && (good ==> sdpInt + log.pos[|log.frames|] == sdp + ps[|fs|])
        invariant Lens(hdrs[..], hdrCursor, i) == SizesOf(reqs[..i], frameMin) && sdpInt == sdp + RoomFor(SizesOf(reqs[..i], frameMin))
        invariant forall j :: 0 <= j < i ==> Sendable(reqs[j], frameMin, frameMax)
        invariant good ==> Slotted(slots, reqs, ps, |log.frames|, sdp) && Labelled(hdrs[..], |log.frames|, reqs, i)
      {
        var r := reqs[i];
        if !Sendable(r, frameMin, frameMax) {
          ok := false;
          return;
        }
        var size := FrameSize(r, frameMin);
        var h := Header(size % 0x1_0000, Mask(sdpInt, cap), r.headerLen, r.flags % 16);
        var slot := Slot(sdpInt, sdpInt + r.headerLen);
        SizeFits(r);
        CeilSum(sdpInt, size);
        LensSnoc(hdrs[..], hdrCursor, i, h);
        RoomSnoc(SizesOf(reqs[..i], frameMin), size);
        assert SizesOf(reqs[..i + 1], frameMin) == SizesOf(reqs[..i], frameMin) + [size];
        if good {
          LabelledSnoc(hdrs[..], |log.frames|, reqs, i, h);
          SlottedSnoc(slots, reqs, ps, |log.frames|, sdp, sdpInt, ps[|fs|] + Ceil(size));
          PtrIs(sdpInt, fs, ps);
          Extend(fs, ps, h);
          SameStep(hdrCursor, |log.frames|, i, n);
          assert fs + [size] == log.frames + (SizesOf(reqs[..i], frameMin) + [size]);
          fs, ps := fs + [size], ps + [ps[|fs|] + Ceil(size)];
        }
        Behind(slots, reqs, sdpInt);
        Clear(sdpInt, r);
        hdrs[Mask(hdrCursor + i, n)] := h;
        slots := slots + [slot];
        sdpInt := Ceil(sdpInt + size);
      }
      assert reqs[..|reqs|] == reqs;
    }

    lemma NoRow(reqs: seq<Request>, at: nat)
      requires buffer.Length > 0
      ensures Row([], reqs, frameMin, at, at) && Padded(buffer[..], [], reqs, frameMin)
    {
    }

    /** The next slot lies behind the others, and clearing its padding spares theirs. */
    lemma Behind(slots: seq<Slot>, reqs: seq<Request>, at: nat)
      requires buffer.Length > 0 && |slots| < |reqs| && Row(slots, reqs, frameMin, sdp, at)
      requires Headerless(reqs) && at <= sdp + buffer.Length ==> Padded(buffer[..], slots, reqs, frameMin)
      ensures
        var r := reqs[|slots|];
        var next, end := Slot(at, at + r.headerLen), Ceil(at + FrameSize(r, frameMin));
        && Row(slots + [next], reqs, frameMin, sdp, end) && at <= end
        && |Cleared(buffer[..], at, r, frameMin)| == buffer.Length
        && (Headerless(reqs) && end <= sdp + buffer.Length ==>
              Padded(Cleared(buffer[..], at, r, frameMin), slots + [next], reqs, frameMin))
    {
      hide Ceil, FrameSize, Row, Padded, Headerless, Cleared;
      var r := reqs[|slots|];
      var next, end := Slot(at, at + r.headerLen), Ceil(at + FrameSize(r, frameMin));
      RowSnoc(slots, reqs, frameMin, sdp, at);
      ClearedSize(buffer[..], at, r, frameMin);
      if Headerless(reqs) && end <= sdp + buffer.Length {
        PaddedSnoc(buffer[..], slots, reqs, frameMin, sdp, at, next);
      }
    }

    /** An address is congruent to the stream position it stands for. */
    lemma PtrIs(at: nat, fs: seq<nat>, ps: seq<nat>)
      requires |log.frames| < |log.pos| && |fs| < |ps| && sdp == Mask(log.pos[|log.frames|], cap) && at + log.pos[|log.frames|] == sdp + ps[|fs|]
      ensures Mask(at, cap) == Mask(ps[|fs|], cap)
    {
      hide Mask;
      ModAdd(log.pos[|log.frames|], 0, cap);
      SameStep(sdp, log.pos[|log.frames|], (ps[|fs|] as int) - log.pos[|log.frames|], cap);
    }

    lemma NoLens(reqs: seq<Request>)
      requires hdrs.Length == n
      ensures Lens(hdrs[..], hdrCursor, 0) == SizesOf(reqs[..0], frameMin) && RoomFor(SizesOf(reqs[..0], frameMin)) == 0
    {
    }

    lemma NoneYet(reqs: seq<Request>)
      requires hdrs.Length == n && |log.frames| < |log.pos|
      ensures Slotted([], reqs, log.pos, |log.frames|, sdp) && Labelled(hdrs[..], |log.frames|, reqs, 0)
    {
    }

    /** The ring describes the longer history `fs`, laid out at `ps`. */
    ghost predicate Extends(fs: seq<nat>, ps: seq<nat>)
      reads this`log, this`known, hdrs
    {
      && hdrs.Length == n && Layout(fs, ps) && |ps| == |fs| + 1 && log.frames <= fs && log.pos <= ps
      && InRing(hdrs[..], known.charged, fs, ps, cap)
    }

    lemma Unextended()
      requires Safe()
      ensures Extends(log.frames, log.pos)
    {
      hide Mask, InRing, AllKept;
    }

    lemma SizeFits(r: Request)
      requires frameMin <= frameMax < 0x1_0000 && Sendable(r, frameMin, frameMax)
      ensures FrameSize(r, frameMin) % 0x1_0000 == FrameSize(r, frameMin)
    {
      hide Mask, InRing, AllKept;
    }

    lemma Extend(fs: seq<nat>, ps: seq<nat>, h: Header)
      requires Extends(fs, ps) && known.charged <= |fs| < known.charged + n && h.framePtr == Mask(ps[|fs|], cap)
      ensures
        var fs', ps' := fs + [h.frameLen], ps + [ps[|fs|] + Ceil(h.frameLen)];
        Layout(fs', ps') && InRing(hdrs[..][Mask(|fs|, n) := h], known.charged, fs', ps', cap)
    {
      hide Mask, InRing, Layout, Ceil;
      InRingSnoc(hdrs[..], known.charged, fs, ps, cap, h);
    }

    lemma SlotCell(i: nat)
      requires Safe() && Cursors() && pktsToSend == 0
      ensures Mask(hdrCursor + i, n) == Mask(|log.frames| + i, n)
    {
      hide Mask, InRing, AllKept;
      ModAdd(|log.frames|, i, n);
    }

    twostate lemma Untouched()
      requires old(Safe()) && hdrs.Length == n && Layout(log.frames, log.pos) && HeadersFrom(known.charged)
      requires unchanged(this`log, this`known, this`hw, this`deviceData, this`deviceHdr, this`pktsAvailable, this`us, this`bytesAvailable, device, deviceHdrs)
      ensures Safe()
    {
      hide Mask, InRing, AllKept, Layout;
    }

    /** Take a prepared burst into the queue's history and cursors. */
    method Commit(slots: seq<Slot>, sdpInt: nat, ghost good: bool, ghost fs: seq<nat>, ghost ps: seq<nat>)
      requires Shape() && |slots| <= pktsAvailable && pktsToSend == 0 && shp < n && sdpInt % 32 == 0
      requires good ==> Valid() && Extends(fs, ps) && |fs| == |log.frames| + |slots|
      requires good ==> sdpInt + log.pos[|log.frames|] == sdp + ps[|fs|]
      modifies this`log, this`shp, this`hdrCursor, this`sdp, this`pktsAvailable, this`pktsToSend, this`txPkts
      ensures log.written == old(log.written) && log.bodies == old(log.bodies)
      ensures Shape() && pktsToSend == |slots| && txPkts == Starts(slots) && hdrCursor == old(hdrCursor) + |slots|
      ensures if good then Valid() && log.frames == fs && log.pos == ps else log.frames == old(log.frames) && log.pos == old(log.pos)
    {
      hide Mask, InRing, Layout, Safe, Cursors, Wired;
      var cnt := |slots|;
      MaskBlocks(sdpInt, cap);
      if good {
        InRange();
        WholeBlocks();
        PosSize();
        EndIs(sdpInt, fs, ps);
        log := log.(frames := fs, pos := ps);
      }
      hdrCursor, shp, sdp := hdrCursor + cnt, shp + cnt, Mask(sdpInt, cap);
      pktsAvailable, pktsToSend, txPkts := pktsAvailable - cnt, pktsToSend + cnt, Starts(slots);
      if good { Committed(cnt); }
    }

    lemma EndIs(at: nat, fs: seq<nat>, ps: seq<nat>)
      requires Layout(log.frames, log.pos) && log.written <= |log.frames| && Cursors()
      requires |fs| < |ps| && at + log.pos[|log.frames|] == sdp + ps[|fs|]
      ensures Mask(at, cap) == Mask(ps[|fs|], cap)
    {
      PtrIs(at, fs, ps);
    }

    lemma WholeBlocks()
      requires Safe()
      ensures cap % 32 == 0
    {
    }

    twostate lemma Committed(cnt: nat)
      requires Shape() && old(Valid()) && Layout(log.frames, log.pos) && old(|log.pos|) == old(|log.frames|) + 1 && old(log.frames) <= log.frames && old(log.pos) <= log.pos
      requires |log.pos| == |log.frames| + 1 && |log.frames| == old(|log.frames|) + cnt && HeadersFrom(known.charged)
      requires old(pktsToSend) == 0 && pktsToSend == cnt <= old(pktsAvailable) && pktsAvailable == old(pktsAvailable) - cnt
      requires hdrCursor == old(hdrCursor) + cnt && shp == old(shp) + cnt && sdp == Mask(log.pos[|log.frames|], cap) && sdp % 32 == 0
      requires log.bodies == old(log.bodies) && log.written == old(log.written)
      requires unchanged(this`known, this`hw, this`deviceData, this`deviceHdr, this`us, this`bytesAvailable, this`sync, hdrs, device, deviceHdrs)
      ensures Valid()
    {
      hide Mask, InRing, AllKept, Layout;
      assert device[..] == old(device[..]);
      AllKeptMore(device[..], old(log.frames), old(log.pos), log.frames, log.pos, log.bodies, hw.data);
      assert deviceHdrs[..] == old(deviceHdrs[..]);
      AnnouncesMore(deviceHdrs[..], hw.hdr, log.written, old(log.frames), old(log.pos), log.frames, log.pos, cap);
      assert Sized() && Ordered();
      assert Intact();
    }

    /** The call may take the lock while something is in flight, see `Lock`. */
    predicate Risky(count: nat)
      reads this`pktsToSend, this`pktsAvailable, this`sync, this`us
    {
      pktsToSend == 0 && pktsAvailable < count <= 256 && sync.hwptr != us.shp
    }

    /** Reserve frames for a whole burst, or reserve nothing, in any state.  Right books stay
        right if and only if the call does not have to ask for more headers while frames are
        in flight; otherwise the credit is short of what it should be by the rounded lengths
        of the headers that are not. */
    method BurstGet(reqs: seq<Request>) returns (slots: seq<Slot>, cnt: nat, ghost end: nat)
      requires Shape()
      modifies this, hdrs, buffer
      ensures Shape() && cnt == |slots| && (cnt == 0 || cnt == |reqs|) && pktsToSend == old(pktsToSend) + cnt
      ensures hdrs.Length == n && |txPkts| == pktsToSend <= hdrCursor
      ensures log.written == old(log.written) && log.bodies == old(log.bodies) && buffer.Length > 0
      ensures old(Valid()) ==> (Valid() <==> !old(Risky(|reqs|)))
      ensures old(Granting(|reqs|)) ==>
                ((forall r :: r in reqs ==> Sendable(r, frameMin, frameMax)) ==> cnt == |reqs|)
      ensures |reqs| > 256 || old(pktsToSend) != 0 ==> cnt == 0 && syncs == old(syncs)
      ensures cnt > 0 ==> forall r :: r in reqs ==> Sendable(r, frameMin, frameMax)
      ensures cnt < |reqs| <= 256 && old(pktsToSend) == 0 && (forall r :: r in reqs ==> Sendable(r, frameMin, frameMax)) ==>
                syncs == old(syncs) + 1 && us.shp == old(sync.hwptr) && pktsAvailable == Room() < |reqs|
      ensures syncs >= old(syncs)
      ensures old(Valid()) && !Valid() ==>
                && log.frames == old(log.frames) && log.pos == old(log.pos) && known.charged == old(known.charged) && Robbed(old(Due()))
                && old(known.data) <= known.data <= deviceData
      ensures deviceData == old(deviceData)
      ensures old(Valid()) && Valid() ==> log.frames == old(log.frames) + SizesOf(reqs[..cnt], frameMin)
      ensures old(Valid()) && Valid() && cnt > 0 ==>
                Slotted(slots, reqs, log.pos, |old(log.frames)|, old(sdp)) && Labelled(hdrs[..], |old(log.frames)|, reqs, cnt)
      ensures cnt > 0 ==> txPkts == Starts(slots) && Row(slots, reqs, frameMin, old(sdp), end) && old(pktsToSend) == 0
      ensures cnt > 0 ==> Lens(hdrs[..], hdrCursor - cnt, cnt) == SizesOf(reqs, frameMin)
      ensures cnt > 0 ==> end == old(sdp) + RoomFor(SizesOf(reqs, frameMin))
      ensures cnt > 0 && Headerless(reqs) && end <= old(sdp) + buffer.Length ==> Padded(buffer[..], slots, reqs, frameMin)
      ensures cnt == 0 ==> Pending() == old(Pending())
      ensures cnt < |reqs| ==>
                (old(pktsToSend) != 0 || |reqs| > 256 || pktsAvailable < |reqs|
                 || exists r :: r in reqs && !Sendable(r, frameMin, frameMax))
    {
      hide Mask, Valid, Shape, Sendable, Slotted, Labelled, Row, Padded, Headerless, Robbed, Due, Lens, RoomFor, Contents, Pending;
      assert log.frames == log.frames + SizesOf(reqs[..0], frameMin);
      ShapeIs();
      slots, cnt, end := [], 0, sdp;
      if pktsToSend != 0 || 256 < |reqs| {
        return;
      }
      NothingPending();
      var enough := Claim(|reqs|);
      ShapeIs();
      if !enough {
        NothingPending();
        return;
      }
      slots, end := Reserve(reqs);
      ShapeIs();
      cnt := |slots|;
      if cnt == 0 { NothingPending(); }
    }

    /** A get of `count` requests finds headers enough: they are at hand already, or nothing is
        in flight and they fit the ring. */
    ghost predicate Granting(count: nat)
      reads this, hdrs, device, deviceHdrs
    {
      pktsToSend == 0 && count <= 256 && (count <= pktsAvailable || (Valid() && sync.hwptr == us.shp && count <= n - 1))
    }

    lemma ShapeIs()
      requires Shape()
      ensures hdrs.Length == n && hdrs != deviceHdrs && buffer.Length > 0 && buffer != device
      ensures |txPkts| == pktsToSend <= hdrCursor == shp
      ensures cap % 32 == 0 && sdp % 32 == 0 && frameMin <= frameMax < 0x1_0000 && pktsAvailable < n
    {
    }

    /** Make sure there are `count` headers, asking for more if there are not. */
    method Claim(count: nat) returns (enough: bool)
      requires Shape() && pktsToSend == 0
      modifies this`us, this`known, this`hw, this`sync, this`syncs, this`shp, this`hdrCursor, this`pktsAvailable, this`bytesAvailable
      ensures old(pktsAvailable) >= count ==> enough && syncs == old(syncs)
      ensures old(Valid()) && old(sync.hwptr == us.shp) ==> (enough <==> count <= n - 1)
      ensures !enough ==> syncs == old(syncs) + 1 && us.shp == old(sync.hwptr) && pktsAvailable == Room()
      ensures syncs >= old(syncs)
      ensures Shape() && (enough ==> count <= pktsAvailable) && (!enough ==> pktsAvailable < count)
      ensures old(Valid()) ==> (Valid() <==> !(old(pktsAvailable) < count && old(sync.hwptr != us.shp)))
      ensures old(Valid()) && !Valid() ==> us.shp != Mask(known.charged, n) && known.charged == old(known.charged) && Robbed(old(Due()))
      ensures old(Valid()) ==> old(known.data) <= known.data <= deviceData
    {
      hide Mask, Safe, Robbed, Due, Wired;
      if Safe() { PointersAre(); TrackedIs(); }
      if pktsAvailable < count {
        Lock();
      }
      enough := count <= pktsAvailable;
    }

    /** Prepare a burst and take it, or leave everything reserved as it was. */
    method Reserve(reqs: seq<Request>) returns (slots: seq<Slot>, ghost end: nat)
      requires Shape() && |reqs| <= pktsAvailable && pktsToSend == 0
      modifies this`log, this`shp, this`hdrCursor, this`sdp, this`pktsAvailable, this`pktsToSend, this`txPkts, hdrs, buffer
      ensures log.written == old(log.written) && log.bodies == old(log.bodies)
      ensures Shape() && buffer.Length > 0 && (slots == [] || |slots| == |reqs|) && pktsToSend == |slots| && txPkts == Starts(slots)
      ensures |slots| < |reqs| <==> exists r :: r in reqs && !Sendable(r, frameMin, frameMax)
      ensures Row(slots, reqs, frameMin, old(sdp), end) && hdrs.Length == n && |slots| <= hdrCursor
      ensures slots != [] ==> Lens(hdrs[..], hdrCursor - |slots|, |slots|) == SizesOf(reqs, frameMin)
      ensures slots != [] ==> end == old(sdp) + RoomFor(SizesOf(reqs, frameMin))
      ensures slots != [] && Headerless(reqs) && end <= old(sdp) + buffer.Length ==> Padded(buffer[..], slots, reqs, frameMin)
      ensures !old(Valid()) ==> log.frames == old(log.frames) && log.pos == old(log.pos) && (us.shp != Mask(known.charged, n) ==> !Valid())
      ensures old(Valid()) ==> Valid() && log.frames == old(log.frames) + SizesOf(reqs[..|slots|], frameMin)
      ensures old(Valid()) && slots != [] ==>
                Slotted(slots, reqs, log.pos, |old(log.frames)|, old(sdp)) && Labelled(hdrs[..], |old(log.frames)|, reqs, |slots|)
    {
      hide Mask, Safe, Cursors, Layout, Extends, Sendable, Slotted, Labelled, Row, Padded, Headerless, Wired, Lens, RoomFor;
      WiredRing();
      assert log.frames == log.frames + SizesOf(reqs[..0], frameMin);
      var sdpInt, ok;
      ghost var fs, ps;
      ghost var good := Valid();
      if good { InRange(); }
      slots, sdpInt, ok, fs, ps := Prepare(reqs);
      end := sdpInt;
      if !ok {
        if Safe() { PointersAre(); }
        NoRow(reqs, sdp);
        return [], sdp;
      }
      assert reqs[..|reqs|] == reqs;
      Commit(slots, sdpInt, good, fs, ps);
      if good { InRange(); }
      if Safe() { PointersAre(); }
    }

    /** Stop and start again: hardware starts over and the credit is set to the capacity less a
        block; pointers and cursors stay.  Every later call is right if and only if the pointers
        were at zero and nothing was reserved; `LookAfterRestart` tells what goes wrong. */
    method Restart()
      requires Valid()
      modifies this
      ensures us == old(us).(free := cap - BLOCK) && hw == Progress(0, 0, 0, 0) && log == History([], [0], [], 0)
      ensures Valid() <==> old(us.shp == us.hhp == us.sdp == us.hdp == 0 && pktsToSend == 0)
    {
      hide Mask, AllKept, InRing, Announces;
      CreditBound();
      InLap(0, n);
      InLap(0, cap);
      us, hw := us.(free := cap - BLOCK), Progress(0, 0, 0, 0);
      deviceData, deviceHdr := 0, 0;
      log, known := History([], [0], [], 0), Known(0, 0, 0);
      NothingSent(hdrs[..], deviceHdrs[..], device[..], cap);
    }

    /** With the hardware data pointer left over from before, the first look at the update buffer
        adds the rest of the memory to a credit that is full already. */
    method LookAfterRestart()
      requires Valid() && us.hdp != 0
      modifies this
      ensures us.free == if old(HeaderRoom()) < 512 || cap - BLOCK <= 4096 then cap - BLOCK + (cap - old(us.hdp)) else cap - BLOCK
      ensures cap - old(us.hdp) > 0 && log == History([], [0], [], 0)
    {
      hide Mask, AllKept, InRing, Announces;
      ghost var h := us.hdp;
      Restart();
      InLap(0, cap);
      OneLapBack(h, cap);
      InLap(cap - BLOCK + (cap - h), WORD);
      Refresh();
    }
  }
}
