/** The receive half of a version 3 queue in userspace mode.  Hardware announces packets
by writing headers whose valid bit alternates from lap to lap; software finds the
hardware position by scanning for the first header of the wrong phase. */
module RxV3 {
  import opened Ring

  /** NDP_RX_CALYPTE_BLOCK_SIZE */
  const BLOCK := 128

  datatype Header = Header(frameLen: nat, framePtr: nat, valid: bool, headerSize: nat, flags: nat)

  datatype Packet = Packet(header: nat, headerLen: nat, data: nat, dataLen: nat, flags: nat)

  function Decode(h: Header): Packet {
    var size := h.headerSize % 0x100;
    Packet(h.framePtr * BLOCK, size, h.framePtr * BLOCK + size, (h.frameLen - size) % 0x1_0000_0000, h.flags % 16)
  }

  /** Metadata and data split the frame without a gap if and only if the metadata length is
      within the frame. */
  lemma DecodeSplitsIff(h: Header)
    requires h.frameLen < 0x1_0000
    ensures
      var p := Decode(h);
      p.data == p.header + p.headerLen
      && (p.headerLen + p.dataLen == h.frameLen <==> h.headerSize % 0x100 <= h.frameLen)
  {
  }

  function DecodeAll(hs: seq<Header>): (ps: seq<Packet>)
    ensures |ps| == |hs| && forall i :: 0 <= i < |ps| ==> ps[i] == Decode(hs[i])
  {
    seq(|hs|, i requires 0 <= i < |hs| => Decode(hs[i]))
  }

  /** Where the packets lie that are handed out for headers `hs`, field by field. */
  lemma Told(hs: seq<Header>)
    ensures forall i :: 0 <= i < |hs| ==>
              var p, h := DecodeAll(hs)[i], hs[i];
              && p.header == 128 * h.framePtr && p.headerLen == h.headerSize % 256 && p.data == 128 * h.framePtr + h.headerSize % 256
              && p.dataLen == (h.frameLen - h.headerSize % 256) % 0x1_0000_0000 && p.flags == h.flags % 16
  {
  }

  /** Data blocks taken by a packet. */
  function BlockCount(h: Header): (c: nat)
    ensures h.frameLen <= 128 * c < h.frameLen + 128
  {
    (h.frameLen + BLOCK - 1) / BLOCK
  }

  /** Data blocks taken by a run of packets. */
  function Blocks(hs: seq<Header>): nat {
    if hs == [] then 0 else Blocks(hs[..|hs| - 1]) + BlockCount(hs[|hs| - 1])
  }

  lemma BlocksSnoc(hs: seq<Header>, h: Header)
    ensures Blocks(hs + [h]) == Blocks(hs) + BlockCount(h)
  {
    assert (hs + [h])[..|hs|] == hs;
  }

  lemma {:induction false} BlocksGrow(hs: seq<Header>, i: nat)
    requires i <= |hs|
    ensures Blocks(hs[..i]) <= Blocks(hs)
    decreases |hs|
  {
    if i < |hs| {
      var less := hs[..|hs| - 1];
      assert less[..i] == hs[..i];
      BlocksGrow(less, i);
    } else {
      assert hs[..i] == hs;
    }
  }

  /** Hardware places every frame behind the blocks of those before it. */
  ghost predicate Placed(hs: seq<Header>, dataBlocks: Pos) {
    forall k :: 0 <= k < |hs| ==> hs[k].framePtr == Mask(Blocks(hs[..k]), dataBlocks)
  }

  /** Address `x` belongs to the metadata or the data handed out. */
  predicate Covers(p: Packet, x: int) {
    p.header <= x < p.header + p.headerLen || p.data <= x < p.data + p.dataLen
  }

  /** The metadata length is within the frame. */
  predicate Honest(h: Header) {
    h.headerSize % 0x100 <= h.frameLen < 0x1_0000
  }

  /** Every byte handed out lies in one of the blocks by which the packet moves the space given
      back: block `b` of the stream, in the ring of data blocks. */
  lemma FrameInBlocks(hs: seq<Header>, k: nat, dataBlocks: Pos, x: int) returns (b: nat)
    requires Placed(hs, dataBlocks) && k < |hs| && Honest(hs[k]) && Covers(Decode(hs[k]), x)
    ensures Blocks(hs[..k]) <= b < Blocks(hs[..k + 1])
    ensures 128 * dataBlocks > 0 && Mask(x, 128 * dataBlocks) == 128 * Mask(b, dataBlocks) + x % 128
  {
    hide Mask, Blocks, BlockCount, Placed;
    var base := Blocks(hs[..k]);
    assert hs[k].framePtr == Mask(base, dataBlocks) by { PlacedAt(hs, dataBlocks, k); }
    assert hs[..k + 1] == hs[..k] + [hs[k]];
    BlocksSnoc(hs[..k], hs[k]);
    var d := x - 128 * hs[k].framePtr;
    b := base + d / 128;
    ModAdd(base, d / 128, dataBlocks);
    var start := hs[k].framePtr + d / 128;
    BlockByte(start, d % 128, dataBlocks);
    assert x == 128 * start + d % 128;
    assert x % 128 == d % 128;
  }

  lemma PlacedAt(hs: seq<Header>, dataBlocks: Pos, k: nat)
    requires Placed(hs, dataBlocks) && k < |hs|
    ensures hs[k].framePtr == Mask(Blocks(hs[..k]), dataBlocks)
  {
  }

  /** Byte `o` of block `b` in a ring of blocks. */
  lemma BlockByte(b: int, o: nat, n: Pos)
    requires o < 128
    ensures 128 * n > 0 && Mask(128 * b + o, 128 * n) == 128 * Mask(b, n) + o
  {
    var q, r := b / n, b % n;
    assert b == q * n + r;
    assert 128 * (q * n) == q * (128 * n);
    ModIs(128 * b + o, 128 * n, q, 128 * r + o);
  }

  /** As long as the frames from position `from` on fit the data buffer, no two packets handed out
      from there share a byte of it. */
  lemma FramesApart(hs: seq<Header>, from: nat, i: nat, j: nat, dataBlocks: Pos, x: int, y: int)
    requires Placed(hs, dataBlocks) && from <= i < j < |hs| && Honest(hs[i]) && Honest(hs[j])
    requires Blocks(hs) - Blocks(hs[..from]) <= dataBlocks
    requires Covers(Decode(hs[i]), x) && Covers(Decode(hs[j]), y)
    ensures 128 * dataBlocks > 0 && Mask(x, 128 * dataBlocks) != Mask(y, 128 * dataBlocks)
  {
    hide Mask, Blocks, Decode, Placed, Covers;
    var b := FrameInBlocks(hs, i, dataBlocks, x);
    var c := FrameInBlocks(hs, j, dataBlocks, y);
    BlocksGrow(hs, j + 1);
    BlocksGrow(hs[..j], i + 1);
    assert hs[..j][..i + 1] == hs[..i + 1];
    BlocksGrow(hs[..i], from);
    assert hs[..i][..from] == hs[..from];
    CellsDiffer(b, c, dataBlocks);
  }

  /** The valid bit hardware writes at position `x`: set in even laps. */
  predicate Phase(x: int, n: Pos) {
    Lap(x, n) % 2 == 0
  }

  /** How many times the ring has been passed before position `x`. */
  function Lap(x: int, n: Pos): int {
    x / n
  }

  lemma PhaseFlips(x: int, n: Pos)
    ensures Phase(x - n, n) == !Phase(x, n)
  {
    assert x == n * (x / n) + x % n;
    ModIs(x - n, n, x / n - 1, x % n);
  }

  /** Moving on by one changes the phase exactly when the index wraps to zero. */
  lemma PhaseStep(x: int, n: Pos)
    ensures Mask(x + 1, n) == Mask(Mask(x, n) + 1, n)
    ensures Phase(x + 1, n) == (if Mask(x + 1, n) == 0 then !Phase(x, n) else Phase(x, n))
  {
    ModAdd(x, 1, n);
    var q, r := x / n, x % n;
    assert x == n * q + r;
    if r + 1 < n {
      ModIs(x + 1, n, q, r + 1);
    } else {
      assert (q + 1) * n == n * q + n;
      ModIs(x + 1, n, q + 1, 0);
    }
  }

  /** Between two positions less than a lap apart, the lap and the phase change exactly when
      the masked pointer goes down. */
  lemma PhaseBetween(a: int, b: int, n: Pos)
    requires a <= b < a + n
    ensures Lap(b, n) == Lap(a, n) + (if Mask(b, n) < Mask(a, n) then 1 else 0)
    ensures Phase(b, n) == (if Mask(b, n) < Mask(a, n) then !Phase(a, n) else Phase(a, n))
  {
    LapBetween(a, b, n);
    hide Lap;
  }

  lemma LapBetween(a: int, b: int, n: Pos)
    requires a <= b < a + n
    ensures Lap(b, n) == Lap(a, n) + (if Mask(b, n) < Mask(a, n) then 1 else 0)
  {
    var q, r := Lap(a, n), Mask(a, n);
    Divided(a, n);
    if r + (b - a) < n {
      ModIs(b, n, q, r + (b - a));
    } else {
      assert (q + 1) * n == q * n + n;
      ModIs(b, n, q + 1, r + (b - a) - n);
    }
  }

  lemma Divided(a: int, n: Pos)
    ensures a == Lap(a, n) * n + Mask(a, n)
  {
  }

  lemma DecodedNone(t: seq<Header>, a: nat)
    ensures a <= |t| ==> DecodeAll(t[a..a]) == []
  {
  }

  lemma DecodedSnoc(t: seq<Header>, a: nat, e: nat)
    requires a <= e < |t|
    ensures DecodeAll(t[a..e + 1]) == DecodeAll(t[a..e]) + [Decode(t[e])]
  {
    hide Decode;
    assert t[a..e + 1] == t[a..e] + [t[e]];
  }

  /** A longer stream decodes to the same packets, and more. */
  lemma DecodedMore(s: seq<Header>, t: seq<Header>, a: nat, r: nat, e: nat)
    requires s <= t && a <= r <= |s| && r <= e <= |t|
    ensures DecodeAll(s[a..r]) + DecodeAll(t[r..e]) == DecodeAll(t[a..e])
    ensures s[a..r] == t[a..r]
  {
    hide Decode;
    assert s[a..r] == t[a..r];
    assert t[a..e] == t[a..r] + t[r..e];
  }

  class RxQueue {
    const n: Pos
    const dataBlocks: Pos
    const hdrs: array<Header>
    var swptr: nat
    var hwptr: nat
    var shp: nat
    var pktsAvailable: nat
    var validFlag: bool
    var uspaceShp: nat
    var uspaceHhp: nat
    var uspaceSdp: nat
    var uspaceAcc: nat
    /** The pointer registers hardware sees. */
    var regSdp: nat
    var regShp: nat
    /** Unbounded positions: visible to hardware as free, released, handed out, found by
        the scan, written. */
    var freed: nat
    ghost var released: nat
    ghost var read: nat
    ghost var scanned: nat
    var written: nat
    ghost var stream: seq<Header>

    ghost predicate Valid()
      reads this, hdrs
    {
      Shared() && Pointers() && Credits()
    }

    /** The header ring: entries hardware may not overwrite yet are intact, and every
        cell carries the phase of its last writer. */
    ghost predicate Shared()
      reads this`freed, this`written, this`stream, hdrs
    {
      && hdrs.Length == n && freed <= written <= freed + n - 1 && |stream| == written
      && (forall x: nat :: freed <= x < written ==> hdrs[Mask(x, n)] == stream[x])
      && (forall x :: written - n <= x < written ==> hdrs[Mask(x, n)].valid == Phase(x, n))
    }

    ghost predicate Pointers()
      reads this`freed, this`released, this`read, this`scanned, this`written, this`swptr, this`shp, this`uspaceHhp,
            this`pktsAvailable, this`validFlag
    {
      && freed <= released <= read && read + pktsAvailable <= scanned <= written
      && swptr == Mask(released, n) && shp == Mask(read, n) && uspaceHhp == Mask(scanned, n)
      && validFlag == Phase(released, n)
    }

    /** Space given back to hardware is counted exactly and reported in batches. */
    ghost predicate Credits()
      reads this`freed, this`released, this`written, this`stream, this`uspaceShp, this`uspaceSdp, this`uspaceAcc, this`regSdp, this`regShp
    {
      Booked() && uspaceAcc < 32
    }

    ghost predicate Booked()
      reads this`freed, this`released, this`written, this`stream, this`uspaceShp, this`uspaceSdp, this`uspaceAcc, this`regSdp, this`regShp
    {
      && freed <= released <= written == |stream|
      && uspaceShp == Mask(released, n) && uspaceSdp == Mask(Blocks(stream[..released]), dataBlocks)
      && regShp == Mask(freed, n) && regSdp == Mask(Blocks(stream[..freed]), dataBlocks)
      && uspaceAcc == released - freed
    }

    constructor (n: Pos, dataBlocks: Pos)
      ensures Valid() && stream == [] && written == freed == 0 && pktsAvailable == 0 && validFlag
      ensures this.n == n && this.dataBlocks == dataBlocks && fresh(hdrs)
    {
      this.n, this.dataBlocks := n, dataBlocks;
      hdrs := new Header[n](_ => Header(0, 0, false, 0, 0));
      swptr, hwptr, shp, pktsAvailable, validFlag := 0, 0, 0, 0, true;
      uspaceShp, uspaceHhp, uspaceSdp, uspaceAcc, regSdp, regShp := 0, 0, 0, 0, 0, 0;
      freed, released, read, scanned, written, stream := 0, 0, 0, 0, 0, [];
      InLap(0, n);
      InLap(0, dataBlocks);
      ModIs(0, n, 0, 0);
      forall x | 0 - n <= x < 0 ensures !Phase(x, n) { ModIs(x, n, 0 - 1, x + n); }
    }

    /** Find the hardware position from a snapshot of the ring: the first header whose valid bit
        is not the flag, which is turned over at the end of the ring.  In any state that takes at
        most a lap.  Started in the lap its flag describes, or already at the hardware position,
        the scan ends exactly there; started one lap ahead of its flag with headers waiting, it
        stays put. */
    method Scan(start: nat, flag: bool, ghost at: nat) returns (hhp: nat, steps: nat, ghost found: nat)
      requires hdrs.Length == n && start < n
      ensures steps <= n && hhp == Mask(start + steps, n) && Walked(start, flag, steps)
      ensures Fits(start, at) ==>
                && found == (if flag == Phase(at, n) || at == written then written else at)
                && hhp == Mask(found, n)
                && (hhp == Mask(written, n) <==> flag == Phase(at, n) || at == written)
    {
      hide Phase, Mask, Shared;
      hhp, steps := start, 0;
      InLap(start, n);
      var flagNow := flag;
      while hdrs[hhp].valid == flagNow
        invariant steps <= n && hhp == Mask(start + steps, n) < n && flagNow == FlagAt(start, flag, steps)
        invariant forall k :: 0 <= k < steps ==> Matches(start, flag, k)
        decreases n - steps
      {
        assert Matches(start, flag, steps);
        FullLap(start, flag, steps);
        NextFlag(start, flag, steps);
        hhp := Mask(hhp + 1, n);
        if hhp == 0 { flagNow := !flagNow; }
        steps := steps + 1;
      }
      found := at;
      if Fits(start, at) {
        Lands(start, flag, at, steps);
        found := if flag == Phase(at, n) || at == written then written else at;
      }
    }

    /** The scan's flag after `k` steps. */
    predicate FlagAt(start: nat, flag: bool, k: nat) {
      if start + k < n then flag else !flag
    }

    /** The header `k` steps on has a valid bit like the flag. */
    predicate Matches(start: nat, flag: bool, k: nat)
      requires hdrs.Length == n
      reads hdrs
    {
      hdrs[Mask(start + k, n)].valid == FlagAt(start, flag, k)
    }

    /** The first header that does not match is `steps` steps on. */
    ghost predicate Walked(start: nat, flag: bool, steps: nat)
      requires hdrs.Length == n
      reads hdrs
    {
      !Matches(start, flag, steps) && forall k :: 0 <= k < steps ==> Matches(start, flag, k)
    }

    /** The ring is in order and the scan starts at position `at`. */
    ghost predicate Fits(start: nat, at: nat)
      reads this`freed, this`written, this`stream, hdrs
    {
      Shared() && at <= written <= at + n - 1 && start == Mask(at, n)
    }

    /** After a whole lap the flag is turned over, so the first header no longer matches. */
    lemma FullLap(start: nat, flag: bool, k: nat)
      requires hdrs.Length == n && start < n && k <= n && Matches(start, flag, k)
      requires k > 0 ==> Matches(start, flag, 0)
      ensures k < n
    {
      hide Mask;
      if k == n { OneLap(start, n); InLap(start, n); }
    }

    lemma NextFlag(start: nat, flag: bool, k: nat)
      requires start < n && k < n
      ensures Mask(Mask(start + k, n) + 1, n) == Mask(start + (k + 1), n)
      ensures FlagAt(start, flag, k + 1) == (if Mask(start + (k + 1), n) == 0 then !FlagAt(start, flag, k) else FlagAt(start, flag, k))
    {
      hide Mask;
      ModAdd(start + k, 1, n);
      ZeroAtEnd(start + (k + 1), n);
    }

    lemma ZeroAtEnd(x: nat, n: Pos)
      requires 0 < x < 2 * n
      ensures Mask(x, n) == 0 <==> x == n
    {
      if x < n { ModIs(x, n, 0, x); } else { ModIs(x, n, 1, x - n); }
    }

    /** From a position in the lap of the flag, the flag goes with the phase. */
    lemma PhaseWalk(start: nat, flag: bool, v: int, k: nat)
      requires start == Mask(v, n) && flag == Phase(v, n) && k <= n
      ensures FlagAt(start, flag, k) == Phase(v + k, n) && Mask(start + k, n) == Mask(v + k, n)
    {
      ModAdd(v, k, n);
      var q := v / n;
      assert v == n * q + start;
      if start + k < n {
        ModIs(v + k, n, q, start + k);
      } else {
        assert (q + 1) * n == n * q + n;
        ModIs(v + k, n, q + 1, start + k - n);
      }
    }

    /** Where the scan lands. */
    lemma Lands(start: nat, flag: bool, at: nat, steps: nat)
      requires Fits(start, at) && steps <= n && Walked(start, flag, steps)
      ensures
        var found := if flag == Phase(at, n) || at == written then written else at;
        Mask(start + steps, n) == Mask(found, n) && (Mask(found, n) == Mask(written, n) <==> flag == Phase(at, n) || at == written)
    {
      hide Phase, Mask, Matches;
      var v: int := if flag == Phase(at, n) then at else at - n;
      var found: int := if flag == Phase(at, n) || at == written then written else at - n;
      PhaseFlips(at, n);
      OneLap(at, n);
      forall k: nat | k < found - v ensures Matches(start, flag, k) { Waiting(start, flag, v, k); }
      Beyond(start, flag, v, found);
      assert steps == found - v;
      PhaseWalk(start, flag, v, steps);
      if at < written { CellsDiffer(at, written, n); }
    }

    /** Headers from `v` up to the hardware position match. */
    lemma Waiting(start: nat, flag: bool, v: int, k: nat)
      requires Shared() && start == Mask(v, n) && flag == Phase(v, n) && k <= n && written - n <= v + k < written
      ensures Matches(start, flag, k)
    {
      hide Phase, Mask;
      PhaseWalk(start, flag, v, k);
      CellPhase(v + k);
    }

    /** The header at the hardware position, or one a lap behind it, does not. */
    lemma Beyond(start: nat, flag: bool, v: int, found: int)
      requires Shared() && start == Mask(v, n) && flag == Phase(v, n) && v <= found <= v + n
      requires found == written || written - 2 * n <= found < written - n
      ensures !Matches(start, flag, found - v)
    {
      hide Phase, Mask;
      PhaseWalk(start, flag, v, found - v);
      PhaseFlips(found, n);
      PhaseFlips(found + n, n);
      OneLap(found, n);
      if found == written { CellPhase(found - n); } else { CellPhase(found + n); }
    }

    lemma CellHeader(x: nat)
      requires Shared() && freed <= x < written
      ensures hdrs.Length == n && hdrs[Mask(x, n)] == stream[x] && stream[x].valid == Phase(x, n)
    {
    }

    lemma CellPhase(v: int)
      requires Shared() && written - n <= v < written
      ensures hdrs[Mask(v, n)].valid == Phase(v, n)
    {
    }

    /** Hardware writes a header with the phase of its lap. */
    method Arrive(e: Header)
      requires Shared() && written < freed + n - 1
      modifies this`written, this`stream, hdrs
      ensures Shared() && written == old(written) + 1 && stream == old(stream) + [e.(valid := Phase(old(written), n))]
    {
      hide Phase, Mask;
      var h := e.(valid := Phase(written, n));
      CellsAfter(written);
      hdrs[Mask(written, n)] := h;
      stream := stream + [h];
      written := written + 1;
    }

    /** Hardware may append headers as far as the space it has been told about allows. */
    method Hardware()
      requires Shared()
      modifies this`written, this`stream, hdrs
      ensures Shared() && old(written) <= written && old(stream) <= stream
    {
      hide Shared;
      var more: bool := *;
      while more && written < freed + n - 1
        invariant Shared() && old(written) <= written && old(stream) <= stream
        decreases freed + n - 1 - written
      {
        var h: Header := *;
        Arrive(h);
        more := *;
      }
    }

    lemma CellsAfter(w: int)
      ensures forall x :: w - n < x < w ==> Mask(x, n) != Mask(w, n)
    {
      hide Mask;
      forall x | w - n < x < w ensures Mask(x, n) != Mask(w, n) { CellsDiffer(x, w, n); }
    }

    /** Count the blocks of the packets released since the last sync and pass the
        pointers on to hardware once at least 32 packets have gathered. */
    method Account(ghost target: nat)
      requires Shared() && Credits() && released <= target <= written && swptr == Mask(target, n)
      modifies this`uspaceShp, this`uspaceSdp, this`uspaceAcc, this`regSdp, this`regShp, this`freed, this`released
      ensures Shared() && Credits() && released == target && freed == if target - old(freed) >= 32 then target else old(freed)
    {
      hide Mask, Phase, Blocks;
      StreamSize();
      SameCellOrNot(target, released);
      if swptr != uspaceShp {
        var count := Mask(swptr - uspaceShp, n);
        Distance(target, released, 0, n);
        var blocks := CountBlocks(uspaceShp, count, released);
        ModAdd(Blocks(stream[..released]), blocks, dataBlocks);
        uspaceShp := swptr;
        uspaceSdp := Mask(uspaceSdp + blocks, dataBlocks);
        uspaceAcc := uspaceAcc + count;
        released := target;
        Report();
      }
    }

    /** Write the pointer registers, but only every 32 packets. */
    method Report()
      requires Shared() && Booked()
      modifies this`uspaceAcc, this`regSdp, this`regShp, this`freed
      ensures Shared() && Credits() && freed == if released - old(freed) >= 32 then released else old(freed)
    {
      hide Mask, Phase, Blocks;
      if uspaceAcc >= 32 {
        Distance(released, freed, 0, n);
        uspaceAcc := 0;
        freed := freed + Mask(uspaceShp - regShp, n);
        regSdp, regShp := uspaceSdp, uspaceShp;
      }
    }

    lemma SameCellOrNot(a: nat, b: nat)
      requires b <= a < b + n
      ensures Mask(a, n) == Mask(b, n) <==> a == b
    {
      if a != b { CellsDiffer(a, b, n); }
    }

    method CountBlocks(from: nat, count: nat, ghost at: nat) returns (blocks: nat)
      requires Shared() && freed <= at && at + count <= written && from == Mask(at, n)
      ensures Blocks(stream[..at + count]) == Blocks(stream[..at]) + blocks
    {
      hide Mask, Phase, Blocks, BlockCount, Shared;
      StreamSize();
      blocks := 0;
      for i := 0 to count
        invariant Blocks(stream[..at + i]) == Blocks(stream[..at]) + blocks
      {
        ModAdd(at, i, n);
        CellHeader(at + i);
        BlocksSnoc(stream[..at + i], stream[at + i]);
        assert stream[..at + i + 1] == stream[..at + i] + [stream[at + i]];
        blocks := blocks + BlockCount(hdrs[Mask(from + i, n)]);
      }
    }

    lemma StreamSize()
      requires Shared()
      ensures |stream| == written && freed <= written <= freed + n - 1
    {
    }

    /** The sync step: account for released packets, then look for new ones with the
        flag of the last released lap. */
    method Sync(ghost target: nat)
      requires Shared() && Credits() && released <= target <= scanned <= written
      requires swptr == Mask(target, n) && uspaceHhp == Mask(scanned, n)
      modifies this`uspaceShp, this`uspaceSdp, this`uspaceAcc, this`regSdp, this`regShp, this`freed, this`released,
               this`uspaceHhp, this`hwptr, this`scanned, this`written, this`stream, hdrs
      ensures Shared() && Credits() && released == target && uspaceHhp == hwptr == Mask(scanned, n)
      ensures freed == if target - old(freed) >= 32 then target else old(freed)
      ensures old(scanned) <= scanned <= written && old(stream) <= stream
      ensures scanned == (if validFlag == Phase(old(scanned), n) || old(scanned) == written then written else old(scanned))
    {
      hide Mask, Phase, Blocks, Credits, Shared;
      Account(target);
      label Counted:
      Hardware();
      CreditsStay@Counted();
      StreamSize();
      CreditBounds();
      Find();
    }

    /** Scan on from the known hardware position. */
    method Find()
      requires Shared() && scanned <= written <= scanned + n - 1 && uspaceHhp == Mask(scanned, n)
      modifies this`uspaceHhp, this`hwptr, this`scanned
      ensures uspaceHhp == hwptr == Mask(scanned, n) && old(scanned) <= scanned <= written
      ensures scanned == (if validFlag == Phase(old(scanned), n) || old(scanned) == written then written else old(scanned))
    {
      hide Mask, Phase, Walked;
      StreamSize();
      ghost var found;
      var hhp, steps;
      hhp, steps, found := Scan(uspaceHhp, validFlag, scanned);
      uspaceHhp, hwptr, scanned := hhp, hhp, found;
    }

    twostate lemma CreditsStay()
      requires old(Credits()) && old(Shared()) && Shared() && old(stream) <= stream
      requires unchanged(`freed) && unchanged(`released) && unchanged(`uspaceShp) && unchanged(`uspaceSdp)
               && unchanged(`uspaceAcc) && unchanged(`regSdp) && unchanged(`regShp)
      ensures Credits()
    {
      hide Mask, Phase, Blocks;
      assert stream[..released] == old(stream)[..released] && stream[..freed] == old(stream)[..freed];
    }

    /** A header arrives between two calls. */
    method ArriveQuietly(e: Header)
      requires Valid() && written < freed + n - 1
      modifies this`written, this`stream, hdrs
      ensures Valid() && written == old(written) + 1
    {
      hide Mask, Phase, Credits, Shared;
      label Before:
      Arrive(e);
      CreditsStay@Before();
    }

    /** Everything written in the first lap is handed out, released and reported. */
    method ReadAll()
      requires Valid() && freed == 0 && written < n
      modifies this
      ensures Valid() && freed == released == read == scanned == swptr == shp == written == old(written)
      ensures pktsAvailable == 0
    {
      hide Mask, Phase, Blocks, Shared;
      StreamSize();
      InLap(0, n);
      InLap(written, n);
      FirstLap(written, n);
      var blocks := CountBlocks(0, written, 0);
      NoBlocks(stream[..0]);
      FreeAll();
      SetAll(written, Mask(blocks, dataBlocks));
      assert stream[..0 + written] == stream[..written];
    }

    method SetAll(at: nat, sdp: nat)
      modifies this`released, this`read, this`scanned, this`swptr, this`hwptr, this`shp, this`uspaceShp, this`uspaceHhp,
               this`uspaceSdp, this`uspaceAcc, this`regSdp, this`regShp, this`pktsAvailable, this`validFlag
      ensures released == read == scanned == swptr == shp == uspaceShp == uspaceHhp == regShp == at
      ensures uspaceSdp == regSdp == sdp && uspaceAcc == 0 && pktsAvailable == 0 && validFlag
    {
      released, read, scanned := at, at, at;
      swptr, hwptr, shp, uspaceShp, uspaceHhp, regShp := at, at, at, at, at, at;
      uspaceSdp, regSdp, uspaceAcc := sdp, sdp, 0;
      pktsAvailable, validFlag := 0, true;
    }

    method FreeAll()
      requires Shared()
      modifies this`freed
      ensures Shared() && freed == written
    {
      freed := written;
    }

    method Lock()
      requires Valid()
      modifies this`pktsAvailable, this`uspaceShp, this`uspaceSdp, this`uspaceAcc, this`regSdp, this`regShp, this`freed,
               this`released, this`uspaceHhp, this`hwptr, this`scanned, this`written, this`stream, hdrs
      ensures Valid() && released == old(released) && read + pktsAvailable == scanned && old(stream) <= stream
      ensures old(scanned) <= scanned && freed == old(freed)
      ensures validFlag == Phase(old(scanned), n) || old(scanned) == written ==> scanned == written
    {
      hide Mask, Phase, Credits;
      CreditBounds();
      Sync(released);
      CreditBounds();
      Distance(scanned, read, 0, n);
      pktsAvailable := Mask(hwptr - shp, n);
    }

    /** Release everything handed out; the phase flag flips exactly when the release
        pointer wraps. */
    method BurstPut()
      requires Valid()
      modifies this`swptr, this`validFlag, this`uspaceShp, this`uspaceSdp, this`uspaceAcc, this`regSdp, this`regShp,
               this`freed, this`released, this`uspaceHhp, this`hwptr, this`scanned, this`written, this`stream, hdrs
      ensures Valid() && released == read && old(stream) <= stream
      ensures freed == if read - old(freed) >= 32 then read else old(freed)
      ensures validFlag != old(validFlag) <==> Lap(released, n) > Lap(old(released), n)
      ensures validFlag == Phase(read, n)
    {
      hide Mask, Credits, Phase, Lap, Shared;
      StreamSize();
      CreditBounds();
      var oldSwptr := swptr;
      ModAdd(read, 0, n);
      PhaseBetween(released, read, n);
      swptr := Mask(shp, n);
      Sync(read);
      if swptr < oldSwptr { validFlag := !validFlag; }
      CreditBounds();
    }

    lemma CreditBounds()
      requires Credits()
      ensures freed <= released <= written == |stream| && released < freed + 32
    {
    }

    /** Hand out up to `count` packets.  The caller is told `cnt` packets; they are really
        filled in, and are the next ones of the hardware stream, if and only if the
        release pointer has not fallen behind a wrap of the read pointer, as is always
        so when every get is followed by a put.  Then a count of zero means hardware had
        nothing. */
    method BurstGet(count: nat) returns (packets: seq<Packet>, cnt: nat)
      requires Valid()
      modifies this`shp, this`pktsAvailable, this`read, this`uspaceShp, this`uspaceSdp, this`uspaceAcc, this`regSdp, this`regShp,
               this`freed, this`released, this`uspaceHhp, this`hwptr, this`scanned, this`written, this`stream, hdrs
      ensures Valid() && old(stream) <= stream && cnt <= count && read == old(read) + cnt
      ensures |packets| == cnt <==> cnt == 0 || swptr <= old(shp)
      ensures packets == (if swptr <= old(shp) then DecodeAll(stream[old(read)..read]) else [])
      ensures forall i :: 0 <= i < |packets| ==>
                var p, h := packets[i], stream[old(read) + i];
                && p.header == 128 * h.framePtr && p.headerLen == h.headerSize % 256 && p.data == 128 * h.framePtr + h.headerSize % 256
                && p.dataLen == (h.frameLen - h.headerSize % 256) % 0x1_0000_0000 && p.flags == h.flags % 16
      ensures old(released) == old(read) && count > 0 && cnt == 0 ==> read == written
      ensures cnt < count ==> pktsAvailable == 0
      ensures if old(pktsAvailable) >= count then cnt == count
              else validFlag == Phase(old(scanned), n) ==> read + pktsAvailable == written
    {
      hide Valid, Phase, Decode, DecodeAll;
      cnt := Supply(count);
      if cnt == 0 {
        DecodedNone(stream, read);
        return [], 0;
      }
      packets := Collect(cnt);
      Advance(cnt);
    }

    /** Lock if fewer than `count` packets are at hand, and take at most what is there. */
    method Supply(count: nat) returns (cnt: nat)
      requires Valid()
      modifies this`pktsAvailable, this`uspaceShp, this`uspaceSdp, this`uspaceAcc, this`regSdp, this`regShp, this`freed,
               this`released, this`uspaceHhp, this`hwptr, this`scanned, this`written, this`stream, hdrs
      ensures Valid() && old(stream) <= stream && cnt == Min(pktsAvailable, count) && read <= |stream|
      ensures old(released) == old(read) && count > 0 && cnt == 0 ==> read == written
      ensures if old(pktsAvailable) >= count then pktsAvailable == old(pktsAvailable)
              else validFlag == Phase(old(scanned), n) ==> read + pktsAvailable == written
    {
      hide Mask, Phase, Credits, Shared;
      cnt := count;
      CreditBounds();
      if pktsAvailable < count {
        Lock();
        CreditBounds();
        cnt := Min(pktsAvailable, count);
      }
    }

    /** Count `cnt` packets as handed out. */
    method Advance(cnt: nat)
      requires Valid() && cnt <= pktsAvailable
      modifies this`shp, this`pktsAvailable, this`read
      ensures Valid() && read == old(read) + cnt && pktsAvailable == old(pktsAvailable) - cnt
    {
      hide Mask, Phase, Credits, Shared;
      ModAdd(read, cnt, n);
      shp := Mask(shp + cnt, n);
      pktsAvailable, read := pktsAvailable - cnt, read + cnt;
    }

    /** Any run of gets, each followed by a put: every burst is filled in, and together they
        are exactly the packets hardware wrote, once each and in order. */
    method Run(counts: seq<nat>) returns (all: seq<Packet>)
      requires Valid() && released == read
      modifies this`swptr, this`validFlag, this`shp, this`pktsAvailable, this`read, this`uspaceShp, this`uspaceSdp, this`uspaceAcc,
               this`regSdp, this`regShp, this`freed, this`released, this`uspaceHhp, this`hwptr, this`scanned, this`written,
               this`stream, hdrs
      ensures Valid() && released == read && old(stream) <= stream && old(read) <= read
      ensures read <= |stream| && all == DecodeAll(stream[old(read)..read])
      ensures forall i :: 0 <= i < |all| ==>
                var p, h := all[i], stream[old(read) + i];
                && p.header == 128 * h.framePtr && p.headerLen == h.headerSize % 256 && p.data == 128 * h.framePtr + h.headerSize % 256
                && p.dataLen == (h.frameLen - h.headerSize % 256) % 0x1_0000_0000 && p.flags == h.flags % 16
    {
      hide Mask, Phase, Credits, Shared, Decode, Lap;
      CreditBounds();
      all := [];
      for i := 0 to |counts|
        invariant Valid() && released == read && old(stream) <= stream && old(read) <= read <= |stream|
        invariant all == DecodeAll(stream[old(read)..read])
      {
        ghost var s, r := stream, read;
        var packets, cnt := BurstGet(counts[i]);
        CreditBounds();
        DecodedMore(s, stream, old(read), r, read);
        all := all + packets;
        ghost var t := stream;
        BurstPut();
        CreditBounds();
        DecodedMore(t, stream, old(read), read, read);
      }
      Told(stream[old(read)..read]);
    }

    /** The flag has the phase of the read position unless that is behind a wrap. */
    lemma ReadPhase()
      requires Valid()
      ensures validFlag == Phase(read, n) <==> swptr <= shp
      ensures read + pktsAvailable <= written == |stream| && shp < n
    {
      hide Phase, Mask, Lap, Shared, Credits;
      CreditBounds();
      StreamSize();
      PhaseBetween(released, read, n);
    }

    /** The header `i` places on is that of the stream, and its phase changes at the wrap only. */
    lemma NextHeader(i: nat)
      requires Valid() && i < pktsAvailable
      ensures hdrs.Length == n && read + i < |stream| && hdrs[Mask(shp + i, n)] == stream[read + i]
      ensures stream[read + i].valid == Phase(read + i, n)
      ensures i > 0 ==> Phase(read + i, n) == (if shp + i == n then !Phase(read + i - 1, n) else Phase(read + i - 1, n))
      ensures i == 0 ==> shp + i < n
    {
      hide Phase, Mask, Lap, Shared, Credits;
      CreditBounds();
      StreamSize();
      PhaseAt(read, shp, i, n);
      CellHeader(read + i);
    }

    /** Read `cnt` headers; the packets are where they say. */
    method Collect(cnt: nat) returns (packets: seq<Packet>)
      requires Valid() && cnt <= pktsAvailable
      ensures read + cnt <= |stream| && packets == (if swptr <= shp then DecodeAll(stream[read..read + cnt]) else [])
      ensures forall i :: 0 <= i < |packets| ==>
                var p, h := packets[i], stream[read + i];
                && p.header == 128 * h.framePtr && p.headerLen == h.headerSize % 256 && p.data == 128 * h.framePtr + h.headerSize % 256
                && p.dataLen == (h.frameLen - h.headerSize % 256) % 0x1_0000_0000 && p.flags == h.flags % 16
    {
      hide Valid, Decode, DecodeAll;
      packets := Walk(cnt);
      Told(stream[read..read + cnt]);
    }

    /** Read `cnt` headers, checking the phase of each. */
    method Walk(cnt: nat) returns (packets: seq<Packet>)
      requires Valid() && cnt <= pktsAvailable
      ensures read + cnt <= |stream| && packets == (if swptr <= shp then DecodeAll(stream[read..read + cnt]) else [])
    {
      hide Mask, Phase, Decode, DecodeAll, Valid;
      packets := [];
      DecodedNone(stream, read);
      var flag := validFlag;
      ReadPhase();
      var i := 0;
      while i < cnt
        invariant 0 <= i <= cnt && (i == 0 || swptr <= shp)
        invariant packets == DecodeAll(stream[read..read + i])
        invariant i > 0 || flag == validFlag
        invariant i > 0 ==> flag == Phase(read + i - 1, n)
      {
        NextHeader(i);
        if shp + i == n { flag := !flag; }
        var h := hdrs[Mask(shp + i, n)];
        if h.valid == !flag { break; }
        packets := packets + [Decode(h)];
        DecodedSnoc(stream, read, read + i);
        i := i + 1;
      }
    }

    /** Stop and start again: hardware and the header ring start over, the pointer registers are
        zero; the index is set for a shared queue, everything else is left.  Every later get and
        put is right if and only if what is left is what a fresh queue has; `ScanAfterRestart`
        tells what goes wrong in an odd lap. */
    method Restart(shared: bool)
      requires Valid()
      modifies this, hdrs
      ensures hdrs.Length == n && (forall c :: 0 <= c < n ==> !hdrs[c].valid) && stream == []
      ensures validFlag == old(validFlag) && uspaceHhp == old(uspaceHhp) && pktsAvailable == old(pktsAvailable)
      ensures Valid() <==> old(pktsAvailable == 0 && validFlag && uspaceHhp == uspaceShp == uspaceSdp == uspaceAcc == 0 && (shared || shp == 0))
    {
      hide Shared, Pointers, Credits;
      HasRing();
      ClearValid();
      Rewind(shared);
      RewoundIff();
    }

    method Rewind(shared: bool)
      modifies this`swptr, this`hwptr, this`regSdp, this`regShp, this`shp, this`freed, this`released, this`read, this`scanned,
               this`written, this`stream
      ensures Rewound() && hwptr == 0 && shp == if shared then 0 else old(shp)
    {
      swptr, hwptr, regSdp, regShp := 0, 0, 0, 0;
      if shared {
        shp := 0;
      }
      freed, released, read, scanned, written, stream := 0, 0, 0, 0, 0, [];
    }

    ghost predicate Rewound()
      reads this`swptr, this`regSdp, this`regShp, this`freed, this`released, this`read, this`scanned, this`written, this`stream
    {
      swptr == regSdp == regShp == 0 && freed == released == read == scanned == written == 0 && stream == []
    }

    lemma HasRing()
      requires Valid()
      ensures hdrs.Length == n
    {
    }

    lemma RewoundIff()
      requires Rewound() && hdrs.Length == n && forall c :: 0 <= c < n ==> !hdrs[c].valid
      ensures Valid() <==> pktsAvailable == 0 && validFlag && shp == uspaceHhp == uspaceShp == uspaceSdp == uspaceAcc == 0
    {
      hide Phase, Mask, Blocks;
      FreshPositions(n, dataBlocks);
      NoBlocks(stream[..0]);
    }

    /** The driver clears the valid bit of every header. */
    method ClearValid()
      requires hdrs.Length == n
      modifies hdrs
      ensures forall c :: 0 <= c < n ==> !hdrs[c].valid
    {
      for i := 0 to n
        invariant forall c :: 0 <= c < i ==> !hdrs[c].valid
      {
        hdrs[i] := hdrs[i].(valid := false);
      }
    }

    /** Started again in an odd lap, the first scan runs to the end of the ring and finds that
        many packets, though hardware has written none. */
    method ScanAfterRestart(shared: bool) returns (hhp: nat, steps: nat)
      requires Valid() && !validFlag
      modifies this, hdrs
      ensures hhp == 0 && steps == n - old(uspaceHhp) > 0 && stream == []
    {
      hide Shared, Credits, Phase;
      Restart(shared);
      ghost var found;
      hhp, steps, found := Scan(uspaceHhp, validFlag, 0);
      ghost var h := uspaceHhp;
      forall k: nat | h + k < n ensures Matches(h, false, k) { InLap(h + k, n); }
      OneLap(0, n);
      InLap(0, n);
      assert !Matches(h, false, n - h);
    }
  }

  const EMPTY := Header(0, 0, true, 0, 0)

  /** A queue of 64 headers of which 63 have been written, handed out and released, and two
      more written. */
  method BeforeWrap() returns (q: RxQueue)
    ensures fresh(q) && fresh(q.hdrs) && q.Valid() && q.n == 64
    ensures q.released == q.read == q.scanned == q.swptr == q.shp == 63 && q.written == 65 && q.pktsAvailable == 0
  {
    hide Mask, Phase, RxQueue.Shared, RxQueue.Pointers, RxQueue.Credits;
    q := new RxQueue(64, 64);
    for i := 0 to 63
      invariant fresh(q) && fresh(q.hdrs) && q.n == 64 && q.Valid() && q.freed == 0 && q.written == i
    {
      q.ArriveQuietly(EMPTY);
    }
    q.ReadAll();
    q.ArriveQuietly(EMPTY);
    q.ArriveQuietly(EMPTY);
  }

  lemma FreshPositions(n: Pos, dataBlocks: Pos)
    ensures Mask(0, n) == 0 && Mask(0, dataBlocks) == 0 && Phase(0, n) && forall x :: 0 - n <= x < 0 ==> !Phase(x, n)
  {
    InLap(0, n);
    InLap(0, dataBlocks);
    ModIs(0, n, 0, 0);
    forall x | 0 - n <= x < 0 ensures !Phase(x, n) { ModIs(x, n, 0 - 1, x + n); }
  }

  lemma NoBlocks(hs: seq<Header>)
    requires hs == []
    ensures Blocks(hs) == 0
  {
  }

  lemma FirstLap(x: nat, n: Pos)
    requires x < n
    ensures Phase(x, n)
  {
    ModIs(x, n, 0, x);
  }

  /** Two gets of one packet without a put in between, the second behind the wrap: it counts
      a packet and fills in none. */
  method GetGetAcrossWrap() returns (first: seq<Packet>, packets: seq<Packet>, cnt: nat)
    ensures |first| == 1 && cnt == 1 && packets == []
  {
    hide Mask, Phase, RxQueue.Shared, RxQueue.Credits;
    var q := BeforeWrap();
    var one;
    q.CreditBounds();
    first, one := q.BurstGet(1);
    q.CreditBounds();
    assert q.shp == Mask(64, 64);
    OneLap(0, 64);
    InLap(0, 64);
    packets, cnt := q.BurstGet(1);
  }

  /** Walking from a reduced index, the phase changes exactly at the end of the ring. */
  lemma PhaseAt(r: int, s: nat, i: nat, n: Pos)
    requires s == Mask(r, n) && i < n
    ensures Mask(s + i, n) == Mask(r + i, n)
    ensures i > 0 ==> Phase(r + i, n) == (if s + i == n then !Phase(r + i - 1, n) else Phase(r + i - 1, n))
  {
    hide Phase, Mask;
    ModAdd(r, i, n);
    PhaseStep(r + i - 1, n);
    WrapsOnce(s, i, n);
  }

  lemma WrapsOnce(s: nat, i: nat, n: Pos)
    requires s < n && i < n
    ensures Mask(s + i, n) == 0 <==> s + i == n || s + i == 0
  {
    if s + i < n { ModIs(s + i, n, 0, s + i); } else { ModIs(s + i, n, 1, s + i - n); }
  }
}
