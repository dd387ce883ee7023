/** What the version 3 transmit queue lays out: frames in the stream sent to the device, headers
in the rings, slots in host memory; pure facts about them. */
module TxV3Layout {
  import opened Ring
  import opened Octets

  /** NDP_TX_CALYPTE_BLOCK_SIZE */
  const BLOCK := 32

  /** A frame length rounded up to whole blocks. */
  function Ceil(x: nat): (r: nat)
    ensures x <= r < x + 32
  {
    (x + 31) / 32 * 32
  }

  lemma CeilIsBlocks(x: nat)
    ensures Ceil(x) % 32 == 0
  {
  }

  datatype Header = Header(frameLen: nat, framePtr: nat, headerSize: nat, flags: nat)

  datatype Request = Request(headerLen: nat, dataLen: nat, flags: nat)

  datatype Slot = Slot(header: nat, data: nat)

  /** Where each frame starts in the byte stream sent to the device: frames follow one
      another, each rounded up to whole blocks. */
  ghost predicate Layout(frames: seq<nat>, pos: seq<nat>) {
    && |pos| == |frames| + 1 && pos[0] == 0
    && forall i :: 0 <= i < |frames| ==> pos[i + 1] == pos[i] + Ceil(frames[i])
  }

  lemma {:induction false} LayoutMonotone(frames: seq<nat>, pos: seq<nat>, i: nat, j: nat)
    requires Layout(frames, pos) && i <= j <= |frames|
    ensures pos[i] <= pos[j]
    decreases j
  {
    if i < j { LayoutMonotone(frames, pos, i, j - 1); assert pos[j - 1 + 1] == pos[j - 1] + Ceil(frames[j - 1]); }
  }

  lemma LayoutSnoc(frames: seq<nat>, pos: seq<nat>, f: nat)
    requires Layout(frames, pos)
    ensures Layout(frames + [f], pos + [pos[|frames|] + Ceil(f)])
  {
    hide Ceil;
    var fs, ps := frames + [f], pos + [pos[|frames|] + Ceil(f)];
    forall i | 0 <= i < |fs| ensures ps[i + 1] == ps[i] + Ceil(fs[i]) {
      if i < |frames| { assert pos[i + 1] == pos[i] + Ceil(frames[i]); }
    }
  }

  /** Cells of the header ring from position `c` on describe the frames laid out there. */
  ghost predicate InRing(h: seq<Header>, c: nat, frames: seq<nat>, pos: seq<nat>, cap: Pos)
    requires |h| > 0 && Layout(frames, pos)
  {
    forall x: nat :: c <= x < |frames| ==>
      h[Mask(x, |h|)].frameLen == frames[x] && h[Mask(x, |h|)].framePtr == Mask(pos[x], cap)
  }

  lemma InRingSnoc(h: seq<Header>, c: nat, frames: seq<nat>, pos: seq<nat>, cap: Pos, hd: Header)
    requires |h| > 0 && Layout(frames, pos) && InRing(h, c, frames, pos, cap) && c <= |frames| < c + |h|
    requires hd.framePtr == Mask(pos[|frames|], cap)
    ensures
      var fs, ps := frames + [hd.frameLen], pos + [pos[|frames|] + Ceil(hd.frameLen)];
      Layout(fs, ps) && InRing(h[Mask(|frames|, |h|) := hd], c, fs, ps, cap)
  {
    hide Mask, Ceil;
    LayoutSnoc(frames, pos, hd.frameLen);
    forall x: nat | c <= x < |frames| ensures Mask(x, |h|) != Mask(|frames|, |h|) {
      CellsDiffer(x, |frames|, |h|);
    }
  }

  lemma InRingPrefix(h: seq<Header>, c: nat, frames: seq<nat>, pos: seq<nat>, fs: seq<nat>, ps: seq<nat>, cap: Pos)
    requires |h| > 0 && Layout(frames, pos) && Layout(fs, ps) && frames <= fs && pos <= ps && InRing(h, c, fs, ps, cap)
    ensures InRing(h, c, frames, pos, cap)
  {
    hide Mask, Ceil;
    forall x: nat | c <= x < |frames|
      ensures h[Mask(x, |h|)].frameLen == frames[x] && h[Mask(x, |h|)].framePtr == Mask(pos[x], cap)
    {
      assert frames[x] == fs[x] && pos[x] == ps[x];
    }
  }

  const WORD := 0x1_0000_0000

  /** Rounded lengths of the `count` headers from ring index `from` on. */
  function SpaceSum(h: seq<Header>, from: nat, count: nat): (sum: nat)
    requires |h| > 0
  {
    if count == 0 then 0 else SpaceSum(h, from, count - 1) + Ceil(h[Mask(from + count - 1, |h|)].frameLen)
  }

  /** For headers in the ring that is the stretch of the stream their frames take. */
  lemma {:induction false} SpaceSumIs(h: seq<Header>, c: nat, frames: seq<nat>, pos: seq<nat>, cap: Pos, count: nat)
    requires |h| > 0 && Layout(frames, pos) && InRing(h, c, frames, pos, cap) && c + count <= |frames|
    ensures c + count < |pos| && pos[c] + SpaceSum(h, Mask(c, |h|), count) == pos[c + count]
  {
    hide Mask, Ceil;
    if count > 0 {
      SpaceSumIs(h, c, frames, pos, cap, count - 1);
      ModAdd(c, count - 1, |h|);
      assert pos[c + count - 1 + 1] == pos[c + count - 1] + Ceil(frames[c + count - 1]);
    }
  }

  /** Frame length after short packets are enlarged. */
  function FrameSize(r: Request, frameMin: nat): nat {
    if r.headerLen + r.dataLen < frameMin then frameMin else r.headerLen + r.dataLen
  }

  predicate Sendable(r: Request, frameMin: nat, frameMax: nat) {
    r.headerLen <= 0xff && (r.headerLen + r.dataLen < frameMin || r.headerLen + r.dataLen <= frameMax)
  }

  /** A packet can be sent exactly if its metadata fits 8 bits and the enlarged frame is not too
      long. */
  lemma SendableIff(r: Request, frameMin: nat, frameMax: nat)
    requires frameMin <= frameMax
    ensures FrameSize(r, frameMin) >= r.headerLen + r.dataLen && FrameSize(r, frameMin) >= frameMin
    ensures FrameSize(r, frameMin) == r.headerLen + r.dataLen || FrameSize(r, frameMin) == frameMin
    ensures Sendable(r, frameMin, frameMax) <==> r.headerLen < 256 && FrameSize(r, frameMin) <= frameMax
  {
  }

  function SizesOf(rs: seq<Request>, frameMin: nat): (s: seq<nat>)
    ensures |s| == |rs| && forall i :: 0 <= i < |rs| ==> s[i] == FrameSize(rs[i], frameMin)
  {
    seq(|rs|, i requires 0 <= i < |rs| => FrameSize(rs[i], frameMin))
  }

  /** Callers may write request `j` as far behind address `base` as its frame starts behind
      that of the first, the data behind the metadata. */
  predicate Slotted(slots: seq<Slot>, reqs: seq<Request>, pos: seq<nat>, from: nat, base: nat) {
    |slots| <= |reqs| && from + |slots| <= |pos|
    && forall j :: 0 <= j < |slots| ==>
         slots[j].data == slots[j].header + reqs[j].headerLen && slots[j].header + pos[from] == base + pos[from + j]
  }

  /** The slots lie one behind the other between two addresses. */
  predicate Row(slots: seq<Slot>, reqs: seq<Request>, frameMin: nat, base: nat, end: nat) {
    |slots| <= |reqs| && base <= end
    && (forall j :: 0 <= j < |slots| ==> slots[j].data == slots[j].header + reqs[j].headerLen)
    && (forall j :: 0 <= j < |slots| ==> base <= slots[j].header && slots[j].header + FrameSize(reqs[j], frameMin) <= end)
    && forall i, j :: 0 <= i < j < |slots| ==> slots[i].header + FrameSize(reqs[i], frameMin) <= slots[j].header
  }

  lemma RowSnoc(slots: seq<Slot>, reqs: seq<Request>, frameMin: nat, base: nat, at: nat)
    requires Row(slots, reqs, frameMin, base, at) && |slots| < |reqs|
    ensures
      var r := reqs[|slots|];
      Row(slots + [Slot(at, at + r.headerLen)], reqs, frameMin, base, Ceil(at + FrameSize(r, frameMin)))
  {
    hide Ceil, FrameSize;
  }

  /** The bytes between the data of each request and the shortest frame are zero. */
  ghost predicate Padded(m: seq<Byte>, slots: seq<Slot>, reqs: seq<Request>, frameMin: nat)
    requires |m| > 0
  {
    |slots| <= |reqs|
    && forall j :: 0 <= j < |slots| ==> AllZero(m, slots[j].header + reqs[j].dataLen, slots[j].header + frameMin)
  }

  predicate AllZero(m: seq<Byte>, from: int, to: int)
    requires |m| > 0
  {
    forall x :: from <= x < to ==> m[Mask(x, |m|)] == 0
  }

  /** Host memory once the padding of a request is cleared: the code starts one metadata length
      too far. */
  function Cleared(m: seq<Byte>, at: nat, r: Request, frameMin: nat): seq<Byte>
    requires |m| > 0
  {
    if r.headerLen + r.dataLen < frameMin
    then Store(m, at + r.headerLen + (r.headerLen + r.dataLen), Zeros(frameMin - (r.headerLen + r.dataLen)))
    else m
  }

  lemma ClearedSize(m: seq<Byte>, at: nat, r: Request, frameMin: nat)
    requires |m| > 0
    ensures |Cleared(m, at, r, frameMin)| == |m|
  {
  }

  predicate Headerless(reqs: seq<Request>) { forall r :: r in reqs ==> r.headerLen == 0 }

  lemma PaddedSnoc(m: seq<Byte>, slots: seq<Slot>, reqs: seq<Request>, frameMin: nat, base: nat, at: nat, next: Slot)
    requires |m| > 0 && Padded(m, slots, reqs, frameMin) && Row(slots, reqs, frameMin, base, at) && |slots| < |reqs|
    requires Headerless(reqs) && next.header == at && at + FrameSize(reqs[|slots|], frameMin) <= base + |m|
    ensures |Cleared(m, at, reqs[|slots|], frameMin)| == |m|
    ensures Padded(Cleared(m, at, reqs[|slots|], frameMin), slots + [next], reqs, frameMin)
  {
    hide Mask;
    var k, r := |slots|, reqs[|slots|];
    var m' := Cleared(m, at, r, frameMin);
    forall j | 0 <= j < k + 1
      ensures AllZero(m', (slots + [next])[j].header + reqs[j].dataLen, (slots + [next])[j].header + frameMin)
    {
      if r.dataLen < frameMin {
        var z := Zeros(frameMin - r.dataLen);
        if j < k {
          assert slots[j].header + FrameSize(reqs[j], frameMin) <= at;
          forall x | slots[j].header + reqs[j].dataLen <= x < slots[j].header + frameMin ensures m'[Mask(x, |m'|)] == 0 {
            StoreKeepsCell(m, at + r.dataLen, z, x);
          }
        } else {
          forall x | at + r.dataLen <= x < at + frameMin ensures m'[Mask(x, |m'|)] == 0 {
            StoreCell(m, at + r.dataLen, z, x);
          }
        }
      } else if j < k {
        assert AllZero(m, slots[j].header + reqs[j].dataLen, slots[j].header + frameMin);
      }
    }
  }

  /** After the call, the padding of a short frame is zero if and only if what is left out,
      one metadata length from the end of the data, was zero before. */
  lemma PaddingClearedIff(m: seq<Byte>, at: nat, r: Request, frameMin: nat)
    requires r.headerLen + frameMin <= |m| && r.headerLen + r.dataLen < frameMin
    ensures
      var m' := Cleared(m, at, r, frameMin);
      |m'| == |m|
      && (AllZero(m', at + r.headerLen + r.dataLen, at + frameMin) <==>
          AllZero(m, at + r.headerLen + r.dataLen, Min(at + frameMin, at + 2 * r.headerLen + r.dataLen)))
  {
    hide Mask;
    var h, t := r.headerLen, r.headerLen + r.dataLen;
    var z := Zeros(frameMin - t);
    var m' := Store(m, at + h + t, z);
    forall y | at + t <= y < at + frameMin
      ensures m'[Mask(y, |m|)] == if y < at + h + t then m[Mask(y, |m|)] else 0
    {
      if y < at + h + t { StoreKeepsCell(m, at + h + t, z, y); } else { StoreCell(m, at + h + t, z, y); }
    }
  }

  /** The headers from position `from` on carry the metadata lengths and flags of the first
      `k` requests. */
  predicate Labelled(h: seq<Header>, from: nat, reqs: seq<Request>, k: nat)
    requires |h| > 0
  {
    k <= |reqs| && forall j :: 0 <= j < k ==>
      h[Mask(from + j, |h|)].headerSize == reqs[j].headerLen && h[Mask(from + j, |h|)].flags == reqs[j].flags % 16
  }

  lemma LabelledSnoc(h: seq<Header>, from: nat, reqs: seq<Request>, k: nat, hd: Header)
    requires |h| > 0 && Labelled(h, from, reqs, k) && k < |reqs| && k < |h|
    requires hd.headerSize == reqs[k].headerLen && hd.flags == reqs[k].flags % 16
    ensures Labelled(h[Mask(from + k, |h|) := hd], from, reqs, k + 1)
  {
    hide Mask;
    var h' := h[Mask(from + k, |h|) := hd];
    forall j | 0 <= j < k + 1
      ensures h'[Mask(from + j, |h|)].headerSize == reqs[j].headerLen && h'[Mask(from + j, |h|)].flags == reqs[j].flags % 16
    {
      if j < k { CellsDiffer(from + j, from + k, |h|); }
    }
  }

  lemma SlottedSnoc(slots: seq<Slot>, reqs: seq<Request>, pos: seq<nat>, from: nat, base: nat, at: nat, end: nat)
    requires Slotted(slots, reqs, pos, from, base) && |slots| < |reqs| && from + |slots| < |pos|
    requires at + pos[from] == base + pos[from + |slots|]
    ensures Slotted(slots + [Slot(at, at + reqs[|slots|].headerLen)], reqs, pos + [end], from, base)
  {
  }

  function Starts(slots: seq<Slot>): (a: seq<nat>)
    ensures |a| == |slots| && forall j :: 0 <= j < |a| ==> a[j] == slots[j].header
  {
    seq(|slots|, j requires 0 <= j < |slots| => slots[j].header)
  }

  lemma CeilSum(a: nat, b: nat)
    requires a % 32 == 0
    ensures Ceil(a + b) == a + Ceil(b) && Ceil(a + b) % 32 == 0
  {
  }

  lemma MaskBlocks(x: nat, cap: Pos)
    requires x % 32 == 0 && cap % 32 == 0
    ensures Mask(x, cap) % 32 == 0
  {
    var q, c, d := x / cap, cap / 32, x / 32;
    assert x == cap * q + Mask(x, cap) && cap == 32 * c && x == 32 * d;
    Blocks32(c, q);
    ModIs(Mask(x, cap), 32, d - c * q, 0);
  }

  lemma Blocks32(c: int, q: int)
    ensures (32 * c) * q == 32 * (c * q)
  {
  }

  /** Of the bytes `b` sent at stream position `a`, those from `hw` on are in memory. */
  ghost predicate Kept(m: seq<Byte>, a: int, b: seq<Byte>, hw: int)
    requires |m| > 0
  {
    forall x :: a <= x < a + |b| && hw <= x ==> m[Mask(x, |m|)] == b[x - a]
  }

  lemma KeptLater(m: seq<Byte>, a: int, b: seq<Byte>, hw: int, hw': int)
    requires |m| > 0 && Kept(m, a, b, hw) && hw <= hw'
    ensures Kept(m, a, b, hw')
  {
  }

  /** A write that ends less than a lap after the oldest unread byte spares all of them. */
  lemma KeptThrough(m: seq<Byte>, a: int, b: seq<Byte>, hw: int, p: int, c: seq<Byte>)
    requires |m| > 0 && Kept(m, a, b, hw) && a + |b| <= p && p + |c| <= hw + |m|
    ensures Kept(Store(m, p, c), a, b, hw)
  {
    hide Mask;
    forall x | a <= x < a + |b| && hw <= x ensures Store(m, p, c)[Mask(x, |m|)] == b[x - a] {
      StoreKeepsCell(m, p, c, x);
    }
  }

  lemma KeptNew(m: seq<Byte>, p: int, c: seq<Byte>, hw: int)
    requires 0 < |m| && |c| <= |m|
    ensures Kept(Store(m, p, c), p, c, hw)
  {
    hide Mask;
    forall x | p <= x < p + |c| ensures Store(m, p, c)[Mask(x, |m|)] == c[x - p] {
      StoreCell(m, p, c, x);
    }
  }

  /** All frames sent are kept where they start. */
  ghost predicate AllKept(m: seq<Byte>, frames: seq<nat>, pos: seq<nat>, bodies: seq<seq<Byte>>, hw: int)
    requires |m| > 0
  {
    |bodies| <= |frames| && |bodies| <= |pos|
    && forall k: nat :: k < |bodies| ==> |bodies[k]| == frames[k] && Kept(m, pos[k], bodies[k], hw)
  }

  lemma AllKeptLater(m: seq<Byte>, frames: seq<nat>, pos: seq<nat>, bodies: seq<seq<Byte>>, hw: int, hw': int)
    requires |m| > 0 && AllKept(m, frames, pos, bodies, hw) && hw <= hw'
    ensures AllKept(m, frames, pos, bodies, hw')
  {
    hide Kept;
    forall k: nat | k < |bodies| ensures Kept(m, pos[k], bodies[k], hw') { KeptLater(m, pos[k], bodies[k], hw, hw'); }
  }

  lemma KeepsAll(m: seq<Byte>, frames: seq<nat>, pos: seq<nat>, bodies: seq<seq<Byte>>, hw: int, body: seq<Byte>)
    requires |m| > 0 && Layout(frames, pos) && AllKept(m, frames, pos, bodies, hw) && |bodies| < |frames|
    requires |body| == frames[|bodies|] <= |m| && pos[|bodies|] + |body| <= hw + |m|
    ensures AllKept(Store(m, pos[|bodies|], body), frames, pos, bodies + [body], hw)
  {
    hide Kept, Ceil;
    var w := |bodies|;
    forall k: nat | k < w ensures Kept(Store(m, pos[w], body), pos[k], bodies[k], hw) {
      assert pos[k + 1] == pos[k] + Ceil(frames[k]);
      LayoutMonotone(frames, pos, k + 1, w);
      KeptThrough(m, pos[k], bodies[k], hw, pos[w], body);
    }
    KeptNew(m, pos[w], body, hw);
  }

  lemma AllKeptMore(m: seq<Byte>, fs: seq<nat>, ps: seq<nat>, frames: seq<nat>, pos: seq<nat>, bodies: seq<seq<Byte>>, hw: int)
    requires |m| > 0 && AllKept(m, fs, ps, bodies, hw) && fs <= frames && ps <= pos
    ensures AllKept(m, frames, pos, bodies, hw)
  {
    hide Kept;
  }

  /** The cells of a header ring for positions `a` up to `b` describe the frames laid out there. */
  ghost predicate Announces(h: seq<Header>, a: nat, b: nat, frames: seq<nat>, pos: seq<nat>, cap: Pos)
    requires |h| > 0
  {
    b <= |frames| && b <= |pos|
    && forall x: nat :: a <= x < b ==> h[Mask(x, |h|)].frameLen == frames[x] && h[Mask(x, |h|)].framePtr == Mask(pos[x], cap)
  }

  lemma AnnouncesLater(h: seq<Header>, a: nat, a': nat, b: nat, frames: seq<nat>, pos: seq<nat>, cap: Pos)
    requires |h| > 0 && Announces(h, a, b, frames, pos, cap) && a <= a'
    ensures Announces(h, a', b, frames, pos, cap)
  {
    hide Mask;
  }

  /** The next header, less than a lap after the oldest one not read, spares all of them. */
  lemma AnnouncesNext(h: seq<Header>, a: nat, b: nat, frames: seq<nat>, pos: seq<nat>, cap: Pos, hd: Header)
    requires |h| > 0 && Announces(h, a, b, frames, pos, cap) && b < |frames| && b < |pos| && b < a + |h|
    requires hd.frameLen == frames[b] && hd.framePtr == Mask(pos[b], cap)
    ensures Announces(h[Mask(b, |h|) := hd], a, b + 1, frames, pos, cap)
  {
    hide Mask;
    forall x: nat | a <= x < b ensures Mask(x, |h|) != Mask(b, |h|) { CellsDiffer(x, b, |h|); }
  }

  lemma AnnouncesMore(h: seq<Header>, a: nat, b: nat, frames: seq<nat>, pos: seq<nat>, fs: seq<nat>, ps: seq<nat>, cap: Pos)
    requires |h| > 0 && Announces(h, a, b, frames, pos, cap) && frames <= fs && pos <= ps
    ensures Announces(h, a, b, fs, ps, cap)
  {
    hide Mask;
  }

  /** Before the first frame. */
  lemma NothingSent(h: seq<Header>, dh: seq<Header>, m: seq<Byte>, cap: Pos)
    requires |h| > 0 && |dh| > 0 && |m| > 0
    ensures Layout([], [0]) && InRing(h, 0, [], [0], cap) && Announces(dh, 0, 0, [], [0], cap) && AllKept(m, [], [0], [], 0)
  {
  }

  /** The frames that lie in memory `m` at the given slots, with the given lengths. */
  ghost function Contents(m: seq<Byte>, slots: seq<nat>, lens: seq<nat>): (cs: seq<seq<Byte>>)
    requires |m| > 0 && |lens| == |slots|
    ensures |cs| == |slots| && forall i :: 0 <= i < |cs| ==> cs[i] == Unroll(m, slots[i], lens[i])
  {
    seq(|slots|, i requires 0 <= i < |slots| => Unroll(m, slots[i], lens[i]))
  }

  /** The frame lengths in `count` cells of the header ring from index `from` on. */
  function Lens(h: seq<Header>, from: nat, count: nat): (ls: seq<nat>)
    requires |h| > 0
    ensures |ls| == count && forall j :: 0 <= j < count ==> ls[j] == h[Mask(from + j, |h|)].frameLen
  {
    seq<nat>(count, j requires 0 <= j < count => h[Mask(from + j, |h|)].frameLen)
  }

  /** Writing one more cell adds its length. */
  lemma LensSnoc(h: seq<Header>, from: nat, k: nat, hd: Header)
    requires k < |h|
    ensures Lens(h[Mask(from + k, |h|) := hd], from, k + 1) == Lens(h, from, k) + [hd.frameLen]
  {
    hide Mask;
    var h' := h[Mask(from + k, |h|) := hd];
    forall j | 0 <= j < k ensures Lens(h', from, k + 1)[j] == Lens(h, from, k)[j] { CellsDiffer(from + j, from + k, |h|); }
  }

  lemma NoContents(m: seq<Byte>, slots: seq<nat>, h: seq<Header>, from: nat)
    requires |m| > 0 && |h| > 0
    ensures Contents(m, slots[..0], Lens(h, from, 0)) == []
  {
  }

  /** One more frame, and a prefix of them all. */
  lemma MoreContents(m: seq<Byte>, slots: seq<nat>, h: seq<Header>, from: nat, i: nat)
    requires |m| > 0 && |h| > 0 && i < |slots|
    ensures Contents(m, slots[..i + 1], Lens(h, from, i + 1))
            == Contents(m, slots[..i], Lens(h, from, i)) + [Unroll(m, slots[i], h[Mask(from + i, |h|)].frameLen)]
  {
    hide Unroll, Mask;
  }

  lemma SomeContents(m: seq<Byte>, slots: seq<nat>, h: seq<Header>, from: nat, i: nat)
    requires |m| > 0 && |h| > 0 && i <= |slots|
    ensures Contents(m, slots[..i], Lens(h, from, i)) <= Contents(m, slots, Lens(h, from, |slots|))
    ensures i == |slots| ==> Contents(m, slots[..i], Lens(h, from, i)) == Contents(m, slots, Lens(h, from, |slots|))
  {
    hide Unroll, Mask;
    assert slots[..|slots|] == slots;
  }

  /** Rounded lengths of the frames of a burst together. */
  function RoomFor(sizes: seq<nat>): nat {
    if sizes == [] then 0 else RoomFor(sizes[..|sizes| - 1]) + Ceil(sizes[|sizes| - 1])
  }

  lemma RoomSnoc(sizes: seq<nat>, s: nat)
    ensures RoomFor(sizes + [s]) == RoomFor(sizes) + Ceil(s)
  {
    assert (sizes + [s])[..|sizes|] == sizes;
  }

  lemma StoreCongruentMask(m: seq<Byte>, ptr: int, p: int, b: seq<Byte>)
    requires |m| > 0 && ptr == Mask(p, |m|)
    ensures Store(m, ptr, b) == Store(m, p, b)
  {
    hide Mask, Store;
    ModAdd(p, 0, |m|);
    StoreCongruent(m, ptr, p, b);
  }

  lemma ZeroDistance(a: nat, b: nat, n: Pos)
    requires a < n && b < n
    ensures Mask(a - b, n) == 0 <==> a == b
  {
    SelfDistance(a, n);
    if a > b { ModIs(a - b, n, 0, a - b); }
    if a < b { ModIs(a - b, n, 0 - 1, a - b + n); }
  }
}
