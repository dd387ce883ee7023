/** Replaying a capture file: from a cache filled beforehand, many packets at a time, or
streamed from the file one by one. */
module Pcap {
  import opened Octets
  import opened Ring

  const FILE_HEADER := 24
  const RECORD_HEADER := 16
  const DEFAULT_CACHE_CAPACITY := 1024

  type Frame = seq<Byte>

  datatype Option<T> = None | Some(value: T)

  // ----- the meaning of a capture -----

  /** The frames in the records of a capture, the file header aside; `None` when a record
      is empty or cut short.  A fragment of a record header at the end is ignored. */
  function Parse(b: seq<Byte>): Option<seq<Frame>> {
    if |b| < RECORD_HEADER then Some([])
    else
      var len := Word32(b, 8);
      if len == 0 || RECORD_HEADER + len > |b| then None
      else
        match Parse(b[RECORD_HEADER + len..])
        case None => None
        case Some(rest) => Some([b[RECORD_HEADER..RECORD_HEADER + len]] + rest)
  }

  /** `out` walks round and round the frames of the capture. */
  predicate Cycles(out: seq<Frame>, frames: seq<Frame>) {
    if frames == [] then out == []
    else forall j :: 0 <= j < |out| ==> out[j] == frames[Mask(j, |frames|)]
  }

  /** Everything that decides how far a replay goes; zero means no bound. */
  datatype Plan = Plan(frames: seq<Frame>, loops: nat, limit: nat, limitBytes: nat, minLen: nat, burst: Pos, cached: bool)

  /** Bytes of the first `k` packets of the endless repetition. */
  function Sent(frames: seq<Frame>, k: nat): nat
    requires frames != []
  {
    if k == 0 then 0 else Sent(frames, k - 1) + |frames[Mask(k - 1, |frames|)]|
  }

  /** All loops or the packet limit are used up after `k` packets. */
  predicate Complete(p: Plan, k: nat) {
    p.frames == [] || (p.limit > 0 && k == p.limit) || (p.loops > 0 && k == p.loops * |p.frames|)
  }

  predicate OverBytes(p: Plan, k: nat)
    requires p.frames != []
  {
    p.limitBytes > 0 && Sent(p.frames, k) > p.limitBytes
  }

  /** How many packets are looked at together after `k` packets. */
  function Step(p: Plan, k: nat): nat
    requires p.frames != []
  {
    var room := |p.frames| - Mask(k, |p.frames|);
    if !p.cached then 1
    else if p.limit > k then Min(Min(p.burst, p.limit - k), room)
    else Min(p.burst, room)
  }

  /** One of the next `n` packets after `k` is too short. */
  predicate ShortAhead(p: Plan, k: nat, n: nat)
    requires p.frames != []
  {
    exists i :: Mask(k, |p.frames|) <= i < Mask(k, |p.frames|) + n && i < |p.frames| && |p.frames[i]| < p.minLen
  }

  /** After `k` packets there is a reason to stop. */
  predicate Stops(p: Plan, k: nat) {
    Complete(p, k) || OverBytes(p, k) || ShortAhead(p, k, Step(p, k))
  }

  /** The replay looks for a reason to stop after `k` packets: streaming, after every one;
      from the cache, at multiples of the burst size in every loop and at the limit. */
  predicate Boundary(p: Plan, k: nat) {
    !p.cached || p.frames == [] || (p.limit > 0 && k == p.limit) || Mask(Mask(k, |p.frames|), p.burst) == 0
  }

  /** No boundary before `k` gave a reason to stop. */
  predicate GoesTo(p: Plan, k: nat) {
    forall q: nat :: q < k && Boundary(p, q) ==> !Stops(p, q)
  }

  /** A replay of the plan ends after `k` packets: at the first boundary with a reason. */
  predicate EndsAt(p: Plan, k: nat) {
    Boundary(p, k) && Stops(p, k) && GoesTo(p, k)
  }

  lemma EndIsUnique(p: Plan, j: nat, k: nat)
    requires EndsAt(p, j) && EndsAt(p, k)
    ensures j == k
  {
    hide Boundary, Stops;
  }

  lemma FirstStep(p: Plan, k: nat)
    requires p.frames != [] && !Complete(p, k) && (p.limit > 0 ==> k <= p.limit)
    ensures 1 <= Step(p, k) && Mask(k, |p.frames|) + Step(p, k) <= |p.frames| && (p.limit > 0 ==> k + Step(p, k) <= p.limit)
    ensures ShortAhead(p, k, 1) ==> ShortAhead(p, k, Step(p, k))
  {
    hide Mask;
  }

  /** From a boundary, a step leads to the next one. */
  lemma NextBoundary(p: Plan, k: nat)
    requires p.frames != [] && Boundary(p, k) && !Complete(p, k) && (p.limit > 0 ==> k <= p.limit)
    ensures Boundary(p, k + Step(p, k))
    ensures forall q: nat :: k < q < k + Step(p, k) ==> !Boundary(p, q)
  {
    hide Mask;
    FirstStep(p, k);
    var n, r, d := |p.frames|, Mask(k, |p.frames|), Step(p, k);
    if p.cached {
      Inside(k, d, n);
      OneLap(r, p.burst);
      InLap(0, p.burst);
      forall q: nat | k < q < k + d ensures !Boundary(p, q) {
        Inside(k, q - k, n);
        InBurst(r + (q - k), r, p.burst);
      }
    }
  }

  lemma Inside(k: nat, d: nat, n: Pos)
    requires Mask(k, n) + d <= n
    ensures Mask(k + d, n) == if Mask(k, n) + d == n then 0 else Mask(k, n) + d
  {
    hide Mask;
    ModAdd(k, d, n);
    if Mask(k, n) + d == n {
      OneLap(0, n);
      InLap(0, n);
    } else {
      InLap(Mask(k, n) + d, n);
    }
  }

  lemma InBurst(s: nat, start: nat, burst: Pos)
    requires Mask(start, burst) == 0 && start <= s < start + burst
    ensures Mask(s, burst) == s - start
  {
    hide Mask;
    ModAdd(start, s - start, burst);
    InLap(s - start, burst);
  }

  /** Going one step further. */
  lemma GoesOn(p: Plan, k: nat)
    requires p.frames != [] && Boundary(p, k) && !Stops(p, k) && GoesTo(p, k) && (p.limit > 0 ==> k <= p.limit)
    ensures Boundary(p, k + Step(p, k)) && GoesTo(p, k + Step(p, k))
  {
    NextBoundary(p, k);
    hide Boundary, Stops, Step;
  }

  // ----- what the two kinds of replay have in common -----

  /** The same plan, streamed or from the cache. */
  function Streamed(p: Plan): Plan { p.(cached := false) }

  /** A reason to stop streaming is one for the cache, and the reason the cache has in
      addition is a short frame further ahead. */
  lemma StopsStreamed(p: Plan, k: nat)
    requires p.limit > 0 ==> k <= p.limit
    ensures Stops(Streamed(p), k) ==> Stops(p, k)
  {
    hide Mask;
    if p.frames != [] && !Complete(p, k) {
      FirstStep(p, k);
    }
  }

  /** A short frame inside a step stops streaming at that frame. */
  lemma ShortInside(p: Plan, k: nat, e: nat)
    requires p.frames != [] && !Complete(p, k) && (p.limit > 0 ==> k <= p.limit)
    requires ShortAhead(p, k, Step(p, k)) && k + Step(p, k) <= e
    ensures exists q: nat :: q < e && Stops(Streamed(p), q)
  {
    hide Mask;
    FirstStep(p, k);
    var r := Mask(k, |p.frames|);
    var i :| r <= i < r + Step(p, k) && i < |p.frames| && |p.frames[i]| < p.minLen;
    Inside(k, i - r, |p.frames|);
    var q := k + (i - r);
    assert ShortAhead(Streamed(p), q, 1);
    assert Stops(Streamed(p), q);
  }

  /** If streaming ends after `e` packets, the cache ends there too if and only if that is a
      burst boundary. */
  lemma CacheEndsToo(p: Plan, e: nat)
    requires p.cached && EndsAt(Streamed(p), e) && (p.limit > 0 ==> e <= p.limit)
    ensures EndsAt(p, e) <==> Boundary(p, e)
  {
    hide Mask;
    if Boundary(p, e) {
      StopsStreamed(p, e);
      forall q: nat | q < e && Boundary(p, q) ensures !Stops(p, q) {
        assert Boundary(Streamed(p), q) && !Stops(Streamed(p), q);
        if p.frames != [] && ShortAhead(p, q, Step(p, q)) {
          FirstStep(p, q);
          NextBoundary(p, q);
          ShortInside(p, q, e);
        }
      }
    }
  }

  /** Index of the first frame shorter than `minLen`, or the number of frames. */
  function FirstShort(frames: seq<Frame>, minLen: nat): (s: nat)
    ensures s <= |frames| && (s < |frames| ==> |frames[s]| < minLen)
    ensures forall i :: 0 <= i < s ==> |frames[i]| >= minLen
  {
    if frames == [] || |frames[0]| < minLen then 0 else 1 + FirstShort(frames[1..], minLen)
  }

  /** The replay gets as far as the first short frame. */
  predicate ReachesShort(p: Plan) {
    var s := FirstShort(p.frames, p.minLen);
    s < |p.frames| && (p.limit > 0 ==> s < p.limit)
  }

  /** Without a byte limit, streaming ends before the first short frame if it gets there,
      and otherwise with the loops or the limit. */
  lemma StreamedEnd(p: Plan, e: nat)
    requires !p.cached && p.limitBytes == 0 && EndsAt(p, e) && (p.limit > 0 ==> e <= p.limit)
    ensures if ReachesShort(p) then e == FirstShort(p.frames, p.minLen) else Complete(p, e)
  {
    hide Mask, FirstShort;
    var s := FirstShort(p.frames, p.minLen);
    if ReachesShort(p) {
      InLap(s, |p.frames|);
      assert ShortAhead(p, s, 1) && Stops(p, s) && Boundary(p, s);
      if e < s {
        InLap(e, |p.frames|);
        NotYet(p, e);
        assert false;
      }
    } else if !Complete(p, e) {
      assert ShortAhead(p, e, 1);
      NoShortBefore(p, e);
      assert false;
    }
  }

  /** Before the first short frame nothing stops a replay without byte limit. */
  lemma NotYet(p: Plan, e: nat)
    requires !p.cached && p.limitBytes == 0 && ReachesShort(p) && e < FirstShort(p.frames, p.minLen)
    ensures !Stops(p, e)
  {
    hide FirstShort;
    InLap(e, |p.frames|);
    if p.loops > 0 { LoopsBound(0, p.loops, |p.frames|); }
  }

  /** A short frame ahead is one the replay reaches. */
  lemma NoShortBefore(p: Plan, e: nat)
    requires !p.cached && p.frames != [] && !Complete(p, e) && GoesTo(p, e) && (p.limit > 0 ==> e <= p.limit)
    ensures ShortAhead(p, e, 1) ==> ReachesShort(p)
  {
    hide Mask, FirstShort;
    var n, s := |p.frames|, FirstShort(p.frames, p.minLen);
    if ShortAhead(p, e, 1) {
      assert s <= Mask(e, n) < n;
      if e < n { InLap(e, n); }
    }
  }

  /** A short frame in the next step is one the replay reaches. */
  lemma StepToShort(p: Plan, e: nat)
    requires p.frames != [] && !Complete(p, e) && ShortAhead(p, e, Step(p, e)) && (p.limit > 0 ==> e <= p.limit)
    ensures ReachesShort(p)
  {
    hide Mask, FirstShort;
    var n := |p.frames|;
    FirstStep(p, e);
    MaskAtMost(e, n);
    var i :| Mask(e, n) <= i < Mask(e, n) + Step(p, e) && i < n && |p.frames[i]| < p.minLen;
    assert FirstShort(p.frames, p.minLen) <= i;
  }

  /** The end of the last loop is a boundary. */
  lemma LastLoopEnds(p: Plan)
    requires p.loops > 0 && p.frames != []
    ensures p.loops * |p.frames| >= 0
    ensures Boundary(p, p.loops * |p.frames|) && Complete(p, p.loops * |p.frames|)
  {
    hide Mask;
    InLap(0, |p.frames|);
    ModShift(0, p.loops, |p.frames|);
    InLap(0, p.burst);
  }

  /** Without a byte limit and short frames in reach, either kind of replay sends the capture
      `loops` times over, cut at the limit. */
  lemma ReplayLength(p: Plan, e: nat)
    requires EndsAt(p, e) && p.limitBytes == 0 && !ReachesShort(p) && p.frames != [] && (p.limit > 0 ==> e <= p.limit)
    ensures p.loops > 0 || p.limit > 0
    ensures p.loops == 0 ==> e == p.limit
    ensures p.loops > 0 ==> e == if p.limit == 0 then p.loops * |p.frames| else Min(p.limit, p.loops * |p.frames|)
  {
    hide Mask, FirstShort, Boundary, Step, ReachesShort, ShortAhead;
    assert Complete(p, e) by {
      if !Complete(p, e) { StepToShort(p, e); }
    }
    if p.loops > 0 { LastLoopEnds(p); }
  }

  lemma MaskAtMost(k: nat, n: Pos)
    ensures Mask(k, n) <= k
  {
    if k < n { InLap(k, n); }
  }

  // ----- files -----

  class File {
    const content: seq<Byte>
    var pos: nat
    var eof: bool

    ghost predicate Valid()
      reads this
    {
      pos <= |content|
    }

    constructor (content: seq<Byte>)
      ensures Valid() && this.content == content && pos == 0
    {
      this.content, pos, eof := content, 0, false;
    }

    /** Read one item of `n` bytes; an empty item never counts as read. */
    method Read(n: nat) returns (ok: bool, bytes: seq<Byte>)
      requires Valid()
      modifies this
      ensures Valid() && (ok <==> 0 < n <= |content| - old(pos))
      ensures ok ==> pos == old(pos) + n && bytes == content[old(pos)..pos]
      ensures !ok ==> if n == 0 then pos == old(pos) else pos == |content| && eof
    {
      if n == 0 {
        return false, [];
      }
      if pos + n > |content| {
        pos, eof := |content|, true;
        return false, [];
      }
      bytes := content[pos..pos + n];
      pos := pos + n;
      return true, bytes;
    }

    method Seek(p: nat)
      requires p <= |content|
      modifies this
      ensures Valid() && pos == p && !eof
    {
      pos, eof := p, false;
    }
  }

  // ----- the packet source -----

  class Source {
    const isCached: bool
    /** Whether the source could be opened. */
    const isOpen: bool
    const file: File
    const loops: nat
    var currentLoop: nat
    /** The cache. */
    var capacity: nat
    var packets: seq<Frame>
    var offset: nat
    ghost const frames: seq<Frame>
    /** Frames handed out in the current loop, and whether the header of the next one has
        been read from the file already. */
    ghost var index: nat
    ghost var inRecord: bool

    ghost predicate Valid()
      reads this, file
    {
      && file.Valid() && Captured()
      && 1 <= currentLoop && (loops > 0 ==> currentLoop <= loops) && index <= |frames|
      && if isCached then packets == frames && offset == index && |packets| < capacity else Streaming()
    }

    /** The frames are those of the file. */
    ghost predicate Captured() {
      FILE_HEADER <= |file.content| && Parse(file.content[FILE_HEADER..]) == Some(frames)
    }

    /** The file stands at a record, or behind its header. */
    ghost predicate Streaming()
      requires index <= |frames|
      reads this, file
    {
      && FILE_HEADER <= file.pos <= |file.content|
      && if inRecord
         then index < |frames| && file.pos + |frames[index]| <= |file.content| && |frames[index]| > 0
              && file.content[file.pos..file.pos + |frames[index]|] == frames[index]
              && Parse(file.content[file.pos + |frames[index]|..]) == Some(frames[index + 1..])
         else Parse(file.content[file.pos..]) == Some(frames[index..])
    }

    constructor (file: File, cached: bool, loops: nat)
      requires file.Valid() && FILE_HEADER == file.pos <= |file.content|
      modifies file
      ensures this.file == file && isCached == cached && this.loops == loops && fresh(this)
      ensures isOpen <==> !cached || Parse(file.content[FILE_HEADER..]).Some?
      ensures Parse(file.content[FILE_HEADER..]).Some? ==> Valid() && index == 0 && currentLoop == 1 && !inRecord
      ensures Parse(file.content[FILE_HEADER..]).Some? ==> frames == Parse(file.content[FILE_HEADER..]).value
    {
      this.file, isCached, this.loops, currentLoop, offset, index, inRecord := file, cached, loops, 1, 0, 0, false;
      var ok, items, room := true, [], DEFAULT_CACHE_CAPACITY;
      if cached {
        ok, items, room := CreateCache(file);
      }
      isOpen, packets, capacity := ok, items, room;
      var p := Parse(file.content[FILE_HEADER..]);
      frames := if p.Some? then p.value else [];
      new;
      assert frames[0..] == frames;
    }

    lemma Bounds()
      requires Valid()
      ensures 1 <= currentLoop && (loops > 0 ==> currentLoop <= loops) && index <= |frames| && Captured()
    {
    }

    /** Lengths of the next packets, at most `cnt`. */
    method FillMeta(cnt: nat) returns (lens: seq<nat>)
      requires Valid() && (isCached || !inRecord)
      modifies this`currentLoop, this`offset, this`index, this`inRecord, file
      ensures Valid()
      ensures lens == [] <==> cnt == 0 || frames == [] || (old(index) == |frames| && loops > 0 && old(currentLoop) == loops)
      ensures lens == [] && frames != [] ==> index == old(index) && currentLoop == old(currentLoop)
      ensures lens != [] ==>
                if old(index) < |frames| then index == old(index) && currentLoop == old(currentLoop)
                else index == 0 && currentLoop == old(currentLoop) + 1
      ensures lens != [] ==> |lens| == (if isCached then Min(cnt, |frames| - index) else 1) && (isCached || inRecord)
      ensures forall i :: 0 <= i < |lens| ==> index + i < |frames| && lens[i] == |frames[index + i]|
    {
      hide Parse, Word32;
      if cnt == 0 {
        return [];
      }
      if isCached {
        lens := CachedMeta(cnt);
      } else {
        lens := StreamedMeta();
      }
    }

    method CachedMeta(cnt: nat) returns (lens: seq<nat>)
      requires Valid() && isCached && cnt > 0
      modifies this`currentLoop, this`offset, this`index
      ensures Valid()
      ensures lens == [] <==> frames == [] || (old(index) == |frames| && loops > 0 && old(currentLoop) == loops)
      ensures lens == [] && frames != [] ==> index == old(index) && currentLoop == old(currentLoop)
      ensures lens != [] ==>
                if old(index) < |frames| then index == old(index) && currentLoop == old(currentLoop)
                else index == 0 && currentLoop == old(currentLoop) + 1
      ensures lens != [] ==> |lens| == Min(cnt, |frames| - index)
      ensures forall i :: 0 <= i < |lens| ==> index + i < |frames| && lens[i] == |frames[index + i]|
    {
      hide Parse;
      if offset == |packets| {
        if loops == 0 || currentLoop < loops {
          currentLoop := currentLoop + 1;
          offset, index := 0, 0;
        } else {
          return [];
        }
      }
      var n := Min(cnt, |packets| - offset);
      lens := [];
      for i := 0 to n
        invariant |lens| == i && forall j :: 0 <= j < i ==> lens[j] == |frames[index + j]|
      {
        lens := lens + [|packets[offset + i]|];
      }
    }

    /** Read a record header, rewinding at the end of the file while loops remain. */
    method StreamedMeta() returns (lens: seq<nat>)
      requires Valid() && !isCached && !inRecord
      modifies this`currentLoop, this`index, this`inRecord, file
      ensures Valid() && (lens == [] ==> index == old(index) && currentLoop == old(currentLoop))
      ensures lens == [] <==> frames == [] || (old(index) == |frames| && loops > 0 && old(currentLoop) == loops)
      ensures lens != [] ==>
                if old(index) < |frames| then index == old(index) && currentLoop == old(currentLoop)
                else index == 0 && currentLoop == old(currentLoop) + 1
      ensures lens != [] ==> inRecord && |lens| == 1 && index < |frames| && lens[0] == |frames[index]|
    {
      hide Parse, Word32;
      NextRecord(file.content, file.pos, frames[index..]);
      assert index < |frames| ==> frames[index..][0] == frames[index] && frames[index..][1..] == frames[index + 1..];
      var ok, hdr := file.Read(RECORD_HEADER);
      if ok {
        inRecord := true;
        return [Word32(hdr, 8)];
      }
      AtEnd(file.content);
      assert frames[index..] == [] && frames[0..] == frames;
      if loops == 0 || currentLoop < loops {
        file.Seek(FILE_HEADER);
        NextRecord(file.content, file.pos, frames);
        ok, hdr := file.Read(RECORD_HEADER);
        if !ok {
          AtEnd(file.content);
          return [];
        }
        currentLoop, index, inRecord := currentLoop + 1, 0, true;
        return [Word32(hdr, 8)];
      }
      return [];
    }

    /** The next packets themselves. */
    method FillData(lens: seq<nat>) returns (data: seq<Frame>)
      requires Valid() && lens != [] && index + |lens| <= |frames| && (isCached || (inRecord && |lens| == 1))
      requires forall i :: 0 <= i < |lens| ==> lens[i] == |frames[index + i]|
      modifies this`offset, this`index, this`inRecord, file
      ensures Valid() && index == old(index) + |lens| && (isCached || !inRecord)
      ensures data == frames[old(index)..index]
    {
      hide Parse;
      if isCached {
        data := [];
        for i := 0 to |lens|
          invariant data == frames[index..index + i]
        {
          assert packets[offset + i][..lens[i]] == frames[index + i];
          data := data + [packets[offset + i][..lens[i]]];
        }
        offset, index := offset + |lens|, index + |lens|;
      } else {
        var ok, bytes := file.Read(lens[0]);
        data := [bytes];
        index, inRecord := index + 1, false;
      }
    }
  }

  /** At a record of a well-formed capture, its header can be read, states the length of the
      frame, and the frame and the other records follow; at the end, no header is left. */
  lemma NextRecord(content: seq<Byte>, pos: nat, frames: seq<Frame>)
    requires pos <= |content| && Parse(content[pos..]) == Some(frames)
    ensures frames == [] <==> |content| - pos < RECORD_HEADER
    ensures frames != [] ==>
              var d := pos + RECORD_HEADER;
              && d <= |content| && Word32(content[pos..d], 8) == |frames[0]| > 0 && d + |frames[0]| <= |content|
              && content[d..d + |frames[0]|] == frames[0] && Parse(content[d + |frames[0]|..]) == Some(frames[1..])
  {
    hide Word32;
    var b := content[pos..];
    if |b| >= RECORD_HEADER {
      var d := pos + RECORD_HEADER;
      var len := Word32(b, 8);
      FirstRecord(b, frames);
      hide Parse;
      SameField(b, content[pos..d]);
      assert b[RECORD_HEADER + len..] == content[d + len..];
      assert b[RECORD_HEADER..RECORD_HEADER + len] == content[d..d + len];
    }
  }

  lemma FirstRecord(b: seq<Byte>, frames: seq<Frame>)
    requires |b| >= RECORD_HEADER && Parse(b) == Some(frames)
    ensures
      var len := Word32(b, 8);
      && len > 0 && RECORD_HEADER + len <= |b| && frames != [] && frames[0] == b[RECORD_HEADER..RECORD_HEADER + len]
      && Parse(b[RECORD_HEADER + len..]) == Some(frames[1..])
  {
    hide Word32;
    var len := Word32(b, 8);
    var rest := Parse(b[RECORD_HEADER + len..]).value;
    assert frames == [b[RECORD_HEADER..RECORD_HEADER + len]] + rest && frames[1..] == rest;
  }

  lemma AtEnd(content: seq<Byte>)
    ensures Parse(content[|content|..]) == Some([])
  {
  }

  /** Read the whole capture into memory.  It succeeds exactly on well-formed captures and
      then holds their frames; the arrays always have room for the next packet. */
  method CreateCache(file: File) returns (ok: bool, packets: seq<Frame>, capacity: nat)
    requires file.Valid()
    modifies file
    ensures ok <==> Parse(file.content[old(file.pos)..]).Some?
    ensures ok ==> packets == Parse(file.content[old(file.pos)..]).value && |packets| < capacity
    ensures capacity == 1024 || capacity <= 2 * |packets|
    ensures file.Valid() && old(file.pos) <= file.pos
  {
    hide Word32;
    packets, capacity := [], DEFAULT_CACHE_CAPACITY;
    ghost var start := file.content[file.pos..];
    assert Parse(start).Some? ==> [] + Parse(start).value == Parse(start).value;
    while true
      invariant file.Valid() && old(file.pos) <= file.pos && |packets| < capacity && (capacity == 1024 || capacity <= 2 * |packets|)
      invariant Rest(Parse(start), packets, Parse(file.content[file.pos..]))
      decreases |file.content| - file.pos
    {
      ghost var b := file.content[file.pos..];
      ghost var parsed := Parse(b);
      var got, hdr := file.Read(RECORD_HEADER);
      if !got {
        return true, packets, capacity;
      }
      assert b[..RECORD_HEADER] == hdr;
      SameField(b, hdr);
      ghost var d := file.pos;
      var len := Word32(hdr, 8);
      var bytes;
      got, bytes := file.Read(len);
      if !got {
        return false, packets, capacity;
      }
      assert b[RECORD_HEADER + len..] == file.content[file.pos..];
      assert b[RECORD_HEADER..RECORD_HEADER + len] == bytes;
      RestSnoc(Parse(start), packets, parsed, bytes, Parse(file.content[file.pos..]));
      packets := packets + [bytes];
      if |packets| == capacity {
        capacity := 2 * capacity;
      }
    }
  }

  lemma SameField(b: seq<Byte>, hdr: seq<Byte>)
    requires |b| >= RECORD_HEADER && b[..RECORD_HEADER] == hdr
    ensures Word32(b, 8) == Word32(hdr, 8)
  {
  }

  /** The whole is what was read so far followed by the rest. */
  predicate Rest(whole: Option<seq<Frame>>, done: seq<Frame>, rest: Option<seq<Frame>>) {
    match rest
    case None => whole.None?
    case Some(fs) => whole == Some(done + fs)
  }

  lemma RestSnoc(whole: Option<seq<Frame>>, done: seq<Frame>, rest: Option<seq<Frame>>, f: Frame, rest': Option<seq<Frame>>)
    requires Rest(whole, done, rest)
    requires rest == match rest' case None => None case Some(fs) => Some([f] + fs)
    ensures Rest(whole, done + [f], rest')
  {
    if rest'.Some? { assert done + ([f] + rest'.value) == (done + [f]) + rest'.value; }
  }

  // ----- the transmit loop -----

  lemma {:induction false} CyclesMore(out: seq<Frame>, frames: seq<Frame>, loop: nat, r: nat, k: nat)
    requires Cycles(out, frames) && |out| == loop * |frames| + r && r + k <= |frames|
    ensures Cycles(out + frames[r..r + k], frames)
  {
    if frames != [] {
      var more := out + frames[r..r + k];
      forall j | 0 <= j < |more| ensures more[j] == frames[Mask(j, |frames|)] {
        if j >= |out| { ModIs(j, |frames|, loop, r + (j - |out|)); }
      }
    }
  }

  lemma Products(a: nat, b: nat)
    ensures a * b >= 0
  {
  }

  lemma LoopsBound(done: nat, loops: nat, n: nat)
    requires done < loops
    ensures done * n + n <= loops * n
  {
    Products(loops - done - 1, n);
    assert loops * n == done * n + n + (loops - done - 1) * n;
  }

  /** Before the first packet. */
  lemma BeforeFirst(p: Plan)
    ensures Boundary(p, 0) && GoesTo(p, 0) && Cycles([], p.frames) && (p.frames != [] ==> Sent(p.frames, 0) == 0)
  {
    hide Mask;
    if p.frames != [] { InLap(0, |p.frames|); }
    InLap(0, p.burst);
  }

  class Transmitter {
    const src: Source
    const limit: nat
    const limitBytes: nat
    const minLen: nat
    const txBurst: Pos
    var burst: nat
    var bytesCnt: nat
    /** Frames handed to the transmit queue. */
    var out: seq<Frame>
    /** Placeholders the transmit queue has handed out for the next step. */
    var reserved: nat

    ghost function P(): Plan {
      Plan(src.frames, src.loops, limit, limitBytes, minLen, txBurst, src.isCached)
    }

    ghost predicate Valid()
      reads this, src, src.file
    {
      && src.Valid() && (src.isCached || !src.inRecord) && Counted()
      && 0 < burst <= txBurst && (burst == txBurst || (limit > 0 && |out| + burst >= limit))
      && Boundary(P(), |out|) && GoesTo(P(), |out|)
    }

    /** What was sent walks round the capture to where the source stands. */
    ghost predicate Counted()
      reads this`out, this`bytesCnt, src`currentLoop, src`index
    {
      && src.currentLoop >= 1 && |out| == (src.currentLoop - 1) * |src.frames| + src.index && Cycles(out, src.frames)
      && (limit > 0 ==> |out| <= limit) && (src.frames == [] || bytesCnt == Sent(src.frames, |out|))
      && forall i :: 0 <= i < |out| ==> |out[i]| >= minLen
    }

    constructor (src: Source, limit: nat, limitBytes: nat, minLen: nat, txBurst: Pos)
      requires src.Valid() && src.index == 0 && src.currentLoop == 1 && !src.inRecord
      ensures Valid() && this.src == src && this.limit == limit && this.limitBytes == limitBytes
      ensures this.minLen == minLen && this.txBurst == txBurst && out == []
    {
      this.src, this.limit, this.limitBytes, this.minLen, this.txBurst := src, limit, limitBytes, minLen, txBurst;
      burst, bytesCnt, out, reserved := txBurst, 0, [], 0;
      new;
      hide Cycles, Boundary, GoesTo, Sent, Source.Valid;
      BeforeFirst(P());
    }

    /** The source has announced the next packets, which are those of the next step. */
    ghost predicate Asked(lens: seq<nat>)
      reads this`burst, this`out, this`bytesCnt, src, src.file
    {
      && src.Valid() && Counted() && src.frames != [] && 0 < burst <= txBurst && Boundary(P(), |out|) && GoesTo(P(), |out|)
      && !Complete(P(), |out|) && !OverBytes(P(), |out|) && (burst == txBurst || (limit > 0 && |out| + burst >= limit))
      && src.index == Mask(|out|, |src.frames|) && |lens| == Step(P(), |out|) >= 1 && src.index + |lens| <= |src.frames|
      && (src.isCached || (src.inRecord && |lens| == 1))
      && (limit > 0 ==> |out| + |lens| <= limit)
      && forall i :: 0 <= i < |lens| ==> lens[i] == |src.frames[src.index + i]|
    }

    /** All loops are sent exactly when the source stands at the end of the last one. */
    lemma LoopsDone(loop: nat, index: nat)
      requires loop >= 1 && |out| == (loop - 1) * |src.frames| + index && index <= |src.frames| && src.frames != []
      requires src.loops > 0 && loop <= src.loops
      ensures |out| == src.loops * |src.frames| <==> index == |src.frames| && loop == src.loops
    {
      var n := |src.frames|;
      assert (loop - 1) * n + n == loop * n;
      if loop < src.loops { LoopsBound(loop, src.loops, n); }
    }

    /** The number of packets tells the place in the loop. */
    lemma Place(loop: nat, index: nat)
      requires loop >= 1 && |out| == (loop - 1) * |src.frames| + index && src.frames != [] && index <= |src.frames|
      ensures Mask(|out|, |src.frames|) == if index < |src.frames| then index else 0
      ensures index == |src.frames| ==> |out| == loop * |src.frames|
    {
      var n := |src.frames|;
      if index < n {
        ModIs(|out|, n, loop - 1, index);
      } else {
        assert (loop - 1) * n + n == loop * n;
        ModIs(|out|, n, loop, 0);
      }
    }

    /** The head of the loop: apply the limits and ask the source. */
    method Ask() returns (lens: seq<nat>)
      requires Valid()
      modifies this`burst, src`currentLoop, src`offset, src`index, src`inRecord, src.file
      ensures lens == [] <==> src.frames == [] || Complete(P(), |out|) || OverBytes(P(), |out|)
      ensures lens != [] ==> Asked(lens)
    {
      hide Cycles, Mask, Parse, Sent, Source.Valid, Boundary, GoesTo;
      src.Bounds();
      if limit > 0 {
        if |out| == limit {
          return [];
        }
        if |out| + burst > limit {
          burst := limit - |out|;
        }
      }
      if limitBytes > 0 && bytesCnt > limitBytes {
        return [];
      }
      assert bytesCnt <= limitBytes || limitBytes == 0;
      lens := src.FillMeta(burst);
      if src.frames != [] {
        if src.loops > 0 { LoopsDone(old(src.currentLoop), old(src.index)); }
        Place(old(src.currentLoop), old(src.index));
        src.Bounds();
      }
    }

    /** Look for a reason to stop; without one, there is a step to take. */
    method Choose() returns (finished: bool, lens: seq<nat>)
      requires Valid()
      modifies this`burst, src`currentLoop, src`offset, src`index, src`inRecord, src.file
      ensures finished <==> Stops(P(), |out|)
      ensures !finished ==> Asked(lens) && lens != []
    {
      hide Cycles, Mask, Parse, Sent, Source.Valid, Boundary, GoesTo, Step;
      lens := Ask();
      finished := lens == [];
      for i := 0 to |lens|
        invariant finished <==> lens == [] || exists j :: 0 <= j < i && lens[j] < minLen
      {
        if lens[i] < minLen { finished := true; }
      }
      if lens != [] { Looked(lens); }
    }

    lemma Looked(lens: seq<nat>)
      requires Asked(lens)
      ensures Stops(P(), |out|) <==> exists j :: 0 <= j < |lens| && lens[j] < minLen
    {
      hide Cycles, Mask, Parse, Sent, Source.Valid, Boundary, GoesTo, Step;
      var r := src.index;
      if j :| 0 <= j < |lens| && lens[j] < minLen {
        assert |src.frames[r + j]| < minLen;
      }
      if ShortAhead(P(), |out|, |lens|) {
        var i :| r <= i < r + |lens| && i < |src.frames| && |src.frames[i]| < minLen;
        assert lens[i - r] < minLen;
      }
    }

    /** Send the packets of a step. */
    method Send(lens: seq<nat>)
      requires Asked(lens) && !Stops(P(), |out|) && reserved == |lens|
      modifies this`reserved, this`out, this`bytesCnt, src`offset, src`index, src`inRecord, src.file
      ensures Valid() && |out| == |old(out)| + |lens|
    {
      hide Cycles, Mask, Parse, Sent, Boundary, GoesTo, Step, Source.Valid;
      Looked(lens);
      CyclesMore(out, src.frames, src.currentLoop - 1, src.index, |lens|);
      GoesOn(P(), |out|);
      var data := src.FillData(lens);
      for i := 0 to |data|
        invariant bytesCnt == Sent(src.frames, |out| + i)
        invariant out == old(out) && src.Valid() && src.index == old(src.index) + |lens| && (src.isCached || !src.inRecord)
      {
        SentNext(|out|, i);
        bytesCnt := bytesCnt + |data[i]|;
      }
      forall i | 0 <= i < |data| ensures |data[i]| >= minLen { assert lens[i] >= minLen; }
      out, reserved := out + data, 0;
    }

    /** Ask the transmit queue for `n` placeholders; it gives all or none. */
    method Reserve(n: nat, prompt: bool) returns (ready: bool)
      modifies this`reserved
      ensures reserved == (if ready then n else 0) && (prompt ==> ready)
    {
      ready :| prompt ==> ready;
      reserved := if ready then n else 0;
    }

    lemma SentNext(k: nat, i: nat)
      requires src.frames != [] && Mask(k, |src.frames|) + i < |src.frames|
      ensures Sent(src.frames, k + i + 1) == Sent(src.frames, k + i) + |src.frames[Mask(k, |src.frames|) + i]|
    {
      Inside(k, i, |src.frames|);
    }

    /** The replay is over: everything the plan allows was sent, and nothing else. */
    ghost predicate Finished()
      reads this`out
    {
      src.Captured() && Cycles(out, src.frames) && EndsAt(P(), |out|) && (limit > 0 ==> |out| <= limit)
    }

    /** Replay until there is a reason to stop or `stopAfter` polls of the stop flag have
        passed.  Whatever is sent walks round the capture, holds no short frame and goes no
        further than the plan; unless it was stopped, it ends exactly where the plan
        does.  While the transmit queue is prompt, every two polls send a packet at least, so a
        replay that has an end reaches it if the flag leaves it the time. */
    method Run(stopAfter: nat, prompt: bool) returns (stopped: bool)
      requires Valid()
      modifies this`burst, this`reserved, this`out, this`bytesCnt, src`currentLoop, src`offset, src`index, src`inRecord, src.file
      ensures Cycles(out, src.frames) && GoesTo(P(), |out|) && forall i :: 0 <= i < |out| ==> |out[i]| >= minLen
      ensures !stopped ==> Finished()
      ensures prompt && stopped ==> 2 * (|out| - |old(out)|) + 1 >= stopAfter
      ensures forall k: nat :: prompt && EndsAt(P(), k) && stopAfter > 2 * k + 1 ==> !stopped && |out| == k
    {
      hide Cycles, Mask, Parse, Sent, Boundary, GoesTo, Stops, Source.Valid, Asked;
      src.Bounds();
      var polls := 0;
      while polls < stopAfter
        invariant Valid() && polls <= stopAfter && (prompt ==> polls <= 2 * (|out| - |old(out)|))
        decreases stopAfter - polls
      {
        polls := polls + 1;
        var finished, lens := Choose();
        if finished {
          Ended();
          return false;
        }
        var ready;
        polls, ready := Wait(|lens|, polls, stopAfter, prompt);
        if !ready {
          NotPast();
          return true;
        }
        Send(lens);
      }
      NotPast();
      stopped := true;
    }

    /** Ask for placeholders until there are any or the polls are used up. */
    method Wait(n: nat, polls: nat, stopAfter: nat, prompt: bool) returns (now: nat, ready: bool)
      requires polls <= stopAfter
      modifies this`reserved
      ensures polls <= now <= stopAfter && (ready ==> reserved == n) && (!ready ==> now == stopAfter)
      ensures prompt ==> now == if ready then polls + 1 else polls
    {
      now, ready := polls, false;
      while !ready && now < stopAfter
        invariant polls <= now <= stopAfter && (ready ==> reserved == n)
        invariant prompt ==> now == if ready then polls + 1 else polls
        decreases stopAfter - now
      {
        now := now + 1;
        ready := Reserve(n, prompt);
      }
    }

    /** The replay has not gone past the end of the plan. */
    lemma NotPast()
      requires GoesTo(P(), |out|)
      ensures forall k: nat :: EndsAt(P(), k) ==> |out| <= k
    {
      hide Boundary, Stops;
    }

    lemma Ended()
      requires EndsAt(P(), |out|)
      ensures forall k: nat :: EndsAt(P(), k) ==> |out| == k
    {
      hide EndsAt;
      forall k: nat | EndsAt(P(), k) ensures |out| == k { EndIsUnique(P(), |out|, k); }
    }
  }

  /** The bytes of some packets. */
  function TotalBytes(out: seq<Frame>): nat {
    if out == [] then 0 else TotalBytes(out[..|out| - 1]) + |out[|out| - 1]|
  }

  lemma {:induction false} SentIsTotal(out: seq<Frame>, frames: seq<Frame>, k: nat)
    requires frames != [] && Cycles(out, frames) && k <= |out|
    ensures TotalBytes(out[..k]) == Sent(frames, k)
    decreases k
  {
    hide Mask;
    if k > 0 {
      SentIsTotal(out, frames, k - 1);
      assert out[..k][..k - 1] == out[..k - 1] && out[k - 1] == frames[Mask(k - 1, |frames|)];
    }
  }

  /** The last boundary before a later one is one step before it. */
  lemma {:induction false} LastBoundary(p: Plan, k: nat, from: nat) returns (q: nat)
    requires p.frames != [] && from < k && Boundary(p, from) && Boundary(p, k) && GoesTo(p, k) && (p.limit > 0 ==> k <= p.limit)
    ensures q < k == q + Step(p, q) && Boundary(p, q)
    decreases k - from
  {
    hide Mask, Boundary, Step, OverBytes, ShortAhead, Complete;
    assert !Stops(p, from);
    NextBoundary(p, from);
    FirstStep(p, from);
    var next := from + Step(p, from);
    if next < k {
      q := LastBoundary(p, k, next);
    } else {
      q := from;
    }
  }

  /** How many bytes a finished replay with a byte limit has sent: more than the limit unless
      something else ended it, and without its last step, which is one packet when streaming
      and at most one burst from the cache, no more. */
  lemma BytesAtEnd(t: Transmitter)
    requires t.Finished() && t.limitBytes > 0 && t.src.frames != []
    ensures TotalBytes(t.out) > t.limitBytes || Complete(t.P(), |t.out|) || ShortAhead(t.P(), |t.out|, Step(t.P(), |t.out|))
    ensures t.out != [] ==>
              exists q: nat :: q < |t.out| <= q + (if t.src.isCached then t.txBurst else 1) && TotalBytes(t.out[..q]) <= t.limitBytes
  {
    hide Mask, Boundary, Step, ShortAhead, Complete, Cycles, Source.Captured;
    var k := |t.out|;
    SentIsTotal(t.out, t.src.frames, k);
    assert t.out[..k] == t.out;
    if t.out != [] {
      BeforeFirst(t.P());
      var q := LastBoundary(t.P(), k, 0);
      StepBound(t.P(), q);
      SentIsTotal(t.out, t.src.frames, q);
      assert !Stops(t.P(), q);
    }
  }

  lemma StepBound(p: Plan, k: nat)
    requires p.frames != []
    ensures Step(p, k) <= if p.cached then p.burst else 1
  {
  }

  /** Two finished replays of one capture under one plan, from the cache and streamed, sent
      the same frames if and only if streaming that plan ends at a burst boundary; without a
      byte limit, if and only if no short frame is reached or the first one starts a
      burst. */
  lemma CacheAgreesIff(a: Transmitter, b: Transmitter)
    requires a.Finished() && b.Finished() && a.src.file.content == b.src.file.content
    requires a.src.isCached && !b.src.isCached && b.P() == Streamed(a.P())
    ensures a.out == b.out <==> exists e: nat :: EndsAt(Streamed(a.P()), e) && Boundary(a.P(), e)
    ensures a.limitBytes == 0 ==>
              (a.out == b.out <==> !ReachesShort(a.P()) || Mask(FirstShort(a.src.frames, a.minLen), a.txBurst) == 0)
  {
    hide Parse, Mask, Stops, GoesTo, FirstShort;
    var p, e := a.P(), |b.out|;
    CacheEndsToo(p, e);
    forall k: nat | EndsAt(b.P(), k) ensures k == e { EndIsUnique(b.P(), k, e); }
    if Boundary(p, e) {
      EndIsUnique(p, |a.out|, e);
      SameLength(a.out, b.out, p.frames);
    }
    if p.limitBytes == 0 {
      StreamedEnd(b.P(), e);
      BoundaryThere(p, e);
    }
  }

  lemma SameLength(a: seq<Frame>, b: seq<Frame>, frames: seq<Frame>)
    requires Cycles(a, frames) && Cycles(b, frames) && |a| == |b|
    ensures a == b
  {
  }

  lemma BoundaryThere(p: Plan, e: nat)
    requires p.cached && if ReachesShort(p) then e == FirstShort(p.frames, p.minLen) else Complete(p, e)
    ensures Boundary(p, e) <==> !ReachesShort(p) || Mask(FirstShort(p.frames, p.minLen), p.burst) == 0
  {
    hide Mask, FirstShort;
    if p.frames != [] {
      if ReachesShort(p) {
        InLap(e, |p.frames|);
      } else if p.loops > 0 && e == p.loops * |p.frames| {
        InLap(0, |p.frames|);
        ModShift(0, p.loops, |p.frames|);
        InLap(0, p.burst);
      }
    }
  }

  /** A capture whose second frame is too short, in bursts of two: streaming sends the first
      frame, the cache nothing. */
  lemma CacheDropsBurst()
    ensures
      var p := Plan([[1, 2], [3]], 1, 0, 0, 2, 2, true);
      EndsAt(p, 0) && EndsAt(Streamed(p), 1)
  {
    var p := Plan([[1, 2], [3]], 1, 0, 0, 2, 2, true);
    var q := Streamed(p);
    assert Mask(0, 2) == 0 && Mask(1, 2) == 1;
    assert |p.frames[1]| < p.minLen && Step(p, 0) == 2;
    assert ShortAhead(p, 0, 2) && ShortAhead(q, 1, 1) && !Stops(q, 0);
  }
}
