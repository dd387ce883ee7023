/** The inline packet frames of the version 1 byte ring: a four-byte header holding
two 16-bit lengths, the metadata, then the data at the next multiple of eight, the
whole frame padded to a multiple of eight. */
module Frame {
  import opened Ring
  import opened Octets

  /** NDP_PACKET_HEADER_SIZE */
  const PACKET_HEADER := 4

  datatype Packet = Packet(header: seq<Byte>, data: seq<Byte>)

  function Align8(x: nat): (r: nat)
    ensures x <= r < x + 8 && r % 8 == 0
  {
    (x + 7) / 8 * 8
  }

  // ----- what the transmitter computes, in 16-bit arithmetic -----

  function HeaderSpan(headerLen: nat): (r: nat)
    ensures r < 0x1_0000
  {
    Align8(headerLen + PACKET_HEADER) % 0x1_0000
  }

  function FrameSpan(headerLen: nat, dataLen: nat): (r: nat)
    ensures r < 0x1_0000
  {
    (Align8(dataLen) + HeaderSpan(headerLen)) % 0x1_0000
  }

  /** The `packet_size` field written for a frame. */
  function SizeField(headerLen: nat, dataLen: nat): (r: nat)
    ensures r < 0x1_0000
  {
    (dataLen + HeaderSpan(headerLen)) % 0x1_0000
  }

  // ----- what the receiver computes -----

  datatype Parsed =
    | Malformed
    | BeyondLock
    | Frame(headerLen: nat, dataOffset: nat, dataLen: nat, advance: nat)

  /** Header check and length arithmetic for a header with the given two fields when
      `bytes` bytes of the ring are locked. */
  function ParseHeader(packetSize: nat, headerSize: nat, bytes: nat): Parsed {
    if packetSize == 0 || headerSize > packetSize - PACKET_HEADER then Malformed
    else if packetSize > bytes then BeyondLock
    else
      var span := HeaderSpan(headerSize);
      Parsed.Frame(headerSize, span, (packetSize - span) % 0x1_0000_0000, Align8(packetSize) % 0x1_0000)
  }

  /** The parser goes on exactly if the metadata fits the packet and the packet the lock; then it
      steps over the least multiple of eight that holds the packet, and the data length wraps
      exactly if padding reaches behind the packet. */
  lemma ParsesIff(packetSize: nat, headerSize: nat, bytes: nat)
    requires packetSize < 0x1_0000 - 8 && headerSize < 0x1_0000
    ensures
      var p := ParseHeader(packetSize, headerSize, bytes);
      && (p.Malformed? <==> packetSize < headerSize + 4)
      && (p.BeyondLock? <==> bytes < packetSize && headerSize + 4 <= packetSize)
      && (p.Frame? ==>
            && p.headerLen == headerSize && headerSize + 4 <= p.dataOffset <= packetSize + 7 && p.dataOffset % 8 == 0
            && packetSize <= p.advance < packetSize + 8 && p.advance % 8 == 0
            && p.dataLen == if p.dataOffset <= packetSize then packetSize - p.dataOffset else 0x1_0000_0000 - (p.dataOffset - packetSize))
  {
    hide Align8;
    if headerSize + 4 <= packetSize {
      Narrow(Align8(headerSize + PACKET_HEADER));
      Narrow(Align8(packetSize));
      hide HeaderSpan;
      Wraps(packetSize, HeaderSpan(headerSize));
    }
  }

  lemma Narrow(x: nat)
    requires x < 0x1_0000
    ensures x % 0x1_0000 == x
  {
  }

  lemma Wraps(a: nat, b: nat)
    requires a < 0x1_0000 && b < 0x1_0000
    ensures (a - b) % 0x1_0000_0000 == if b <= a then a - b else 0x1_0000_0000 - (b - a)
  {
    if b > a { ModIs(a - b, 0x1_0000_0000, 0 - 1, 0x1_0000_0000 - (b - a)); }
  }

  // ----- lengths survive exactly when the aligned frame fits 16 bits -----

  predicate Fits(headerLen: nat, dataLen: nat) {
    Align8(headerLen + PACKET_HEADER) + Align8(dataLen) < 0x1_0000
  }

  lemma AlignSum(a: nat, b: nat)
    ensures Align8(Align8(a) + b) == Align8(a) + Align8(b)
  {
  }

  /** For every length pair the API can carry, the receiver recovers the lengths the
      transmitter was given and steps over a span that holds the frame if and only if
      the aligned frame fits the 16-bit length fields. */
  lemma LengthsRoundTripIff(headerLen: nat, dataLen: nat, bytes: nat)
    requires headerLen < 0x1_0000 && dataLen < 0x1_0000_0000 && bytes >= 0x1_0000
    ensures
      var p := ParseHeader(SizeField(headerLen, dataLen), headerLen, bytes);
      Fits(headerLen, dataLen) <==>
      (p.Frame? && p.headerLen == headerLen && p.dataLen == dataLen
       && p.advance == FrameSpan(headerLen, dataLen)
       && Align8(headerLen + PACKET_HEADER) + dataLen <= p.advance)
  {
    hide Align8;
    var h, d := Align8(headerLen + PACKET_HEADER), Align8(dataLen);
    AlignSum(headerLen + PACKET_HEADER, dataLen);
    if Fits(headerLen, dataLen) {
      LengthsFit(headerLen, dataLen);
    } else {
      assert Align8(h + dataLen) == h + d >= 0x1_0000;
    }
  }

  lemma LengthsFit(headerLen: nat, dataLen: nat)
    requires Fits(headerLen, dataLen)
    ensures HeaderSpan(headerLen) == Align8(headerLen + PACKET_HEADER)
    ensures SizeField(headerLen, dataLen) == Align8(headerLen + PACKET_HEADER) + dataLen
    ensures FrameSpan(headerLen, dataLen) == Align8(headerLen + PACKET_HEADER) + Align8(dataLen)
  {
    hide Align8;
  }

  // ----- packets -----

  predicate Fitting(p: Packet) {
    Fits(|p.header|, |p.data|)
  }

  function Body(p: Packet): (b: nat)
    ensures b >= |p.header| + PACKET_HEADER && b >= 8
  {
    Align8(|p.header| + PACKET_HEADER)
  }

  function Span(p: Packet): (s: nat)
    ensures s >= Body(p) + |p.data| && s >= 8
  {
    Body(p) + Align8(|p.data|)
  }

  // ----- frames in ring memory, addressed by unbounded position -----

  /** The byte that position `x` shows through the mirrored mapping. */
  function At(m: seq<Byte>, x: int): Byte
    requires |m| > 0
  {
    m[Mask(x, |m|)]
  }

  /** The little-endian 16-bit field at position `x`. */
  function Field(m: seq<Byte>, x: int): nat
    requires |m| > 0
  {
    (At(m, x) as int) + 256 * (At(m, x + 1) as int)
  }

  /** A frame of packet `p` starts at position `a`; padding bytes are free. */
  predicate FrameAt(m: seq<Byte>, a: int, p: Packet)
    requires |m| > 0
  {
    && Fitting(p)
    && Field(m, a) == Body(p) + |p.data|
    && Field(m, a + 2) == |p.header|
    && (forall i :: 0 <= i < |p.header| ==> At(m, a + PACKET_HEADER + i) == p.header[i])
    && (forall i :: 0 <= i < |p.data| ==> At(m, a + Body(p) + i) == p.data[i])
  }

  /** Positions `a` up to `e` hold frames carrying exactly the packets `ps`. */
  predicate Framed(m: seq<Byte>, a: int, e: int, ps: seq<Packet>)
    requires |m| > 0
    decreases |ps|
  {
    if ps == [] then a == e
    else FrameAt(m, a, ps[0]) && Framed(m, a + Span(ps[0]), e, ps[1..])
  }

  /** Total bytes of the frames of `ps`. */
  function Bytes(ps: seq<Packet>): nat {
    if ps == [] then 0 else Span(ps[0]) + Bytes(ps[1..])
  }

  lemma {:induction false} FramedLength(m: seq<Byte>, a: int, e: int, ps: seq<Packet>)
    requires |m| > 0 && Framed(m, a, e, ps)
    ensures e == a + Bytes(ps)
    ensures ps != [] ==> a + Span(ps[0]) <= e
    decreases |ps|
  {
    hide FrameAt, Span;
    if ps != [] { FramedLength(m, a + Span(ps[0]), e, ps[1..]); }
  }

  lemma {:induction false} FramedAppend(m: seq<Byte>, a: int, b: int, c: int, ps: seq<Packet>, qs: seq<Packet>)
    requires |m| > 0 && Framed(m, a, b, ps) && Framed(m, b, c, qs)
    ensures Framed(m, a, c, ps + qs)
    decreases |ps|
  {
    hide FrameAt, Span;
    if ps == [] {
      assert ps + qs == qs;
    } else {
      FramedAppend(m, a + Span(ps[0]), b, c, ps[1..], qs);
      assert (ps + qs)[1..] == ps[1..] + qs;
    }
  }

  lemma {:induction false} FramedSplit(m: seq<Byte>, a: int, e: int, ps: seq<Packet>, qs: seq<Packet>)
    requires |m| > 0 && Framed(m, a, e, ps + qs)
    ensures Framed(m, a, a + Bytes(ps), ps)
    ensures Framed(m, a + Bytes(ps), e, qs)
    decreases |ps|
  {
    hide FrameAt, Span;
    if ps == [] {
      assert ps + qs == qs;
    } else {
      assert (ps + qs)[1..] == ps[1..] + qs;
      FramedSplit(m, a + Span(ps[0]), e, ps[1..], qs);
    }
  }

  lemma FramedEmpty(m: seq<Byte>, a: int)
    requires |m| > 0
    ensures Framed(m, a, a, [])
  {
  }

  lemma FramedHead(m: seq<Byte>, a: int, e: int, p: Packet, ps: seq<Packet>)
    requires |m| > 0 && Framed(m, a, e, [p] + ps)
    ensures FrameAt(m, a, p) && Framed(m, a + Span(p), e, ps) && a + Span(p) <= e
  {
    hide FrameAt, Span;
    assert ([p] + ps)[1..] == ps;
    FramedLength(m, a, e, [p] + ps);
  }

  lemma FramedOne(m: seq<Byte>, a: int, p: Packet)
    requires |m| > 0 && FrameAt(m, a, p)
    ensures Framed(m, a, a + Span(p), [p])
  {
    hide FrameAt, Span;
    assert [p][1..] == [];
  }

  /** The same bytes elsewhere, in the same or another memory, hold the same packets. */
  lemma {:induction false} FramedMoves(m: seq<Byte>, a: int, e: int, ps: seq<Packet>, m': seq<Byte>, d: int)
    requires |m| > 0 && |m'| > 0 && Framed(m, a, e, ps)
    requires forall x :: a <= x < e ==> At(m', x + d) == At(m, x)
    ensures Framed(m', a + d, e + d, ps)
    decreases |ps|
  {
    hide FrameAt, At, Span;
    if ps != [] {
      FramedLength(m, a, e, ps);
      FrameMoves(m, a, ps[0], m', d);
      FramedMoves(m, a + Span(ps[0]), e, ps[1..], m', d);
    }
  }

  lemma FrameMoves(m: seq<Byte>, a: int, p: Packet, m': seq<Byte>, d: int)
    requires |m| > 0 && |m'| > 0 && FrameAt(m, a, p)
    requires forall x :: a <= x < a + Span(p) ==> At(m', x + d) == At(m, x)
    ensures FrameAt(m', a + d, p)
  {
    hide At;
    assert At(m', (a + 1) + d) == At(m, a + 1) && At(m', (a + 3) + d) == At(m, a + 3);
    forall i | 0 <= i < |p.header| ensures At(m', a + d + PACKET_HEADER + i) == p.header[i] {
      assert At(m', (a + PACKET_HEADER + i) + d) == At(m, a + PACKET_HEADER + i);
    }
    forall i | 0 <= i < |p.data| ensures At(m', a + d + Body(p) + i) == p.data[i] {
      assert At(m', (a + Body(p) + i) + d) == At(m, a + Body(p) + i);
    }
  }

  /** The receiver's arithmetic on the four header bytes yields exactly the lengths,
      the data position and the step of the packet framed there. */
  lemma ParseFrame(m: seq<Byte>, a: int, p: Packet, bytes: nat)
    requires |m| > 0 && FrameAt(m, a, p) && bytes >= Span(p)
    ensures ParseHeader(Field(m, a), Field(m, a + 2), bytes)
            == Parsed.Frame(|p.header|, Body(p), |p.data|, Span(p))
  {
    hide At, Field;
    AlignSum(|p.header| + PACKET_HEADER, |p.data|);
    LengthsFit(|p.header|, |p.data|);
  }

  /** Decoding is unambiguous: when one framed run extends another byte for byte, the
      packet sequences are in the same prefix relation. */
  lemma {:induction false} FramedPrefix(m: seq<Byte>, a: int, e: int, ps: seq<Packet>,
                                        m': seq<Byte>, d: int, e': int, qs: seq<Packet>)
    requires |m| > 0 && |m'| > 0 && Framed(m, a, e, ps) && Framed(m', a + d, e', qs) && e + d <= e'
    requires forall x :: a <= x < e ==> At(m', x + d) == At(m, x)
    ensures ps <= qs
    ensures e + d == e' ==> ps == qs
    decreases |ps|
  {
    hide FrameAt, At, Span;
    FramedLength(m, a, e, ps);
    FramedLength(m', a + d, e', qs);
    if ps == [] {
      assert qs != [] ==> a + d + Span(qs[0]) <= e';
    } else {
      SamePacket(m, a, ps[0], m', d, qs[0]);
      FramedPrefix(m, a + Span(ps[0]), e, ps[1..], m', d, e', qs[1..]);
      assert ps == [ps[0]] + ps[1..] && qs == [qs[0]] + qs[1..];
    }
  }

  lemma SamePacket(m: seq<Byte>, a: int, p: Packet, m': seq<Byte>, d: int, q: Packet)
    requires |m| > 0 && |m'| > 0 && FrameAt(m, a, p) && FrameAt(m', a + d, q)
    requires forall x :: a <= x < a + Span(p) ==> At(m', x + d) == At(m, x)
    ensures p == q
  {
    FrameMoves(m, a, p, m', d);
    hide At, Field;
    assert |p.header| == |q.header| && |p.data| == |q.data|;
  }

  /** Rewriting one packet inside its frame changes that packet only. */
  lemma FramedReplace(m: seq<Byte>, a: int, e: int, ps: seq<Packet>, p0: Packet, qs: seq<Packet>,
                      m': seq<Byte>, p: Packet)
    requires |m| > 0 && |m'| > 0 && Framed(m, a, e, ps + ([p0] + qs))
    requires Span(p) == Span(p0) && FrameAt(m', a + Bytes(ps), p)
    requires forall x :: a <= x < e && !(a + Bytes(ps) <= x < a + Bytes(ps) + Span(p))
                         ==> At(m', x) == At(m, x)
    ensures Framed(m', a, e, ps + ([p] + qs))
  {
    hide FrameAt, Span, At;
    var b := a + Bytes(ps);
    FramedSplit(m, a, e, ps, [p0] + qs);
    FramedLength(m, b, e, [p0] + qs);
    hide Bytes;
    FramedMoves(m, a, b, ps, m', 0);
    ReplaceHead(m, b, e, p0, qs, m', p);
    FramedAppend(m', a, b, e, ps, [p] + qs);
  }

  lemma ReplaceHead(m: seq<Byte>, a: int, e: int, p0: Packet, qs: seq<Packet>, m': seq<Byte>, p: Packet)
    requires |m| > 0 && |m'| > 0 && Framed(m, a, e, [p0] + qs)
    requires Span(p) == Span(p0) && FrameAt(m', a, p)
    requires forall x :: a + Span(p) <= x < e ==> At(m', x) == At(m, x)
    ensures Framed(m', a, e, [p] + qs)
  {
    hide FrameAt, Span, At, Framed;
    FramedHead(m, a, e, p0, qs);
    FramedMoves(m, a + Span(p), e, qs, m', 0);
    FramedCons(m', a, e, p, qs);
  }

  lemma FramedCons(m: seq<Byte>, a: int, e: int, p: Packet, qs: seq<Packet>)
    requires |m| > 0 && FrameAt(m, a, p) && Framed(m, a + Span(p), e, qs)
    ensures Framed(m, a, e, [p] + qs)
  {
    hide FrameAt, Span;
    assert ([p] + qs)[1..] == qs;
  }

  // ----- writing frames -----

  lemma {:induction false} BytesSnoc(ps: seq<Packet>, p: Packet)
    ensures Bytes(ps + [p]) == Bytes(ps) + Span(p)
    decreases |ps|
  {
    hide Span;
    if ps == [] {
      assert ps + [p] == [p] && [p][1..] == [];
    } else {
      assert (ps + [p])[1..] == ps[1..] + [p];
      BytesSnoc(ps[1..], p);
    }
  }

  /** The four header bytes the transmitter writes in front of a frame. */
  function HeaderBytes(headerLen: nat, dataLen: nat): (b: seq<Byte>)
    requires headerLen < 0x1_0000
    ensures |b| == PACKET_HEADER
  {
    var size := SizeField(headerLen, dataLen);
    [size % 256, size / 256, headerLen % 256, headerLen / 256]
  }

  /** The packet with the given lengths whose bytes lie in the frame at `a`. */
  function PacketAt(m: seq<Byte>, a: int, headerLen: nat, dataLen: nat): (p: Packet)
    requires |m| > 0
    ensures |p.header| == headerLen && |p.data| == dataLen
  {
    Packet(Unroll(m, a + PACKET_HEADER, headerLen), Unroll(m, a + Align8(headerLen + PACKET_HEADER), dataLen))
  }

  /** Writing the header turns whatever lies behind it into a frame and leaves the
      rest of the ring alone. */
  lemma HeaderMakesFrame(m: seq<Byte>, a: int, headerLen: nat, dataLen: nat)
    requires |m| >= 8 && Fits(headerLen, dataLen)
    ensures
      var m' := Store(m, a, HeaderBytes(headerLen, dataLen));
      && FrameAt(m', a, PacketAt(m', a, headerLen, dataLen))
      && forall x :: a + PACKET_HEADER - |m| <= x < a ==> At(m', x) == At(m, x)
  {
    LengthsFit(headerLen, dataLen);
    var b := HeaderBytes(headerLen, dataLen);
    var m' := Store(m, a, b);
    forall x | a + PACKET_HEADER - |m| <= x < a ensures At(m', x) == At(m, x) {
      StoreKeepsCell(m, a, b, x);
    }
    StoreCell(m, a, b, a);
    StoreCell(m, a, b, a + 1);
    StoreCell(m, a, b, a + 2);
    StoreCell(m, a, b, a + 3);
    hide Mask, Align8;
    assert Field(m', a) == SizeField(headerLen, dataLen);
    assert Field(m', a + 2) == headerLen;
  }

  /** Ring memory after the metadata and data areas of the frame at `a` are written. */
  function Filled(m: seq<Byte>, a: int, p: Packet): (m': seq<Byte>)
    requires |m| > 0
    ensures |m'| == |m|
  {
    Store(Store(m, a + PACKET_HEADER, p.header), a + Body(p), p.data)
  }

  lemma FilledCell(m: seq<Byte>, a: int, p: Packet, x: int)
    requires 0 < |m| && Span(p) <= |m| && a + Span(p) - |m| <= x < a + |m|
    ensures At(Filled(m, a, p), x) ==
      if a + PACKET_HEADER <= x < a + PACKET_HEADER + |p.header| then p.header[x - a - PACKET_HEADER]
      else if a + Body(p) <= x < a + Body(p) + |p.data| then p.data[x - a - Body(p)]
      else At(m, x)
  {
    hide Mask, Align8;
    var h, d := a + PACKET_HEADER, a + Body(p);
    var m1 := Store(m, h, p.header);
    if d <= x < d + |p.data| {
      StoreCell(m1, d, p.data, x);
    } else {
      StoreElsewhere(m1, d, p.data, x);
      if h <= x < h + |p.header| {
        StoreCell(m, h, p.header, x);
      } else {
        StoreElsewhere(m, h, p.header, x);
      }
    }
  }

  /** Filling a frame's metadata and data areas makes it the frame of those bytes and
      touches no other frame of the lap. */
  lemma FillMakesFrame(m: seq<Byte>, a: int, p0: Packet, p: Packet)
    requires |m| > 0 && FrameAt(m, a, p0) && Span(p0) <= |m|
    requires |p.header| == |p0.header| && |p.data| == |p0.data|
    ensures FrameAt(Filled(m, a, p), a, p)
    ensures forall x :: a + Span(p) - |m| <= x < a + |m| && !(a <= x < a + Span(p))
                        ==> At(Filled(m, a, p), x) == At(m, x)
  {
    hide Mask, Align8, Filled, At;
    var m' := Filled(m, a, p);
    forall x | a + Span(p) - |m| <= x < a + |m| && !(a <= x < a + Span(p)) ensures At(m', x) == At(m, x) {
      FilledCell(m, a, p, x);
    }
    forall i | 0 <= i < |p.header| ensures At(m', a + PACKET_HEADER + i) == p.header[i] {
      FilledCell(m, a, p, a + PACKET_HEADER + i);
    }
    forall i | 0 <= i < |p.data| ensures At(m', a + Body(p) + i) == p.data[i] {
      FilledCell(m, a, p, a + Body(p) + i);
    }
    FilledCell(m, a, p, a);
    FilledCell(m, a, p, a + 1);
    FilledCell(m, a, p, a + 2);
    FilledCell(m, a, p, a + 3);
  }

  /** A byte string that is a run of frames of exactly the packets `ps`. */
  predicate Carries(b: seq<Byte>, ps: seq<Packet>) {
    if b == [] then ps == [] else Framed(b, 0, |b|, ps)
  }

  /** A wire stays a run of frames when a window of framed ring memory is sent. */
  lemma CarriesMore(wire: seq<Byte>, ps: seq<Packet>, m: seq<Byte>, a: int, len: nat, qs: seq<Packet>)
    requires |m| > 0 && Carries(wire, ps) && Framed(m, a, a + len, qs)
    ensures Carries(wire + Unroll(m, a, len), ps + qs)
  {
    hide FrameAt, Span, Unroll;
    var u := Unroll(m, a, len);
    FramedLength(m, a, a + len, qs);
    if len == 0 {
      assert wire + u == wire && qs == [] && ps + qs == ps;
    } else {
      hide Framed;
      SentPart(wire, m, a, len, qs);
      if wire == [] {
        assert ps + qs == qs;
      } else {
        KeptPart(wire, ps, u);
        FramedAppend(wire + u, 0, |wire|, |wire| + len, ps, qs);
      }
    }
  }

  lemma SentPart(wire: seq<Byte>, m: seq<Byte>, a: int, len: nat, qs: seq<Packet>)
    requires |m| > 0 && len > 0 && Framed(m, a, a + len, qs)
    ensures Framed(wire + Unroll(m, a, len), |wire|, |wire| + len, qs)
  {
    hide At, Unroll, Framed, Mask;
    var w := wire + Unroll(m, a, len);
    forall x | a <= x < a + len ensures At(w, x + (|wire| - a)) == At(m, x) {
      WireCell(wire, m, a, len, x);
    }
    FramedMoves(m, a, a + len, qs, w, |wire| - a);
  }

  lemma KeptPart(wire: seq<Byte>, ps: seq<Packet>, u: seq<Byte>)
    requires wire != [] && Framed(wire, 0, |wire|, ps)
    ensures Framed(wire + u, 0, |wire|, ps)
  {
    hide At, Framed, Mask;
    forall x | 0 <= x < |wire| ensures At(wire + u, x + 0) == At(wire, x) {
      LinearCell(wire, x);
      LinearCell(wire + u, x);
    }
    FramedMoves(wire, 0, |wire|, ps, wire + u, 0);
  }

  lemma LinearCell(b: seq<Byte>, x: nat)
    requires x < |b|
    ensures At(b, x) == b[x]
  {
    ModIs(x, |b|, 0, x);
  }

  lemma WireCell(wire: seq<Byte>, m: seq<Byte>, a: int, len: nat, x: int)
    requires |m| > 0 && a <= x < a + len
    ensures At(wire + Unroll(m, a, len), x + (|wire| - a)) == At(m, x)
  {
    var w := wire + Unroll(m, a, len);
    LinearCell(w, x + (|wire| - a));
    assert w[|wire| + (x - a)] == Unroll(m, a, len)[x - a];
  }

  /** End to end: if the bytes one side has taken off the wire are a prefix of the bytes
      the other side put on it, the packets are the same prefix; and all of them when
      all bytes were taken. */
  lemma WirePrefix(b: seq<Byte>, ps: seq<Packet>, wire: seq<Byte>, qs: seq<Packet>)
    requires Carries(b, ps) && Carries(wire, qs) && b <= wire
    ensures ps <= qs && (b == wire ==> ps == qs)
  {
    if b != [] {
      forall x | 0 <= x < |b| ensures At(wire, x + 0) == At(b, x) {
        LinearCell(b, x);
        LinearCell(wire, x);
      }
      FramedPrefix(b, 0, |b|, ps, wire, 0, |wire|, qs);
    }
  }

  // ----- packet descriptors -----

  /** What the library hands to its caller for a packet: pointers into the doubled
      mapping and lengths. */
  datatype Desc = Desc(header: nat, headerLen: nat, data: nat, dataLen: nat)

  /** The descriptor points at the metadata and data areas of packet `p` framed at `a`. */
  predicate Points(d: Desc, a: int, p: Packet, n: Pos) {
    && d.headerLen == |p.header| && d.dataLen == |p.data|
    && Mask(d.header, n) == Mask(a + PACKET_HEADER, n)
    && Mask(d.data, n) == Mask(a + Body(p), n)
  }

  /** The descriptors point at the frames of `ps` laid out from position `a`. */
  predicate PlacedAt(ds: seq<Desc>, a: int, ps: seq<Packet>, n: Pos)
    decreases |ps|
  {
    |ds| == |ps|
    && (ps != [] ==> Points(ds[0], a, ps[0], n) && PlacedAt(ds[1..], a + Span(ps[0]), ps[1..], n))
  }

  lemma {:induction false} PlacedSnoc(ds: seq<Desc>, a: int, ps: seq<Packet>, n: Pos, d: Desc, p: Packet)
    requires PlacedAt(ds, a, ps, n) && Points(d, a + Bytes(ps), p, n)
    ensures PlacedAt(ds + [d], a, ps + [p], n)
    decreases |ps|
  {
    hide Span, Points;
    if ps == [] {
      assert ds + [d] == [d] && ps + [p] == [p] && [p][1..] == [] && [d][1..] == [];
      assert PlacedAt([d][1..], a + Span(p), [p][1..], n);
    } else {
      assert (ds + [d])[1..] == ds[1..] + [d] && (ps + [p])[1..] == ps[1..] + [p];
      PlacedSnoc(ds[1..], a + Span(ps[0]), ps[1..], n, d, p);
    }
  }

  lemma PlacedFirst(ds: seq<Desc>, a: int, ps: seq<Packet>, n: Pos)
    requires PlacedAt(ds, a, ps, n) && ps != []
    ensures ds != [] && Points(ds[0], a, ps[0], n)
    ensures PlacedAt(ds[1..], a + Span(ps[0]), ps[1..], n)
  {
    hide Points, Span;
  }

  lemma PlacedSize(ds: seq<Desc>, a: int, ps: seq<Packet>, n: Pos)
    requires PlacedAt(ds, a, ps, n)
    ensures |ds| == |ps|
  {
  }

  lemma NonePlaced(a: int, n: Pos)
    ensures PlacedAt([], a, [], n) && Bytes([]) == 0
  {
  }

  /** The descriptor shows packet `p` in memory `m`. */
  predicate Shows(m: seq<Byte>, d: Desc, p: Packet)
    requires |m| > 0
  {
    Packet(Unroll(m, d.header, d.headerLen), Unroll(m, d.data, d.dataLen)) == p
  }

  predicate AllShow(m: seq<Byte>, ds: seq<Desc>, ps: seq<Packet>)
    requires |m| > 0
  {
    |ds| == |ps| && forall i :: 0 <= i < |ds| ==> Shows(m, ds[i], ps[i])
  }

  lemma FrameShows(m: seq<Byte>, a: int, p: Packet, d: Desc)
    requires |m| > 0 && FrameAt(m, a, p) && Points(d, a, p, |m|)
    ensures Shows(m, d, p)
  {
    hide Align8, Mask;
    UnrollCongruent(m, d.header, a + PACKET_HEADER, |p.header|);
    UnrollCongruent(m, d.data, a + Body(p), |p.data|);
    assert Unroll(m, a + PACKET_HEADER, |p.header|) == p.header;
    assert Unroll(m, a + Body(p), |p.data|) == p.data;
  }

  /** As long as the frames are in memory, the descriptors show the packets. */
  lemma {:induction false} PlacedShow(m: seq<Byte>, a: int, e: int, ps: seq<Packet>, ds: seq<Desc>)
    requires |m| > 0 && Framed(m, a, e, ps) && PlacedAt(ds, a, ps, |m|)
    ensures AllShow(m, ds, ps)
    decreases |ps|
  {
    hide FrameAt, Points, Shows, Span;
    if ps != [] {
      FrameShows(m, a, ps[0], ds[0]);
      PlacedShow(m, a + Span(ps[0]), e, ps[1..], ds[1..]);
      forall i | 0 <= i < |ds| ensures Shows(m, ds[i], ps[i]) {
        if i > 0 { assert ds[i] == ds[1..][i - 1] && ps[i] == ps[1..][i - 1]; }
      }
    }
  }
}
