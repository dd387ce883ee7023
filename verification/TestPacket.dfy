/** Self-checking test packets: one 32-bit block, made of a hash of the size and two
identifiers, repeated over the whole packet; optionally a timestamp in the first eight
bytes. */
module TestPacket {
  import opened Octets
  import opened Ring

  const WORD := 0x1_0000_0000
  const HALF := 0x1_0000

  type Word = w: int | 0 <= w < 0x1_0000_0000 witness 0

  type Time = t: int | 0 <= t < 0x1_0000_0000_0000_0000 witness 0

  datatype Packet = Packet(queueId: nat, size: nat, size32: nat, sizeHash: nat, burstId: nat, packetId: nat,
                           utime: Time, dataBlock: Word)

  function SizeHash(size: nat): (h: nat)
    ensures h < 0x100
  {
    (size % HALF / 0x100 + size % HALF) % 0x100
  }

  function Size32(size: nat): nat { (size % HALF + 3) / 4 }

  // ----- words and their bytes, lowest address first -----

  function ByteOf(w: Word, k: nat): (b: Byte)
    requires k < 4
  {
    match k
    case 0 => w % 0x100
    case 1 => w / 0x100 % 0x100
    case 2 => w / 0x1_0000 % 0x100
    case _ => w / 0x100_0000
  }

  lemma BytesMakeWord(w: Word)
    ensures w == ByteOf(w, 0) + 0x100 * ByteOf(w, 1) + 0x1_0000 * ByteOf(w, 2) + 0x100_0000 * ByteOf(w, 3)
  {
    LowThree(w);
    Divide(w, 0x100_0000);
  }

  lemma Divide(x: nat, n: Pos)
    ensures x == n * (x / n) + x % n
  {
  }

  /** Dividing on by 256. */
  lemma DivDiv(x: nat, a: Pos)
    ensures x / (0x100 * a) == x / a / 0x100
    ensures x % (0x100 * a) == x % a + a * (x / a % 0x100)
  {
    var q, d := x / a / 0x100, x / a % 0x100;
    Divide(x, a);
    Divide(x / a, 0x100);
    DigitBelow(x, a, q, d, x % a);
    ModIs(x, 0x100 * a, q, x % a + a * d);
  }

  lemma DigitBelow(x: nat, a: Pos, q: nat, d: Byte, r: nat)
    requires x == a * (0x100 * q + d) + r && r < a
    ensures x == q * (0x100 * a) + (r + a * d) && 0 <= r + a * d < 0x100 * a
  {
    assert a * d + a * (0xFF - d) == 0xFF * a;
    NotNegative(a, 0xFF - d);
    NotNegative(a, d);
  }

  lemma NotNegative(a: nat, b: nat)
    ensures a * b >= 0
  {
  }

  lemma LowTwo(v: Word)
    ensures v % 0x1_0000 == ByteOf(v, 0) + 0x100 * ByteOf(v, 1)
  {
    DivDiv(v, 0x100);
  }

  lemma LowThree(v: Word)
    ensures v % 0x100_0000 == ByteOf(v, 0) + 0x100 * ByteOf(v, 1) + 0x1_0000 * ByteOf(v, 2)
  {
    LowTwo(v);
    DivDiv(v, 0x1_0000);
  }

  lemma SameWord(v: Word, w: Word)
    ensures v == w <==> forall k: nat :: k < 4 ==> ByteOf(v, k) == ByteOf(w, k)
  {
    BytesMakeWord(v);
    BytesMakeWord(w);
    hide ByteOf;
  }

  /** Conversion between host and network order. */
  function Swap(w: Word): Word {
    ByteOf(w, 3) + 0x100 * ByteOf(w, 2) + 0x1_0000 * ByteOf(w, 1) + 0x100_0000 * ByteOf(w, 0)
  }

  lemma SwapBytes(w: Word)
    ensures ByteOf(Swap(w), 0) == ByteOf(w, 3) && ByteOf(Swap(w), 1) == ByteOf(w, 2)
    ensures ByteOf(Swap(w), 2) == ByteOf(w, 1) && ByteOf(Swap(w), 3) == ByteOf(w, 0)
  {
    SwapDigits(ByteOf(w, 3), ByteOf(w, 2), ByteOf(w, 1), ByteOf(w, 0));
  }

  lemma SwapDigits(a: Byte, b: Byte, c: Byte, d: Byte)
    ensures
      var w: Word := a + 0x100 * b + 0x1_0000 * c + 0x100_0000 * d;
      ByteOf(w, 0) == a && ByteOf(w, 1) == b && ByteOf(w, 2) == c && ByteOf(w, 3) == d
  {
    var w: Word := a + 0x100 * b + 0x1_0000 * c + 0x100_0000 * d;
    ModIs(w, 0x100, b + 0x100 * c + 0x1_0000 * d, a);
    ModIs(b + 0x100 * c + 0x1_0000 * d, 0x100, c + 0x100 * d, b);
    ModIs(w, 0x1_0000, c + 0x100 * d, a + 0x100 * b);
    ModIs(c + 0x100 * d, 0x100, d, c);
    ModIs(w, 0x100_0000, d, a + 0x100 * b + 0x1_0000 * c);
  }

  lemma SwapTwice(w: Word)
    ensures Swap(Swap(w)) == w
  {
    SwapBytes(w);
    hide ByteOf;
    BytesMakeWord(w);
  }

  /** The same for 64-bit words. */
  function Swap64(t: Time): Time {
    Swap(t / WORD) + WORD * Swap(t % WORD)
  }

  lemma Swap64Twice(t: Time)
    ensures Swap64(Swap64(t)) == t
  {
    hide Swap;
    var hi: Word, lo: Word := t / WORD, t % WORD;
    ModIs(Swap64(t), WORD, Swap(lo), Swap(hi));
    SwapTwice(hi);
    SwapTwice(lo);
    Divide(t, WORD);
  }

  /** Byte `k` of a 64-bit word, lowest address first. */
  function Byte8(t: Time, k: nat): (b: Byte)
    requires k < 8
  {
    if k < 4 then ByteOf(t % WORD, k) else ByteOf(t / WORD, k - 4)
  }

  /** Network order is the bytes the other way round. */
  lemma Swap64Reverses(t: Time, k: nat)
    requires k < 8
    ensures Byte8(Swap64(t), k) == Byte8(t, 7 - k)
  {
    hide Swap, ByteOf;
    var hi: Word, lo: Word := t / WORD, t % WORD;
    ModIs(Swap64(t), WORD, Swap(lo), Swap(hi));
    SwapBytes(hi);
    SwapBytes(lo);
  }

  /** The size hash adds the two bytes of the 16-bit size and drops the carry. */
  lemma SizeHashIs(size: nat)
    ensures SizeHash(size) == (size % 0x100 + size / 0x100 % 0x100) % 0x100
  {
    var low: nat, high: nat := size % 0x100, size / 0x100 % 0x100;
    DivDiv(size, 0x100);
    assert size % HALF == low + 0x100 * high;
    ModIs(low + 0x100 * high, 0x100, high, low);
    var sum := high + low;
    ModIs(high + (low + 0x100 * high), 0x100, high + sum / 0x100, sum % 0x100);
  }

  /** Bitwise OR of two naturals. */
  function BitOr(x: nat, y: nat): (z: nat)
    ensures x <= z <= x + y && y <= z
    decreases x + y
  {
    if x == 0 then y else if y == 0 then x
    else 2 * BitOr(x / 2, y / 2) + (if x % 2 == 1 || y % 2 == 1 then 1 else 0)
  }

  /** ORing a field into bits that were shifted clear adds it. */
  lemma {:induction false} OrIsPlus(x: nat, y: nat, k: nat)
    requires y < Pow2(k)
    ensures BitOr(x * Pow2(k), y) == x * Pow2(k) + y
    decreases k
  {
    if k > 0 && x > 0 && y > 0 {
      assert x * Pow2(k) == 2 * (x * Pow2(k - 1));
      OrIsPlus(x, y / 2, k - 1);
      MultipleSteps(Pow2(k), x);
    }
  }

  // ----- the block -----

  /** The block of a packet in network order: hash, burst and packet identifier. */
  function Block(sizeHash: nat, burstId: nat, packetId: nat): Word
    requires sizeHash < 0x100 && burstId < HALF && packetId < 0x100
  {
    sizeHash * 0x100_0000 + burstId * 0x100 + packetId
  }

  function Built(queueId: nat, size: nat, burstId: nat, packetId: nat, utime: Time): Packet
    requires burstId < HALF && packetId < 0x100
  {
    Packet(queueId, size, Size32(size), SizeHash(size), burstId, packetId, Swap64(utime),
           Swap(Block(SizeHash(size), burstId, packetId)))
  }

  /** Fill in a packet description; shifts and ORs build the block. */
  method Init(queueId: nat, size: nat, burstId: nat, packetId: nat, utime: Time) returns (sp: Packet)
    requires burstId < HALF && packetId < 0x100
    ensures sp == Built(queueId, size, burstId, packetId, utime)
  {
    hide Swap, Swap64, BitOr, SizeHash, Size32, Pow2;
    ghost var h := SizeHash(size);
    FieldsFit(h, burstId, packetId);
    var block := 0;
    block := BitOr(block, SizeHash(size));
    block := block * HALF % WORD;
    block := BitOr(block, burstId);
    block := block * 0x100 % WORD;
    block := BitOr(block, packetId);
    sp := Packet(queueId, size, Size32(size), SizeHash(size), burstId, packetId, Swap64(utime), Swap(block));
  }

  /** Shifting and ORing the fields together loses nothing. */
  lemma FieldsFit(h: nat, burstId: nat, packetId: nat)
    requires h < 0x100 && burstId < HALF && packetId < 0x100
    ensures BitOr(0, h) == h && h * HALF % WORD == h * HALF && BitOr(h * HALF, burstId) == h * HALF + burstId
    ensures (h * HALF + burstId) * 0x100 % WORD == (h * HALF + burstId) * 0x100
    ensures BitOr((h * HALF + burstId) * 0x100, packetId) == Block(h, burstId, packetId)
  {
    hide BitOr, Pow2;
    ZeroOr(h);
    SixteenBits();
    ModIs(h * HALF, WORD, 0, h * HALF);
    OrIsPlus(h, burstId, 16);
    ModIs((h * HALF + burstId) * 0x100, WORD, 0, (h * HALF + burstId) * 0x100);
    OrIsPlus(h * HALF + burstId, packetId, 8);
  }

  lemma ZeroOr(x: nat)
    ensures BitOr(0, x) == x
  {
  }

  lemma SixteenBits()
    ensures Pow2(8) == 0x100 && Pow2(16) == HALF
  {
    assert Pow2(4) == 16;
    assert Pow2(8) == 256;
    assert Pow2(12) == 4096;
  }

  /** What a receiver makes of a block. */
  function Rebuilt(block: Word, queueId: nat, size: nat, utime: Time): Packet {
    var c := Swap(block);
    Packet(queueId, size, Size32(size), c / 0x100_0000 % 0x100, c / 0x100 % HALF, c % 0x100, utime, block)
  }

  method Reconstruct(block: Word, queueId: nat, size: nat, utime: Time) returns (sp: Packet)
    ensures sp == Rebuilt(block, queueId, size, utime)
  {
    hide Swap;
    var conv := Swap(block);
    var packetId := conv % 0x100;
    conv := conv / 0x100;
    var burstId := conv % HALF;
    conv := conv / HALF;
    sp := Packet(queueId, size, Size32(size), conv % 0x100, burstId, packetId, utime, block);
  }

  /** Reconstruction from the block and the timestamp as sent undoes initialisation. */
  lemma RebuiltBuilt(queueId: nat, size: nat, burstId: nat, packetId: nat, utime: Time)
    requires burstId < HALF && packetId < 0x100
    ensures
      var sp := Built(queueId, size, burstId, packetId, utime);
      Rebuilt(sp.dataBlock, queueId, size, sp.utime) == sp && Swap64(sp.utime) == utime
  {
    Swap64Twice(utime);
    SwapTwice(Block(SizeHash(size), burstId, packetId));
    BlockFields(SizeHash(size), burstId, packetId);
    hide Swap, Swap64, SizeHash, Block;
  }

  lemma BlockFields(sizeHash: nat, burstId: nat, packetId: nat)
    requires sizeHash < 0x100 && burstId < HALF && packetId < 0x100
    ensures
      var c := Block(sizeHash, burstId, packetId);
      c / 0x100_0000 % 0x100 == sizeHash && c / 0x100 % HALF == burstId && c % 0x100 == packetId
  {
    var c := Block(sizeHash, burstId, packetId);
    ModIs(c, 0x100, sizeHash * HALF + burstId, packetId);
    ModIs(sizeHash * HALF + burstId, HALF, sizeHash, burstId);
    ModIs(c, 0x100_0000, sizeHash, burstId * 0x100 + packetId);
  }

  lemma BuiltRebuilt(block: Word, queueId: nat, size: nat, utime: Time)
    ensures
      var sp := Rebuilt(block, queueId, size, utime);
      sp.burstId < HALF && sp.packetId < 0x100
      && (sp.sizeHash == SizeHash(size) ==> Built(queueId, size, sp.burstId, sp.packetId, Swap64(utime)) == sp)
  {
    Swap64Twice(utime);
    SwapTwice(block);
    hide Swap, Swap64, SizeHash;
  }

  // ----- the data -----

  /** Byte `j` of a buffer of words. */
  function ByteAt(data: seq<Word>, j: nat): Byte
    requires j / 4 < |data|
  {
    ByteOf(data[j / 4], j % 4)
  }

  /** The bytes from `first` to `end` are those of the repeated block. */
  predicate Repeats(data: seq<Word>, first: nat, end: nat, block: Word)
    requires first < end ==> end <= 4 * |data|
  {
    forall j: nat :: first <= j < end ==> ByteAt(data, j) == ByteOf(block, j % 4)
  }

  /** The first byte looked at: a timestamp is skipped. */
  function FirstChecked(latency: bool): nat { if latency then 8 else 0 }

  /** The end of the bytes looked at.  For a packet too short for its timestamp the tail is
      looked for behind the timestamp. */
  function CheckedEnd(size: nat, latency: bool): nat {
    if latency && size < 8 then 8 + size % 4 else size
  }

  /** The check stays within the packet if and only if there is no timestamp, the packet
      holds it, or the packet has no unaligned tail. */
  lemma ChecksPacketIff(size: nat, latency: bool)
    ensures CheckedEnd(size, latency) <= size || FirstChecked(latency) == CheckedEnd(size, latency)
            <==> !latency || size >= 8 || size % 4 == 0
  {
  }

  predicate Accepts(sp: Packet, data: seq<Word>, latency: bool)
    requires FirstChecked(latency) < CheckedEnd(sp.size, latency) ==> CheckedEnd(sp.size, latency) <= 4 * |data|
  {
    && sp.size != 0 && sp.sizeHash == SizeHash(sp.size)
    && Repeats(data, FirstChecked(latency), CheckedEnd(sp.size, latency), sp.dataBlock)
  }

  /** Fill a buffer with the block and, with timestamps, the time. */
  method Generate(sp: Packet, data: array<Word>, latency: bool)
    requires sp.size32 <= data.Length && (latency ==> 2 <= data.Length)
    modifies data
    ensures forall k :: 0 <= k < sp.size32 && !(latency && k < 2) ==> data[k] == sp.dataBlock
    ensures latency ==> data[0] == sp.utime % WORD && data[1] == sp.utime / WORD
    ensures sp.size <= 4 * sp.size32 ==> Repeats(data[..], FirstChecked(latency), sp.size, sp.dataBlock)
    ensures forall k :: sp.size32 <= k < data.Length && !(latency && k < 2) ==> data[k] == old(data[k])
  {
    for i := 0 to sp.size32
      invariant forall k :: 0 <= k < i ==> data[k] == sp.dataBlock
      invariant forall k :: i <= k < data.Length ==> data[k] == old(data[k])
    {
      data[i] := sp.dataBlock;
    }
    if latency {
      data[0], data[1] := sp.utime % WORD, sp.utime / WORD;
    }
    hide Repeats;
    if sp.size <= 4 * sp.size32 { WholeRepeats(data[..], if latency then 2 else 0, sp.size32, sp.size, sp.dataBlock); }
  }

  lemma WholeRepeats(data: seq<Word>, from: nat, to: nat, end: nat, block: Word)
    requires to <= |data| && end <= 4 * to && forall k :: from <= k < to ==> data[k] == block
    ensures Repeats(data, 4 * from, end, block)
  {
    hide ByteOf;
    if from <= to { WordsRepeat(data, from, to, block); }
  }

  /** The tail comparison: shifting out the `4 - k` highest bytes compares the `k` lowest. */
  lemma TailCompare(v: Word, w: Word, k: nat)
    requires 1 <= k < 4
    ensures
      var shift := if k == 3 then 0x100 else if k == 2 then 0x1_0000 else 0x100_0000;
      v * shift % WORD == w * shift % WORD <==> forall i: nat :: i < k ==> ByteOf(v, i) == ByteOf(w, i)
  {
    hide ByteOf;
    if k == 1 {
      LowBytes(v, w, 0x100, 0x100_0000);
      SameOne(v, w);
    } else if k == 2 {
      LowBytes(v, w, 0x1_0000, 0x1_0000);
      SameTwo(v, w);
      assert (forall i: nat :: i < k ==> ByteOf(v, i) == ByteOf(w, i)) ==> ByteOf(v, 1) == ByteOf(w, 1) && ByteOf(v, 0) == ByteOf(w, 0);
    } else {
      LowBytes(v, w, 0x100_0000, 0x100);
      SameThree(v, w);
      assert (forall i: nat :: i < k ==> ByteOf(v, i) == ByteOf(w, i)) ==>
          ByteOf(v, 2) == ByteOf(w, 2) && ByteOf(v, 1) == ByteOf(w, 1) && ByteOf(v, 0) == ByteOf(w, 0);
    }
  }

  lemma SameOne(v: Word, w: Word)
    ensures v % 0x100 == w % 0x100 <==> ByteOf(v, 0) == ByteOf(w, 0)
  {
  }

  lemma SameTwo(v: Word, w: Word)
    ensures v % 0x1_0000 == w % 0x1_0000 <==> ByteOf(v, 0) == ByteOf(w, 0) && ByteOf(v, 1) == ByteOf(w, 1)
  {
    hide ByteOf;
    LowTwo(v);
    LowTwo(w);
  }

  lemma SameThree(v: Word, w: Word)
    ensures v % 0x100_0000 == w % 0x100_0000
            <==> ByteOf(v, 0) == ByteOf(w, 0) && ByteOf(v, 1) == ByteOf(w, 1) && ByteOf(v, 2) == ByteOf(w, 2)
  {
    hide ByteOf;
    LowThree(v);
    LowThree(w);
  }

  lemma LowBytes(v: Word, w: Word, low: Pos, shift: Pos)
    requires low * shift == WORD
    ensures v * shift % WORD == w * shift % WORD <==> v % low == w % low
  {
    ShiftOut(v, low, shift);
    ShiftOut(w, low, shift);
    if v % low != w % low {
      assert (v % low - w % low) * shift == v % low * shift - w % low * shift;
      MultipleSteps(shift, v % low - w % low);
    }
  }

  lemma ShiftOut(v: Word, low: Pos, shift: Pos)
    requires low * shift == WORD
    ensures v * shift % WORD == v % low * shift
  {
    var q, r := v / low, v % low;
    assert v == low * q + r;
    assert (low * q + r) * shift == q * (low * shift) + r * shift;
    assert (low - r) * shift == low * shift - r * shift;
    MultipleSteps(shift, low - r);
    ModIs(v * shift, WORD, q, r * shift);
  }

  /** The check returns 0 exactly when the size hash fits the size and every byte looked
      at, the unaligned tail included, is that of the repeated block. */
  method Check(sp: Packet, data: array<Word>, latency: bool) returns (ret: int)
    requires sp.size < HALF && sp.size32 == Size32(sp.size)
    requires Size32(sp.size) <= data.Length && (latency && sp.size < 8 && sp.size % 4 != 0 ==> 3 <= data.Length)
    ensures ret == 0 || ret == -1
    ensures ret == 0 <==> Accepts(sp, data[..], latency)
  {
    hide ByteOf, Repeats, Size32, SizeHash;
    var size32Down := sp.size / 4;
    var invalid := sp.size32 * 4 - sp.size;
    if sp.size == 0 || sp.sizeHash != SizeHash(sp.size) {
      return -1;
    }
    var first := if latency then 2 else 0;
    var i := if first < size32Down then size32Down else first;
    Sizes(sp.size);
    hide CheckedEnd;
    EndIs(sp.size, latency, i, invalid);
    var same := CheckWords(data, first, size32Down, sp.dataBlock, CheckedEnd(sp.size, latency));
    if !same {
      return -1;
    }
    if invalid != 0 {
      same := CheckTail(data, i, invalid, sp.dataBlock, 4 * first);
      if !same {
        return -1;
      }
    }
    return 0;
  }

  lemma Sizes(size: nat)
    requires size < HALF
    ensures 0 <= Size32(size) * 4 - size < 4 && (size / 4 < Size32(size) || size % 4 == 0)
    ensures Size32(size) * 4 - size == if size % 4 == 0 then 0 else 4 - size % 4
  {
  }

  lemma EndIs(size: nat, latency: bool, i: nat, invalid: nat)
    requires invalid == (if size % 4 == 0 then 0 else 4 - size % 4)
    requires i == if latency && size / 4 <= 2 then 2 else size / 4
    ensures CheckedEnd(size, latency) == if invalid == 0 then 4 * i else 4 * i + 4 - invalid
    ensures size / 4 <= i
  {
  }

  /** Compare whole words. */
  method CheckWords(data: array<Word>, first: nat, end: nat, block: Word, ghost checked: nat) returns (same: bool)
    requires end <= data.Length && (4 * first < checked ==> checked <= 4 * data.Length)
    requires first < end ==> 4 * end <= checked
    ensures same ==> Repeats(data[..], 4 * first, 4 * (if first < end then end else first), block)
    ensures !same ==> !Repeats(data[..], 4 * first, checked, block)
  {
    hide ByteOf, Repeats;
    var i := first;
    while i < end
      invariant first <= i && (i <= end || i == first)
      invariant forall k :: first <= k < i ==> data[k] == block
    {
      if data[i] != block {
        Differs(data[..], 4 * first, checked, block, i);
        return false;
      }
      i := i + 1;
    }
    WordsRepeat(data[..], first, i, block);
    return true;
  }

  /** Compare the bytes of the last, incomplete word by shifting the others out. */
  method CheckTail(data: array<Word>, i: nat, invalid: nat, block: Word, ghost first: nat) returns (same: bool)
    requires i < data.Length && 1 <= invalid < 4 && first <= 4 * i && Repeats(data[..], first, 4 * i, block)
    ensures same <==> Repeats(data[..], first, 4 * i + 4 - invalid, block)
  {
    hide ByteOf, Repeats;
    var shift := if invalid == 1 then 0x100 else if invalid == 2 then 0x1_0000 else 0x100_0000;
    TailCompare(data[i], block, 4 - invalid);
    TailRepeats(data[..], first, 4 * i, 4 - invalid, block);
    same := data[i] * shift % WORD == block * shift % WORD;
  }

  /** A word that differs has a byte that differs. */
  lemma Differs(data: seq<Word>, first: nat, end: nat, block: Word, i: nat)
    requires end <= 4 * |data| && first <= 4 * i && 4 * i + 4 <= end && data[i] != block
    ensures !Repeats(data, first, end, block)
  {
    SameWord(data[i], block);
    var k: nat :| k < 4 && ByteOf(data[i], k) != ByteOf(block, k);
    hide ByteOf;
    assert (4 * i + k) / 4 == i && (4 * i + k) % 4 == k;
    assert ByteAt(data, 4 * i + k) != ByteOf(block, (4 * i + k) % 4);
  }

  /** Equal words have equal bytes. */
  lemma WordsRepeat(data: seq<Word>, from: nat, to: nat, block: Word)
    requires from <= to && (from < to ==> to <= |data|) && forall k :: from <= k < to ==> data[k] == block
    ensures Repeats(data, 4 * from, 4 * to, block)
  {
    hide ByteOf;
    forall j: nat | 4 * from <= j < 4 * to ensures ByteAt(data, j) == ByteOf(block, j % 4) {
      assert from <= j / 4 < to;
    }
  }

  /** The bytes of a partial word decide whether the repetition goes on. */
  lemma TailRepeats(data: seq<Word>, first: nat, end: nat, k: nat, block: Word)
    requires first <= end && end % 4 == 0 && end / 4 < |data| && 1 <= k < 4 && Repeats(data, first, end, block)
    ensures Repeats(data, first, end + k, block) <==> forall i: nat :: i < k ==> ByteOf(data[end / 4], i) == ByteOf(block, i)
  {
    hide ByteOf;
    forall i: nat | i < k ensures (end + i) / 4 == end / 4 && (end + i) % 4 == i && ByteAt(data, end + i) == ByteOf(data[end / 4], i) { }
    if forall i: nat :: i < k ==> ByteOf(data[end / 4], i) == ByteOf(block, i) {
      forall j: nat | first <= j < end + k ensures ByteAt(data, j) == ByteOf(block, j % 4) {
        if j >= end { assert j == end + (j - end); }
      }
    }
    if Repeats(data, first, end + k, block) {
      forall i: nat | i < k ensures ByteOf(data[end / 4], i) == ByteOf(block, i) {
        assert ByteAt(data, end + i) == ByteOf(block, (end + i) % 4);
      }
    }
  }

  // ----- sender and receiver together -----

  /** A received packet, described from its own third word, is accepted if and only if its
      bytes are those of a packet generated for its size with some pair of identifiers. */
  lemma AcceptedIffGenerated(rx: seq<Word>, size: nat, queueId: nat, utime: Time, latency: bool)
    requires 12 <= size < HALF && size <= 4 * |rx|
    ensures Accepts(Rebuilt(rx[2], queueId, size, utime), rx, latency)
            <==> exists burstId: nat, packetId: nat :: IsGenerated(rx, size, latency, burstId, packetId)
  {
    hide SizeHash, Swap, Swap64, Repeats, Rebuilt, Built;
    var sp := Rebuilt(rx[2], queueId, size, utime);
    RebuiltIs(rx[2], queueId, size, utime);
    if Accepts(sp, rx, latency) {
      BuiltRebuilt(rx[2], queueId, size, utime);
      BuiltIs(queueId, size, sp.burstId, sp.packetId, Swap64(utime));
      assert IsGenerated(rx, size, latency, sp.burstId, sp.packetId);
    }
    forall burstId: nat, packetId: nat | IsGenerated(rx, size, latency, burstId, packetId)
      ensures Accepts(sp, rx, latency)
    {
      Swap64Twice(utime);
      BuiltIs(queueId, size, burstId, packetId, Swap64(utime));
      ThirdWord(rx, FirstChecked(latency), size, Swap(Block(SizeHash(size), burstId, packetId)));
      RebuiltBuilt(queueId, size, burstId, packetId, Swap64(utime));
    }
  }

  /** The packet's bytes, its timestamp aside, are those generated for the identifiers. */
  predicate IsGenerated(rx: seq<Word>, size: nat, latency: bool, burstId: nat, packetId: nat)
    requires size <= 4 * |rx|
  {
    burstId < HALF && packetId < 0x100
    && Repeats(rx, FirstChecked(latency), size, Swap(Block(SizeHash(size), burstId, packetId)))
  }

  lemma RebuiltIs(block: Word, queueId: nat, size: nat, utime: Time)
    ensures Rebuilt(block, queueId, size, utime).size == size && Rebuilt(block, queueId, size, utime).dataBlock == block
  {
  }

  lemma BuiltIs(queueId: nat, size: nat, burstId: nat, packetId: nat, utime: Time)
    requires burstId < HALF && packetId < 0x100
    ensures Built(queueId, size, burstId, packetId, utime).dataBlock == Swap(Block(SizeHash(size), burstId, packetId))
    ensures Built(queueId, size, burstId, packetId, utime).sizeHash == SizeHash(size)
    ensures Built(queueId, size, burstId, packetId, utime).size == size
    ensures Built(queueId, size, burstId, packetId, utime).utime == Swap64(utime)
  {
  }

  lemma ThirdWord(rx: seq<Word>, first: nat, size: nat, block: Word)
    requires first <= 8 && 12 <= size <= 4 * |rx| && Repeats(rx, first, size, block)
    ensures rx[2] == block
  {
    SameWord(rx[2], block);
    hide ByteOf;
    forall k: nat | k < 4 ensures ByteOf(rx[2], k) == ByteOf(block, k) {
      assert (8 + k) / 4 == 2 && (8 + k) % 4 == k;
      assert ByteAt(rx, 8 + k) == ByteOf(block, (8 + k) % 4);
    }
  }
}
