/** Framing of a raw binary bitstream for the configuration flash: a fixed header, then
blocks of up to 4096 bytes each behind a four-byte block header. */
module Rbf {
  import opened Octets
  import opened Ring

  const START := 0x20000
  const BLOCK := 0x1000
  const BLOCK_FLAGS := 0x0401
  const HEADER_FLAGS := 0xFF05

  // ----- reading the image back -----

  datatype Option<T> = None | Some(value: T)

  /** Follow the block headers from `i` to `e`, collecting what they frame. */
  function Unframe(d: seq<Byte>, i: nat, e: nat): Option<seq<Byte>>
    requires e <= |d|
    decreases e - i
  {
    if i == e then Some([])
    else if i + 4 > e || Word16(d, i) != BLOCK_FLAGS then None
    else
      var next := i + 4 + Word16(d, i + 2);
      if next == i + 4 || next > e then None
      else
        match Unframe(d, next, e)
        case None => None
        case Some(rest) => Some(d[i + 4..next] + rest)
  }

  // ----- what the framer builds -----

  function Head(file: seq<Byte>): nat { Min(BLOCK, |file|) }

  /** From `i` to `e` the image holds `file` in full blocks and a last one, every block
      header at an even address. */
  predicate Framed(d: seq<Byte>, i: nat, e: nat, file: seq<Byte>)
    requires e <= |d|
    decreases |file|
  {
    if file == [] then i == e
    else
      var b := Head(file);
      && i % 2 == 0 && i + 4 + b <= e
      && Word16(d, i) == BLOCK_FLAGS && Word16(d, i + 2) == b && d[i + 4..i + 4 + b] == file[..b]
      && Framed(d, i + 4 + b, e, file[b..])
  }

  /** Walking the headers recovers the file exactly. */
  lemma {:induction false} FramedUnframes(d: seq<Byte>, i: nat, e: nat, file: seq<Byte>)
    requires e <= |d| && Framed(d, i, e, file)
    ensures i <= e && Unframe(d, i, e) == Some(file)
    decreases |file|
  {
    hide Word16;
    if file != [] {
      var b := Head(file);
      FramedUnframes(d, i + 4 + b, e, file[b..]);
      assert file == file[..b] + file[b..];
    }
  }

  /** Image bytes from `i` to `e` decide the framing. */
  lemma {:induction false} FramedKept(d: seq<Byte>, d': seq<Byte>, i: nat, e: nat, file: seq<Byte>)
    requires e <= |d| && e <= |d'| && Framed(d, i, e, file)
    requires forall j :: i <= j < e ==> d[j] == d'[j]
    ensures Framed(d', i, e, file)
    decreases |file|
  {
    if file != [] {
      var b := Head(file);
      assert Word16(d', i) == Word16(d, i) && Word16(d', i + 2) == Word16(d, i + 2);
      assert d'[i + 4..i + 4 + b] == d[i + 4..i + 4 + b];
      FramedKept(d, d', i + 4 + b, e, file[b..]);
    }
  }

  /** A block may follow whole blocks. */
  lemma {:induction false} FramedSnoc(d: seq<Byte>, i: nat, e: nat, file: seq<Byte>, b: seq<Byte>)
    requires e + 4 + |b| <= |d| && Framed(d, i, e, file) && |file| % BLOCK == 0 && 0 < |b| <= BLOCK && i % 2 == 0
    requires Word16(d, e) == BLOCK_FLAGS && Word16(d, e + 2) == |b| && d[e + 4..e + 4 + |b|] == b
    ensures Framed(d, i, e + 4 + |b|, file + b)
    decreases |file|
  {
    hide Word16;
    if file == [] {
      assert file + b == b;
      FramedLast(d, e, b);
    } else {
      FullHead(file, b);
      FramedSnoc(d, i + 4 + BLOCK, e, file[BLOCK..], b);
    }
  }

  lemma FramedLast(d: seq<Byte>, e: nat, b: seq<Byte>)
    requires e + 4 + |b| <= |d| && 0 < |b| <= BLOCK && e % 2 == 0
    requires Word16(d, e) == BLOCK_FLAGS && Word16(d, e + 2) == |b| && d[e + 4..e + 4 + |b|] == b
    ensures Framed(d, e, e + 4 + |b|, b)
  {
    hide Word16;
    assert b[..|b|] == b && b[|b|..] == [];
  }

  lemma FullHead(file: seq<Byte>, b: seq<Byte>)
    requires file != [] && |file| % BLOCK == 0
    ensures Head(file) == BLOCK == Head(file + b) && |file| >= BLOCK && |file[BLOCK..]| % BLOCK == 0
    ensures (file + b)[..BLOCK] == file[..BLOCK] && (file + b)[BLOCK..] == file[BLOCK..] + b
  {
    ModShift(|file|, 0 - 1, BLOCK);
  }

  // ----- the framer -----

  /** The allocated image size. */
  function SizeTotal(sizeFile: nat): (s: nat)
    ensures Used(sizeFile) < s <= Used(sizeFile) + BLOCK
    ensures s % BLOCK == 0
  {
    var used := Used(sizeFile);
    used + (BLOCK - used % BLOCK)
  }

  /** The part of the image in use. */
  function Used(sizeFile: nat): (u: nat)
    ensures u >= START
  {
    START + sizeFile + 4 * ((sizeFile + BLOCK - 1) / BLOCK)
  }

  /** One block: its header and `readen` bytes. */
  method WriteBlock(data: array<Byte>, i: nat, block: seq<Byte>, ghost file: seq<Byte>)
    requires START <= i && i + 4 + |block| <= data.Length && 0 < |block| <= BLOCK
    requires Framed(data[..], START, i, file) && |file| % BLOCK == 0
    modifies data
    ensures Framed(data[..], START, i + 4 + |block|, file + block)
    ensures data[..START] == old(data[..START])
  {
    hide Word16, Framed;
    ghost var d := data[..];
    Put16(data, i, BLOCK_FLAGS);
    ghost var d1 := data[..];
    Put16(data, i + 2, |block|);
    ghost var d2 := data[..];
    Copy(data, i + 4, block);
    SameWord(d1, data[..], i);
    SameWord(d2, data[..], i + 2);
    FramedKept(d, data[..], START, i, file);
    FramedSnoc(data[..], START, i, file, block);
  }

  lemma SameWord(d: seq<Byte>, d': seq<Byte>, i: nat)
    requires i + 2 <= |d| && i + 2 <= |d'| && d[i] == d'[i] && d[i + 1] == d'[i + 1]
    ensures Word16(d, i) == Word16(d', i)
  {
  }

  /** The fixed header: the image's start and end in four-byte words. */
  predicate Headed(d: seq<Byte>, sizeTotal: nat)
    requires |d| >= START
  {
    && Word32(d, 0) == START / 4 && Word32(d, 4) == sizeTotal / 4 % 0x1_0000_0000
    && Word16(d, 128) == HEADER_FLAGS
    && forall j :: 8 <= j < START && j != 128 && j != 129 ==> d[j] == 0xFF
  }

  method WriteHeader(data: array<Byte>, sizeTotal: nat)
    requires data.Length >= START
    modifies data
    ensures Headed(data[..], sizeTotal)
  {
    Fill(data, 0, START, 0xFF);
    Put16(data, 0, START / 4);
    Put16(data, 2, START / 4 / 0x1_0000);
    Put16(data, 4, sizeTotal / 4);
    Put16(data, 6, sizeTotal / 4 / 0x1_0000);
    Put16(data, 128, HEADER_FLAGS);
    assert Word16(data[..], 0) == START / 4 % 0x1_0000 && Word16(data[..], 2) == START / 4 / 0x1_0000 % 0x1_0000;
    Halves(sizeTotal / 4);
  }

  lemma Halves(x: nat)
    ensures x % 0x1_0000 + 0x1_0000 * (x / 0x1_0000 % 0x1_0000) == x % 0x1_0000_0000
  {
  }

  /** Frame a file of `sizeFile` bytes whose reads deliver `content`.  It fails only when
      a read comes up short; otherwise the image is within the allocation and following
      its block headers gives the file back. */
  method OpenRbf(sizeFile: nat, content: seq<Byte>) returns (ok: bool, data: array<Byte>, len: nat)
    ensures ok <==> sizeFile <= |content|
    ensures ok ==> START <= len == Used(sizeFile) < data.Length == SizeTotal(sizeFile)
    ensures ok ==> Headed(data[..], data.Length)
    ensures ok ==> Framed(data[..], START, len, content[..sizeFile])
    ensures ok ==> Unframe(data[..], START, len) == Some(content[..sizeFile])
    ensures ok ==> forall j :: len <= j < data.Length ==> data[j] == 0xFF
    ensures ok ==> len == 0x20000 + sizeFile + 4 * ((sizeFile + 4095) / 4096) < data.Length <= len + 4096 && data.Length % 4096 == 0
    ensures ok ==> Word32(data[..], 0) == 0x8000 && Word32(data[..], 4) == data.Length / 4 % 0x1_0000_0000 && Word16(data[..], 128) == 0xFF05
    ensures ok && sizeFile > 0 ==> Word16(data[..], 0x20000) == 0x0401 && Word16(data[..], 0x20002) == Min(4096, sizeFile)
  {
    hide Word16, Word32, Framed, Unframe, Headed, Used;
    var sizeTotal := SizeTotal(sizeFile);
    data := new Byte[sizeTotal];
    WriteHeader(data, sizeTotal);
    ghost var head := data[..];
    var i, offset, blockSize := START, 0, BLOCK;
    NothingFramed(data[..], content[..0]);
    while offset < sizeFile
      invariant offset <= sizeFile && offset <= |content| && (offset % BLOCK == 0 || offset == sizeFile)
      invariant offset < sizeFile ==> blockSize == BLOCK
      invariant i == Used(offset) <= Used(sizeFile) && Framed(data[..], START, i, content[..offset])
      invariant fresh(data) && data.Length == sizeTotal && data[..START] == head[..START]
    {
      if blockSize > sizeFile - offset {
        blockSize := sizeFile - offset;
      }
      NextBlock(offset, blockSize, sizeFile);
      if offset + blockSize > |content| {
        return false, data, 0;
      }
      var block := content[offset..offset + blockSize];
      WriteBlock(data, i, block, content[..offset]);
      assert content[..offset] + block == content[..offset + blockSize];
      offset, i := offset + blockSize, i + 4 + blockSize;
    }
    ghost var d := data[..];
    Fill(data, i, sizeTotal, 0xFF);
    FramedKept(d, data[..], START, i, content[..sizeFile]);
    FramedUnframes(data[..], START, i, content[..sizeFile]);
    HeadedKept(head, data[..], sizeTotal);
    Image(data[..], sizeFile, i, content[..sizeFile]);
    return true, data, i;
  }

  /** The constants of the format. */
  lemma Image(d: seq<Byte>, sizeFile: nat, e: nat, file: seq<Byte>)
    requires START <= e == Used(sizeFile) < |d| == SizeTotal(sizeFile) && |file| == sizeFile
    requires Headed(d, |d|) && Framed(d, START, e, file)
    ensures e == 0x20000 + sizeFile + 4 * ((sizeFile + 4095) / 4096) < |d| <= e + 4096 && |d| % 4096 == 0
    ensures Word32(d, 0) == 0x8000 && Word32(d, 4) == |d| / 4 % 0x1_0000_0000 && Word16(d, 128) == 0xFF05
    ensures sizeFile > 0 ==> Word16(d, 0x20000) == 0x0401 && Word16(d, 0x20002) == Min(4096, sizeFile)
  {
    hide Word16, Word32;
  }

  lemma NothingFramed(d: seq<Byte>, none: seq<Byte>)
    requires |d| >= START && none == []
    ensures Framed(d, START, START, none) && Used(0) == START
  {
  }

  lemma HeadedKept(d: seq<Byte>, d': seq<Byte>, sizeTotal: nat)
    requires |d| >= START && |d'| >= START && Headed(d, sizeTotal) && d[..START] == d'[..START]
    ensures Headed(d', sizeTotal)
  {
    forall j | 0 <= j < START ensures d[j] == d'[j] { assert d[..START][j] == d'[..START][j]; }
  }

  lemma NextBlock(offset: nat, blockSize: nat, sizeFile: nat)
    requires offset % BLOCK == 0 && offset < sizeFile && blockSize == Min(BLOCK, sizeFile - offset)
    ensures Used(offset + blockSize) == Used(offset) + 4 + blockSize <= Used(sizeFile)
    ensures (offset + blockSize) % BLOCK == 0 || offset + blockSize == sizeFile
  {
  }
}
