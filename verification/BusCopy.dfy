/** Copying to a device over its bus in accesses of fixed widths. */
module BusCopy {
  import opened Octets
  import opened Ring

  /** One access: `size` bytes from source index `from` to bus offset `to`; a strict side
      faults unless its address is a multiple of the size. */
  datatype Access = Access(to: nat, from: nat, size: Pos, strictTo: bool, strictFrom: bool)

  /** The accesses move `len` bytes in order, each byte once and nothing else. */
  predicate Covers(log: seq<Access>, at: nat, from: nat, len: nat) {
    if log == [] then len == 0
    else
      var a := log[|log| - 1];
      a.size <= len && a.to == at + len - a.size && a.from == from + len - a.size
      && Covers(log[..|log| - 1], at, from, len - a.size)
  }

  lemma CoversSnoc(log: seq<Access>, at: nat, from: nat, len: nat, a: Access)
    requires Covers(log, at, from, len) && a.to == at + len && a.from == from + len
    ensures Covers(log + [a], at, from, len + a.size)
  {
    assert (log + [a])[..|log|] == log;
  }

  predicate Aligned(a: Access) { Mask(a.to, a.size) == 0 }

  predicate AllAligned(log: seq<Access>) { forall i :: 0 <= i < |log| ==> Aligned(log[i]) }

  lemma AlignedSnoc(log: seq<Access>, a: Access)
    ensures AllAligned(log + [a]) <==> AllAligned(log) && Mask(a.to, a.size) == 0
  {
    assert (log + [a])[|log|] == a;
    forall i | 0 <= i < |log| ensures (log + [a])[i] == log[i] { }
  }

  lemma NoneAligned()
    ensures AllAligned([])
  {
  }

  /** Accesses of up to eight bytes are aligned, wider ones at least to eight. */
  predicate AllSettled(log: seq<Access>) {
    forall i :: 0 <= i < |log| ==> Mask(log[i].to, Unit(log[i].size)) == 0
  }

  function Unit(size: Pos): Pos { if size < 8 then size else 8 }

  lemma SettledSnoc(log: seq<Access>, a: Access)
    ensures AllSettled(log + [a]) <==> AllSettled(log) && Mask(a.to, Unit(a.size)) == 0
  {
    assert (log + [a])[|log|] == a;
    forall i | 0 <= i < |log| ensures (log + [a])[i] == log[i] { }
  }

  lemma NoneSettled()
    ensures AllSettled([])
  {
  }

  lemma UnitKept(x: nat, y: nat, size: Pos)
    requires Mask(x, size) == Mask(y, size) && (size == 8 || size == 16 || size == 32)
    ensures Mask(x, Unit(size)) == Mask(y, Unit(size))
  {
    if size > 8 {
      ModOfMod(x, size / 8, 8);
      ModOfMod(y, size / 8, 8);
    }
  }

  /** Bus contents after `s` is copied to offset `at`. */
  function Copied(bus: seq<Byte>, at: nat, s: seq<Byte>): seq<Byte>
    requires at + |s| <= |bus|
  {
    bus[..at] + s + bus[at + |s|..]
  }

  lemma CopiedMore(b: seq<Byte>, b': seq<Byte>, bus: seq<Byte>, at: nat, s: seq<Byte>, t: seq<Byte>)
    requires at + |s| + |t| <= |bus| == |b| == |b'| && b == Copied(bus, at, s)
    requires b'[at + |s|..at + |s| + |t|] == t
    requires forall j :: 0 <= j < |b| && !(at + |s| <= j < at + |s| + |t|) ==> b'[j] == b[j]
    ensures b' == Copied(bus, at, s + t)
  {
    var e := at + |s|;
    assert b' == b'[..at] + b'[at..e] + b'[e..e + |t|] + b'[e + |t|..];
    assert b'[..at] == bus[..at] && b'[at..e] == s && b'[e + |t|..] == bus[e + |t|..];
  }

  /** The offset is a multiple of `size` unless fewer than `least` bytes remain. */
  predicate At(to: nat, size: Pos, nbyte: nat, least: nat) { Mask(to, size) == 0 || nbyte < least }

  /** The widths of the prelude bring the offset to a multiple of eight unless the bytes
      run out first. */
  predicate Settled(to: nat, nbyte: nat) {
    At(to, 2, nbyte, 1) && At(to, 4, nbyte, 2) && At(to, 8, nbyte, 4)
  }

  lemma MaskIs(x: nat, size: Pos)
    ensures Mask(x, size) == x % size && Mask(x, 1) == 0
  {
  }

  lemma Doubles(x: nat, size: Pos)
    ensures Mask(x, 2 * size) == 0 <==> Mask(x, size) == 0 && x / size % 2 == 0
    ensures Mask(x, size) == 0 && x / size % 2 != 0 ==> Mask(x + size, 2 * size) == 0
  {
    var q := x / size;
    DoubleMod(x, size, q, x % size, q / 2, q % 2);
    if x % size == 0 && q % 2 == 1 {
      assert size * (q + 1) == size * q + size;
      DoubleMod(x + size, size, q + 1, 0, (q + 1) / 2, 0);
    }
  }

  lemma DoubleMod(x: nat, size: Pos, q: nat, r: nat, p: nat, b: nat)
    requires x == size * q + r && r < size && q == 2 * p + b && b < 2
    ensures x % (2 * size) == if b == 0 then r else size + r
  {
    assert size * (2 * p) == p * (2 * size);
    assert b == 1 ==> size * (2 * p + 1) == size * (2 * p) + size;
    ModIs(x, 2 * size, p, if b == 0 then r else size + r);
  }

  lemma Coarser(x: nat, y: nat)
    requires Mask(x, 32) == Mask(y, 32)
    ensures Mask(x, 16) == Mask(y, 16)
  {
    ModOfMod(x, 2, 16);
    ModOfMod(y, 2, 16);
  }

  /** Steps of an even width keep lower alignments. */
  lemma Keeps(x: nat)
    ensures Mask(x + 2, 2) == Mask(x, 2) && Mask(x + 4, 2) == Mask(x, 2) && Mask(x + 4, 4) == Mask(x, 4)
    ensures Mask(x, 4) == 0 ==> Mask(x, 2) == 0
    ensures Mask(x, 8) == 0 ==> Mask(x, 4) == 0
  {
    hide Mask;
    OneLap(x, 2);
    OneLap(x + 2, 2);
    OneLap(x, 4);
    Doubles(x, 2);
    Doubles(x, 4);
  }

  class Transfer {
    const bus: array<Byte>
    const src: seq<Byte>
    /** Addresses of the two memories. */
    const busBase: nat
    const srcBase: nat
    /** The request. */
    const at: nat
    const from: nat
    const n: nat
    ghost const before: seq<Byte>
    /** The pointers and the count the steps work on. */
    var dst: nat
    var cur: nat
    var nbyte: nat
    var log: seq<Access>
    ghost var moved: nat

    ghost predicate Valid()
      reads this, bus
    {
      && at + n <= bus.Length == |before| && from + n <= |src| && moved <= n
      && bus[..] == Copied(before, at, src[from..from + moved])
      && Covers(log, at, from, moved)
      && forall i :: 0 <= i < |log| ==> Legal(log[i])
    }

    predicate Legal(a: Access) {
      && (a.strictTo ==> Mask(busBase + a.to, a.size) == 0)
      && (a.strictFrom ==> Mask(srcBase + a.from, a.size) == 0)
    }

    /** Not everything is moved and the pointers stand behind what is. */
    ghost predicate Going()
      reads this, bus
    {
      Valid() && moved + nbyte == n && dst == at + moved && cur == from + moved
    }

    ghost predicate Done()
      reads this, bus
    {
      Valid() && moved == n
    }

    constructor (bus: array<Byte>, src: seq<Byte>, busBase: nat, srcBase: nat, at: nat, from: nat, n: nat)
      requires at + n <= bus.Length && from + n <= |src|
      ensures Going() && nbyte == n && log == [] && this.bus == bus && this.src == src && before == bus[..]
      ensures this.at == at && this.from == from && this.n == n && this.busBase == busBase && this.srcBase == srcBase
    {
      this.bus, this.src, this.busBase, this.srcBase, this.at, this.from, this.n := bus, src, busBase, srcBase, at, from, n;
      before := bus[..];
      dst, cur, nbyte, log, moved := at, from, n, [], 0;
      new;
      assert bus[..] == Copied(before, at, src[from..from]);
    }

    /** One access, then step on, or stop when it was the last. */
    method Move(size: Pos, strictTo: bool, strictFrom: bool) returns (done: bool)
      requires Going() && size <= nbyte
      requires Legal(Access(dst, cur, size, strictTo, strictFrom))
      modifies this`dst, this`cur, this`nbyte, this`log, this`moved, bus
      ensures done <==> old(nbyte) == size
      ensures if done then Done() else Going() && nbyte == old(nbyte) - size && dst == old(dst) + size && cur == old(cur) + size
      ensures log == old(log) + [Access(old(dst), old(cur), size, strictTo, strictFrom)]
    {
      hide Covers, Mask, Copied;
      var a := Access(dst, cur, size, strictTo, strictFrom);
      ghost var b := bus[..];
      Copy(bus, dst, src[cur..cur + size]);
      CopiedMore(b, bus[..], before, at, src[from..from + moved], src[cur..cur + size]);
      assert src[from..from + moved] + src[cur..cur + size] == src[from..from + (moved + size)];
      CoversSnoc(log, at, from, moved, a);
      log := log + [a];
      moved := moved + size;
      if nbyte == size {
        return true;
      }
      dst, cur, nbyte := dst + size, cur + size, nbyte - size;
      return false;
    }

    /** Accesses of one width as long as enough bytes remain. */
    method Cycle(size: Pos, strictTo: bool, strictFrom: bool) returns (done: bool)
      requires Going() && (size == 8 || size == 16 || size == 32)
      requires strictTo ==> Mask(busBase + dst, size) == 0
      requires strictFrom ==> Mask(srcBase + cur, size) == 0
      modifies this`dst, this`cur, this`nbyte, this`log, this`moved, bus
      ensures if done then Done() else Going() && nbyte < size && nbyte <= old(nbyte)
      ensures !done ==> Mask(busBase + dst, size) == old(Mask(busBase + dst, size)) && Mask(srcBase + cur, size) == old(Mask(srcBase + cur, size))
      ensures !done ==> Mask(dst, size) == old(Mask(dst, size))
      ensures old(AllAligned(log)) && (old(Mask(dst, size)) == 0 || old(nbyte) < size) ==> AllAligned(log)
      ensures old(AllSettled(log)) && (old(Mask(dst, Unit(size))) == 0 || old(nbyte) < size) ==> AllSettled(log)
      ensures !done && old(nbyte) < size ==> dst == old(dst) && nbyte == old(nbyte)
      ensures (|log| - old(|log|)) * size + (if done then 0 else nbyte) == old(nbyte)
    {
      hide Mask, Covers, Valid, AllAligned, AllSettled, Unit;
      done := false;
      ghost var k := 0;
      while nbyte >= size
        invariant Going() && nbyte <= old(nbyte)
        invariant |log| == old(|log|) + k && k * size + nbyte == old(nbyte)
        invariant Mask(busBase + dst, size) == old(Mask(busBase + dst, size)) && Mask(srcBase + cur, size) == old(Mask(srcBase + cur, size))
        invariant Mask(dst, size) == old(Mask(dst, size))
        invariant old(AllAligned(log)) && (old(Mask(dst, size)) == 0 || old(nbyte) < size) ==> AllAligned(log)
        invariant old(AllSettled(log)) && (old(Mask(dst, Unit(size))) == 0 || old(nbyte) < size) ==> AllSettled(log)
        invariant old(nbyte) < size ==> dst == old(dst) && nbyte == old(nbyte)
        decreases nbyte
      {
        OneLap(busBase + dst, size);
        OneLap(srcBase + cur, size);
        OneLap(dst, size);
        assert (k + 1) * size == k * size + size;
        AlignedSnoc(log, Access(dst, cur, size, strictTo, strictFrom));
        SettledSnoc(log, Access(dst, cur, size, strictTo, strictFrom));
        UnitKept(dst, old(dst), size);
        done := Move(size, strictTo, strictFrom);
        k := k + 1;
        if done {
          return;
        }
      }
    }

    /** A single access of one width. */
    method Once(size: Pos) returns (done: bool)
      requires Going() && size <= nbyte
      modifies this`dst, this`cur, this`nbyte, this`log, this`moved, bus
      ensures done <==> old(nbyte) == size
      ensures if done then Done() else Going() && nbyte == old(nbyte) - size && dst == old(dst) + size
      ensures log == old(log) + [Access(old(dst), old(cur), size, false, false)]
      ensures AllAligned(log) <==> old(AllAligned(log)) && old(dst) % size == 0
      ensures AllSettled(log) <==> old(AllSettled(log)) && old(dst) % Unit(size) == 0
    {
      hide AllAligned, AllSettled, Valid;
      SettledSnoc(log, Access(dst, cur, size, false, false));
      AlignedSnoc(log, Access(dst, cur, size, false, false));
      done := Move(size, false, false);
    }

    /** The shortcut for a single word or double word. */
    method Simple(arm: bool) returns (done: bool)
      requires Going() && nbyte == n && log == []
      modifies this`dst, this`cur, this`nbyte, this`log, this`moved, bus
      ensures done <==> n == 4 || n == 8
      ensures if done then Done() && |log| <= 2 else Going() && nbyte == n && log == []
      ensures done ==> (AllAligned(log) <==> at % (if arm then 4 else n) == 0)
    {
      hide Mask, Covers, Valid, AllAligned;
      NoneAligned();
      done := false;
      if nbyte == 4 {
        done := Once(4);
      } else if nbyte == 8 {
        if arm && Mask(srcBase + cur, 64) != Mask(srcBase + cur + 4, 64) {
          done := Once(4);
          done := Once(4);
        } else {
          if arm { CellsDiffer(srcBase + cur, srcBase + cur + 4, 64); }
          done := Once(8);
        }
      }
    }

    /** One access if it brings the offset to a multiple of twice its size. */
    method Level(size: Pos) returns (done: bool)
      requires Going() && (size == 1 || size == 2 || size == 4) && At(dst, size, nbyte, size)
      modifies this`dst, this`cur, this`nbyte, this`log, this`moved, bus
      ensures if done then Done() else Going() && nbyte <= old(nbyte) && At(dst, 2 * size, nbyte, size)
      ensures !done && size > 1 ==> Mask(dst, 2) == old(Mask(dst, 2))
      ensures !done && size > 2 ==> Mask(dst, 4) == old(Mask(dst, 4))
      ensures |log| <= old(|log|) + 1 && (old(AllAligned(log)) ==> AllAligned(log)) && (old(AllSettled(log)) ==> AllSettled(log))
    {
      hide Covers, Valid, AllAligned, AllSettled, Mask;
      Doubles(dst, size);
      Keeps(dst);
      done := false;
      if dst / size % 2 != 0 && nbyte >= size {
        MaskIs(dst, size);
        done := Once(size);
      }
    }

    /** Single accesses of one, two and four bytes until the offset is a multiple of
        eight. */
    method Prelude() returns (done: bool)
      requires Going() && log == []
      modifies this`dst, this`cur, this`nbyte, this`log, this`moved, bus
      ensures if done then Done() else Going() && nbyte <= old(nbyte) && Settled(dst, nbyte)
      ensures |log| <= 3 && AllAligned(log) && AllSettled(log)
    {
      hide Covers, Valid, AllAligned, AllSettled, Mask;
      NoneAligned();
      NoneSettled();
      Keeps(dst);
      MaskIs(dst, 4);
      done := false;
      if dst % 4 != 0 {
        done := Level(1);
        if done { return; }
        done := Level(2);
        if done { return; }
      }
      done := Level(4);
    }

    /** Vector accesses, with the strictest instructions the addresses allow. */
    method Interlude() returns (done: bool)
      requires Going()
      modifies this`dst, this`cur, this`nbyte, this`log, this`moved, bus
      ensures if done then Done() else Going() && nbyte < 16 && nbyte <= old(nbyte)
      ensures |log| <= old(|log|) + old(nbyte) / 32 + 1
      ensures old(Settled(dst, nbyte)) && old(AllSettled(log)) ==> AllSettled(log) && (!done ==> Settled(dst, nbyte))
    {
      hide Covers, Valid, Mask, AllSettled, AllAligned;
      assert Settled(dst, nbyte) && nbyte >= 16 ==> Mask(dst, 8) == 0;
      var src256a, dst256a := Mask(srcBase + cur, 32) == 0, Mask(busBase + dst, 32) == 0;
      var src128a, dst128a := Mask(srcBase + cur, 16) == 0, Mask(busBase + dst, 16) == 0;
      done := Cycle(32, dst256a, src256a);
      if done { return; }
      Coarser(old(busBase + dst), busBase + dst);
      Coarser(old(srcBase + cur), srcBase + cur);
      UnitKept(dst, old(dst), 32);
      ghost var mid := dst;
      done := Cycle(16, dst128a, src128a);
      if !done {
        UnitKept(dst, mid, 16);
        Keeps(dst);
      }
    }

    /** One access if enough bytes are left for it. */
    method Rest(size: Pos) returns (done: bool)
      requires Going() && nbyte < 2 * size && (size == 1 || size == 2 || size == 4)
      modifies this`dst, this`cur, this`nbyte, this`log, this`moved, bus
      ensures if done then Done() else Going() && nbyte < size && nbyte <= old(nbyte)
      ensures |log| <= old(|log|) + 1
      ensures old(AllAligned(log)) && old(Settled(dst, nbyte)) ==> AllAligned(log) && (!done ==> Settled(dst, nbyte))
      ensures old(AllSettled(log)) && old(Settled(dst, nbyte)) ==> AllSettled(log) && (!done ==> Settled(dst, nbyte))
    {
      hide Covers, Valid, AllAligned, AllSettled, Mask;
      Keeps(dst);
      MaskIs(dst, size);
      done := false;
      if nbyte >= size {
        done := Once(size);
        MaskIs(dst, 1);
      }
    }

    /** Accesses of eight bytes, then at most one each of four, two and one. */
    method Postlude() returns (done: bool)
      requires Going()
      modifies this`dst, this`cur, this`nbyte, this`log, this`moved, bus
      ensures Done()
      ensures |log| <= old(|log|) + old(nbyte) / 8 + 3
      ensures old(Settled(dst, nbyte)) && old(AllAligned(log)) ==> AllAligned(log)
      ensures old(Settled(dst, nbyte)) && old(AllSettled(log)) ==> AllSettled(log)
    {
      hide Covers, Valid, AllAligned, AllSettled, Legal, Mask;
      assert Settled(dst, nbyte) ==> Mask(dst, 8) == 0 || nbyte < 8;
      done := Cycle(8, false, false);
      Keeps(dst);
      if done { return; }
      done := Rest(4);
      if done { return; }
      done := Rest(2);
      if done { return; }
      done := Rest(1);
    }

    lemma Finished()
      requires Done()
      ensures bus[..] == Copied(before, at, src[from..from + n]) && Covers(log, at, from, n)
      ensures forall i :: 0 <= i < |log| ==> Legal(log[i])
    {
    }
  }

  /** Copy without vector instructions: the bus then holds a plain byte copy and nothing
      else changed; every byte is moved by exactly one access, all accesses are naturally
      aligned except possibly the shortcut's, and there are at most `n / 8 + 6`. */
  method CopyNoopt(bus: array<Byte>, src: seq<Byte>, busBase: nat, srcBase: nat, at: nat, from: nat, n: nat, arm: bool)
    returns (log: seq<Access>)
    requires at + n <= bus.Length && from + n <= |src|
    modifies bus
    ensures bus[..] == Copied(old(bus[..]), at, src[from..from + n]) && Covers(log, at, from, n)
    ensures |log| <= n / 8 + 6
    ensures AllAligned(log) <==> (n == 4 || n == 8 ==> at % (if arm then 4 else n) == 0)
  {
    hide Covers, Mask, AllAligned, Copied;
    var t := new Transfer(bus, src, busBase, srcBase, at, from, n);
    var done := t.Simple(arm);
    if !done {
      done := t.Prelude();
      if !done {
        done := t.Postlude();
      }
    }
    t.Finished();
    log := t.log;
  }

  /** Copy with vector instructions in the middle: the same plain byte copy, and no access
      that could fault on an unaligned address; there are at most `n / 32 + 8`, and unless the
      shortcut applies those of up to eight bytes are aligned and the wider ones start at
      multiples of eight. */
  method CopyAvx2(bus: array<Byte>, src: seq<Byte>, busBase: nat, srcBase: nat, at: nat, from: nat, n: nat, arm: bool)
    returns (log: seq<Access>)
    requires at + n <= bus.Length && from + n <= |src|
    modifies bus
    ensures bus[..] == Copied(old(bus[..]), at, src[from..from + n]) && Covers(log, at, from, n)
    ensures forall i :: 0 <= i < |log| ==>
              && (log[i].strictTo ==> Mask(busBase + log[i].to, log[i].size) == 0)
              && (log[i].strictFrom ==> Mask(srcBase + log[i].from, log[i].size) == 0)
    ensures |log| <= n / 32 + 8 && (n != 4 && n != 8 ==> AllSettled(log))
  {
    hide Covers, Mask, AllAligned, AllSettled, Copied;
    var t := new Transfer(bus, src, busBase, srcBase, at, from, n);
    var done := t.Simple(arm);
    if !done {
      done := t.Prelude();
      if !done {
        done := t.Interlude();
        if !done {
          done := t.Postlude();
        }
      }
    }
    t.Finished();
    log := t.log;
  }
}
