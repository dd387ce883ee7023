/** The driver side of a queue: how a channel grants transmit space to subscribers and
releases receive space on their behalf.  These are the two halves of the sync call the
library makes; hardware progress enters as a parameter. */
module Driver {
  import opened Ring

  /** Pointers exchanged with the driver, both reduced modulo the ring size. */
  datatype Sync = Sync(hwptr: nat, swptr: nat)

  /** Who holds the transmit lock, seen by one subscriber. */
  datatype Lock = Free | Mine | Other

  datatype TxChannel = TxChannel(hwptr: nat, swptr: nat, lock: Lock)

  // ----- transmit -----

  /** One transmit sync: publish what the lock holder wrote, then grant at most the
      requested length out of the free part of the ring. */
  function TxSync(ch: TxChannel, sync: Sync, hwNow: nat, n: Pos): (TxChannel, Sync) {
    if ch.lock.Other? then (ch, Sync(ch.swptr, ch.swptr))
    else
      var sw := if ch.lock.Mine? then sync.hwptr else ch.swptr;
      var room := Mask(hwNow - sw - 1, n);
      var len := Min(Mask(sync.swptr - sync.hwptr, n), room);
      (TxChannel(hwNow, sw, if len > 0 then Mine else Free), Sync(sw, Mask(sw + len, n)))
  }

  /** Length granted by a sync when hardware stands at position `c`, the channel's
      published position becomes `w` and `q` items are requested. */
  function Granted(lock: Lock, q: nat, w: nat, c: nat, n: Pos): int {
    if lock.Other? then 0 else Min(q, c + n - 1 - w)
  }

  /** What a sync means for unbounded positions: the caller is told the published
      position and a grant that ends before the data hardware has not read yet, and
      the caller holds the lock afterwards exactly when the grant is not empty. */
  lemma TxSyncContract(ch: TxChannel, sync: Sync, n: Pos, w: nat, c: nat, q: nat)
    requires (if ch.lock.Mine? then sync.hwptr else ch.swptr) == Mask(w, n)
    requires c <= w <= c + n - 1
    requires Mask(sync.swptr - sync.hwptr, n) == q
    ensures
      var (ch', sync') := TxSync(ch, sync, Mask(c, n), n);
      var g := Granted(ch.lock, q, w, c, n);
      && 0 <= g <= q && c <= w + g <= c + n - 1
      && ch'.swptr == Mask(w, n) && sync' == Sync(Mask(w, n), Mask(w + g, n))
      && (ch'.lock.Mine? <==> g > 0) && (ch'.lock.Other? <==> ch.lock.Other?)
      && (g > 0 <==> sync'.swptr != sync'.hwptr)
  {
    var g := Granted(ch.lock, q, w, c, n);
    if !ch.lock.Other? {
      Room(w, c, n);
      ModAdd(w, g, n);
    }
    if g > 0 { CellsDiffer(w, w + g, n); }
    hide Mask;
  }

  lemma Room(w: nat, c: nat, n: Pos)
    requires c <= w <= c + n - 1
    ensures Mask(Mask(c, n) - Mask(w, n) - 1, n) == c + n - 1 - w
  {
    hide Mask;
    Distance(c + n, w, 1, n);
    ModShift(c, 1, n);
    assert c + 1 * n == c + n;
  }

  // ----- receive, shared by several subscribers -----

  /** No reader is behind reader `k`. */
  ghost predicate IsSlowest(k: nat, readers: seq<nat>) {
    k < |readers| && forall i :: 0 <= i < |readers| ==> readers[k] <= readers[i]
  }

  /** Find the release pointer of a channel: scan the subscribers' masked pointers for
      the one lagging farthest behind hardware.  Whatever the scan order, the result is
      the pointer of the slowest reader, so hardware, which never passes it by a full
      ring, cannot overwrite data any subscriber still has to read. */
  method ReleasePointer(own: nat, swptrs: seq<nat>, hwptr: nat, n: Pos, ghost readers: seq<nat>, ghost h: nat)
    returns (swptr: nat)
    requires own in swptrs && |readers| == |swptrs|
    requires hwptr == Mask(h, n)
    requires forall i :: 0 <= i < |readers| ==> swptrs[i] == Mask(readers[i], n) && readers[i] <= h <= readers[i] + n - 1
    ensures exists k: nat :: IsSlowest(k, readers) && swptr == swptrs[k] == Mask(readers[k], n)
  {
    hide Mask;
    var maxLock := 0;
    swptr := own;
    ghost var k: nat :| k < |swptrs| && swptrs[k] == own;
    for i := 0 to |swptrs|
      invariant k < |swptrs| && swptr == swptrs[k] && maxLock <= h - readers[k]
      invariant forall j :: 0 <= j < i ==> h - maxLock <= readers[j]
      invariant maxLock > 0 ==> maxLock == h - readers[k]
    {
      var subLock := Mask(hwptr - swptrs[i], n);
      Distance(h, readers[i], 0, n);
      if subLock > maxLock {
        maxLock := subLock;
        swptr := swptrs[i];
        k := i;
      }
    }
    assert readers[k] == h - maxLock;
    assert IsSlowest(k, readers);
  }

  // ----- the transmit channel behind the sync call -----

  /** A transmit channel shared with other subscribers and with hardware.  `published`
      and `consumed` are the unbounded positions of software and hardware; the driver
      itself keeps only their residues. */
  class TxPort {
    const n: Pos
    var ch: TxChannel
    var published: nat
    var consumed: nat
    var granted: nat
    /** How often this subscriber has called. */
    ghost var syncs: nat

    /** The whole ring was asked for: nothing is granted while another subscriber holds the lock;
        otherwise everything hardware has read is. */
    ghost predicate AllGranted()
      reads this
    {
      ch.lock.Other? || granted == consumed + n - 1 - published
    }

    ghost predicate Valid()
      reads this
    {
      && ch.swptr == Mask(published, n)
      && consumed <= published && published + granted <= consumed + n - 1
      && (ch.lock.Mine? <==> granted > 0)
    }

    constructor (n: Pos, start: nat)
      ensures Valid() && this.n == n && published == start && granted == 0
    {
      this.n := n;
      ch := TxChannel(Mask(start, n), Mask(start, n), Free);
      published, consumed, granted := start, start, 0;
      syncs := 0;
    }

    /** Everything that can happen to the channel outside this subscriber: hardware
        reads published data; while this subscriber holds no lock, others may publish
        and may take the lock. */
    method Environment(limit: nat)
      requires Valid()
      requires granted > 0 ==> published <= limit <= published + granted
      modifies this`ch, this`published, this`consumed
      ensures old(granted) > 0 ==> ch == old(ch) && published == old(published) && granted == old(granted)
      ensures old(granted) > 0 ==> old(consumed) <= consumed <= limit && published + granted <= consumed + n - 1
      ensures old(granted) == 0 ==> Valid() && granted == 0 && old(published) <= published
    {
      if granted > 0 {
        var c: nat :| consumed <= c <= limit;
        consumed := c;
      } else {
        var w: nat :| published <= w;
        var c: nat :| c <= w <= c + n - 1 && consumed <= c;
        var taken: bool := *;
        published, consumed := w, c;
        ch := TxChannel(ch.hwptr, Mask(w, n), if taken then Other else Free);
      }
    }

    /** The sync call.  `k` items of the lock are being published and `q` requested; unless somebody
        else holds the lock, all of them are granted, or all that is free. */
    method SyncCall(sync: Sync, ghost k: nat, ghost q: nat) returns (out: Sync)
      requires Valid() && Mask(sync.swptr - sync.hwptr, n) == q
      requires granted > 0 ==> k <= granted && sync.hwptr == Mask(published + k, n)
      modifies this
      ensures Valid() && granted <= q && syncs == old(syncs) + 1
      ensures ch.lock.Other? || granted == Min(q, consumed + n - 1 - published)
      ensures out == Sync(Mask(published, n), Mask(published + granted, n))
      ensures old(granted) > 0 ==> published == old(published) + k && granted >= Min(q, old(granted) - k)
    {
      hide Mask;
      var mine := ch.lock.Mine?;
      var adv := if mine then Mask(sync.hwptr - Mask(published, n), n) else 0;
      if mine { Distance(published + k, published, 0, n); }
      assert mine ==> adv == k;
      Environment(published + adv);
      published := published + adv;
      TxSyncContract(ch, sync, n, published, consumed, q);
      var lock := ch.lock;
      var r := TxSync(ch, sync, Mask(consumed, n), n);
      ghost var g := Granted(lock, q, published, consumed, n);
      ch, out := r.0, r.1;
      granted, syncs := Mask(out.swptr - out.hwptr, n), syncs + 1;
      Distance(published + g, published, 0, n);
    }
  }
}
