/** Distribution of DMA queues over network interfaces and of both over device endpoints. */
module QueueMap {
  import opened Ring

  datatype Ifc = Ifc(id: nat, ep: nat, rxqCnt: nat, txqCnt: nat)

  datatype Queue = Queue(id: nat, ep: nat, ifc: nat)

  /** The part that item `q` of `cnt` belongs to when they are spread over `parts`. */
  function Place(q: nat, parts: nat, cnt: Pos): nat {
    Product(q, parts);
    q * parts / cnt
  }

  lemma Product(a: nat, b: nat)
    ensures a * b >= 0
  {
  }

  /** The first item of part `i`: the quotient `i * cnt / parts` rounded up. */
  function First(i: nat, parts: Pos, cnt: nat): nat {
    Product(i, cnt);
    (i * cnt + parts - 1) / parts
  }

  lemma DivBounds(x: int, n: Pos)
    ensures n * (x / n) <= x < n * (x / n) + n
  {
  }

  /** Order on products of a positive factor. */
  lemma Scale(n: Pos, a: int, b: int)
    ensures a <= b <==> n * a <= n * b
    ensures a < b <==> n * a < n * b
  {
    if a < b { MultipleSteps(n, b - a); assert n * (b - a) == n * b - n * a; }
    if a > b { MultipleSteps(n, a - b); assert n * (a - b) == n * a - n * b; }
  }

  lemma DivAtLeast(x: int, n: Pos, k: int)
    ensures x / n >= k <==> x >= n * k
  {
    DivBounds(x, n);
    Scale(n, k, x / n);
    Scale(n, x / n + 1, k);
    assert n * (x / n + 1) == n * (x / n) + n;
  }

  /** Parts are runs of consecutive items: item `q` lies in part `i` or later exactly from
      the first item of part `i` on. */
  lemma PlaceIff(q: nat, i: nat, parts: Pos, cnt: Pos)
    ensures Place(q, parts, cnt) >= i <==> q >= First(i, parts, cnt)
  {
    Product(q, parts);
    Product(i, cnt);
    DivAtLeast(q * parts, cnt, i);
    DivAtLeast(i * cnt + parts - 1, parts, q + 1);
    assert parts * (q + 1) == q * parts + parts && cnt * i == i * cnt;
  }

  lemma Ends(parts: Pos, cnt: nat)
    ensures First(0, parts, cnt) == 0 && First(parts, parts, cnt) == cnt
  {
    ModIs(0 * cnt + parts - 1, parts, 0, parts - 1);
    assert cnt * parts == parts * cnt;
    ModIs(parts * cnt + parts - 1, parts, cnt, parts - 1);
  }

  /** Every item has a part. */
  lemma PlaceInRange(q: nat, parts: Pos, cnt: Pos)
    requires q < cnt
    ensures Place(q, parts, cnt) < parts
  {
    Ends(parts, cnt);
    PlaceIff(q, parts, parts, cnt);
  }

  lemma PlaceMonotone(q: nat, r: nat, parts: Pos, cnt: Pos)
    requires q <= r
    ensures Place(q, parts, cnt) <= Place(r, parts, cnt)
  {
    PlaceIff(q, Place(q, parts, cnt), parts, cnt);
    PlaceIff(r, Place(q, parts, cnt), parts, cnt);
  }

  /** How many items part `i` gets. */
  function Share(i: nat, parts: Pos, cnt: nat): int {
    First(i + 1, parts, cnt) - First(i, parts, cnt)
  }

  /** No part gets more than one item more than another: each gets the quotient, rounded
      down or up. */
  lemma ShareBalanced(i: nat, parts: Pos, cnt: nat)
    ensures cnt / parts <= Share(i, parts, cnt) <= (cnt + parts - 1) / parts
  {
    Product(i, cnt);
    assert (i + 1) * cnt == i * cnt + cnt;
    AtLeastRoundedDown(i * cnt + parts - 1, cnt, parts);
    AtMostRoundedUp(i * cnt + parts - 1, cnt, parts);
  }

  lemma AtLeastRoundedDown(x: nat, d: nat, n: Pos)
    ensures (x + d) / n >= x / n + d / n
  {
    DivBounds(x, n);
    DivBounds(d, n);
    Reaches(x + d, n, x / n, d / n);
  }

  lemma AtMostRoundedUp(x: nat, d: nat, n: Pos)
    ensures (x + d) / n <= x / n + (d + n - 1) / n
  {
    var a, b := x / n, (d + n - 1) / n;
    DivBounds(x, n);
    DivBounds(d + n - 1, n);
    Reaches(x + d, n, a, b + 1);
    assert n * (b + 1) == n * b + n;
  }

  lemma Reaches(x: int, n: Pos, a: int, b: int)
    ensures x / n >= a + b <==> x >= n * a + n * b
  {
    DivAtLeast(x, n, a + b);
    assert n * (a + b) == n * a + n * b;
  }

  /** Items handed out in total by the parts before `k`. */
  function Shares(k: nat, parts: Pos, cnt: nat): int {
    if k == 0 then 0 else Shares(k - 1, parts, cnt) + Share(k - 1, parts, cnt)
  }

  lemma {:induction false} SharesAre(k: nat, parts: Pos, cnt: nat)
    ensures Shares(k, parts, cnt) == First(k, parts, cnt)
  {
    Ends(parts, cnt);
    if k > 0 { SharesAre(k - 1, parts, cnt); }
  }

  /** All items are handed out. */
  lemma SharesSumToAll(parts: Pos, cnt: nat)
    ensures Shares(parts, parts, cnt) == cnt
  {
    SharesAre(parts, parts, cnt);
    Ends(parts, cnt);
  }

  /** Items of part `i` among the first `q`. */
  function Among(q: nat, i: nat, parts: Pos, cnt: nat): int {
    Min(q, First(i + 1, parts, cnt)) - Min(q, First(i, parts, cnt))
  }

  lemma AmongStep(q: nat, i: nat, parts: Pos, cnt: Pos)
    ensures Among(q + 1, i, parts, cnt) == Among(q, i, parts, cnt) + (if Place(q, parts, cnt) == i then 1 else 0)
  {
    PlaceIff(q, i, parts, cnt);
    PlaceIff(q, i + 1, parts, cnt);
  }

  lemma AmongEnds(i: nat, parts: Pos, cnt: nat)
    requires i < parts
    ensures Among(0, i, parts, cnt) == 0 && Among(cnt, i, parts, cnt) == Share(i, parts, cnt)
  {
    Ends(parts, cnt);
    FirstMonotone(i, i + 1, parts, cnt);
    FirstMonotone(i + 1, parts, parts, cnt);
  }

  lemma FirstMonotone(i: nat, j: nat, parts: Pos, cnt: nat)
    requires i <= j
    ensures First(i, parts, cnt) <= First(j, parts, cnt)
  {
    Product(j - i, cnt);
    assert j * cnt == i * cnt + (j - i) * cnt;
    DivBounds(i * cnt + parts - 1, parts);
    DivAtLeast(j * cnt + parts - 1, parts, First(i, parts, cnt));
  }

  // ----- endpoints -----

  /** Queues and interfaces get their endpoint by separate divisions.  Every queue ends up
      at the endpoint of its interface, whatever the number of queues, if and only if the
      endpoints divide the interfaces evenly. */
  lemma SameEndpointIff(ifcs: Pos, eps: Pos)
    ensures (forall cnt: Pos, q: nat :: q < cnt ==> Agree(q, cnt, ifcs, eps)) <==> ifcs % eps == 0
  {
    if ifcs % eps == 0 {
      forall cnt: Pos, q: nat | q < cnt ensures Agree(q, cnt, ifcs, eps) { EvenAgree(q, cnt, ifcs, eps); }
    } else {
      MultipleSteps(ifcs, eps);
      Uneven(ifcs, eps);
    }
  }

  /** The endpoint of queue `q` is that of its interface. */
  predicate Agree(q: nat, cnt: Pos, ifcs: Pos, eps: nat) {
    Place(q, eps, cnt) == Place(Place(q, ifcs, cnt), eps, ifcs)
  }

  lemma EvenAgree(q: nat, cnt: Pos, ifcs: Pos, eps: Pos)
    requires ifcs % eps == 0
    ensures Agree(q, cnt, ifcs, eps)
  {
    var k := ifcs / eps;
    assert ifcs == eps * k;
    var i, e := Place(q, ifcs, cnt), Place(q, eps, cnt);
    var e' := Place(i, eps, ifcs);
    SameBound(q, cnt, ifcs, eps, k, e);
    SameBound(q, cnt, ifcs, eps, k, e');
    DivAtLeast(q * eps, cnt, e);
    DivAtLeast(i * eps, ifcs, e');
  }

  /** Both ways of placing reach endpoint `e` at the same item. */
  lemma SameBound(q: nat, cnt: Pos, ifcs: Pos, eps: Pos, k: Pos, e: nat)
    requires ifcs == eps * k
    ensures Place(q, eps, cnt) >= e <==> Place(Place(q, ifcs, cnt), eps, ifcs) >= e
  {
    hide Place;
    Product(k, e);
    PlaceAtLeast(q, eps, cnt, e);
    PlaceAtLeast(q, ifcs, cnt, k * e);
    IfcAtLeast(Place(q, ifcs, cnt), ifcs, eps, k, e);
    SameMultiple(q, cnt, ifcs, eps, k, e);
  }

  lemma PlaceAtLeast(q: nat, parts: nat, cnt: Pos, e: nat)
    ensures Place(q, parts, cnt) >= e <==> q * parts >= cnt * e
  {
    DivAtLeast(q * parts, cnt, e);
  }

  lemma IfcAtLeast(i: nat, ifcs: Pos, eps: Pos, k: Pos, e: nat)
    requires ifcs == eps * k
    ensures Place(i, eps, ifcs) >= e <==> i >= k * e
  {
    hide Place;
    PlaceAtLeast(i, eps, ifcs, e);
    Regroup(eps, k, e);
    Scale(eps, k * e, i);
  }

  lemma SameMultiple(q: nat, cnt: Pos, ifcs: Pos, eps: Pos, k: Pos, e: nat)
    requires ifcs == eps * k
    ensures q * eps >= cnt * e <==> q * ifcs >= cnt * (k * e)
  {
    Regroup(k, eps, q);
    Regroup(k, cnt, e);
    Scale(k, cnt * e, q * eps);
  }

  lemma Regroup(a: nat, b: nat, c: nat)
    ensures a * (b * c) == (a * b) * c == b * (a * c) && (a * b) * c == c * (b * a) && b * c == c * b
  {
  }

  lemma Uneven(ifcs: Pos, eps: Pos)
    requires ifcs % eps != 0 && ifcs * eps > 0
    ensures ifcs < ifcs * eps && !Agree(ifcs, ifcs * eps, ifcs, eps)
  {
    var cnt: Pos := ifcs * eps;
    assert eps != 1;
    MultipleSteps(ifcs, eps - 1);
    assert ifcs * (eps - 1) == ifcs * eps - ifcs;
    ModIs(ifcs * eps, cnt, 1, 0);
    var k := ifcs / eps;
    assert ifcs == eps * k + ifcs % eps;
    assert ifcs * ifcs == k * cnt + ifcs * (ifcs % eps) by {
      assert ifcs * (eps * k + ifcs % eps) == ifcs * (eps * k) + ifcs * (ifcs % eps);
      assert ifcs * (eps * k) == k * (ifcs * eps);
    }
    Product(ifcs, ifcs % eps);
    Scale(ifcs, ifcs % eps, eps);
    ModIs(ifcs * ifcs, cnt, k, ifcs * (ifcs % eps));
    assert k * eps == eps * k;
    Product(k, eps);
    ModIs(k * eps, ifcs, 0, k * eps);
  }

  // ----- building the map -----

  class IfcMap {
    var ifc: seq<Ifc>
    var rxq: seq<Queue>
    var txq: seq<Queue>

    constructor ()
      ensures ifc == [] && rxq == [] && txq == []
    {
      ifc, rxq, txq := [], [], [];
    }

    /** One interface for each Ethernet channel, one anyway if there is none; interfaces
        and queues spread evenly. */
    method CreateOrdinary(ethCount: nat, epCount: nat, rxqCount: nat, txqCount: nat)
      modifies this
      ensures |ifc| == (if ethCount == 0 then 1 else ethCount)
      ensures forall i :: 0 <= i < |ifc| ==> ifc[i].id == i && ifc[i].ep == Place(i, epCount, |ifc|)
      ensures forall i :: 0 <= i < |ifc| ==>
                ifc[i].rxqCnt == Share(i, |ifc|, rxqCount) && ifc[i].txqCnt == Share(i, |ifc|, txqCount)
      ensures Spread(rxq, rxqCount, |ifc|, epCount) && Spread(txq, txqCount, |ifc|, epCount)
    {
      hide Place, Share, Spread;
      ifc := [];
      for i := 0 to ethCount
        invariant |ifc| == i && forall j :: 0 <= j < i ==> ifc[j] == Ifc(j, 0, 0, 0)
      {
        ifc := ifc + [Ifc(i, 0, 0, 0)];
      }
      if |ifc| == 0 {
        ifc := [Ifc(0, 0, 0, 0)];
      }
      for i := 0 to |ifc|
        invariant |ifc| == (if ethCount == 0 then 1 else ethCount)
        invariant forall j :: 0 <= j < |ifc| ==> ifc[j] == Ifc(j, if j < i then Place(j, epCount, |ifc|) else 0, 0, 0)
      {
        ifc := ifc[i := ifc[i].(ep := Place(ifc[i].id, epCount, |ifc|))];
      }
      var rxCounts, txCounts;
      rxq, rxCounts := Distribute(rxqCount, epCount, |ifc|);
      txq, txCounts := Distribute(txqCount, epCount, |ifc|);
      for i := 0 to |ifc|
        invariant |ifc| == (if ethCount == 0 then 1 else ethCount)
        invariant Spread(rxq, rxqCount, |ifc|, epCount) && Spread(txq, txqCount, |ifc|, epCount)
        invariant forall j :: 0 <= j < |ifc| ==>
                    ifc[j] == Ifc(j, Place(j, epCount, |ifc|), if j < i then rxCounts[j] else 0, if j < i then txCounts[j] else 0)
      {
        ifc := ifc[i := ifc[i].(rxqCnt := rxCounts[i], txqCnt := txCounts[i])];
      }
    }
  }

  /** Spread `count` queues, counting those of each interface. */
  method Distribute(count: nat, epCount: nat, ifcs: Pos) returns (queues: seq<Queue>, counts: seq<nat>)
    ensures Spread(queues, count, ifcs, epCount)
    ensures |counts| == ifcs && forall i :: 0 <= i < ifcs ==> counts[i] == Share(i, ifcs, count)
  {
    hide Place, First, Among, Share;
    queues, counts := [], seq(ifcs, _ => 0);
    forall i: nat | i < ifcs ensures Among(0, i, ifcs, count) == 0 { AmongEnds(i, ifcs, count); }
    for q := 0 to count
      invariant |counts| == ifcs && |queues| == q
      invariant forall j :: 0 <= j < q ==> Placed(queues[j], j, count, ifcs, epCount)
      invariant forall i :: 0 <= i < ifcs ==> counts[i] == Among(q, i, ifcs, count)
    {
      forall i: nat | i < ifcs
        ensures Among(q + 1, i, ifcs, count) == Among(q, i, ifcs, count) + (if Place(q, ifcs, count) == i then 1 else 0)
      {
        AmongStep(q, i, ifcs, count);
      }
      PlaceInRange(q, ifcs, count);
      var i := Place(q, ifcs, count);
      queues := queues + [Queue(q, Place(q, epCount, count), i)];
      counts := counts[i := counts[i] + 1];
    }
    forall i: nat | i < ifcs ensures Among(count, i, ifcs, count) == Share(i, ifcs, count) { AmongEnds(i, ifcs, count); }
  }

  predicate Placed(queue: Queue, q: nat, count: nat, ifcs: Pos, epCount: nat) {
    queue.id == q < count && queue.ifc == Place(q, ifcs, count) < ifcs && queue.ep == Place(q, epCount, count)
  }

  /** Queues in order, each with an existing interface. */
  predicate Spread(queues: seq<Queue>, count: nat, ifcs: Pos, epCount: nat) {
    |queues| == count && forall q :: 0 <= q < count ==> Placed(queues[q], q, count, ifcs, epCount)
  }
}
