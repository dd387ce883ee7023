/** Arithmetic of power-of-two rings.

The queue code keeps ring positions reduced with `& (size - 1)` and lets unsigned
subtraction wrap.  Every proof about such a pointer compares it with an unbounded
position whose residue it is; the lemmas here move between the two views.
*/
module Ring {

  type Pos = n: int | 0 < n witness 1

  /** The value of the C expression `x & (n - 1)` for a power of two `n`. */
  function Mask(x: int, n: Pos): (r: nat)
    ensures r < n
  {
    x % n
  }

  function Min(a: int, b: int): (m: int)
    ensures m <= a && m <= b && (m == a || m == b)
  {
    if a <= b then a else b
  }

  // ----- bitwise meaning of Mask -----

  function Pow2(k: nat): Pos {
    if k == 0 then 1 else 2 * Pow2(k - 1)
  }

  /** Bitwise AND of two naturals, bit by bit. */
  function BitAnd(x: nat, y: nat): nat {
    if x == 0 || y == 0 then 0
    else 2 * BitAnd(x / 2, y / 2) + (x % 2) * (y % 2)
  }

  /** ANDing with size - 1 is reduction modulo a power-of-two size. */
  lemma {:induction false} AndIsMask(x: nat, k: nat)
    ensures BitAnd(x, Pow2(k) - 1) == Mask(x, Pow2(k))
  {
    hide Mask;
    if k > 0 {
      hide BitAnd;
      AndIsMask(x / 2, k - 1);
      HalveMask(x, Pow2(k - 1));
      HalveAnd(x, Pow2(k - 1));
    } else {
      NoBits(x);
    }
  }

  lemma NoBits(x: nat)
    ensures BitAnd(x, 0) == 0 == Mask(x, 1)
  {
    ModIs(x, 1, x, 0);
  }

  lemma HalveMask(x: nat, h: Pos)
    ensures Mask(x, 2 * h) == 2 * Mask(x / 2, h) + x % 2
  {
    HalveMod(x, x / 2, x % 2, h);
  }

  lemma HalveAnd(x: nat, h: Pos)
    ensures BitAnd(x, 2 * h - 1) == 2 * BitAnd(x / 2, h - 1) + x % 2
  {
    ModIs(2 * h - 1, 2, h - 1, 1);
    TimesOne(x % 2);
  }

  lemma TimesOne(b: nat)
    ensures b * 1 == b
  {
  }

  lemma HalveMod(x: nat, y: nat, b: nat, h: Pos)
    requires x == 2 * y + b && b < 2
    ensures x % (2 * h) == 2 * (y % h) + b
  {
    var q, r := y / h, y % h;
    assert y == h * q + r;
    assert 2 * (h * q) == q * (2 * h);
    ModIs(x, 2 * h, q, 2 * r + b);
  }

  /** A wrapped unsigned difference of width 2^w, masked by a ring of size 2^k <= 2^w,
      is the residue of the true difference. */
  lemma WrappedDifference(a: nat, b: nat, w: nat, k: nat)
    requires k <= w
    ensures BitAnd((a - b) % Pow2(w), Pow2(k) - 1) == Mask(a - b, Pow2(k))
  {
    AndIsMask((a - b) % Pow2(w), k);
    var m := Pow2Divides(w, k);
    ModOfMod(a - b, m, Pow2(k));
  }

  lemma ModOfMod(d: int, m: Pos, n: Pos)
    ensures m * n > 0 && (d % (m * n)) % n == d % n
  {
    MultipleSteps(n, m);
    var q, r := d / (m * n), d % (m * n);
    assert d == q * (m * n) + r;
    assert q * (m * n) == (q * m) * n;
    ModShift(r, q * m, n);
  }

  lemma Pow2Divides(w: nat, k: nat) returns (m: Pos)
    requires k <= w
    ensures Pow2(w) == m * Pow2(k)
  {
    if w == k {
      m := 1;
    } else {
      m := Pow2Divides(w - 1, k);
      m := 2 * m;
    }
  }

  // ----- residues -----

  lemma MultipleSteps(n: Pos, d: int)
    ensures d >= 1 ==> n * d >= n
    ensures d <= -1 ==> n * d <= 0 - n
  {
  }

  lemma ModIs(x: int, n: Pos, q: int, r: int)
    requires x == q * n + r && 0 <= r < n
    ensures x % n == r && x / n == q
  {
    var d := x / n - q;
    assert x == n * (x / n) + x % n;
    assert n * d == r - x % n;
    MultipleSteps(n, d);
  }

  lemma ModShift(x: int, k: int, n: Pos)
    ensures Mask(x + k * n, n) == Mask(x, n)
  {
    assert x == n * (x / n) + x % n;
    assert x + k * n == (x / n + k) * n + x % n;
    ModIs(x + k * n, n, x / n + k, x % n);
  }

  /** Reducing an operand early does not change the residue of a sum. */
  lemma ModAdd(x: int, y: int, n: Pos)
    ensures Mask(Mask(x, n) + y, n) == Mask(x + y, n)
  {
    assert x == n * (x / n) + x % n;
    ModShift(x % n + y, x / n, n);
    assert x % n + y + (x / n) * n == x + y;
  }

  /** Pointers may be masked before they are subtracted. */
  lemma MaskedDifference(a: int, b: int, c: int, n: Pos)
    ensures Mask(Mask(a, n) - Mask(b, n) - c, n) == Mask(a - b - c, n)
  {
    var k := b / n - a / n;
    assert a == n * (a / n) + a % n;
    assert b == n * (b / n) + b % n;
    assert a % n - b % n - c == a - b - c + k * n;
    ModShift(a - b - c, k, n);
  }

  /** The masked difference of two masked pointers, less an offset, is the true
      distance whenever that distance fits the ring. */
  lemma Distance(a: int, b: int, c: int, n: Pos)
    requires 0 <= a - b - c < n
    ensures Mask(Mask(a, n) - Mask(b, n) - c, n) == a - b - c
  {
    MaskedDifference(a, b, c, n);
    ModIs(a - b - c, n, 0, a - b - c);
  }

  lemma SameStep(a: int, b: int, k: int, n: Pos)
    requires Mask(a, n) == Mask(b, n)
    ensures Mask(a + k, n) == Mask(b + k, n)
  {
    hide Mask;
    ModAdd(a, k, n);
    ModAdd(b, k, n);
  }

  lemma NegStep(h: int, r: int, p: int, n: Pos)
    requires Mask(r, n) == Mask(p, n)
    ensures Mask(h - r, n) == Mask(h - p, n)
  {
    var k := p / n - r / n;
    assert r == n * (r / n) + Mask(r, n) && p == n * (p / n) + Mask(p, n);
    assert h - r == h - p + k * n;
    ModShift(h - p, k, n);
  }

  /** An index that was not reduced gives the same masked distance as the position it
      stands for. */
  lemma LazyDistance(h: int, r: int, p: int, n: Pos)
    requires Mask(r, n) == Mask(p, n) && 0 <= h - p < n
    ensures Mask(Mask(h, n) - r, n) == h - p
  {
    hide Mask;
    Distance(h, p, 0, n);
    NegStep(Mask(h, n), r, p, n);
    ModAdd(p, 0, n);
    NegStep(Mask(h, n), Mask(p, n), p, n);
  }

  lemma OneLap(r: int, n: Pos)
    ensures Mask(r - n, n) == Mask(r, n) && Mask(r + n, n) == Mask(r, n)
  {
    ModShift(r, 1, n);
    ModShift(r - n, 1, n);
  }

  lemma InLap(r: int, n: Pos)
    requires 0 <= r < n
    ensures Mask(r, n) == r
  {
    ModIs(r, n, 0, r);
  }

  lemma OneLapBack(s: nat, n: Pos)
    requires 0 < s < n
    ensures Mask(0 - s, n) == n - s
  {
    OneLap(0 - s, n);
    InLap(n - s, n);
  }

  /** A request for the whole ring, as the transmit locks issue it. */
  lemma WholeRing(hwptr: nat, n: Pos)
    ensures Mask(Mask(hwptr - 1, n) - hwptr, n) == n - 1
  {
    ModAdd(hwptr - 1, 0 - hwptr, n);
    ModIs(0 - 1, n, 0 - 1, n - 1);
  }

  lemma SelfDistance(a: int, n: Pos)
    ensures Mask(a - a, n) == 0
  {
    ModIs(0, n, 0, 0);
  }

  /** Two different positions less than a ring apart occupy different cells. */
  lemma CellsDiffer(x: int, y: int, n: Pos)
    requires x != y && 0 - n < x - y < n
    ensures Mask(x, n) != Mask(y, n)
  {
    if x % n == y % n {
      assert x == n * (x / n) + x % n;
      assert y == n * (y / n) + y % n;
      assert x - y == n * (x / n - y / n);
      MultipleSteps(n, x / n - y / n);
    }
  }

  /** Positions less than a ring apart with equal cells are equal. */
  lemma SameCell(x: int, y: int, n: Pos)
    requires Mask(x, n) == Mask(y, n) && 0 - n < x - y < n
    ensures x == y
  {
    if x != y { CellsDiffer(x, y, n); }
  }

  // ----- shared memory of a ring, mapped twice back to back -----

  /** The `len` cells seen through the doubled mapping from position `a` on. */
  function Unroll<T>(m: seq<T>, a: int, len: nat): (r: seq<T>)
    requires |m| > 0
    ensures |r| == len
    ensures forall i :: 0 <= i < len ==> r[i] == m[Mask(a + i, |m|)]
  {
    seq(len, i => m[Mask(a + i, |m|)])
  }

  /** Memory after writing `b` through the doubled mapping at position `a`. */
  function Store<T>(m: seq<T>, a: int, b: seq<T>): (r: seq<T>)
    requires |m| > 0
    ensures |r| == |m|
    decreases |b|
  {
    if b == [] then m else Store(m[Mask(a, |m|) := b[0]], a + 1, b[1..])
  }

  /** Reading back after a store: the stored window holds the new cells and the
      rest of the ring is untouched. */
  lemma {:induction false} StoreAt<T>(m: seq<T>, a: int, b: seq<T>, x: int)
    requires 0 < |m| && |b| <= |m|
    requires a + |b| - |m| <= x < a + |b|
    ensures Store(m, a, b)[Mask(x, |m|)] == if x >= a then b[x - a] else m[Mask(x, |m|)]
    decreases |b|
  {
    if b == [] {
    } else {
      var m1 := m[Mask(a, |m|) := b[0]];
      if x == a {
        StoreKeepsCell(m1, a + 1, b[1..], x);
      } else {
        CellsDiffer(x, a, |m|);
        StoreAt(m1, a + 1, b[1..], x);
      }
    }
  }

  lemma {:induction false} StoreKeepsCell<T>(m: seq<T>, a: int, b: seq<T>, x: int)
    requires 0 < |m|
    requires a + |b| - |m| <= x < a
    ensures Store(m, a, b)[Mask(x, |m|)] == m[Mask(x, |m|)]
    decreases |b|
  {
    if b != [] {
      CellsDiffer(x, a, |m|);
      StoreKeepsCell(m[Mask(a, |m|) := b[0]], a + 1, b[1..], x);
    }
  }

  /** The ring cell by cell after a store, for the lap that starts at `a`. */
  lemma StoreCell<T>(m: seq<T>, a: int, b: seq<T>, x: int)
    requires 0 < |m| && |b| <= |m| && a <= x < a + |m|
    ensures Store(m, a, b)[Mask(x, |m|)] == if x < a + |b| then b[x - a] else m[Mask(x, |m|)]
  {
    if x < a + |b| {
      StoreAt(m, a, b, x);
    } else {
      ModShift(x, 0 - 1, |m|);
      StoreAt(m, a, b, x - |m|);
    }
  }

  lemma StoreElsewhere<T>(m: seq<T>, a: int, b: seq<T>, x: int)
    requires 0 < |m| && |b| <= |m| && a + |b| - |m| <= x < a + |m| && !(a <= x < a + |b|)
    ensures Store(m, a, b)[Mask(x, |m|)] == m[Mask(x, |m|)]
  {
    if x < a { StoreKeepsCell(m, a, b, x); } else { StoreCell(m, a, b, x); }
  }

  lemma {:induction false} StoreCongruent<T>(m: seq<T>, a: int, a': int, b: seq<T>)
    requires 0 < |m| && Mask(a, |m|) == Mask(a', |m|)
    ensures Store(m, a, b) == Store(m, a', b)
    decreases |b|
  {
    if b != [] {
      ModAdd(a, 1, |m|);
      ModAdd(a', 1, |m|);
      StoreCongruent(m[Mask(a, |m|) := b[0]], a + 1, a' + 1, b[1..]);
    }
  }

  /** One more cell at the end of a store. */
  lemma {:induction false} StoreSnoc<T>(m: seq<T>, a: int, b: seq<T>, v: T)
    requires 0 < |m|
    ensures Store(m, a, b + [v]) == Store(m, a, b)[Mask(a + |b|, |m|) := v]
    decreases |b|
  {
    if b == [] {
      assert [v][1..] == [];
    } else {
      assert (b + [v])[1..] == b[1..] + [v];
      StoreSnoc(m[Mask(a, |m|) := b[0]], a + 1, b[1..], v);
    }
  }

  /** Write `b` through the mapping at `pos`. */
  method StoreInto<T>(ring: array<T>, pos: nat, b: seq<T>)
    requires ring.Length > 0
    modifies ring
    ensures ring[..] == Store(old(ring[..]), pos, b)
  {
    hide Mask;
    for i := 0 to |b|
      invariant ring[..] == Store(old(ring[..]), pos, b[..i])
    {
      ring[Mask(pos + i, ring.Length)] := b[i];
      StoreSnoc(old(ring[..]), pos, b[..i], b[i]);
      assert b[..i + 1] == b[..i] + [b[i]];
    }
    assert b[..|b|] == b;
  }

  /** Congruent positions show the same window. */
  lemma UnrollCongruent<T>(m: seq<T>, a: int, b: int, len: nat)
    requires 0 < |m| && Mask(a, |m|) == Mask(b, |m|)
    ensures Unroll(m, a, len) == Unroll(m, b, len)
  {
    forall i | 0 <= i < len ensures Unroll(m, a, len)[i] == Unroll(m, b, len)[i] {
      ModAdd(a, i, |m|);
      ModAdd(b, i, |m|);
    }
  }
}
