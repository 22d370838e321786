/** Integer geometry of the bucket grid: the power-of-two side length, C#'s
    truncating `(int)` conversion and the mapping from a position relative to the
    container to a cell index along one horizontal axis. */
module Geometry {

  /** C#'s `(int)` conversion of a floating-point value: truncation toward zero
      (not the floor: `(int)(-0.5) == 0`). */
  function TruncateToInt(t: real): (r: int)
    ensures 0.0 <= t ==> r as real <= t < r as real + 1.0
    ensures t < 0.0 ==> r as real - 1.0 < t <= r as real
  {
    if t >= 0.0 then t.Floor else -((-t).Floor)
  }

  /** `2^d`, as the doubling loops of `InitContainer` and `OnDrawGizmos` compute it. */
  function Pow2(d: nat): (r: nat)
    ensures r >= 1
    ensures d >= 1 ==> r >= 2 && r % 2 == 0
  {
    if d == 0 then 1 else 2 * Pow2(d - 1)
  }

  /** Side length of one cell: `_size / containerArraySize`. */
  function BlockSize(size: real, n: nat): real
    requires n > 0
  {
    size / n as real
  }

  /** Relative coordinate of the grid line with index `k` along one axis: the
      `blockSize * k - halfSize` term of the rectangle corners in
      `SetAreaActiveState`. Cell `k` spans `[Edge(k), Edge(k + 1))`. */
  function Edge(size: real, n: nat, k: int): real
    requires n > 0
  {
    BlockSize(size, n) * k as real - size / 2.0
  }

  /** The cell index along one axis of a position `rel` relative to the
      container: `(int)((rel + halfSize) / blockSize)`. */
  function BlockIndex(rel: real, size: real, n: nat): int
    requires size > 0.0 && n > 0
  {
    TruncateToInt((rel + size / 2.0) / BlockSize(size, n))
  }

  /** What the index says about the position: a non-negative index names a cell
      whose stretch holds it, except that truncation toward zero also sends the
      strip of one cell width below the low edge to 0; the index is negative only
      further down, and below `n` exactly below the far edge. So an index in
      `[0, n)` comes out exactly for the positions in `(Edge(-1), Edge(n))`. */
  lemma BlockIndexBounds(rel: real, size: real, n: nat)
    requires size > 0.0 && n > 0
    ensures var k := BlockIndex(rel, size, n);
            0 <= k ==> (Edge(size, n, k) <= rel < Edge(size, n, k + 1)) ||
                       (k == 0 && Edge(size, n, -1) < rel < Edge(size, n, 0))
    ensures BlockIndex(rel, size, n) < 0 <==> rel <= Edge(size, n, -1)
    ensures BlockIndex(rel, size, n) < n <==> rel < Edge(size, n, n)
  {
    ScaledTruncation(rel + size / 2.0, BlockSize(size, n), n);
  }

  /** Truncation toward zero, read as cell numbers: a non-negative result `k`
      has `t` in `[k, k + 1)`, or in `(-1, 0)` for `k == 0`; a negative one has
      `t <= -1`; and the result is below `n` exactly when `t` is. */
  lemma TruncationBounds(t: real, n: nat)
    requires n > 0
    ensures var k := TruncateToInt(t);
            0 <= k ==> (k as real <= t < (k + 1) as real) || (k == 0 && -1 as real < t < 0 as real)
    ensures TruncateToInt(t) < 0 <==> t <= -1 as real
    ensures TruncateToInt(t) < n <==> t < n as real
  {
  }

  /** The same bounds for `(int)(a / bs)`, multiplied out by the cell side `bs`. */
  lemma ScaledTruncation(a: real, bs: real, n: nat)
    requires bs > 0.0 && n > 0
    ensures var k := TruncateToInt(a / bs);
            0 <= k ==> (bs * k as real <= a < bs * (k + 1) as real) || (k == 0 && bs * (-1) as real < a < bs * 0 as real)
    ensures TruncateToInt(a / bs) < 0 <==> a <= bs * (-1) as real
    ensures TruncateToInt(a / bs) < n <==> a < bs * n as real
  {
    var k := TruncateToInt(a / bs);
    TruncationBounds(a / bs, n);
    DivideBounds(a, bs, k);
    DivideBounds(a, bs, k + 1);
    DivideBounds(a, bs, -1);
    DivideBounds(a, bs, 0);
    DivideBounds(a, bs, n);
  }

  lemma DivideBounds(a: real, b: real, k: int)
    requires b > 0.0
    ensures k as real <= a / b <==> b * k as real <= a
    ensures a / b < k as real <==> a < b * k as real
    ensures k as real < a / b <==> b * k as real < a
  {
    var t := a / b;
    assert t * b == a;
    if k as real <= t {
      assert b * k as real <= b * t;
    }
    if b * k as real <= a {
      assert b * (t - k as real) >= 0.0;
    }
    if t < k as real {
      assert b * t < b * k as real;
    }
    if a < b * k as real {
      assert b * (k as real - t) > 0.0;
    }
    if k as real < t {
      assert b * k as real < b * t;
    }
    if b * k as real < a {
      assert b * (t - k as real) > 0.0;
    }
  }

  lemma EdgeOrder(size: real, n: nat, k: int, m: int)
    requires size > 0.0 && n > 0 && k <= m
    ensures Edge(size, n, k) <= Edge(size, n, m)
  {
    var bs := BlockSize(size, n);
    assert bs > 0.0;
    assert bs * (m - k) as real >= 0.0;
  }

  /** Which positions land in cell `k` along one axis: exactly those on the cell's
      own half-open stretch `[Edge(k), Edge(k + 1))`, plus, for `k == 0` only, the
      strip of one cell width just below the region's low edge, which truncation
      toward zero sends to index 0 as well. */
  lemma {:induction false} BlockIndexIff(rel: real, size: real, n: nat, k: int)
    requires size > 0.0 && n > 0 && 0 <= k
    ensures BlockIndex(rel, size, n) == k <==>
              (Edge(size, n, k) <= rel < Edge(size, n, k + 1)) ||
              (k == 0 && Edge(size, n, -1) < rel < Edge(size, n, 0))
  {
    var bs := BlockSize(size, n);
    var a := rel + size / 2.0;
    var t := a / bs;
    DivideBounds(a, bs, k);
    DivideBounds(a, bs, k + 1);
    DivideBounds(a, bs, -1);
    DivideBounds(a, bs, 0);
    assert Edge(size, n, k) <= rel <==> bs * k as real <= a;
    assert rel < Edge(size, n, k + 1) <==> a < bs * (k + 1) as real;
    assert Edge(size, n, -1) < rel <==> bs * (-1) as real < a;
    assert rel < Edge(size, n, 0) <==> a < bs * 0 as real;
  }

  /** The region's two edges: the far edge `+halfSize` is the grid line `n` and is
      rejected, the low edge `-halfSize` is the grid line 0 and lands in cell 0. */
  lemma {:induction false} RegionEdges(size: real, n: nat)
    requires size > 0.0 && n > 0
    ensures Edge(size, n, n) == size / 2.0 && Edge(size, n, 0) == -size / 2.0
    ensures BlockIndex(size / 2.0, size, n) == n
    ensures BlockIndex(-size / 2.0, size, n) == 0
  {
    var bs := BlockSize(size, n);
    assert bs * n as real == size;
    assert (size / 2.0 + size / 2.0) / bs == n as real;
    assert (-size / 2.0 + size / 2.0) / bs == 0.0;
  }
}
