/**
 * Points of the mesh benchmark (mesh/point.hpp): immutable integer
 * coordinates, their hash and canonical order, and the division of the
 * x range into vertical buckets, two per worker thread, with the seams
 * between workers.
 */
module MeshPoint {
  import opened Arith
  import opened Unsigned

  /** MAX_COORD_BITS: coordinates lie in -2^24 .. 2^24 - 1. */
  const COORD_LIMIT: int := 0x100_0000
  /** MAX_WORKERS (mesh/common.hpp) */
  const MAX_WORKERS: int := 32

  predicate InRange(c: int)
  {
    -COORD_LIMIT <= c < COORD_LIMIT
  }

  /** point: its two coordinates (the first_edge field is not modelled). */
  datatype Point = Point(x: int, y: int)

  predicate ValidPoint(p: Point)
  {
    InRange(p.x) && InRange(p.y)
  }

  /** The 32-bit two's complement pattern of an int, as an unsigned number. */
  function Bits(c: int): (u: nat)
    requires -0x8000_0000 <= c < 0x8000_0000
    ensures u < U32
  {
    if c < 0 then c + U32 else c
  }

  /** Bitwise exclusive or of the low `n` bits of `a` and `b`. */
  function Xor(a: nat, b: nat, n: nat): (r: nat)
    ensures r < Pow2(n)
  {
    if n == 0 then 0 else 2 * Xor(a / 2, b / 2, n - 1) + (a % 2 + b % 2) % 2
  }

  lemma {:induction false} XorSymmetric(a: nat, b: nat, n: nat)
    ensures Xor(a, b, n) == Xor(b, a, n)
  {
    if n > 0 {
      XorSymmetric(a / 2, b / 2, n - 1);
    }
  }

  lemma {:induction false} XorSelf(a: nat, n: nat)
    ensures Xor(a, a, n) == 0
  {
    if n > 0 {
      XorSelf(a / 2, n - 1);
    }
  }

  /**
   * hash: `x ^ y` on int, converted to size_t, so a negative result is
   * sign-extended to 64 bits.
   */
  function Hash(p: Point): (h: nat)
    requires ValidPoint(p)
    ensures h < U64
  {
    Pow2Of32();
    var v := Xor(Bits(p.x), Bits(p.y), 32);
    if v < 0x8000_0000 then v else v - U32 + U64
  }

  /** The hash ignores the order of the coordinates, and is zero on the diagonal. */
  lemma HashSymmetric(p: Point)
    requires ValidPoint(p)
    ensures Hash(p) == Hash(Point(p.y, p.x))
    ensures p.x == p.y ==> Hash(p) == 0
  {
    XorSymmetric(Bits(p.x), Bits(p.y), 32);
    XorSelf(Bits(p.x), 32);
  }

  /** operator==: equal coordinates. */
  predicate Equal(p: Point, q: Point)
  {
    p.x == q.x && p.y == q.y
  }

  /** operator<: lexicographic on (x, y). */
  predicate Less(p: Point, q: Point)
  {
    p.x < q.x || (p.x == q.x && p.y < q.y)
  }

  /** operator< is a strict total order, the one the fine-grained locking sorts points by. */
  lemma LessIsStrictTotalOrder(p: Point, q: Point, r: Point)
    ensures !Less(p, p)
    ensures Less(p, q) && Less(q, r) ==> Less(p, r)
    ensures Less(p, q) ==> !Less(q, p)
    ensures Less(p, q) || Less(q, p) || Equal(p, q)
    ensures Equal(p, q) <==> p == q
  {
  }

  /** The facts bucket relies on: the coordinate range and worker count it was sized for. */
  predicate Layout(minX: int, maxX: int, numWorkers: int)
  {
    InRange(minX) && InRange(maxX) && minX <= maxX && 1 <= numWorkers <= MAX_WORKERS
  }

  /**
   * bucket: scale the x offset into 2 * num_workers equal slices of the
   * range.  The numerator is never negative, so C's truncating division
   * agrees with Dafny's.
   */
  function Bucket(p: Point, minX: int, maxX: int, numWorkers: int): (b: int)
    requires Layout(minX, maxX, numWorkers) && minX <= p.x <= maxX
    ensures 0 <= b < 2 * numWorkers
  {
    BucketRange(p.x, minX, maxX, numWorkers);
    ((p.x - minX) * numWorkers * 2) / (maxX - minX + 1)
  }

  /** The scaled offset of a coordinate within [lo, hi] is one of the 2 * w slices. */
  lemma BucketRange(x: int, lo: int, hi: int, w: int)
    requires lo <= x <= hi && 1 <= w
    ensures 0 <= ((x - lo) * w * 2) / (hi - lo + 1) < 2 * w
  {
    var span: nat := hi - lo + 1;
    var off: nat := x - lo;
    ScaledOffset(off, w);
    SliceBelow(off, span, 2 * w);
    MulMonotone(0, off, 2 * w);
    assert 0 <= off * (2 * w);
  }

  lemma ScaledOffset(off: nat, numWorkers: nat)
    ensures off * numWorkers * 2 == off * (2 * numWorkers)
  {
  }

  /** An offset inside the range scales to one of the n slices. */
  lemma SliceBelow(off: nat, span: nat, n: nat)
    requires off < span && 1 <= n
    ensures (off * n) / span < n
  {
    MulMonotone(off + 1, span, n);
    DivBelow(off * n, span, n);
  }

  /** The last offset of a range at least n wide falls in the last slice. */
  lemma LastSlice(span: nat, n: nat)
    requires 1 <= n <= span
    ensures ((span - 1) * n) / span == n - 1
  {
    var top := (span - 1) * n;
    assert top == span * n - n;
    assert span * (n - 1) == span * n - span;
    DivOfMultiple(span, n - 1);
    DivMonotone(span * (n - 1), top, span);
    SliceBelow(span - 1, span, n);
  }

  /** The intermediate product of bucket fits in a 32-bit int. */
  lemma BucketDoesNotOverflow(p: Point, minX: int, maxX: int, numWorkers: int)
    requires Layout(minX, maxX, numWorkers) && minX <= p.x <= maxX
    ensures 0 <= (p.x - minX) * numWorkers * 2 < 0x8000_0000
  {
    var off: nat := p.x - minX;
    assert off < 2 * COORD_LIMIT;
    MulMonotone(2 * numWorkers, 64, off);
    assert off * numWorkers * 2 == (2 * numWorkers) * off;
  }

  /** Points further right never fall in an earlier bucket. */
  lemma BucketMonotone(p: Point, q: Point, minX: int, maxX: int, numWorkers: int)
    requires Layout(minX, maxX, numWorkers) && minX <= p.x <= q.x <= maxX
    ensures Bucket(p, minX, maxX, numWorkers) <= Bucket(q, minX, maxX, numWorkers)
  {
    var span: nat := maxX - minX + 1;
    var n: nat := 2 * numWorkers;
    var offP: nat, offQ: nat := p.x - minX, q.x - minX;
    MulMonotone(offP, offQ, n);
    ScaledOffset(offP, numWorkers);
    ScaledOffset(offQ, numWorkers);
    DivMonotone(offP * n, offQ * n, span);
  }

  /**
   * The leftmost point of the range takes the first bucket, and, when the
   * range is at least as wide as the number of buckets, the rightmost
   * takes the last.
   */
  lemma BucketEnds(minX: int, maxX: int, numWorkers: int, y: int)
    requires Layout(minX, maxX, numWorkers)
    ensures Bucket(Point(minX, y), minX, maxX, numWorkers) == 0
    ensures maxX - minX + 1 >= 2 * numWorkers ==> Bucket(Point(maxX, y), minX, maxX, numWorkers) == 2 * numWorkers - 1
  {
    var span: nat := maxX - minX + 1;
    if span >= 2 * numWorkers {
      ScaledOffset(maxX - minX, numWorkers);
      LastSlice(span, 2 * numWorkers);
    }
  }

  /** stripe: the worker that owns the point's bucket during triangulation. */
  function Stripe(p: Point, minX: int, maxX: int, numWorkers: int): (s: int)
    requires Layout(minX, maxX, numWorkers) && minX <= p.x <= maxX
    ensures 0 <= s < numWorkers
    ensures s == Bucket(p, minX, maxX, numWorkers) / 2
  {
    Bucket(p, minX, maxX, numWorkers) / 2
  }

  /**
   * closest_seam: the seam (between worker s and s + 1) nearest the
   * point's bucket; the first bucket goes to seam 0 and the last to the
   * last seam.  The workers call it only when there are at least two.
   */
  function ClosestSeam(p: Point, minX: int, maxX: int, numWorkers: int): (s: int)
    requires Layout(minX, maxX, numWorkers) && minX <= p.x <= maxX && numWorkers >= 2
    ensures 0 <= s <= numWorkers - 2
  {
    var b := Bucket(p, minX, maxX, numWorkers);
    if b == 0 then 0
    else if b == numWorkers * 2 - 1 then numWorkers - 2
    else (b - 1) / 2
  }

  /**
   * Seam s serves buckets 2s+1 and 2s+2, the first seam also bucket 0 and
   * the last seam (n-2) also bucket 2n-1: worker 0 bastes buckets 0, 1 and
   * 2, and the worker on seam n-2 bastes 2n-3, 2n-2 and 2n-1.
   */
  lemma SeamServesNeighbours(p: Point, minX: int, maxX: int, numWorkers: int)
    requires Layout(minX, maxX, numWorkers) && minX <= p.x <= maxX && numWorkers >= 2
    ensures var b := Bucket(p, minX, maxX, numWorkers);
      var s := ClosestSeam(p, minX, maxX, numWorkers);
      (b == 0 ==> s == 0) &&
      (b == 2 * numWorkers - 1 ==> s == numWorkers - 2) &&
      (0 < b < 2 * numWorkers - 1 ==> b == 2 * s + 1 || b == 2 * s + 2)
  {
  }
}
