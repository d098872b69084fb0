/** `IntBoundary`: a half-open integer box [a, b) with its dimensions, the Y-Z-X
    linearisation every bulk copy relies on, and the `iterYzx` iterator. */
module Bounds {
  import opened Vec

  /** The box [a, b); `dim` is cached as b - a by `New`. */
  datatype IntBoundary = IntBoundary(a: IVec3, b: IVec3, dim: IVec3)

  /** What `New` establishes: corners ordered and the dimensions consistent with them. */
  predicate Normal(bd: IntBoundary) {
    Le(bd.a, bd.b) && bd.dim == Sub(bd.b, bd.a)
  }

  /** `IntBoundary.new(a, b)`: the corners are normalised to their componentwise min and max. */
  function New(p: IVec3, q: IVec3): (bd: IntBoundary)
    ensures Normal(bd)
  {
    IntBoundary(Min(p, q), Max(p, q), Sub(Max(p, q), Min(p, q)))
  }

  /** The box with no points, at the origin (the initial bounds of a volume). */
  function Zero(): IntBoundary { New(Splat(0), Splat(0)) }

  function Volume(bd: IntBoundary): int { Prod(bd.dim) }

  predicate ValInRange(v: int, lo: int, hi: int) { lo <= v < hi }

  predicate RangeIntersect(s1: int, e1: int, s2: int, e2: int) { s1 < e2 && e1 > s2 }

  predicate PosInside(bd: IntBoundary, p: IVec3) {
    ValInRange(p.x, bd.a.x, bd.b.x) && ValInRange(p.y, bd.a.y, bd.b.y) && ValInRange(p.z, bd.a.z, bd.b.z)
  }

  predicate Intersects(b1: IntBoundary, b2: IntBoundary) {
    RangeIntersect(b1.a.x, b1.b.x, b2.a.x, b2.b.x)
    && RangeIntersect(b1.a.y, b1.b.y, b2.a.y, b2.b.y)
    && RangeIntersect(b1.a.z, b1.b.z, b2.a.z, b2.b.z)
  }

  predicate PosOnMinBorder(bd: IntBoundary, p: IVec3) { p.x == bd.a.x || p.y == bd.a.y || p.z == bd.a.z }

  predicate PosOnMaxBorder(bd: IntBoundary, p: IVec3) {
    p.x == bd.b.x - 1 || p.y == bd.b.y - 1 || p.z == bd.b.z - 1
  }

  predicate PosOnBorder(bd: IntBoundary, p: IVec3) { PosOnMinBorder(bd, p) || PosOnMaxBorder(bd, p) }

  /** `fullyInside` of the vector library: every point of `inner` is a point of `outer`
      (stated on the corners, which is what it means for normal boxes). */
  predicate FullyInside(inner: IntBoundary, outer: IntBoundary) {
    Le(outer.a, inner.a) && Le(inner.b, outer.b)
  }

  /** Index of p in a flat array laid out Y-major, then Z, then X. */
  function PosToYzxIdx(bd: IntBoundary, p: IVec3): int {
    var l := Sub(p, bd.a);
    l.x + l.z * bd.dim.x + l.y * bd.dim.x * bd.dim.z
  }

  /** The point whose Y-Z-X index is k: the inverse of `PosToYzxIdx`. */
  function PointAt(bd: IntBoundary, k: int): IVec3
    requires bd.dim.x > 0 && bd.dim.z > 0
  {
    var r := k / bd.dim.x;
    IVec3(bd.a.x + k % bd.dim.x, bd.a.y + r / bd.dim.z, bd.a.z + r % bd.dim.z)
  }

  function GetClampedInside(bd: IntBoundary, container: IntBoundary): IntBoundary {
    New(Clamp(bd.a, container.a, container.b), Clamp(bd.b, container.a, container.b))
  }

  /** The point form of `getClampedInside`: p forced into [a, b - 1]. */
  function ClampPoint(bd: IntBoundary, p: IVec3): IVec3 { Clamp(p, bd.a, AddScalar(bd.b, -1)) }

  /** `withMidpoint`: a box of the same dimensions whose low corner is `point - dims / 2`. */
  function WithMidpoint(bd: IntBoundary, point: IVec3): IntBoundary {
    var low := Sub(point, IVec3(bd.dim.x / 2, bd.dim.y / 2, bd.dim.z / 2));
    New(low, Add(low, bd.dim))
  }

  /** `move(v)`; the vector library's `shift` is the same translation. */
  function Move(bd: IntBoundary, v: IVec3): IntBoundary { New(Add(bd.a, v), Add(bd.b, v)) }

  function Expand(bd: IntBoundary, d: IVec3): IntBoundary { New(Sub(bd.a, d), Add(bd.b, d)) }

  // ---------------------------------------------------------------------------
  // Properties

  /** Normalisation: `New` contains exactly the points between the smaller and the larger corner,
      does not depend on the order of its arguments and leaves a normal box unchanged. */
  lemma NewProperties(p: IVec3, q: IVec3, r: IVec3)
    ensures New(p, q) == New(q, p)
    ensures PosInside(New(p, q), r) <==> Le(Min(p, q), r) && Le(r, AddScalar(Max(p, q), -1))
    ensures New(p, q).dim.x >= 0 && New(p, q).dim.y >= 0 && New(p, q).dim.z >= 0
  {
  }

  lemma NewOfNormal(bd: IntBoundary)
    requires Normal(bd)
    ensures New(bd.a, bd.b) == bd
  {
  }

  /** A box with at least one point on every axis. */
  predicate NonEmpty(bd: IntBoundary) { bd.a.x < bd.b.x && bd.a.y < bd.b.y && bd.a.z < bd.b.z }

  /** Strict half-open overlap on every axis is symmetric and, for boxes that are not empty,
      exactly "the boxes share a point". */
  lemma IntersectsIffCommonPoint(b1: IntBoundary, b2: IntBoundary)
    requires NonEmpty(b1) && NonEmpty(b2)
    ensures Intersects(b1, b2) == Intersects(b2, b1)
    ensures Intersects(b1, b2) <==> exists p :: PosInside(b1, p) && PosInside(b2, p)
  {
    if Intersects(b1, b2) {
      var p := Max(b1.a, b2.a);
      assert PosInside(b1, p) && PosInside(b2, p);
    }
  }

  /** `getClampedInside` is the intersection with the container, so it lies inside the container. */
  lemma ClampedIsIntersection(bd: IntBoundary, container: IntBoundary, p: IVec3)
    requires Normal(bd) && Normal(container)
    ensures FullyInside(GetClampedInside(bd, container), container)
    ensures PosInside(GetClampedInside(bd, container), p) <==> PosInside(bd, p) && PosInside(container, p)
  {
  }

  /** Clamping a point into a non-empty box lands inside it and leaves inside points alone. */
  lemma ClampPointInside(bd: IntBoundary, p: IVec3)
    requires NonEmpty(bd)
    ensures PosInside(bd, ClampPoint(bd, p))
    ensures PosInside(bd, p) ==> ClampPoint(bd, p) == p
  {
  }

  /** `withMidpoint` keeps the dimensions of a normal box and puts `point` inside it when the box
      is not empty. */
  lemma WithMidpointProperties(bd: IntBoundary, point: IVec3)
    requires Normal(bd)
    ensures WithMidpoint(bd, point).dim == bd.dim
    ensures NonEmpty(bd) ==> PosInside(WithMidpoint(bd, point), point)
  {
  }

  lemma FullyInsideContains(inner: IntBoundary, outer: IntBoundary, p: IVec3)
    requires FullyInside(inner, outer) && PosInside(inner, p)
    ensures PosInside(outer, p)
  {
  }

  /** `move` translates every point; `expand` by a non-negative margin only adds points. */
  lemma MoveAndExpand(bd: IntBoundary, v: IVec3, p: IVec3)
    requires Normal(bd)
    ensures PosInside(Move(bd, v), Add(p, v)) <==> PosInside(bd, p)
    ensures Move(bd, v).dim == bd.dim
    ensures Le(Splat(0), v) && PosInside(bd, p) ==> PosInside(Expand(bd, v), p)
  {
  }

  /** A point of the box that is not on its border has all six neighbours inside the box,
      and a point on the min (max) border has a neighbour below (above) it outside. */
  lemma BorderMeaning(bd: IntBoundary, p: IVec3)
    requires PosInside(bd, p)
    ensures PosOnMinBorder(bd, p) <==>
      !PosInside(bd, Sub(p, IVec3(1, 0, 0))) || !PosInside(bd, Sub(p, IVec3(0, 1, 0))) || !PosInside(bd, Sub(p, IVec3(0, 0, 1)))
    ensures PosOnMaxBorder(bd, p) <==>
      !PosInside(bd, Add(p, IVec3(1, 0, 0))) || !PosInside(bd, Add(p, IVec3(0, 1, 0))) || !PosInside(bd, Add(p, IVec3(0, 0, 1)))
  {
  }

  lemma MulPos(a: int, b: int)
    requires a >= 0 && b >= 0
    ensures a * b >= 0
  {
  }

  lemma MulMono(a: int, b: int, c: int)
    requires 0 <= a <= b && c >= 0
    ensures a * c <= b * c
  {
  }

  /** Horner form of the index: l.x + dx * (l.z + dz * l.y). */
  lemma YzxIdxHorner(bd: IntBoundary, p: IVec3)
    ensures PosToYzxIdx(bd, p)
         == Sub(p, bd.a).x + bd.dim.x * (Sub(p, bd.a).z + bd.dim.z * Sub(p, bd.a).y)
  {
    var l := Sub(p, bd.a);
    var dx, dz := bd.dim.x, bd.dim.z;
    calc {
      l.z * dx + l.y * dx * dz;
      { assert l.y * dx * dz == dx * (dz * l.y); }
      dx * l.z + dx * (dz * l.y);
      dx * (l.z + dz * l.y);
    }
  }

  /** The Y-Z-X index of an inside point lies in [0, dx*dy*dz). */
  lemma YzxIdxInRange(bd: IntBoundary, p: IVec3)
    requires Normal(bd) && PosInside(bd, p)
    ensures 0 <= PosToYzxIdx(bd, p) < Volume(bd)
  {
    var l := Sub(p, bd.a);
    YzxIdxHorner(bd, p);
    HornerBound(l.x, l.y, l.z, bd.dim.x, bd.dim.y, bd.dim.z);
    VolumeAssoc(bd.dim.x, bd.dim.y, bd.dim.z);
  }

  /** Mixed-radix digits below their radices give a number below the product of the radices. */
  lemma HornerBound(lx: int, ly: int, lz: int, dx: int, dy: int, dz: int)
    requires 0 <= lx < dx && 0 <= ly < dy && 0 <= lz < dz
    ensures 0 <= lx + dx * (lz + dz * ly) < dx * (dz * dy)
  {
    var inner := lz + dz * ly;
    InnerBound(ly, lz, dy, dz);
    MulPos(dx, inner);
    MulMono(inner, dz * dy - 1, dx);
    assert inner * dx == dx * inner;
    assert (dz * dy - 1) * dx == dx * (dz * dy) - dx;
  }

  lemma InnerBound(ly: int, lz: int, dy: int, dz: int)
    requires 0 <= ly < dy && 0 <= lz < dz
    ensures 0 <= lz + dz * ly <= dz * dy - 1
  {
    MulPos(dz, ly);
    MulMono(ly, dy - 1, dz);
    assert ly * dz == dz * ly;
    assert (dy - 1) * dz == dz * dy - dz;
  }

  lemma VolumeAssoc(dx: int, dy: int, dz: int)
    ensures dx * dy * dz == dx * (dz * dy)
  {
  }

  /** `PointAt` inverts `PosToYzxIdx` on the points of the box. */
  lemma PointAtYzxIdx(bd: IntBoundary, p: IVec3)
    requires Normal(bd) && PosInside(bd, p)
    ensures bd.dim.x > 0 && bd.dim.z > 0 && PointAt(bd, PosToYzxIdx(bd, p)) == p
  {
    var l := Sub(p, bd.a);
    var dx, dz := bd.dim.x, bd.dim.z;
    YzxIdxHorner(bd, p);
    var k := PosToYzxIdx(bd, p);
    DivModUnique(l.z + dz * l.y, l.x, dx);
    assert (l.z + dz * l.y) * dx == dx * (l.z + dz * l.y);
    assert k / dx == l.z + dz * l.y && k % dx == l.x;
    DivModUnique(l.y, l.z, dz);
    assert l.y * dz == dz * l.y;
  }

  /** The quotient/remainder digits of k in the mixed radix (dx, dz) recombine to k. */
  lemma MixedRadix(k: int, dx: int, dz: int)
    requires dx > 0 && dz > 0
    ensures k == k % dx + dx * ((k / dx) % dz + dz * ((k / dx) / dz))
  {
    var r := k / dx;
    assert k == dx * r + k % dx;
    assert r == dz * (r / dz) + r % dz;
  }

  /** A k below dx*(dz*dy) has its top digit below dy. */
  lemma TopDigitBound(k: int, dx: int, dy: int, dz: int)
    requires dx > 0 && dz > 0 && 0 <= k < dx * (dz * dy)
    ensures 0 <= (k / dx) / dz < dy
  {
    var r := k / dx;
    DivModSplit(k, dx);
    QuotientBelow(k, r, dx, dz * dy);
    DigitBelow(r, dy, dz);
  }

  lemma DigitBelow(r: int, dy: int, dz: int)
    requires dz > 0 && 0 <= r < dz * dy
    ensures 0 <= r / dz < dy
  {
    DivModSplit(r, dz);
    QuotientBelow(r, r / dz, dz, dy);
  }

  lemma DivModSplit(n: int, d: int)
    requires d > 0
    ensures n == (n / d) * d + n % d && 0 <= n % d < d
  {
  }

  /** If n = q*d + (something in [0, d)) and n < d*m then q < m. */
  lemma QuotientBelow(n: int, q: int, d: int, m: int)
    requires d > 0 && q * d <= n < d * m
    ensures q < m
  {
    if q >= m {
      MulMono(m, q, d);
    }
  }

  lemma HornerDistrib(lx: int, ly: int, lz: int, dx: int, dz: int)
    ensures lx + dx * (lz + dz * ly) == lx + lz * dx + ly * dx * dz
  {
  }

  /** The mixed-radix digits of k in [0, dx*dy*dz) are in range and recombine, in the Y-Z-X
      layout, to k. */
  lemma YzxDigits(k: int, dx: int, dy: int, dz: int)
    requires dx > 0 && dz > 0 && 0 <= k < dx * dy * dz
    ensures 0 <= k % dx < dx && 0 <= (k / dx) % dz < dz && 0 <= (k / dx) / dz < dy
    ensures k == k % dx + ((k / dx) % dz) * dx + ((k / dx) / dz) * dx * dz
  {
    assert dx * dy * dz == dx * (dz * dy);
    TopDigitBound(k, dx, dy, dz);
    MixedRadix(k, dx, dz);
    HornerDistrib(k % dx, (k / dx) / dz, (k / dx) % dz, dx, dz);
  }

  /** ... and `PosToYzxIdx` inverts `PointAt` on [0, volume): together a bijection between
      the points of the box and the indices [0, dx*dy*dz). */
  lemma YzxIdxPointAt(bd: IntBoundary, k: int)
    requires Normal(bd) && bd.dim.x > 0 && bd.dim.z > 0 && 0 <= k < Volume(bd)
    ensures PosInside(bd, PointAt(bd, k)) && PosToYzxIdx(bd, PointAt(bd, k)) == k
  {
    YzxDigits(k, bd.dim.x, bd.dim.y, bd.dim.z);
    var p := PointAt(bd, k);
    assert Sub(p, bd.a) == IVec3(k % bd.dim.x, (k / bd.dim.x) / bd.dim.z, (k / bd.dim.x) % bd.dim.z);
  }

  /** Two inside points with the same index are the same point. */
  lemma YzxIdxInjective(bd: IntBoundary, p: IVec3, q: IVec3)
    requires Normal(bd) && PosInside(bd, p) && PosInside(bd, q)
    requires PosToYzxIdx(bd, p) == PosToYzxIdx(bd, q)
    ensures p == q
  {
    PointAtYzxIdx(bd, p);
    PointAtYzxIdx(bd, q);
  }

  /** Moving one step along X inside the box moves the index by one (rows are contiguous). */
  lemma YzxIdxRow(bd: IntBoundary, p: IVec3, i: int)
    ensures PosToYzxIdx(bd, IVec3(p.x + i, p.y, p.z)) == PosToYzxIdx(bd, p) + i
  {
  }

  // ---------------------------------------------------------------------------
  // iterYzx

  /** One `next()` step of the iterator: X advances, wraps into Z, which wraps into Y. */
  function Step(bd: IntBoundary, c: IVec3): IVec3 {
    if c.x + 1 >= bd.b.x then
      if c.z + 1 >= bd.b.z then IVec3(bd.a.x, c.y + 1, bd.a.z) else IVec3(bd.a.x, c.y, c.z + 1)
    else IVec3(c.x + 1, c.y, c.z)
  }

  lemma DivModSucc(k: int, d: int)
    requires d > 0 && k >= 0
    ensures k % d + 1 < d ==> (k + 1) % d == k % d + 1 && (k + 1) / d == k / d
    ensures k % d + 1 >= d ==> (k + 1) % d == 0 && (k + 1) / d == k / d + 1
  {
    assert k == (k / d) * d + k % d;
    if k % d + 1 < d {
      DivModUnique(k / d, k % d + 1, d);
    } else {
      assert k + 1 == (k / d + 1) * d + 0;
      DivModUnique(k / d + 1, 0, d);
    }
  }

  /** On a box with positive dimensions the iterator's step takes the k-th Y-Z-X point to the
      (k+1)-th; this is what makes `iterYzx` agree with `PosToYzxIdx`. */
  lemma {:induction false} StepPointAt(bd: IntBoundary, k: int)
    requires Normal(bd) && bd.dim.x > 0 && bd.dim.z > 0 && k >= 0
    ensures Step(bd, PointAt(bd, k)) == PointAt(bd, k + 1)
  {
    var dx, dz := bd.dim.x, bd.dim.z;
    DivModSucc(k, dx);
    var r := k / dx;
    assert r >= 0;
    DivModSucc(r, dz);
  }

  /** The first point and the point after the last one are where the iterator starts and stops. */
  lemma PointAtEnds(bd: IntBoundary)
    requires Normal(bd) && bd.dim.x > 0 && bd.dim.z > 0
    ensures PointAt(bd, 0) == bd.a
    ensures PointAt(bd, Volume(bd)) == IVec3(bd.a.x, bd.b.y, bd.a.z)
  {
    var dx, dy, dz := bd.dim.x, bd.dim.y, bd.dim.z;
    var v := Volume(bd);
    assert v == (dy * dz) * dx;
    DivModUnique(dy * dz, 0, dx);
    assert v / dx == dy * dz && v % dx == 0;
    DivModUnique(dy, 0, dz);
  }

  /** Points of a box before the end of the iteration are those with y below the top face. */
  lemma PointAtBelowTop(bd: IntBoundary, k: int)
    requires Normal(bd) && bd.dim.x > 0 && bd.dim.z > 0 && 0 <= k <= Volume(bd)
    ensures PointAt(bd, k).y < bd.b.y <==> k < Volume(bd)
  {
    if k < Volume(bd) {
      YzxIdxPointAt(bd, k);
    } else {
      PointAtEnds(bd);
    }
  }

  /** As written, `hasNext` only looks at y, so on a box with no width along X (or Z) but some
      height the iterator still yields its corner, a point that is not in the box. */
  lemma IterYzxYieldsOutsidePoint()
    ensures New(IVec3(0, 0, 0), IVec3(0, 1, 1)).a.y < New(IVec3(0, 0, 0), IVec3(0, 1, 1)).b.y
    ensures New(IVec3(0, 0, 0), IVec3(0, 1, 1)).a == IVec3(0, 0, 0)
    ensures forall p :: !PosInside(New(IVec3(0, 0, 0), IVec3(0, 1, 1)), p)
  {
    var bd := New(IVec3(0, 0, 0), IVec3(0, 1, 1));
    assert bd.a == IVec3(0, 0, 0) && bd.b == IVec3(0, 1, 1);
  }

  /** Running the as-written iterator over a box with height but no width along X or Z: the
      guard admits a first point, the box's lower corner, which the box does not contain. A walk
      that indexes an array of the box's `Volume` cells by that point reads past its end. */
  method FirstYieldOfFlatBox(bd: IntBoundary) returns (hasNext: bool, p: IVec3)
    requires Normal(bd) && bd.dim.y > 0 && (bd.dim.x == 0 || bd.dim.z == 0)
    ensures hasNext && p == bd.a && !PosInside(bd, p) && Volume(bd) == 0
  {
    var it := new YzxIter(bd);
    hasNext := it.HasNext();
    p := it.Next();
  }

  /** The iterator object of `iterYzx`, with its three mutable counters. `yielded` counts the
      points returned so far. */
  class YzxIter {
    const box: IntBoundary
    var x: int
    var y: int
    var z: int
    ghost var yielded: nat

    /** The counters sit on the `yielded`-th point of the box (meaningful for positive dimensions). */
    ghost predicate Valid()
      reads this
    {
      Normal(box) && box.dim.x > 0 && box.dim.z > 0 && yielded <= Volume(box)
      && IVec3(x, y, z) == PointAt(box, yielded)
    }

    constructor (bd: IntBoundary)
      ensures box == bd && IVec3(x, y, z) == bd.a && yielded == 0
      ensures Normal(bd) && bd.dim.x > 0 && bd.dim.z > 0 ==> Valid()
    {
      box := bd;
      x, y, z := bd.a.x, bd.a.y, bd.a.z;
      yielded := 0;
      new;
      if Normal(bd) && bd.dim.x > 0 && bd.dim.z > 0 {
        PointAtEnds(bd);
      }
    }

    predicate HasNext()
      reads this
    {
      y < box.b.y
    }

    /** The guard `hasNext` evidently intends: a box with no width along X or Z has no points,
        whatever its height. */
    predicate HasNextInside()
      reads this
    {
      box.dim.x > 0 && box.dim.z > 0 && y < box.b.y
    }

    method Next() returns (p: IVec3)
      modifies this
      ensures p == old(IVec3(x, y, z))
      ensures IVec3(x, y, z) == Step(box, p) && yielded == old(yielded) + 1
      ensures old(Valid()) && old(HasNext()) ==> Valid() && p == PointAt(box, old(yielded))
    {
      p := IVec3(x, y, z);
      ghost var wasValid := Valid();
      ghost var hadNext := HasNext();
      x := x + 1;
      if x >= box.b.x {
        x := box.a.x;
        z := z + 1;
        if z >= box.b.z {
          z := box.a.z;
          y := y + 1;
        }
      }
      yielded := yielded + 1;
      if wasValid && hadNext {
        StepPointAt(box, yielded - 1);
        PointAtBelowTop(box, yielded - 1);
      }
    }
  }

  /** The iteration with the corrected guard, on any normal box: exactly the box's points, in
      Y-Z-X order (none when a dimension is 0). */
  method CollectYzxInside(bd: IntBoundary) returns (ps: seq<IVec3>)
    requires Normal(bd)
    ensures |ps| == Volume(bd)
    ensures forall k :: 0 <= k < |ps| ==> PosInside(bd, ps[k]) && PosToYzxIdx(bd, ps[k]) == k
  {
    var it := new YzxIter(bd);
    ps := [];
    var positive := bd.dim.x > 0 && bd.dim.z > 0;
    MulPos(bd.dim.x, bd.dim.y);
    MulPos(bd.dim.x * bd.dim.y, bd.dim.z);
    while it.HasNextInside()
      invariant it.box == bd && |ps| == it.yielded
      invariant positive ==> it.Valid()
      invariant !positive ==> ps == []
      invariant forall k :: 0 <= k < |ps| ==> positive && ps[k] == PointAt(bd, k)
      decreases Volume(bd) - it.yielded
    {
      PointAtBelowTop(bd, it.yielded);
      var p := it.Next();
      ps := ps + [p];
    }
    if positive {
      PointAtBelowTop(bd, it.yielded);
      forall k | 0 <= k < |ps|
        ensures PosInside(bd, ps[k]) && PosToYzxIdx(bd, ps[k]) == k
      {
        YzxIdxPointAt(bd, k);
      }
    } else {
      assert Volume(bd) == 0;
    }
  }

  /** Runs `iterYzx` to exhaustion on a box with positive dimensions: it yields exactly
      dx*dy*dz points, the k-th of which has Y-Z-X index k. */
  method CollectYzx(bd: IntBoundary) returns (ps: seq<IVec3>)
    requires Normal(bd) && bd.dim.x > 0 && bd.dim.z > 0
    ensures |ps| == Volume(bd)
    ensures forall k :: 0 <= k < |ps| ==> PosInside(bd, ps[k]) && PosToYzxIdx(bd, ps[k]) == k
  {
    var it := new YzxIter(bd);
    ps := [];
    MulPos(bd.dim.x, bd.dim.y);
    MulPos(bd.dim.x * bd.dim.y, bd.dim.z);
    while it.HasNext()
      invariant it.Valid() && it.box == bd && |ps| == it.yielded
      invariant forall k :: 0 <= k < |ps| ==> ps[k] == PointAt(bd, k)
      decreases Volume(bd) - it.yielded
    {
      PointAtBelowTop(bd, it.yielded);
      var p := it.Next();
      ps := ps + [p];
    }
    PointAtBelowTop(bd, it.yielded);
    forall k | 0 <= k < |ps|
      ensures PosInside(bd, ps[k]) && PosToYzxIdx(bd, ps[k]) == k
    {
      YzxIdxPointAt(bd, k);
    }
  }
}
