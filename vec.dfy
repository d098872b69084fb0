/** Integer 3-vectors (the `IVec3` of the vector library the volume is built on) and the
    bit-shift arithmetic the volume uses to split world positions into chunk positions. */
module Vec {

  datatype IVec3 = IVec3(x: int, y: int, z: int)

  const INT_MAX: int := 0x7FFF_FFFF
  const INT_MIN: int := -0x8000_0000

  function Splat(n: int): IVec3 { IVec3(n, n, n) }

  function Add(u: IVec3, v: IVec3): IVec3 { IVec3(u.x + v.x, u.y + v.y, u.z + v.z) }

  function Sub(u: IVec3, v: IVec3): IVec3 { IVec3(u.x - v.x, u.y - v.y, u.z - v.z) }

  function AddScalar(u: IVec3, n: int): IVec3 { IVec3(u.x + n, u.y + n, u.z + n) }

  function MulScalar(u: IVec3, n: int): IVec3 { IVec3(u.x * n, u.y * n, u.z * n) }

  function Min(u: IVec3, v: IVec3): IVec3 {
    IVec3(if u.x <= v.x then u.x else v.x, if u.y <= v.y then u.y else v.y, if u.z <= v.z then u.z else v.z)
  }

  function Max(u: IVec3, v: IVec3): IVec3 {
    IVec3(if u.x >= v.x then u.x else v.x, if u.y >= v.y then u.y else v.y, if u.z >= v.z then u.z else v.z)
  }

  /** Componentwise `lo <= v`. */
  predicate Le(u: IVec3, v: IVec3) { u.x <= v.x && u.y <= v.y && u.z <= v.z }

  /** `clamp(lo, hi)` of the vector library: each component forced into `[lo, hi]`. */
  function Clamp(v: IVec3, lo: IVec3, hi: IVec3): IVec3 { Min(Max(v, lo), hi) }

  /** Component `axis` (0 = x, 1 = y, 2 = z); the `v[axis]` of the vector library. */
  function Get(v: IVec3, axis: nat): int
    requires axis < 3
  {
    if axis == 0 then v.x else if axis == 1 then v.y else v.z
  }

  /** `withElement(axis, n)`: v with component `axis` replaced by n. */
  function With(v: IVec3, axis: nat, n: int): IVec3
    requires axis < 3
  {
    if axis == 0 then IVec3(n, v.y, v.z) else if axis == 1 then IVec3(v.x, n, v.z) else IVec3(v.x, v.y, n)
  }

  /** Product of the components (`eProd`). */
  function Prod(v: IVec3): int { v.x * v.y * v.z }

  /** Index of the largest component, the first one on ties (`indexOfMax`). */
  function IndexOfMax(v: IVec3): (axis: nat)
    ensures axis < 3
    ensures forall k :: 0 <= k < 3 ==> Get(v, k) <= Get(v, axis)
    ensures forall k :: 0 <= k < axis ==> Get(v, k) < Get(v, axis)
  {
    if v.x >= v.y && v.x >= v.z then 0 else if v.y >= v.z then 1 else 2
  }

  function Pow2(n: nat): (r: nat)
    ensures r >= 1
  {
    if n == 0 then 1 else 2 * Pow2(n - 1)
  }

  lemma {:induction false} Pow2Add(m: nat, n: nat)
    ensures Pow2(m + n) == Pow2(m) * Pow2(n)
  {
    if m > 0 {
      Pow2Add(m - 1, n);
      assert Pow2(m + n) == 2 * Pow2(m - 1 + n);
    }
  }

  lemma {:induction false} Pow2Monotone(m: nat, n: nat)
    requires m <= n
    ensures Pow2(m) <= Pow2(n)
  {
    if m < n {
      Pow2Monotone(m, n - 1);
    }
  }

  /** `v shr b`: an arithmetic right shift of a two's-complement integer is floor division
      by 2^b, which is Dafny's `/` for a positive divisor. */
  function Shr(v: IVec3, b: nat): IVec3 {
    IVec3(v.x / Pow2(b), v.y / Pow2(b), v.z / Pow2(b))
  }

  /** `v shl b`, on unbounded integers. */
  function Shl(v: IVec3, b: nat): IVec3 { MulScalar(v, Pow2(b)) }

  /** `v and (2^b - 1)`: the low b bits, i.e. the non-negative remainder modulo 2^b. */
  function AndMask(v: IVec3, b: nat): IVec3 {
    IVec3(v.x % Pow2(b), v.y % Pow2(b), v.z % Pow2(b))
  }

  /** Every position splits into its chunk position (scaled back up) plus its local offset,
      and the local offset lies in [0, 2^b) on every axis. */
  lemma ShrAndMaskSplit(v: IVec3, b: nat)
    ensures Add(Shl(Shr(v, b), b), AndMask(v, b)) == v
    ensures Le(Splat(0), AndMask(v, b)) && Le(AndMask(v, b), Splat(Pow2(b) - 1))
  {
  }

  /** The split is unique: a chunk position c and an offset l in [0, 2^b) determine the position. */
  lemma ShrOfSplit(c: IVec3, l: IVec3, b: nat)
    requires Le(Splat(0), l) && Le(l, Splat(Pow2(b) - 1))
    ensures Shr(Add(Shl(c, b), l), b) == c
    ensures AndMask(Add(Shl(c, b), l), b) == l
  {
    var s := Pow2(b);
    DivModUnique(c.x, l.x, s);
    DivModUnique(c.y, l.y, s);
    DivModUnique(c.z, l.z, s);
  }

  lemma DivModUnique(q: int, r: int, s: int)
    requires s > 0 && 0 <= r < s
    ensures (q * s + r) / s == q && (q * s + r) % s == r
  {
    var n := q * s + r;
    var q', r' := n / s, n % s;
    assert n == q' * s + r';
    if q' > q {
      assert q' * s >= (q + 1) * s by { MulLe(q + 1, q', s); }
      assert false;
    } else if q' < q {
      assert q * s >= (q' + 1) * s by { MulLe(q' + 1, q, s); }
      assert false;
    }
  }

  lemma MulLe(a: int, b: int, s: int)
    requires a <= b && s >= 0
    ensures a * s <= b * s
  {
  }
}
