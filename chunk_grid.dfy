/** The volume's addressing helpers: world position → chunk-grid position (`shr`), local offset
    (`and` mask), the chunk grid a target area needs and the block box a chunk grid covers. */
module ChunkGrid {
  import opened Vec
  import opened Bounds
  import opened Chunks

  /** `posToChunkPos`: floor division by the chunk side. */
  function PosToChunkPos(p: IVec3, b: nat): IVec3 { Shr(p, b) }

  /** `chunkPosToPos`: the chunk's lowest block. */
  function ChunkPosToPos(c: IVec3, b: nat): IVec3 { Shl(c, b) }

  /** `posToChunkLocalCoords`: the offset inside the chunk. */
  function PosToChunkLocal(p: IVec3, b: nat): IVec3 { AndMask(p, b) }

  /** The blocks of chunk c: `[c shl b, (c shl b) + S)`. */
  function ChunkBox(c: IVec3, b: nat): IntBoundary {
    New(ChunkPosToPos(c, b), AddScalar(ChunkPosToPos(c, b), Pow2(b)))
  }

  /** The chunk grid `setLoadedArea` allocates for a target area: `[a shr b, (b + S - 1) shr b)`. */
  function GridFor(area: IntBoundary, b: nat): IntBoundary {
    New(PosToChunkPos(area.a, b), PosToChunkPos(AddScalar(area.b, Pow2(b) - 1), b))
  }

  /** The blocks a chunk grid covers: both corners times S. */
  function Scaled(grid: IntBoundary, b: nat): IntBoundary {
    New(MulScalar(grid.a, Pow2(b)), MulScalar(grid.b, Pow2(b)))
  }

  /** `posBoundsToChunkBounds`: the chunks holding the first and the last block of the box. */
  function PosBoundsToChunkBounds(bd: IntBoundary, b: nat): IntBoundary {
    New(PosToChunkPos(bd.a, b), AddScalar(PosToChunkPos(AddScalar(bd.b, -1), b), 1))
  }

  // ---------------------------------------------------------------------------
  // Properties

  /** Every position is its chunk's lowest block plus its local offset, and the offset is a
      local position of the chunk. */
  lemma ChunkSplit(p: IVec3, b: nat)
    ensures Add(ChunkPosToPos(PosToChunkPos(p, b), b), PosToChunkLocal(p, b)) == p
    ensures InChunk(PosToChunkLocal(p, b), b)
  {
    ShrAndMaskSplit(p, b);
  }

  /** Chunk position and local offset together determine the position. */
  lemma ChunkSplitInjective(p: IVec3, q: IVec3, b: nat)
    requires PosToChunkPos(p, b) == PosToChunkPos(q, b) && PosToChunkLocal(p, b) == PosToChunkLocal(q, b)
    ensures p == q
  {
    ChunkSplit(p, b);
    ChunkSplit(q, b);
  }

  /** A position lies in chunk c's box exactly when its chunk position is c; its local offset is
      then its offset from the chunk's lowest block. */
  lemma InChunkBox(p: IVec3, c: IVec3, b: nat)
    ensures PosInside(ChunkBox(c, b), p) <==> PosToChunkPos(p, b) == c
    ensures PosToChunkPos(p, b) == c ==> PosToChunkLocal(p, b) == Sub(p, ChunkPosToPos(c, b))
  {
    var s := Pow2(b);
    ChunkSplit(p, b);
    if PosInside(ChunkBox(c, b), p) {
      var l := Sub(p, ChunkPosToPos(c, b));
      assert Add(Shl(c, b), l) == p;
      ShrOfSplit(c, l, b);
    }
  }

  /** Floor division by s places n between lo*s and hi*s exactly when n/s lies between lo and hi. */
  lemma FloorBetween(n: int, lo: int, hi: int, s: int)
    requires s > 0
    ensures lo * s <= n < hi * s <==> lo <= n / s < hi
  {
    var q, r := n / s, n % s;
    assert n == q * s + r && 0 <= r < s;
    if lo <= q {
      MulLe(lo, q, s);
    } else {
      MulLe(q + 1, lo, s);
    }
    if q < hi {
      MulLe(q + 1, hi, s);
    } else {
      MulLe(hi, q, s);
    }
  }

  /** The scaled grid has its corners in order, so `New` keeps them. */
  lemma ScaledShape(grid: IntBoundary, b: nat)
    requires Normal(grid)
    ensures Scaled(grid, b).a == MulScalar(grid.a, Pow2(b)) && Scaled(grid, b).b == MulScalar(grid.b, Pow2(b))
  {
    var s := Pow2(b);
    MulLe(grid.a.x, grid.b.x, s);
    MulLe(grid.a.y, grid.b.y, s);
    MulLe(grid.a.z, grid.b.z, s);
  }

  /** A position is in the blocks of a chunk grid exactly when its chunk is in the grid. */
  lemma ScaledInside(grid: IntBoundary, b: nat, p: IVec3)
    requires Normal(grid)
    ensures PosInside(Scaled(grid, b), p) <==> PosInside(grid, PosToChunkPos(p, b))
  {
    var s := Pow2(b);
    ScaledShape(grid, b);
    FloorBetween(p.x, grid.a.x, grid.b.x, s);
    FloorBetween(p.y, grid.a.y, grid.b.y, s);
    FloorBetween(p.z, grid.a.z, grid.b.z, s);
  }

  /** Floor of n/s is below n, and the floor of (n + s - 1)/s scaled back is at least n. */
  lemma FloorCeil(n: int, s: int)
    requires s > 0
    ensures (n / s) * s <= n
    ensures n <= ((n + s - 1) / s) * s
  {
    var q, r := (n + s - 1) / s, (n + s - 1) % s;
    assert n + s - 1 == q * s + r;
  }

  lemma FloorMono(m: int, n: int, s: int)
    requires s > 0 && m <= n
    ensures m / s <= n / s
  {
    if m / s > n / s {
      MulLe(n / s + 1, m / s, s);
    }
  }

  /** The chunk grid `setLoadedArea` allocates covers its target: its blocks contain the area,
      and they are chunk-aligned. */
  lemma GridForCovers(area: IntBoundary, b: nat)
    requires Normal(area)
    ensures Normal(GridFor(area, b))
    ensures GridFor(area, b).a == PosToChunkPos(area.a, b)
    ensures GridFor(area, b).b == PosToChunkPos(AddScalar(area.b, Pow2(b) - 1), b)
    ensures FullyInside(area, Scaled(GridFor(area, b), b))
  {
    var s := Pow2(b);
    var grid := GridFor(area, b);
    FloorMono(area.a.x, area.b.x + s - 1, s);
    FloorMono(area.a.y, area.b.y + s - 1, s);
    FloorMono(area.a.z, area.b.z + s - 1, s);
    ScaledShape(grid, b);
    FloorCeil(area.a.x, s);
    FloorCeil(area.a.y, s);
    FloorCeil(area.a.z, s);
    FloorCeil(area.b.x, s);
    FloorCeil(area.b.y, s);
    FloorCeil(area.b.z, s);
  }

  /** Adding a whole number of chunks to a position moves its chunk and keeps its offset. */
  lemma ShiftedSplit(p: IVec3, shift: IVec3, b: nat)
    ensures PosToChunkPos(Add(p, Shl(shift, b)), b) == Add(PosToChunkPos(p, b), shift)
    ensures PosToChunkLocal(Add(p, Shl(shift, b)), b) == PosToChunkLocal(p, b)
  {
    var c, l := PosToChunkPos(p, b), PosToChunkLocal(p, b);
    ChunkSplit(p, b);
    assert Add(p, Shl(shift, b)) == Add(Shl(Add(c, shift), b), l);
    ShrOfSplit(Add(c, shift), l, b);
  }

  /** Translating a box and a point together keeps the point's Y-Z-X index. */
  lemma YzxIdxMoved(bd: IntBoundary, v: IVec3, p: IVec3)
    requires Normal(bd)
    ensures Move(bd, v).a == Add(bd.a, v) && Move(bd, v).dim == bd.dim
    ensures PosToYzxIdx(Move(bd, v), Add(p, v)) == PosToYzxIdx(bd, p)
  {
  }

  /** Scaling commutes with a translation by whole chunks. */
  lemma ScaledMoved(grid: IntBoundary, shift: IVec3, b: nat)
    requires Normal(grid)
    ensures Scaled(Move(grid, shift), b) == Move(Scaled(grid, b), Shl(shift, b))
  {
    var s := Pow2(b);
    var moved := Move(grid, shift);
    assert moved.a == Add(grid.a, shift) && moved.b == Add(grid.b, shift);
    ScaledShape(grid, b);
    ScaledShape(moved, b);
    assert MulScalar(moved.a, s) == Add(MulScalar(grid.a, s), Shl(shift, b));
    assert MulScalar(moved.b, s) == Add(MulScalar(grid.b, s), Shl(shift, b));
  }

  /** The chunk bounds of a box of blocks hold exactly the chunks of its blocks. */
  lemma ChunkBoundsCover(bd: IntBoundary, b: nat, p: IVec3)
    requires Normal(bd) && PosInside(bd, p)
    ensures PosInside(PosBoundsToChunkBounds(bd, b), PosToChunkPos(p, b))
  {
    var s := Pow2(b);
    FloorMono(bd.a.x, p.x, s);
    FloorMono(bd.a.y, p.y, s);
    FloorMono(bd.a.z, p.z, s);
    FloorMono(p.x, bd.b.x - 1, s);
    FloorMono(p.y, bd.b.y - 1, s);
    FloorMono(p.z, bd.b.z - 1, s);
  }

  /** A box inside the blocks of a grid has its chunk bounds inside the grid. */
  lemma ChunkBoundsInside(bd: IntBoundary, grid: IntBoundary, b: nat)
    requires Normal(bd) && Normal(grid) && FullyInside(bd, Scaled(grid, b))
    ensures FullyInside(PosBoundsToChunkBounds(bd, b), grid)
  {
    ScaledShape(grid, b);
    var s := Pow2(b);
    ChunkBoundsAxis(bd.a.x, bd.b.x, grid.a.x, grid.b.x, s);
    ChunkBoundsAxis(bd.a.y, bd.b.y, grid.a.y, grid.b.y, s);
    ChunkBoundsAxis(bd.a.z, bd.b.z, grid.a.z, grid.b.z, s);
  }

  /** One axis of `ChunkBoundsInside`, for an empty range as well: the chunks of lo and of
      hi - 1, plus one, stay within [glo, ghi) scaled. */
  lemma ChunkBoundsAxis(lo: int, hi: int, glo: int, ghi: int, s: int)
    requires s > 0 && glo * s <= lo <= hi <= ghi * s
    ensures glo <= lo / s <= ghi && glo <= (hi - 1) / s + 1 <= ghi
  {
    FloorBetween(lo, glo, ghi + 1, s);
    FloorBetween(hi - 1, glo - 1, ghi, s);
    assert (ghi + 1) * s == ghi * s + s;
    assert (glo - 1) * s == glo * s - s;
  }
}
