/** What `computeBuildBounds` computes, on the slot view of a volume: the tightest box around the
    positions that hold a non-default id. The method walks only the chunks on the border of the
    build chunk bounds; the lemmas here show why that suffices once no allocated chunk is all
    default. */
module BuildBounds {
  import opened Vec
  import opened Bounds
  import opened VolBlocks
  import opened Chunks
  import opened ChunkGrid
  import opened Wrappers
  import opened VolumeSlots

  /** Position p holds a block other than the default one. */
  predicate Solid<T>(slots: seq<Slot<T>>, grid: IntBoundary, b: nat, p: IVec3) {
    IdIn(slots, grid, b, p) != DEFAULT_BLOCK_ID
  }

  /** Each coordinate of v is that coordinate of some solid position. */
  ghost predicate AttainedBySolid<T>(slots: seq<Slot<T>>, grid: IntBoundary, b: nat, v: IVec3) {
    (exists p :: Solid(slots, grid, b, p) && p.x == v.x)
    && (exists p :: Solid(slots, grid, b, p) && p.y == v.y)
    && (exists p :: Solid(slots, grid, b, p) && p.z == v.z)
  }

  /** The world position of cell j of the chunk at c. */
  function VoxelPos(c: IVec3, j: int, b: nat): IVec3 {
    Add(ChunkPosToPos(c, b), BlockIdxToLocal(j, b))
  }

  /** Solid p among the chunks visited so far (the first k of box bcb) on its lower border. */
  predicate MinSeen<T>(slots: seq<Slot<T>>, grid: IntBoundary, b: nat, bcb: IntBoundary, k: int, p: IVec3) {
    var c := PosToChunkPos(p, b);
    Solid(slots, grid, b, p) && PosInside(bcb, c) && PosToYzxIdx(bcb, c) < k && PosOnMinBorder(bcb, c)
  }

  /** Solid p among the chunks visited so far on the upper border of bcb. */
  predicate MaxSeen<T>(slots: seq<Slot<T>>, grid: IntBoundary, b: nat, bcb: IntBoundary, k: int, p: IVec3) {
    var c := PosToChunkPos(p, b);
    Solid(slots, grid, b, p) && PosInside(bcb, c) && PosToYzxIdx(bcb, c) < k && PosOnMaxBorder(bcb, c)
  }

  /** `minPos = minPos.min(chunkWorldPos + minLocalPos)` when a local minimum was found. */
  function MergeMin(lo: IVec3, c: IVec3, m: Option<IVec3>, b: nat): IVec3 {
    if m.Some? then Min(lo, Add(ChunkPosToPos(c, b), m.value)) else lo
  }

  /** `maxPos = maxPos.max(chunkWorldPos + maxLocalPos)` when a local maximum was found. */
  function MergeMax(hi: IVec3, c: IVec3, m: Option<IVec3>, b: nat): IVec3 {
    if m.Some? then Max(hi, Add(ChunkPosToPos(c, b), m.value)) else hi
  }

  /** The loaded area fits in 32-bit positions. */
  predicate FitsInt(area: IntBoundary) {
    Le(Splat(INT_MIN), area.a) && Le(area.b, Splat(INT_MAX))
  }

  // ---------------------------------------------------------------------------
  // Cells and positions

  /** Cell j of a loaded chunk at c is the position VoxelPos(c, j), and reads back its id. */
  lemma VoxelIn<T>(slots: seq<Slot<T>>, grid: IntBoundary, b: nat, c: IVec3, j: int)
    requires SlotsFit(slots, b) && 0 <= j < BlockCount(b) && SlotAt(slots, grid, c).Loaded?
    ensures PosToChunkPos(VoxelPos(c, j, b), b) == c && LocalIdx(VoxelPos(c, j, b), b) == j
    ensures IdIn(slots, grid, b, VoxelPos(c, j, b)) == SlotAt(slots, grid, c).ids[j]
  {
    BlockIdxRoundTrip(BlockIdxToLocal(j, b), j, b);
    ShrOfSplit(c, BlockIdxToLocal(j, b), b);
  }

  /** A solid position lies in a loaded chunk of the grid, at the cell given by its offset. */
  lemma SolidSplit<T>(slots: seq<Slot<T>>, grid: IntBoundary, b: nat, p: IVec3)
    requires SlotsFit(slots, b) && Solid(slots, grid, b, p)
    ensures var c := PosToChunkPos(p, b);
      PosInside(grid, c) && SlotAt(slots, grid, c).Loaded?
      && 0 <= LocalIdx(p, b) < BlockCount(b) && p == VoxelPos(c, LocalIdx(p, b), b)
      && SlotAt(slots, grid, c).ids[LocalIdx(p, b)] != DEFAULT_BLOCK_ID
  {
    ChunkSplit(p, b);
    LocalIdxRange(p, b);
    BlockIdxRoundTrip(PosToChunkLocal(p, b), 0, b);
  }

  /** A loaded chunk that is not idle holds a solid position. */
  lemma SolidInChunk<T>(slots: seq<Slot<T>>, grid: IntBoundary, b: nat, c: IVec3) returns (q: IVec3)
    requires SlotsFit(slots, b) && SlotAt(slots, grid, c).Loaded? && !Idle(SlotAt(slots, grid, c))
    ensures Solid(slots, grid, b, q) && PosToChunkPos(q, b) == c
  {
    var ids := SlotAt(slots, grid, c).ids;
    var j :| 0 <= j < |ids| && ids[j] != DEFAULT_BLOCK_ID;
    VoxelIn(slots, grid, b, c, j);
    q := VoxelPos(c, j, b);
  }

  /** A solid position lies in the loaded area. */
  lemma SolidInArea<T>(slots: seq<Slot<T>>, grid: IntBoundary, b: nat, p: IVec3)
    requires Normal(grid) && SlotsFit(slots, b) && Solid(slots, grid, b, p)
    ensures PosInside(Scaled(grid, b), p)
  {
    SolidSplit(slots, grid, b, p);
    ScaledInside(grid, b, p);
  }

  // ---------------------------------------------------------------------------
  // One step of the walk

  /** Before the walk no position has been seen. */
  lemma NothingSeenYet<T>(slots: seq<Slot<T>>, grid: IntBoundary, b: nat, bcb: IntBoundary)
    requires Normal(bcb)
    ensures forall p :: !MinSeen(slots, grid, b, bcb, 0, p) && !MaxSeen(slots, grid, b, bcb, 0, p)
  {
    forall p ensures !MinSeen(slots, grid, b, bcb, 0, p) && !MaxSeen(slots, grid, b, bcb, 0, p) {
      if PosInside(bcb, PosToChunkPos(p, b)) {
        YzxIdxInRange(bcb, PosToChunkPos(p, b));
      }
    }
  }

  /** After visiting the k-th chunk of bcb, the merged lower corner is below every solid position
      seen on the lower border, provided the chunk's local minimum is below its solid cells (and
      missing only when it has none). */
  lemma MinStep<T>(slots: seq<Slot<T>>, grid: IntBoundary, b: nat, bcb: IntBoundary, k: int, k1: int,
                   c: IVec3, m: Option<IVec3>, lo: IVec3, seen: bool)
    requires SlotsFit(slots, b) && Normal(bcb) && PosInside(bcb, c) && PosToYzxIdx(bcb, c) == k && k1 == k + 1
    requires forall p :: MinSeen(slots, grid, b, bcb, k, p) ==> Le(lo, p)
    requires m.Some? ==> SlotAt(slots, grid, c).Loaded? && BelowAll(m.value, SlotAt(slots, grid, c).ids, b)
    requires m.None? && PosOnMinBorder(bcb, c) && SlotAt(slots, grid, c).Loaded? ==>
      AllDefault(SlotAt(slots, grid, c).ids)
    requires forall p :: MinSeen(slots, grid, b, bcb, k, p) ==> seen
    ensures forall p :: MinSeen(slots, grid, b, bcb, k1, p) ==> Le(MergeMin(lo, c, m, b), p)
    ensures forall p :: MinSeen(slots, grid, b, bcb, k1, p) ==> seen || m.Some?
  {
    MergeMinBound(lo, c, m, b);
    forall p | MinSeen(slots, grid, b, bcb, k1, p) ensures seen || m.Some? {
      var cp := PosToChunkPos(p, b);
      if PosToYzxIdx(bcb, cp) != k {
        assert MinSeen(slots, grid, b, bcb, k, p);
      } else if m.None? {
        YzxIdxInjective(bcb, cp, c);
        SolidSplit(slots, grid, b, p);
        assert false;
      }
    }
    forall p | MinSeen(slots, grid, b, bcb, k1, p) ensures Le(MergeMin(lo, c, m, b), p) {
      var cp := PosToChunkPos(p, b);
      if PosToYzxIdx(bcb, cp) == k {
        YzxIdxInjective(bcb, cp, c);
        SolidSplit(slots, grid, b, p);
        var j := LocalIdx(p, b);
        var ids := SlotAt(slots, grid, c).ids;
        if m.None? {
          assert false;
        }
        assert Le(m.value, BlockIdxToLocal(j, b));
      } else {
        assert MinSeen(slots, grid, b, bcb, k, p);
      }
    }
  }

  /** The upper-border counterpart of MinStep. */
  lemma MaxStep<T>(slots: seq<Slot<T>>, grid: IntBoundary, b: nat, bcb: IntBoundary, k: int, k1: int,
                   c: IVec3, m: Option<IVec3>, hi: IVec3, seen: bool)
    requires SlotsFit(slots, b) && Normal(bcb) && PosInside(bcb, c) && PosToYzxIdx(bcb, c) == k && k1 == k + 1
    requires forall p :: MaxSeen(slots, grid, b, bcb, k, p) ==> Le(p, hi)
    requires m.Some? ==> SlotAt(slots, grid, c).Loaded? && AboveAll(m.value, SlotAt(slots, grid, c).ids, b)
    requires m.None? && PosOnMaxBorder(bcb, c) && SlotAt(slots, grid, c).Loaded? ==>
      AllDefault(SlotAt(slots, grid, c).ids)
    requires forall p :: MaxSeen(slots, grid, b, bcb, k, p) ==> seen
    ensures forall p :: MaxSeen(slots, grid, b, bcb, k1, p) ==> Le(p, MergeMax(hi, c, m, b))
    ensures forall p :: MaxSeen(slots, grid, b, bcb, k1, p) ==> seen || m.Some?
  {
    MergeMaxBound(hi, c, m, b);
    forall p | MaxSeen(slots, grid, b, bcb, k1, p) ensures seen || m.Some? {
      var cp := PosToChunkPos(p, b);
      if PosToYzxIdx(bcb, cp) != k {
        assert MaxSeen(slots, grid, b, bcb, k, p);
      } else if m.None? {
        YzxIdxInjective(bcb, cp, c);
        SolidSplit(slots, grid, b, p);
        assert false;
      }
    }
    forall p | MaxSeen(slots, grid, b, bcb, k1, p) ensures Le(p, MergeMax(hi, c, m, b)) {
      var cp := PosToChunkPos(p, b);
      if PosToYzxIdx(bcb, cp) == k {
        YzxIdxInjective(bcb, cp, c);
        SolidSplit(slots, grid, b, p);
        var j := LocalIdx(p, b);
        var ids := SlotAt(slots, grid, c).ids;
        if m.None? {
          assert false;
        }
        assert Le(BlockIdxToLocal(j, b), m.value);
      } else {
        assert MaxSeen(slots, grid, b, bcb, k, p);
      }
    }
  }

  /** A merged lower corner is below the old one and below the chunk's contribution. */
  lemma MergeMinBound(lo: IVec3, c: IVec3, m: Option<IVec3>, b: nat)
    ensures Le(MergeMin(lo, c, m, b), lo)
    ensures m.Some? ==> Le(MergeMin(lo, c, m, b), Add(ChunkPosToPos(c, b), m.value))
  {
  }

  /** A merged upper corner is above the old one and above the chunk's contribution. */
  lemma MergeMaxBound(hi: IVec3, c: IVec3, m: Option<IVec3>, b: nat)
    ensures Le(hi, MergeMax(hi, c, m, b))
    ensures m.Some? ==> Le(Add(ChunkPosToPos(c, b), m.value), MergeMax(hi, c, m, b))
  {
  }

  /** Each coordinate of a merged lower corner is still that of a solid position: the
      coordinates a chunk contributes are those of its own solid cells, and the starting
      sentinel is undercut by every position of a 32-bit area. */
  lemma MergeMinAttained<T>(slots: seq<Slot<T>>, grid: IntBoundary, b: nat, c: IVec3, m: Option<IVec3>,
                            lo: IVec3, seen: bool)
    requires Normal(grid) && SlotsFit(slots, b) && FitsInt(Scaled(grid, b))
    requires m.Some? ==> SlotAt(slots, grid, c).Loaded? && AttainedOnEachAxis(m.value, SlotAt(slots, grid, c).ids, b)
    requires seen ==> AttainedBySolid(slots, grid, b, lo)
    requires !seen ==> lo == Splat(INT_MAX)
    ensures m.Some? ==> AttainedBySolid(slots, grid, b, MergeMin(lo, c, m, b))
  {
    if m.Some? {
      var px, py, pz := AxisWitnesses(slots, grid, b, c, m.value);
    }
  }

  /** The upper-corner counterpart of MergeMinAttained. */
  lemma MergeMaxAttained<T>(slots: seq<Slot<T>>, grid: IntBoundary, b: nat, c: IVec3, m: Option<IVec3>,
                            hi: IVec3, seen: bool)
    requires Normal(grid) && SlotsFit(slots, b) && FitsInt(Scaled(grid, b))
    requires m.Some? ==> SlotAt(slots, grid, c).Loaded? && AttainedOnEachAxis(m.value, SlotAt(slots, grid, c).ids, b)
    requires seen ==> AttainedBySolid(slots, grid, b, hi)
    requires !seen ==> hi == Splat(INT_MIN)
    ensures m.Some? ==> AttainedBySolid(slots, grid, b, MergeMax(hi, c, m, b))
  {
    if m.Some? {
      var px, py, pz := AxisWitnesses(slots, grid, b, c, m.value);
    }
  }

  /** The solid cells of chunk c that give a local corner m its coordinates, as world positions
      of the loaded area. */
  lemma AxisWitnesses<T>(slots: seq<Slot<T>>, grid: IntBoundary, b: nat, c: IVec3, m: IVec3)
    returns (px: IVec3, py: IVec3, pz: IVec3)
    requires Normal(grid) && SlotsFit(slots, b)
    requires SlotAt(slots, grid, c).Loaded? && AttainedOnEachAxis(m, SlotAt(slots, grid, c).ids, b)
    ensures Solid(slots, grid, b, px) && Solid(slots, grid, b, py) && Solid(slots, grid, b, pz)
    ensures var w := Add(ChunkPosToPos(c, b), m); px.x == w.x && py.y == w.y && pz.z == w.z
    ensures PosInside(Scaled(grid, b), px) && PosInside(Scaled(grid, b), py) && PosInside(Scaled(grid, b), pz)
  {
    var ids := SlotAt(slots, grid, c).ids;
    var ix :| 0 <= ix < |ids| && ids[ix] != DEFAULT_BLOCK_ID && BlockIdxToLocal(ix, b).x == m.x;
    var iy :| 0 <= iy < |ids| && ids[iy] != DEFAULT_BLOCK_ID && BlockIdxToLocal(iy, b).y == m.y;
    var iz :| 0 <= iz < |ids| && ids[iz] != DEFAULT_BLOCK_ID && BlockIdxToLocal(iz, b).z == m.z;
    VoxelIn(slots, grid, b, c, ix);
    VoxelIn(slots, grid, b, c, iy);
    VoxelIn(slots, grid, b, c, iz);
    px, py, pz := VoxelPos(c, ix, b), VoxelPos(c, iy, b), VoxelPos(c, iz, b);
    SolidInArea(slots, grid, b, px);
    SolidInArea(slots, grid, b, py);
    SolidInArea(slots, grid, b, pz);
  }

  // ---------------------------------------------------------------------------
  // After the walk

  /** Integer form of "a cell of a lower chunk lies below every cell of a higher chunk". */
  lemma ChunkOrder(cq: int, lq: int, n: int, s: int)
    requires s > 0 && 0 <= lq < s && cq < n / s
    ensures cq * s + lq < n
  {
    MulLe(cq + 1, n / s, s);
  }

  /** A solid position whose chunk is above the lower face of bcb along an axis lies above, along
      that axis, a solid position of a chunk on that face; so the lower corner bounds it. */
  lemma BelowViaFace<T>(slots: seq<Slot<T>>, grid: IntBoundary, b: nat, bcb: IntBoundary,
                        lo: IVec3, p: IVec3, c': IVec3, axis: nat)
    requires axis < 3 && Normal(grid) && Normal(bcb) && SlotsFit(slots, b)
    requires forall q :: MinSeen(slots, grid, b, bcb, Volume(bcb), q) ==> Le(lo, q)
    requires Solid(slots, grid, b, p) && PosInside(bcb, PosToChunkPos(p, b))
    requires PosInside(bcb, c') && SlotAt(slots, grid, c').Loaded? && !Idle(SlotAt(slots, grid, c'))
    requires Get(c', axis) == Get(bcb.a, axis)
    ensures Get(lo, axis) <= Get(p, axis)
  {
    var cp := PosToChunkPos(p, b);
    if Get(cp, axis) == Get(bcb.a, axis) {
      YzxIdxInRange(bcb, cp);
      assert MinSeen(slots, grid, b, bcb, Volume(bcb), p);
    } else {
      var q := SolidInChunk(slots, grid, b, c');
      YzxIdxInRange(bcb, c');
      assert MinSeen(slots, grid, b, bcb, Volume(bcb), q);
      ChunkSplit(q, b);
      var l := PosToChunkLocal(q, b);
      ChunkOrder(Get(c', axis), Get(l, axis), Get(p, axis), Pow2(b));
    }
  }

  /** The upper-face counterpart of BelowViaFace. */
  lemma AboveViaFace<T>(slots: seq<Slot<T>>, grid: IntBoundary, b: nat, bcb: IntBoundary,
                        hi: IVec3, p: IVec3, c': IVec3, axis: nat)
    requires axis < 3 && Normal(grid) && Normal(bcb) && SlotsFit(slots, b)
    requires forall q :: MaxSeen(slots, grid, b, bcb, Volume(bcb), q) ==> Le(q, hi)
    requires Solid(slots, grid, b, p) && PosInside(bcb, PosToChunkPos(p, b))
    requires PosInside(bcb, c') && SlotAt(slots, grid, c').Loaded? && !Idle(SlotAt(slots, grid, c'))
    requires Get(c', axis) == Get(bcb.b, axis) - 1
    ensures Get(p, axis) <= Get(hi, axis)
  {
    var cp := PosToChunkPos(p, b);
    if Get(cp, axis) == Get(bcb.b, axis) - 1 {
      YzxIdxInRange(bcb, cp);
      assert MaxSeen(slots, grid, b, bcb, Volume(bcb), p);
    } else {
      var q := SolidInChunk(slots, grid, b, c');
      YzxIdxInRange(bcb, c');
      assert MaxSeen(slots, grid, b, bcb, Volume(bcb), q);
      ChunkSplit(q, b);
      ChunkSplit(p, b);
      var l := PosToChunkLocal(p, b);
      ChunkOrder(Get(cp, axis), Get(l, axis), Get(q, axis), Pow2(b));
    }
  }

  /** What the walk of computeBuildBounds knows after visiting the first k chunks of bcb: the
      lower corner lo is below, and the upper corner hi above, every solid position seen on the
      matching faces; a corner that was set is attained by a solid position (when the loaded area
      has 32-bit coordinates) and one that was not still holds its initial extreme value. */
  ghost predicate WalkInv<T>(slots: seq<Slot<T>>, grid: IntBoundary, b: nat, bcb: IntBoundary, k: int,
                             lo: IVec3, hi: IVec3, seenLo: bool, seenHi: bool, fits: bool)
  {
    (forall p :: MinSeen(slots, grid, b, bcb, k, p) ==> Le(lo, p) && seenLo)
    && (forall p :: MaxSeen(slots, grid, b, bcb, k, p) ==> Le(p, hi) && seenHi)
    && (fits && seenLo ==> AttainedBySolid(slots, grid, b, lo))
    && (fits && seenHi ==> AttainedBySolid(slots, grid, b, hi))
    && (!seenLo ==> lo == Splat(INT_MAX))
    && (!seenHi ==> hi == Splat(INT_MIN))
  }

  /** Once every chunk of the build chunk bounds has been visited, with no idle chunk, every
      solid position lies between the two corners. */
  lemma SolidBetweenCorners<T>(slots: seq<Slot<T>>, grid: IntBoundary, b: nat, lo: IVec3, hi: IVec3)
    requires Normal(grid) && |slots| == Volume(grid) && SlotsFit(slots, b) && NoIdleSlot(slots)
    requires BuildChunkBounds(slots, grid).Some?
    requires var bcb := BuildChunkBounds(slots, grid).value;
      (forall q :: MinSeen(slots, grid, b, bcb, Volume(bcb), q) ==> Le(lo, q))
      && (forall q :: MaxSeen(slots, grid, b, bcb, Volume(bcb), q) ==> Le(q, hi))
    ensures forall p :: Solid(slots, grid, b, p) ==> Le(lo, p) && Le(p, hi)
  {
    var bcb := BuildChunkBounds(slots, grid).value;
    BuildChunkBoundsMeaning(slots, grid);
    var lx, ly, lz := FaceChunks(slots, grid, bcb.a);
    var hx, hy, hz := FaceChunks(slots, grid, AddScalar(bcb.b, -1));
    forall p | Solid(slots, grid, b, p) ensures Le(lo, p) && Le(p, hi) {
      SolidSplit(slots, grid, b, p);
      BelowViaFace(slots, grid, b, bcb, lo, p, lx, 0);
      BelowViaFace(slots, grid, b, bcb, lo, p, ly, 1);
      BelowViaFace(slots, grid, b, bcb, lo, p, lz, 2);
      AboveViaFace(slots, grid, b, bcb, hi, p, hx, 0);
      AboveViaFace(slots, grid, b, bcb, hi, p, hy, 1);
      AboveViaFace(slots, grid, b, bcb, hi, p, hz, 2);
    }
  }

  /** The walk's result once it has visited every chunk of the build chunk bounds, with no idle
      chunk: both corners were set, and the box from the lower corner to one past the upper one
      holds every solid position while each of its six faces touches one. */
  lemma WalkResult<T>(slots: seq<Slot<T>>, grid: IntBoundary, b: nat, lo: IVec3, hi: IVec3,
                      seenLo: bool, seenHi: bool)
    requires Normal(grid) && |slots| == Volume(grid) && SlotsFit(slots, b) && NoIdleSlot(slots)
    requires FitsInt(Scaled(grid, b)) && BuildChunkBounds(slots, grid).Some?
    requires var bcb := BuildChunkBounds(slots, grid).value;
      WalkInv(slots, grid, b, bcb, Volume(bcb), lo, hi, seenLo, seenHi, true)
    ensures seenLo && seenHi
    ensures var r := New(lo, AddScalar(hi, 1));
      (forall p :: Solid(slots, grid, b, p) ==> PosInside(r, p))
      && AttainedBySolid(slots, grid, b, r.a) && AttainedBySolid(slots, grid, b, AddScalar(r.b, -1))
  {
    var bcb := BuildChunkBounds(slots, grid).value;
    var pts := GridPoints(grid);
    BuildChunkBoundsMeaning(slots, grid);
    var lx, ly, lz := FaceChunks(slots, grid, bcb.a);
    var hx, hy, hz := FaceChunks(slots, grid, AddScalar(bcb.b, -1));
    SolidBetweenCorners(slots, grid, b, lo, hi);
    var q := SolidInChunk(slots, grid, b, lx);
    YzxIdxInRange(bcb, lx);
    assert MinSeen(slots, grid, b, bcb, Volume(bcb), q);
    var q' := SolidInChunk(slots, grid, b, hx);
    YzxIdxInRange(bcb, hx);
    assert MaxSeen(slots, grid, b, bcb, Volume(bcb), q');
    assert Le(lo, q) && Le(q, hi);
    var r := New(lo, AddScalar(hi, 1));
    CornersOfNew(lo, hi);
    forall p | Solid(slots, grid, b, p) ensures PosInside(r, p) {
      assert Le(lo, p) && Le(p, hi);
    }
  }

  /** Loaded, non-idle chunks inside the build chunk bounds that touch the face through corner v
      along x, y and z respectively. */
  lemma FaceChunks<T>(slots: seq<Slot<T>>, grid: IntBoundary, v: IVec3) returns (cx: IVec3, cy: IVec3, cz: IVec3)
    requires Normal(grid) && |slots| == Volume(grid) && NoIdleSlot(slots)
    requires BuildChunkBounds(slots, grid).Some?
    requires Attained(slots, GridPoints(grid), |slots|, v)
    ensures var bcb := BuildChunkBounds(slots, grid).value;
      PosInside(bcb, cx) && PosInside(bcb, cy) && PosInside(bcb, cz)
      && cx.x == v.x && cy.y == v.y && cz.z == v.z
      && SlotAt(slots, grid, cx).Loaded? && !Idle(SlotAt(slots, grid, cx))
      && SlotAt(slots, grid, cy).Loaded? && !Idle(SlotAt(slots, grid, cy))
      && SlotAt(slots, grid, cz).Loaded? && !Idle(SlotAt(slots, grid, cz))
  {
    var pts := GridPoints(grid);
    var ix :| 0 <= ix < |slots| && slots[ix].Loaded? && pts[ix].x == v.x;
    var iy :| 0 <= iy < |slots| && slots[iy].Loaded? && pts[iy].y == v.y;
    var iz :| 0 <= iz < |slots| && slots[iz].Loaded? && pts[iz].z == v.z;
    cx := SlotChunk(slots, grid, ix);
    cy := SlotChunk(slots, grid, iy);
    cz := SlotChunk(slots, grid, iz);
  }

  /** The position of loaded slot i: inside the build chunk bounds, and (with no idle slot) a
      chunk holding a solid position. */
  lemma SlotChunk<T>(slots: seq<Slot<T>>, grid: IntBoundary, i: int) returns (c: IVec3)
    requires Normal(grid) && |slots| == Volume(grid) && NoIdleSlot(slots)
    requires BuildChunkBounds(slots, grid).Some? && 0 <= i < |slots| && slots[i].Loaded?
    ensures c == GridPoints(grid)[i] && PosInside(BuildChunkBounds(slots, grid).value, c)
    ensures SlotAt(slots, grid, c).Loaded? && !Idle(SlotAt(slots, grid, c))
  {
    c := GridPoints(grid)[i];
    assert SlotAt(slots, grid, c) == slots[i];
    BuildChunkBoundsMeaning(slots, grid);
  }

  /** The box from lo to one past hi has corners lo and hi when lo is below hi. */
  lemma CornersOfNew(lo: IVec3, hi: IVec3)
    requires Le(lo, hi)
    ensures New(lo, AddScalar(hi, 1)).a == lo && AddScalar(New(lo, AddScalar(hi, 1)).b, -1) == hi
  {
  }
}
