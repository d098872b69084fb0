/** The flat block grids of `extractBlockGrid` and `placeBlockGrid`: a Y-Z-X array over a box of
    blocks, copied row by row to and from the chunks that overlap the box, chunk by chunk over
    per-thread slices of the box's chunk bounds. Everything here is about values; the volume's
    methods use it to state and keep their loop invariants. */
module BlockGrids {
  import opened Wrappers
  import opened Vec
  import opened Bounds
  import opened VolBlocks
  import opened Chunks
  import opened ChunkGrid
  import opened VolumeSlots
  import opened McvUtils
  import BlockStates

  /** The largest array a JVM reliably allocates (`Int.MAX_VALUE - 8`). */
  const MAX_SAFE_ARR_LEN: int := INT_MAX - 8

  // ---------------------------------------------------------------------------
  // Thread jobs

  /** The job for one slice `[r.0, r.1)` of the chunk bounds along `axis`. */
  function JobBox(cb: IntBoundary, axis: nat, r: (int, int)): IntBoundary
    requires axis < 3
  {
    New(With(cb.a, axis, r.0), With(cb.b, axis, r.1))
  }

  /** A job cut from the bounds along one axis lies in the bounds. */
  lemma JobBoxInside(cb: IntBoundary, axis: nat, r: (int, int))
    requires Normal(cb) && axis < 3 && Get(cb.a, axis) <= r.0 < r.1 <= Get(cb.b, axis)
    ensures Normal(JobBox(cb, axis, r)) && FullyInside(JobBox(cb, axis, r), cb)
  {
  }

  /** A position of the bounds whose coordinate along the axis is in the slice is in the job. */
  lemma JobBoxHas(cb: IntBoundary, axis: nat, r: (int, int), c: IVec3)
    requires Normal(cb) && axis < 3 && PosInside(cb, c) && r.0 <= Get(c, axis) < r.1
    ensures PosInside(JobBox(cb, axis, r), c)
  {
  }

  /** The ranges after the first cover the rest of the interval. */
  lemma CoversTail(rs: seq<(int, int)>, s: int, e: int)
    requires Covers(rs, s, e) && |rs| > 0
    ensures Covers(rs[1..], rs[0].1, e)
  {
  }

  /** Every range of a cover of [s, e) lies inside [s, e). */
  lemma {:induction false} CoversWithin(rs: seq<(int, int)>, s: int, e: int)
    requires Covers(rs, s, e)
    ensures forall k :: 0 <= k < |rs| ==> s <= rs[k].0 < rs[k].1 <= e
    decreases |rs|
  {
    if |rs| > 0 {
      CoversTail(rs, s, e);
      CoversWithin(rs[1..], rs[0].1, e);
      forall k | 0 < k < |rs| ensures s <= rs[k].0 < rs[k].1 <= e {
        assert rs[k] == rs[1..][k - 1];
      }
    }
  }

  /** Every value of [s, e) falls in some range of a cover of [s, e). */
  lemma {:induction false} CoversFind(rs: seq<(int, int)>, s: int, e: int, v: int)
    requires Covers(rs, s, e) && s <= v < e
    ensures exists k :: 0 <= k < |rs| && rs[k].0 <= v < rs[k].1
    decreases |rs|
  {
    if v >= rs[0].1 {
      CoversTail(rs, s, e);
      CoversFind(rs[1..], rs[0].1, e, v);
      var k :| 0 <= k < |rs[1..]| && rs[1..][k].0 <= v < rs[1..][k].1;
      assert rs[k + 1] == rs[1..][k];
    }
  }

  /** The jobs of `extractBlockGrid` and `placeBlockGrid`: the whole chunk bounds for one thread;
      otherwise the bounds cut along their longest axis by `distributeRange`. A thread count of
      zero divides by zero and a negative one gives no jobs. With at least one thread the jobs
      lie in the bounds and together hold every chunk position of the bounds. */
  method ChunkJobs(cb: IntBoundary, threadCount: int) returns (r: Result<seq<IntBoundary>>)
    requires Normal(cb)
    ensures threadCount == 0 <==> r.Err?
    ensures r.Err? ==> r.error == DivisionByZero
    ensures threadCount < 0 ==> r == Ok([])
    ensures threadCount == 1 ==> r == Ok([cb])
    ensures threadCount >= 1 ==> r.Ok? && |r.value| <= threadCount
    ensures r.Ok? ==> forall k :: 0 <= k < |r.value| ==> Normal(r.value[k]) && FullyInside(r.value[k], cb)
    ensures threadCount >= 1 ==>
      forall c :: PosInside(cb, c) ==> exists k :: 0 <= k < |r.value| && PosInside(r.value[k], c)
  {
    if threadCount == 1 {
      forall c | PosInside(cb, c) ensures exists k :: 0 <= k < 1 && PosInside([cb][k], c) {
        assert PosInside([cb][0], c);
      }
      return Ok([cb]);
    }
    var axis := IndexOfMax(cb.dim);
    var s, e := Get(cb.a, axis), Get(cb.b, axis);
    var slices := DistributeRange(s, e, threadCount);
    if slices.Err? {
      return Err(DivisionByZero);
    }
    var rs := slices.value;
    var jobs := seq(|rs|, k requires 0 <= k < |rs| => JobBox(cb, axis, rs[k]));
    if threadCount > 0 {
      CoversWithin(rs, s, e);
      forall k | 0 <= k < |jobs| ensures Normal(jobs[k]) && FullyInside(jobs[k], cb) {
        JobBoxInside(cb, axis, rs[k]);
      }
      forall c | PosInside(cb, c) ensures exists k :: 0 <= k < |jobs| && PosInside(jobs[k], c) {
        CoversFind(rs, s, e, Get(c, axis));
        var k :| 0 <= k < |rs| && rs[k].0 <= Get(c, axis) < rs[k].1;
        JobBoxHas(cb, axis, rs[k], c);
        assert PosInside(jobs[k], c);
      }
    }
    r := Ok(jobs);
  }

  // ---------------------------------------------------------------------------
  // Row geometry

  /** The part of chunk c's box inside the grid box: `chunkBounds.getClampedInside(bounds)`. */
  function ChunkClamp(c: IVec3, b: nat, bd: IntBoundary): IntBoundary {
    GetClampedInside(ChunkBox(c, b), bd)
  }

  /** The first block of the row at height y and depth z of a clamped chunk box. */
  function RowStart(cb: IntBoundary, y: int, z: int): IVec3 { IVec3(cb.a.x, y, z) }

  /** The rows of a clamped chunk box at height y and depth z. */
  predicate RowOf(cb: IntBoundary, y: int, z: int) {
    cb.a.y <= y < cb.b.y && cb.a.z <= z < cb.b.z
  }

  /** The i-th block of a row lies in the grid box and in chunk c, one grid cell and one chunk
      cell after the row's start: a row is contiguous in both arrays. */
  lemma RowPoint(bd: IntBoundary, c: IVec3, b: nat, y: int, z: int, i: int)
    requires Normal(bd) && RowOf(ChunkClamp(c, b, bd), y, z) && 0 <= i < ChunkClamp(c, b, bd).dim.x
    ensures var r := RowStart(ChunkClamp(c, b, bd), y, z);
      var q := IVec3(r.x + i, y, z);
      PosInside(bd, q) && PosToChunkPos(q, b) == c
      && PosToYzxIdx(bd, q) == PosToYzxIdx(bd, r) + i && 0 <= PosToYzxIdx(bd, q) < Volume(bd)
      && LocalIdx(q, b) == LocalIdx(r, b) + i && 0 <= LocalIdx(q, b) < BlockCount(b)
  {
    var cb := ChunkClamp(c, b, bd);
    var r := RowStart(cb, y, z);
    var q := IVec3(r.x + i, y, z);
    ClampedIsIntersection(ChunkBox(c, b), bd, q);
    ClampedIsIntersection(ChunkBox(c, b), bd, r);
    InChunkBox(q, c, b);
    InChunkBox(r, c, b);
    YzxIdxRow(bd, r, i);
    YzxIdxInRange(bd, q);
    LocalIdxRange(q, b);
  }

  /** The blocks of the grid box in chunk c at height y and depth z are exactly the row. */
  lemma RowHolds(bd: IntBoundary, c: IVec3, b: nat, y: int, z: int, p: IVec3)
    requires Normal(bd) && PosInside(bd, p) && PosToChunkPos(p, b) == c
    ensures PosInside(ChunkClamp(c, b, bd), p)
    ensures p.y == y && p.z == z ==> ChunkClamp(c, b, bd).a.x <= p.x < ChunkClamp(c, b, bd).b.x
  {
    InChunkBox(p, c, b);
    ClampedIsIntersection(ChunkBox(c, b), bd, p);
  }

  /** A block of the grid box whose grid cell falls in the row's cells is a block of the row. */
  /** A block of the box in chunk c, at height y and depth z, lies in that chunk's row. */
  lemma RowCellIndex(bd: IntBoundary, c: IVec3, b: nat, y: int, z: int, p: IVec3)
    requires Normal(bd) && RowOf(ChunkClamp(c, b, bd), y, z) && PosInside(bd, p)
    requires PosToChunkPos(p, b) == c && p.y == y && p.z == z
    ensures var s := PosToYzxIdx(bd, RowStart(ChunkClamp(c, b, bd), y, z));
      s <= PosToYzxIdx(bd, p) < s + ChunkClamp(c, b, bd).dim.x
  {
    var cb := ChunkClamp(c, b, bd);
    RowHolds(bd, c, b, y, z, p);
    RowPoint(bd, c, b, y, z, p.x - cb.a.x);
  }

  lemma GridCellInRow(bd: IntBoundary, c: IVec3, b: nat, y: int, z: int, p: IVec3)
    requires Normal(bd) && RowOf(ChunkClamp(c, b, bd), y, z) && PosInside(bd, p)
    requires var s := PosToYzxIdx(bd, RowStart(ChunkClamp(c, b, bd), y, z));
      s <= PosToYzxIdx(bd, p) < s + ChunkClamp(c, b, bd).dim.x
    ensures p.y == y && p.z == z && PosToChunkPos(p, b) == c
    ensures PosToYzxIdx(bd, p) - PosToYzxIdx(bd, RowStart(ChunkClamp(c, b, bd), y, z))
      == LocalIdx(p, b) - LocalIdx(RowStart(ChunkClamp(c, b, bd), y, z), b)
  {
    var cb := ChunkClamp(c, b, bd);
    var r := RowStart(cb, y, z);
    var i := PosToYzxIdx(bd, p) - PosToYzxIdx(bd, r);
    RowPoint(bd, c, b, y, z, i);
    YzxIdxInjective(bd, p, IVec3(r.x + i, y, z));
  }

  /** A block of chunk c whose chunk cell falls in the row's cells is a block of the row. */
  lemma ChunkCellInRow(bd: IntBoundary, c: IVec3, b: nat, y: int, z: int, p: IVec3)
    requires Normal(bd) && RowOf(ChunkClamp(c, b, bd), y, z) && PosToChunkPos(p, b) == c
    requires var li := LocalIdx(RowStart(ChunkClamp(c, b, bd), y, z), b);
      li <= LocalIdx(p, b) < li + ChunkClamp(c, b, bd).dim.x
    ensures p.y == y && p.z == z && PosInside(bd, p)
    ensures PosToYzxIdx(bd, p) - PosToYzxIdx(bd, RowStart(ChunkClamp(c, b, bd), y, z))
      == LocalIdx(p, b) - LocalIdx(RowStart(ChunkClamp(c, b, bd), y, z), b)
  {
    var cb := ChunkClamp(c, b, bd);
    var r := RowStart(cb, y, z);
    var i := LocalIdx(p, b) - LocalIdx(r, b);
    var q := IVec3(r.x + i, y, z);
    RowPoint(bd, c, b, y, z, i);
    ChunkSplit(p, b);
    ChunkSplit(q, b);
    if PosToChunkLocal(p, b) != PosToChunkLocal(q, b) {
      LocalIdxInjective(PosToChunkLocal(p, b), PosToChunkLocal(q, b), b);
    }
    ChunkSplitInjective(p, q, b);
  }

  // ---------------------------------------------------------------------------
  // Extracting

  /** `System.arraycopy`: len cells of src from srcPos onward land in dst from dstPos onward;
      the rest of dst is untouched. */
  method ArrayCopy(src: array<int>, srcPos: int, dst: array<int>, dstPos: int, len: int)
    requires src != dst
    requires 0 <= len && 0 <= srcPos && srcPos + len <= src.Length && 0 <= dstPos && dstPos + len <= dst.Length
    modifies dst
    ensures forall k :: 0 <= k < dst.Length ==>
      dst[k] == if dstPos <= k < dstPos + len then src[srcPos + k - dstPos] else old(dst[k])
  {
    forall k | dstPos <= k < dstPos + len {
      dst[k] := src[srcPos + k - dstPos];
    }
  }

  /** Where the fill has got to: the chunks in `done`, and the rows of chunk c before height y,
      or at height y before depth z. */
  predicate Reached(p: IVec3, b: nat, done: set<IVec3>, c: IVec3, y: int, z: int) {
    PosToChunkPos(p, b) in done || (PosToChunkPos(p, b) == c && (p.y < y || (p.y == y && p.z < z)))
  }

  /** The grid holds the volume's id at every block the fill has reached and the default id
      everywhere else. */
  ghost predicate Copied<T>(a: seq<int>, bd: IntBoundary, slots: seq<Slot<T>>, grid: IntBoundary, b: nat,
                            done: set<IVec3>, c: IVec3, y: int, z: int)
  {
    |a| == Volume(bd)
    && forall p | PosInside(bd, p) && 0 <= PosToYzxIdx(bd, p) < |a| ::
         a[PosToYzxIdx(bd, p)] == if Reached(p, b, done, c, y, z) then IdIn(slots, grid, b, p) else DEFAULT_BLOCK_ID
  }

  /** The freshly allocated grid, all default ids, has reached nothing. */
  lemma CopiedStart<T>(a: seq<int>, bd: IntBoundary, slots: seq<Slot<T>>, grid: IntBoundary, b: nat)
    requires |a| == Volume(bd) && forall k :: 0 <= k < |a| ==> a[k] == DEFAULT_BLOCK_ID
    ensures Copied(a, bd, slots, grid, b, {}, bd.a, bd.a.y, bd.a.z)
  {
  }

  /** Before its first row, a chunk has no reached block of its own. */
  lemma CopiedEnter<T>(a: seq<int>, bd: IntBoundary, slots: seq<Slot<T>>, grid: IntBoundary, b: nat,
                       done: set<IVec3>, c0: IVec3, c: IVec3)
    requires Normal(bd) && Copied(a, bd, slots, grid, b, done, c0, bd.a.y, bd.a.z)
    ensures Copied(a, bd, slots, grid, b, done, c, ChunkClamp(c, b, bd).a.y, ChunkClamp(c, b, bd).a.z)
  {
    forall p | PosInside(bd, p) && PosToChunkPos(p, b) == c
      ensures !(p.y < ChunkClamp(c, b, bd).a.y || (p.y == ChunkClamp(c, b, bd).a.y && p.z < ChunkClamp(c, b, bd).a.z))
    {
      RowHolds(bd, c, b, p.y, p.z, p);
    }
  }

  /** Copying one row of a loaded chunk into the grid reaches that row. */
  lemma CopiedRow<T>(a: seq<int>, a': seq<int>, bd: IntBoundary, slots: seq<Slot<T>>, grid: IntBoundary, b: nat,
                     done: set<IVec3>, c: IVec3, y: int, z: int)
    requires Normal(bd) && Copied(a, bd, slots, grid, b, done, c, y, z)
    requires RowOf(ChunkClamp(c, b, bd), y, z)
    requires SlotAt(slots, grid, c).Loaded? && |SlotAt(slots, grid, c).ids| == BlockCount(b)
    requires |a'| == |a|
    requires var s := PosToYzxIdx(bd, RowStart(ChunkClamp(c, b, bd), y, z));
      var li := LocalIdx(RowStart(ChunkClamp(c, b, bd), y, z), b);
      var ids := SlotAt(slots, grid, c).ids;
      forall k :: 0 <= k < |a'| ==>
        a'[k] == if s <= k < s + ChunkClamp(c, b, bd).dim.x && 0 <= li + k - s < |ids| then ids[li + k - s] else a[k]
    ensures Copied(a', bd, slots, grid, b, done, c, y, z + 1)
  {
    var cb := ChunkClamp(c, b, bd);
    var s := PosToYzxIdx(bd, RowStart(cb, y, z));
    forall p | PosInside(bd, p) && 0 <= PosToYzxIdx(bd, p) < |a'|
      ensures a'[PosToYzxIdx(bd, p)] == if Reached(p, b, done, c, y, z + 1) then IdIn(slots, grid, b, p) else DEFAULT_BLOCK_ID
    {
      var k := PosToYzxIdx(bd, p);
      if PosToChunkPos(p, b) == c && p.y == y && p.z == z {
        RowCellIndex(bd, c, b, y, z, p);
      }
      if s <= k < s + cb.dim.x {
        GridCellInRow(bd, c, b, y, z, p);
        RowPoint(bd, c, b, y, z, k - s);
      }
    }
  }

  /** After the last depth of a height, the chunk's next height starts. */
  lemma CopiedNextLayer<T>(a: seq<int>, bd: IntBoundary, slots: seq<Slot<T>>, grid: IntBoundary, b: nat,
                           done: set<IVec3>, c: IVec3, y: int)
    requires Normal(bd) && Copied(a, bd, slots, grid, b, done, c, y, ChunkClamp(c, b, bd).b.z)
    ensures Copied(a, bd, slots, grid, b, done, c, y + 1, ChunkClamp(c, b, bd).a.z)
  {
    forall p | PosInside(bd, p) && PosToChunkPos(p, b) == c
      ensures Reached(p, b, done, c, y, ChunkClamp(c, b, bd).b.z) == Reached(p, b, done, c, y + 1, ChunkClamp(c, b, bd).a.z)
    {
      RowHolds(bd, c, b, y, p.z, p);
    }
  }

  /** After its last height, the whole chunk has been reached. */
  lemma CopiedLeave<T>(a: seq<int>, bd: IntBoundary, slots: seq<Slot<T>>, grid: IntBoundary, b: nat,
                       done: set<IVec3>, c: IVec3, y: int)
    requires Normal(bd) && Copied(a, bd, slots, grid, b, done, c, y, ChunkClamp(c, b, bd).a.z)
    requires y >= ChunkClamp(c, b, bd).b.y
    ensures Copied(a, bd, slots, grid, b, done + {c}, bd.a, bd.a.y, bd.a.z)
  {
    forall p | PosInside(bd, p) && PosToChunkPos(p, b) == c
      ensures Reached(p, b, done, c, y, ChunkClamp(c, b, bd).a.z)
    {
      RowHolds(bd, c, b, y, p.z, p);
    }
  }

  /** An empty slot holds only default ids, which the grid already has. */
  lemma CopiedEmptySlot<T>(a: seq<int>, bd: IntBoundary, slots: seq<Slot<T>>, grid: IntBoundary, b: nat,
                           done: set<IVec3>, c: IVec3)
    requires Copied(a, bd, slots, grid, b, done, bd.a, bd.a.y, bd.a.z)
    requires SlotAt(slots, grid, c).Empty?
    ensures Copied(a, bd, slots, grid, b, done + {c}, bd.a, bd.a.y, bd.a.z)
  {
  }

  /** `fillArrFromChunk`: every row of chunk c that lies in the grid box is copied into the grid,
      heights outermost, then depths. A row with no width copies nothing. */
  method CopyChunkRows<T>(src: array<int>, dst: array<int>, bd: IntBoundary, c: IVec3, b: nat,
                          ghost slots: seq<Slot<T>>, ghost grid: IntBoundary, ghost done: set<IVec3>)
    requires src != dst && Normal(bd)
    requires SlotAt(slots, grid, c).Loaded? && SlotAt(slots, grid, c).ids == src[..] && src.Length == BlockCount(b)
    requires Copied(dst[..], bd, slots, grid, b, done, bd.a, bd.a.y, bd.a.z)
    modifies dst
    ensures Copied(dst[..], bd, slots, grid, b, done + {c}, bd.a, bd.a.y, bd.a.z)
  {
    var cb := GetClampedInside(New(ChunkPosToPos(c, b), AddScalar(ChunkPosToPos(c, b), Pow2(b))), bd);
    CopiedEnter(dst[..], bd, slots, grid, b, done, bd.a, c);
    var y := cb.a.y;
    while y < cb.b.y
      invariant cb.a.y <= y <= cb.b.y
      invariant Copied(dst[..], bd, slots, grid, b, done, c, y, cb.a.z)
    {
      var z := cb.a.z;
      while z < cb.b.z
        invariant cb.a.z <= z <= cb.b.z
        invariant Copied(dst[..], bd, slots, grid, b, done, c, y, z)
      {
        CopyRow(src, dst, bd, c, b, y, z, slots, grid, done);
        z := z + 1;
      }
      CopiedNextLayer(dst[..], bd, slots, grid, b, done, c, y);
      y := y + 1;
    }
    CopiedLeave(dst[..], bd, slots, grid, b, done, c, y);
  }

  /** One `System.arraycopy` of `fillArrFromChunk`: the row at height y and depth z. */
  method CopyRow<T>(src: array<int>, dst: array<int>, bd: IntBoundary, c: IVec3, b: nat, y: int, z: int,
                    ghost slots: seq<Slot<T>>, ghost grid: IntBoundary, ghost done: set<IVec3>)
    requires src != dst && Normal(bd) && RowOf(ChunkClamp(c, b, bd), y, z)
    requires SlotAt(slots, grid, c).Loaded? && SlotAt(slots, grid, c).ids == src[..] && src.Length == BlockCount(b)
    requires Copied(dst[..], bd, slots, grid, b, done, c, y, z)
    modifies dst
    ensures Copied(dst[..], bd, slots, grid, b, done, c, y, z + 1)
  {
    var cb := ChunkClamp(c, b, bd);
    var rowStart := IVec3(cb.a.x, y, z);
    var srcPos := LocalToBlockIdx(PosToChunkLocal(rowStart, b), b);
    var dstPos := PosToYzxIdx(bd, rowStart);
    var len := cb.dim.x;
    ghost var before := dst[..];
    if len > 0 {
      RowPoint(bd, c, b, y, z, 0);
      RowPoint(bd, c, b, y, z, len - 1);
      ArrayCopy(src, srcPos, dst, dstPos, len);
    }
    CopiedRow(before, dst[..], bd, slots, grid, b, done, c, y, z);
  }

  /** Once every chunk of the box is done, the grid is the volume's ids over the box. */
  lemma CopiedAll<T>(a: seq<int>, bd: IntBoundary, slots: seq<Slot<T>>, grid: IntBoundary, b: nat, done: set<IVec3>)
    requires Normal(bd) && Copied(a, bd, slots, grid, b, done, bd.a, bd.a.y, bd.a.z)
    requires forall c :: PosInside(PosBoundsToChunkBounds(bd, b), c) ==> c in done
    ensures forall p | PosInside(bd, p) :: 0 <= PosToYzxIdx(bd, p) < |a| && a[PosToYzxIdx(bd, p)] == IdIn(slots, grid, b, p)
  {
    forall p | PosInside(bd, p)
      ensures 0 <= PosToYzxIdx(bd, p) < |a| && a[PosToYzxIdx(bd, p)] == IdIn(slots, grid, b, p)
    {
      YzxIdxInRange(bd, p);
      ChunkBoundsCover(bd, b, p);
    }
  }

  // ---------------------------------------------------------------------------
  // Placing

  /** `blockIdMappings.keys.max()` of non-empty mappings. */
  method MaxKeyOf(m: map<int, BlockStates.BlockState>) returns (k: int)
    requires |m| > 0
    ensures k == MaxKey(m)
  {
    var keys := m.Keys;
    var seen := false;
    k := 0;
    while keys != {}
      invariant keys <= m.Keys
      invariant seen ==> k in m
      invariant forall j | j in m && j !in keys :: seen && j <= k
      decreases |keys|
    {
      if forall x :: x !in keys {
        assert false;
      }
      var j :| j in keys;
      if !seen || j > k {
        k, seen := j, true;
      }
      keys := keys - {j};
    }
    assert MaxKey(m) in m;
  }

  /** The box a grid of dimensions dims covers with its low corner at pos:
      `IntBoundary.new(IVec3(0), dims).shift(pos)`. */
  function GridBox(pos: IVec3, dims: IVec3): IntBoundary {
    Move(New(Splat(0), dims), pos)
  }

  /** The state that grid id k stands for: its mapping, or the volume's default state when the
      mappings skip it. */
  function GridState(mappings: map<int, BlockStates.BlockState>, k: int, dflt: BlockStates.BlockState): BlockStates.BlockState {
    if k in mappings then mappings[k] else dflt
  }

  /** The volume id of the grid cell i, through the grid-to-volume id table. */
  function Look(g: seq<int>, volMap: seq<int>, i: int): int {
    if 0 <= i < |g| && 0 <= g[i] < |volMap| then volMap[g[i]] else DEFAULT_BLOCK_ID
  }

  /** The id `placeBlockGrid` puts at p of the placed box. */
  function PlacedId(g: seq<int>, volMap: seq<int>, box: IntBoundary, p: IVec3): int {
    Look(g, volMap, PosToYzxIdx(box, p))
  }

  /** The grid covers the box and each of its ids indexes the id table. */
  predicate GridIdsFit(g: seq<int>, n: int, box: IntBoundary) {
    |g| >= Volume(box) && forall k :: 0 <= k < Volume(box) ==> 0 <= g[k] < n
  }

  /** As written: `firstOrNull { volId -> volId == default }` yields the first table VALUE equal
      to the default id, which is that id itself. */
  function FirstDefaultValue(volMap: seq<int>): (r: Option<int>)
    ensures r.Some? <==> DEFAULT_BLOCK_ID in volMap
    ensures r.Some? ==> r.value == DEFAULT_BLOCK_ID
  {
    if |volMap| == 0 then None
    else if volMap[0] == DEFAULT_BLOCK_ID then Some(volMap[0])
    else FirstDefaultValue(volMap[1..])
  }

  /** Corrected: the first grid id whose volume id is the default (`indexOfFirst`). */
  function FirstDefaultIndex(volMap: seq<int>): (r: Option<int>)
    ensures r.Some? <==> DEFAULT_BLOCK_ID in volMap
    ensures r.Some? ==> 0 <= r.value < |volMap| && volMap[r.value] == DEFAULT_BLOCK_ID
    ensures r.Some? ==> forall j :: 0 <= j < r.value ==> volMap[j] != DEFAULT_BLOCK_ID
  {
    if |volMap| == 0 then None
    else if volMap[0] == DEFAULT_BLOCK_ID then Some(0)
    else match FirstDefaultIndex(volMap[1..])
      case None => None
      case Some(j) => Some(j + 1)
  }

  /** As written, `doCreateChunk` for a row of grid ids: always when no grid id maps to the
      default, otherwise when some id of the row differs from the default VOLUME id. */
  function CreatesChunkAsWritten(volMap: seq<int>, row: seq<int>): bool {
    match FirstDefaultValue(volMap)
    case None => true
    case Some(v) => exists i :: 0 <= i < |row| && row[i] != v
  }

  /** Corrected `doCreateChunk`: when some id of the row differs from the grid id that maps to
      the default. */
  function CreatesChunk(volMap: seq<int>, row: seq<int>): bool {
    match FirstDefaultIndex(volMap)
    case None => true
    case Some(j) => exists i :: 0 <= i < |row| && row[i] != j
  }

  /** The corrected test skips a row only when every block of it would be the default id. */
  lemma CreatesChunkSound(volMap: seq<int>, row: seq<int>)
    requires forall i :: 0 <= i < |row| ==> 0 <= row[i] < |volMap|
    requires !CreatesChunk(volMap, row)
    ensures forall i :: 0 <= i < |row| ==> volMap[row[i]] == DEFAULT_BLOCK_ID
  {
  }

  /** The test as written skips a row whose block is not the default: grid id 0 maps to volume
      id 5 and grid id 1 to the default, and the row holds grid id 0. */
  lemma CreatesChunkAsWrittenSkipsBlock(volMap: seq<int>, row: seq<int>)
    requires volMap == [5, DEFAULT_BLOCK_ID] && row == [0]
    ensures !CreatesChunkAsWritten(volMap, row)
    ensures volMap[row[0]] != DEFAULT_BLOCK_ID
  {
    assert volMap[1..] == [DEFAULT_BLOCK_ID];
  }

  /** The two tests agree when grid id 0 maps to the default or no grid id does, as in a grid
      extracted from a volume and placed back into one with the same default. */
  lemma CreatesChunkAsWrittenAgrees(volMap: seq<int>, row: seq<int>)
    requires (|volMap| > 0 && volMap[0] == DEFAULT_BLOCK_ID) || DEFAULT_BLOCK_ID !in volMap
    ensures CreatesChunkAsWritten(volMap, row) == CreatesChunk(volMap, row)
  {
  }

  /** The `firstOrNull` scan with its fallback, corrected to yield the index: whether some grid
      id maps to the default, and the first such id (-1 when none does). */
  method FindDefaultIndex(volMap: array<int>) returns (found: bool, idx: int)
    ensures found <==> FirstDefaultIndex(volMap[..]).Some?
    ensures found ==> idx == FirstDefaultIndex(volMap[..]).value
    ensures !found ==> idx == -1
  {
    found, idx := false, -1;
    var i := 0;
    while i < volMap.Length
      invariant 0 <= i <= volMap.Length
      invariant forall j :: 0 <= j < i ==> volMap[j] != DEFAULT_BLOCK_ID
    {
      if volMap[i] == DEFAULT_BLOCK_ID {
        found, idx := true, i;
        FirstIndexAt(volMap[..], i);
        return;
      }
      i := i + 1;
    }
  }

  /** A default id at i with none before it is what `FirstDefaultIndex` finds. */
  lemma {:induction false} FirstIndexAt(volMap: seq<int>, i: int)
    requires 0 <= i < |volMap| && volMap[i] == DEFAULT_BLOCK_ID
    requires forall j :: 0 <= j < i ==> volMap[j] != DEFAULT_BLOCK_ID
    ensures FirstDefaultIndex(volMap) == Some(i)
    decreases i
  {
    if i > 0 {
      FirstIndexAt(volMap[1..], i - 1);
    }
  }

  /** The row scan of `doCreateChunk` (with the corrected default grid id). */
  method RowNeedsChunk(grid: array<int>, s: int, len: int, found: bool, idx: int) returns (create: bool)
    requires 0 <= len && (len > 0 ==> 0 <= s && s + len <= grid.Length)
    ensures create <==> !found || exists i :: s <= i < s + len && grid[i] != idx
  {
    if !found {
      return true;
    }
    var i := 0;
    while i < len
      invariant 0 <= i <= len
      invariant forall j :: s <= j < s + i ==> grid[j] == idx
    {
      if grid[s + i] != idx {
        return true;
      }
      i := i + 1;
    }
    return false;
  }

  /** The placing loop of `fillChunkFromArr`: len cells of dst from dstPos onward take the
      volume ids of the grid cells from srcPos onward. */
  method MapRowInto(src: array<int>, srcPos: int, volMap: array<int>, dst: array<int>, dstPos: int, len: int)
    requires dst != src && dst != volMap
    requires 0 < len && 0 <= srcPos && srcPos + len <= src.Length && 0 <= dstPos && dstPos + len <= dst.Length
    requires forall j :: srcPos <= j < srcPos + len ==> 0 <= src[j] < volMap.Length
    modifies dst
    ensures forall k :: 0 <= k < dst.Length ==>
      dst[k] == if dstPos <= k < dstPos + len then volMap[src[srcPos + k - dstPos]] else old(dst[k])
  {
    var i := 0;
    while i < len
      invariant 0 <= i <= len
      invariant forall k :: 0 <= k < dst.Length ==>
        dst[k] == if dstPos <= k < dstPos + i then volMap[src[srcPos + k - dstPos]] else old(dst[k])
    {
      dst[dstPos + i] := volMap[src[srcPos + i]];
      i := i + 1;
    }
  }

  /** Where placing has got to: every reached block of the box holds its placed id and every
      other block what it held before. */
  ghost predicate Placed<T>(sl: seq<Slot<T>>, s0: seq<Slot<T>>, grid: IntBoundary, b: nat, box: IntBoundary,
                            g: seq<int>, volMap: seq<int>, done: set<IVec3>, c: IVec3, y: int, z: int)
  {
    forall p :: IdIn(sl, grid, b, p) ==
      if PosInside(box, p) && Reached(p, b, done, c, y, z) then PlacedId(g, volMap, box, p) else IdIn(s0, grid, b, p)
  }

  /** No tile data differs between two slot sequences. */
  ghost predicate SameTiles<T>(sl: seq<Slot<T>>, s0: seq<Slot<T>>, grid: IntBoundary, b: nat) {
    forall p :: TileIn(sl, grid, b, p) == TileIn(s0, grid, b, p)
  }

  /** Replacing slot c touches only the positions of chunk c. */
  lemma SlotAtUpdate<T>(sl: seq<Slot<T>>, grid: IntBoundary, c: IVec3, v: Slot<T>, q: IVec3)
    requires Normal(grid) && PosInside(grid, c) && |sl| == Volume(grid)
    ensures 0 <= PosToYzxIdx(grid, c) < |sl|
    ensures SlotAt(sl[PosToYzxIdx(grid, c) := v], grid, q) == if q == c then v else SlotAt(sl, grid, q)
  {
    YzxIdxInRange(grid, c);
    if q != c && PosInside(grid, q) && PosToYzxIdx(grid, q) == PosToYzxIdx(grid, c) {
      YzxIdxInjective(grid, q, c);
    }
  }

  /** Nothing has been placed yet. */
  lemma PlacedStart<T>(s0: seq<Slot<T>>, grid: IntBoundary, b: nat, box: IntBoundary, g: seq<int>, volMap: seq<int>)
    ensures Placed(s0, s0, grid, b, box, g, volMap, {}, box.a, box.a.y, box.a.z)
    ensures SameTiles(s0, s0, grid, b)
  {
  }

  /** Before its first row, a chunk has no placed block of its own. */
  lemma PlacedEnter<T>(sl: seq<Slot<T>>, s0: seq<Slot<T>>, grid: IntBoundary, b: nat, box: IntBoundary,
                       g: seq<int>, volMap: seq<int>, done: set<IVec3>, c0: IVec3, c: IVec3)
    requires Normal(box) && Placed(sl, s0, grid, b, box, g, volMap, done, c0, box.a.y, box.a.z)
    ensures Placed(sl, s0, grid, b, box, g, volMap, done, c, ChunkClamp(c, b, box).a.y, ChunkClamp(c, b, box).a.z)
  {
    forall p | PosInside(box, p) && PosToChunkPos(p, b) == c
      ensures !(p.y < ChunkClamp(c, b, box).a.y || (p.y == ChunkClamp(c, b, box).a.y && p.z < ChunkClamp(c, b, box).a.z))
    {
      RowHolds(box, c, b, p.y, p.z, p);
    }
  }

  /** Writing one row of a loaded chunk places that row. */
  lemma PlacedRowWrite<T>(sl: seq<Slot<T>>, ids': seq<int>, s0: seq<Slot<T>>, grid: IntBoundary, b: nat, box: IntBoundary,
                          g: seq<int>, volMap: seq<int>, done: set<IVec3>, c: IVec3, y: int, z: int)
    requires Normal(box) && Normal(grid) && PosInside(grid, c) && |sl| == Volume(grid)
    requires RowOf(ChunkClamp(c, b, box), y, z)
    requires Placed(sl, s0, grid, b, box, g, volMap, done, c, y, z) && SameTiles(sl, s0, grid, b)
    requires SlotAt(sl, grid, c).Loaded? && |SlotAt(sl, grid, c).ids| == BlockCount(b) == |ids'|
    requires var s := PosToYzxIdx(box, RowStart(ChunkClamp(c, b, box), y, z));
      var li := LocalIdx(RowStart(ChunkClamp(c, b, box), y, z), b);
      forall k :: 0 <= k < |ids'| ==>
        ids'[k] == if li <= k < li + ChunkClamp(c, b, box).dim.x then Look(g, volMap, s + k - li) else SlotAt(sl, grid, c).ids[k]
    ensures var sl' := sl[PosToYzxIdx(grid, c) := Loaded(ids', SlotAt(sl, grid, c).tiles)];
      |sl'| == |sl| && Placed(sl', s0, grid, b, box, g, volMap, done, c, y, z + 1) && SameTiles(sl', s0, grid, b)
  {
    YzxIdxInRange(grid, c);
    var v := Loaded(ids', SlotAt(sl, grid, c).tiles);
    var sl' := sl[PosToYzxIdx(grid, c) := v];
    var cb := ChunkClamp(c, b, box);
    var li := LocalIdx(RowStart(cb, y, z), b);
    forall p ensures IdIn(sl', grid, b, p) ==
      (if PosInside(box, p) && Reached(p, b, done, c, y, z + 1) then PlacedId(g, volMap, box, p) else IdIn(s0, grid, b, p))
      && TileIn(sl', grid, b, p) == TileIn(s0, grid, b, p)
    {
      SlotAtUpdate(sl, grid, c, v, PosToChunkPos(p, b));
      LocalIdxRange(p, b);
      if PosToChunkPos(p, b) == c {
        if li <= LocalIdx(p, b) < li + cb.dim.x {
          ChunkCellInRow(box, c, b, y, z, p);
        } else if PosInside(box, p) && p.y == y && p.z == z {
          RowHolds(box, c, b, y, z, p);
          RowPoint(box, c, b, y, z, p.x - cb.a.x);
          assert false;
        }
      }
    }
  }

  /** A row whose blocks all place the default id needs nothing written into an empty slot. */
  lemma PlacedRowSkip<T>(sl: seq<Slot<T>>, s0: seq<Slot<T>>, grid: IntBoundary, b: nat, box: IntBoundary,
                         g: seq<int>, volMap: seq<int>, done: set<IVec3>, c: IVec3, y: int, z: int)
    requires Normal(box) && RowOf(ChunkClamp(c, b, box), y, z)
    requires Placed(sl, s0, grid, b, box, g, volMap, done, c, y, z)
    requires SlotAt(sl, grid, c).Empty?
    requires var s := PosToYzxIdx(box, RowStart(ChunkClamp(c, b, box), y, z));
      forall j :: s <= j < s + ChunkClamp(c, b, box).dim.x ==> Look(g, volMap, j) == DEFAULT_BLOCK_ID
    ensures Placed(sl, s0, grid, b, box, g, volMap, done, c, y, z + 1)
  {
    var cb := ChunkClamp(c, b, box);
    forall p ensures IdIn(sl, grid, b, p) ==
      if PosInside(box, p) && Reached(p, b, done, c, y, z + 1) then PlacedId(g, volMap, box, p) else IdIn(s0, grid, b, p)
    {
      assert IdIn(sl, grid, b, p) ==
        if PosInside(box, p) && Reached(p, b, done, c, y, z) then PlacedId(g, volMap, box, p) else IdIn(s0, grid, b, p);
      if PosInside(box, p) && PosToChunkPos(p, b) == c && p.y == y && p.z == z && !(PosToChunkPos(p, b) in done) {
        RowHolds(box, c, b, y, z, p);
        RowPoint(box, c, b, y, z, p.x - cb.a.x);
        assert IdIn(sl, grid, b, p) == DEFAULT_BLOCK_ID;
      }
    }
  }

  /** A fresh chunk in an empty slot changes no id and no tile data. */
  lemma AllocKeeps<T>(sl: seq<Slot<T>>, grid: IntBoundary, b: nat, c: IVec3, p: IVec3)
    requires Normal(grid) && PosInside(grid, c) && |sl| == Volume(grid) && SlotAt(sl, grid, c).Empty?
    ensures 0 <= PosToYzxIdx(grid, c) < |sl|
    ensures IdIn(sl[PosToYzxIdx(grid, c) := Loaded(EmptyIds(b), map[])], grid, b, p) == IdIn(sl, grid, b, p)
    ensures TileIn(sl[PosToYzxIdx(grid, c) := Loaded(EmptyIds(b), map[])], grid, b, p) == TileIn(sl, grid, b, p)
  {
    SlotAtUpdate(sl, grid, c, Loaded(EmptyIds(b), map[]), PosToChunkPos(p, b));
    LocalIdxRange(p, b);
  }

  /** After the last depth of a height, the chunk's next height starts. */
  lemma PlacedNextLayer<T>(sl: seq<Slot<T>>, s0: seq<Slot<T>>, grid: IntBoundary, b: nat, box: IntBoundary,
                           g: seq<int>, volMap: seq<int>, done: set<IVec3>, c: IVec3, y: int)
    requires Normal(box) && Placed(sl, s0, grid, b, box, g, volMap, done, c, y, ChunkClamp(c, b, box).b.z)
    ensures Placed(sl, s0, grid, b, box, g, volMap, done, c, y + 1, ChunkClamp(c, b, box).a.z)
  {
    forall p | PosInside(box, p) && PosToChunkPos(p, b) == c
      ensures Reached(p, b, done, c, y, ChunkClamp(c, b, box).b.z) == Reached(p, b, done, c, y + 1, ChunkClamp(c, b, box).a.z)
    {
      RowHolds(box, c, b, y, p.z, p);
    }
  }

  /** After its last height, the whole chunk has been placed. */
  lemma PlacedLeave<T>(sl: seq<Slot<T>>, s0: seq<Slot<T>>, grid: IntBoundary, b: nat, box: IntBoundary,
                       g: seq<int>, volMap: seq<int>, done: set<IVec3>, c: IVec3, y: int)
    requires Normal(box) && Placed(sl, s0, grid, b, box, g, volMap, done, c, y, ChunkClamp(c, b, box).a.z)
    requires y >= ChunkClamp(c, b, box).b.y
    ensures Placed(sl, s0, grid, b, box, g, volMap, done + {c}, box.a, box.a.y, box.a.z)
  {
    forall p | PosInside(box, p) && PosToChunkPos(p, b) == c
      ensures Reached(p, b, done, c, y, ChunkClamp(c, b, box).a.z)
    {
      RowHolds(box, c, b, y, p.z, p);
    }
  }

  /** Once every chunk of the box is done, the box holds the placed ids and the rest of the
      volume what it held before. */
  lemma PlacedAll<T>(sl: seq<Slot<T>>, s0: seq<Slot<T>>, grid: IntBoundary, b: nat, box: IntBoundary,
                     g: seq<int>, volMap: seq<int>, done: set<IVec3>)
    requires Normal(box) && Placed(sl, s0, grid, b, box, g, volMap, done, box.a, box.a.y, box.a.z)
    requires forall c :: PosInside(PosBoundsToChunkBounds(box, b), c) ==> c in done
    ensures forall p :: IdIn(sl, grid, b, p) ==
                        if PosInside(box, p) then PlacedId(g, volMap, box, p) else IdIn(s0, grid, b, p)
  {
    forall p | PosInside(box, p) ensures PosToChunkPos(p, b) in done {
      ChunkBoundsCover(box, b, p);
    }
  }

  /** A row with no width places nothing. */
  lemma PlacedRowEmpty<T>(sl: seq<Slot<T>>, s0: seq<Slot<T>>, grid: IntBoundary, b: nat, box: IntBoundary,
                          g: seq<int>, volMap: seq<int>, done: set<IVec3>, c: IVec3, y: int, z: int)
    requires Normal(box) && ChunkClamp(c, b, box).dim.x == 0
    requires Placed(sl, s0, grid, b, box, g, volMap, done, c, y, z)
    ensures Placed(sl, s0, grid, b, box, g, volMap, done, c, y, z + 1)
  {
    forall p | PosInside(box, p) && PosToChunkPos(p, b) == c ensures !(p.y == y && p.z == z) {
      RowHolds(box, c, b, y, z, p);
    }
  }

  /** A fresh chunk in an empty slot keeps what has been placed so far. */
  lemma PlacedAlloc<T>(sl: seq<Slot<T>>, s0: seq<Slot<T>>, grid: IntBoundary, b: nat, box: IntBoundary,
                       g: seq<int>, volMap: seq<int>, done: set<IVec3>, c: IVec3, y: int, z: int)
    requires Normal(grid) && PosInside(grid, c) && |sl| == Volume(grid) && SlotAt(sl, grid, c).Empty?
    requires Placed(sl, s0, grid, b, box, g, volMap, done, c, y, z) && SameTiles(sl, s0, grid, b)
    ensures 0 <= PosToYzxIdx(grid, c) < |sl|
    ensures var sl' := sl[PosToYzxIdx(grid, c) := Loaded(EmptyIds(b), map[])];
      Placed(sl', s0, grid, b, box, g, volMap, done, c, y, z) && SameTiles(sl', s0, grid, b)
  {
    YzxIdxInRange(grid, c);
    forall p ensures IdIn(sl[PosToYzxIdx(grid, c) := Loaded(EmptyIds(b), map[])], grid, b, p) == IdIn(sl, grid, b, p)
      && TileIn(sl[PosToYzxIdx(grid, c) := Loaded(EmptyIds(b), map[])], grid, b, p) == TileIn(sl, grid, b, p)
    {
      AllocKeeps(sl, grid, b, c, p);
    }
  }

  /** The default grid id as the (corrected) scan finds it. */
  predicate DefaultIndex(volMap: seq<int>, found: bool, idx: int) {
    (found <==> FirstDefaultIndex(volMap).Some?) && (found ==> idx == FirstDefaultIndex(volMap).value)
  }

  /** The value of a chunk slot. */
  ghost function SlotOf<T>(chunk: Chunk?<T>): Slot<T>
    reads chunk, if chunk == null then {} else {chunk.blocks}
  {
    if chunk == null then Empty else Loaded(chunk.blocks[..], chunk.tileData)
  }

  /** One row of `fillChunkFromArr`: a null chunk is allocated first unless the row places only
      the default id; then the row's grid ids, through the id table, overwrite the chunk's row. */
  method PlaceRow<T>(chunk: Chunk?<T>, b: nat, grid: array<int>, volMap: array<int>, box: IntBoundary, c: IVec3,
                     y: int, z: int, found: bool, idx: int,
                     ghost sl: seq<Slot<T>>, ghost cg: IntBoundary, ghost s0: seq<Slot<T>>, ghost done: set<IVec3>)
    returns (out: Chunk?<T>, ghost sl': seq<Slot<T>>)
    requires Normal(box) && Normal(cg) && PosInside(cg, c) && |sl| == Volume(cg) && 0 <= PosToYzxIdx(cg, c) < |sl|
    requires RowOf(ChunkClamp(c, b, box), y, z)
    requires GridIdsFit(grid[..], volMap.Length, box) && DefaultIndex(volMap[..], found, idx)
    requires chunk != null ==> chunk.Valid() && chunk.bitSize == b && chunk.blocks != grid && chunk.blocks != volMap
    requires SlotAt(sl, cg, c) == SlotOf(chunk)
    requires Placed(sl, s0, cg, b, box, grid[..], volMap[..], done, c, y, z) && SameTiles(sl, s0, cg, b)
    modifies if chunk == null then {} else {chunk.blocks}
    ensures chunk != null ==> out == chunk
    ensures chunk == null && out != null ==> fresh(out) && fresh(out.blocks)
    ensures out != null ==> out.Valid() && out.bitSize == b && out.blocks != grid && out.blocks != volMap
    ensures sl' == sl[PosToYzxIdx(cg, c) := SlotOf(out)]
    ensures Placed(sl', s0, cg, b, box, grid[..], volMap[..], done, c, y, z + 1) && SameTiles(sl', s0, cg, b)
  {
    var cb := GetClampedInside(New(ChunkPosToPos(c, b), AddScalar(ChunkPosToPos(c, b), Pow2(b))), box);
    var start := IVec3(cb.a.x, y, z);
    var s := PosToYzxIdx(box, start);
    var li := LocalIdx(start, b);
    var len := cb.dim.x;
    var ci := PosToYzxIdx(cg, c);
    out, sl' := chunk, sl;
    if len > 0 {
      RowPoint(box, c, b, y, z, 0);
      RowPoint(box, c, b, y, z, len - 1);
    }
    if out == null {
      var create := RowNeedsChunk(grid, s, len, found, idx);
      if create {
        out := new Chunk<T>(b);
        assert out.blocks[..] == EmptyIds(b);
        PlacedAlloc(sl, s0, cg, b, box, grid[..], volMap[..], done, c, y, z);
        sl' := sl[ci := Loaded(EmptyIds(b), map[])];
      } else if len > 0 {
        forall j | s <= j < s + len ensures Look(grid[..], volMap[..], j) == DEFAULT_BLOCK_ID {
          assert grid[j] == idx;
        }
        PlacedRowSkip(sl, s0, cg, b, box, grid[..], volMap[..], done, c, y, z);
        return;
      }
    }
    if len == 0 {
      PlacedRowEmpty(sl', s0, cg, b, box, grid[..], volMap[..], done, c, y, z);
      return;
    }
    if out != null {
      sl' := WriteRow(out, b, grid, volMap, box, c, y, z, sl', cg, s0, done);
    }
  }

  /** One non-empty row of the grid box written into an allocated chunk. */
  method WriteRow<T>(out: Chunk<T>, b: nat, grid: array<int>, volMap: array<int>, box: IntBoundary, c: IVec3,
                     y: int, z: int, ghost sl: seq<Slot<T>>, ghost cg: IntBoundary, ghost s0: seq<Slot<T>>,
                     ghost done: set<IVec3>)
    returns (ghost sl': seq<Slot<T>>)
    requires Normal(box) && Normal(cg) && PosInside(cg, c) && |sl| == Volume(cg)
    requires RowOf(ChunkClamp(c, b, box), y, z) && ChunkClamp(c, b, box).dim.x > 0
    requires GridIdsFit(grid[..], volMap.Length, box)
    requires out.Valid() && out.bitSize == b && out.blocks != grid && out.blocks != volMap
    requires SlotAt(sl, cg, c) == SlotOf(out)
    requires Placed(sl, s0, cg, b, box, grid[..], volMap[..], done, c, y, z) && SameTiles(sl, s0, cg, b)
    modifies out.blocks
    ensures out.Valid()
    ensures sl' == sl[PosToYzxIdx(cg, c) := SlotOf(out)]
    ensures Placed(sl', s0, cg, b, box, grid[..], volMap[..], done, c, y, z + 1) && SameTiles(sl', s0, cg, b)
  {
    var cb := GetClampedInside(New(ChunkPosToPos(c, b), AddScalar(ChunkPosToPos(c, b), Pow2(b))), box);
    var start := IVec3(cb.a.x, y, z);
    var s := PosToYzxIdx(box, start);
    var li := LocalIdx(start, b);
    var len := cb.dim.x;
    RowPoint(box, c, b, y, z, 0);
    RowPoint(box, c, b, y, z, len - 1);
    ghost var before := out.blocks[..];
    MapRowInto(grid, s, volMap, out.blocks, li, len);
    forall k | 0 <= k < out.blocks.Length
      ensures out.blocks[k] == if li <= k < li + len then Look(grid[..], volMap[..], s + k - li) else before[k]
    {
    }
    PlacedRowWrite(sl, out.blocks[..], s0, cg, b, box, grid[..], volMap[..], done, c, y, z);
    sl' := sl[PosToYzxIdx(cg, c) := SlotOf(out)];
  }

  /** `fillChunkFromArr` for chunk position c: its rows inside the grid box, heights outermost,
      then depths. The chunk it ends with is the one given, or a fresh one when a row needed it. */
  method PlaceChunkRows<T>(chunk: Chunk?<T>, b: nat, grid: array<int>, volMap: array<int>, box: IntBoundary, c: IVec3,
                           found: bool, idx: int,
                           ghost sl: seq<Slot<T>>, ghost cg: IntBoundary, ghost s0: seq<Slot<T>>, ghost done: set<IVec3>)
    returns (out: Chunk?<T>, ghost sl': seq<Slot<T>>)
    requires Normal(box) && Normal(cg) && PosInside(cg, c) && |sl| == Volume(cg) && 0 <= PosToYzxIdx(cg, c) < |sl|
    requires GridIdsFit(grid[..], volMap.Length, box) && DefaultIndex(volMap[..], found, idx)
    requires chunk != null ==> chunk.Valid() && chunk.bitSize == b && chunk.blocks != grid && chunk.blocks != volMap
    requires SlotAt(sl, cg, c) == SlotOf(chunk)
    requires Placed(sl, s0, cg, b, box, grid[..], volMap[..], done, box.a, box.a.y, box.a.z) && SameTiles(sl, s0, cg, b)
    modifies if chunk == null then {} else {chunk.blocks}
    ensures chunk != null ==> out == chunk
    ensures chunk == null && out != null ==> fresh(out) && fresh(out.blocks)
    ensures out != null ==> out.Valid() && out.bitSize == b
    ensures sl' == sl[PosToYzxIdx(cg, c) := SlotOf(out)]
    ensures Placed(sl', s0, cg, b, box, grid[..], volMap[..], done + {c}, box.a, box.a.y, box.a.z) && SameTiles(sl', s0, cg, b)
  {
    var cb := GetClampedInside(New(ChunkPosToPos(c, b), AddScalar(ChunkPosToPos(c, b), Pow2(b))), box);
    ghost var ci := PosToYzxIdx(cg, c);
    PlacedEnter(sl, s0, cg, b, box, grid[..], volMap[..], done, box.a, c);
    out, sl' := chunk, sl;
    var y := cb.a.y;
    while y < cb.b.y
      invariant cb.a.y <= y <= cb.b.y
      invariant chunk != null ==> out == chunk
      invariant chunk == null && out != null ==> fresh(out) && fresh(out.blocks)
      invariant out != null ==> out.Valid() && out.bitSize == b && out.blocks != grid && out.blocks != volMap
      invariant sl' == sl[ci := SlotOf(out)]
      invariant Placed(sl', s0, cg, b, box, grid[..], volMap[..], done, c, y, cb.a.z) && SameTiles(sl', s0, cg, b)
    {
      var z := cb.a.z;
      while z < cb.b.z
        invariant cb.a.z <= z <= cb.b.z
        invariant chunk != null ==> out == chunk
        invariant chunk == null && out != null ==> fresh(out) && fresh(out.blocks)
        invariant out != null ==> out.Valid() && out.bitSize == b && out.blocks != grid && out.blocks != volMap
        invariant sl' == sl[ci := SlotOf(out)]
        invariant Placed(sl', s0, cg, b, box, grid[..], volMap[..], done, c, y, z) && SameTiles(sl', s0, cg, b)
      {
        SlotAtUpdate(sl, cg, c, SlotOf(out), c);
        ghost var cur := sl';
        out, sl' := PlaceRow(out, b, grid, volMap, box, c, y, z, found, idx, cur, cg, s0, done);
        z := z + 1;
      }
      PlacedNextLayer(sl', s0, cg, b, box, grid[..], volMap[..], done, c, y);
      y := y + 1;
    }
    PlacedLeave(sl', s0, cg, b, box, grid[..], volMap[..], done, c, y);
  }
}
