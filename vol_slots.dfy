/** The contents of a volume as values: one slot per chunk-grid position (Y-Z-X), each either
    empty (a null chunk: every block is the default id, no tile data) or holding a chunk's ids and
    tile data. The volume class keeps a ghost copy of its chunks in this form, and every
    statement about what a position reads back is made here. */
module VolumeSlots {
  import opened Wrappers
  import opened Vec
  import opened Bounds
  import opened VolBlocks
  import opened Chunks
  import opened ChunkGrid

  datatype Slot<T> = Empty | Loaded(ids: seq<int>, tiles: map<IVec3, T>)

  /** Every loaded slot holds one id per block of a chunk of bit size b. */
  predicate SlotsFit<T>(slots: seq<Slot<T>>, b: nat) {
    forall i :: 0 <= i < |slots| && slots[i].Loaded? ==> |slots[i].ids| == BlockCount(b)
  }

  /** The slot of chunk-grid position c; positions outside the grid read as empty. */
  function SlotAt<T>(slots: seq<Slot<T>>, grid: IntBoundary, c: IVec3): Slot<T> {
    var i := PosToYzxIdx(grid, c);
    if PosInside(grid, c) && 0 <= i < |slots| then slots[i] else Empty
  }

  /** `localToBlockIdx(posToChunkLocalCoords(p))`. */
  function LocalIdx(p: IVec3, b: nat): int {
    LocalToBlockIdx(PosToChunkLocal(p, b), b)
  }

  lemma LocalIdxRange(p: IVec3, b: nat)
    ensures 0 <= LocalIdx(p, b) < BlockCount(b)
  {
    ChunkSplit(p, b);
    BlockIdxRoundTrip(PosToChunkLocal(p, b), 0, b);
  }

  /** A fresh chunk's ids: all default. */
  function EmptyIds(b: nat): seq<int> {
    seq(BlockCount(b), _ => DEFAULT_BLOCK_ID)
  }

  /** The palette id stored at position p: the default id in an empty slot. */
  function IdIn<T>(slots: seq<Slot<T>>, grid: IntBoundary, b: nat, p: IVec3): int {
    match SlotAt(slots, grid, PosToChunkPos(p, b))
    case Empty => DEFAULT_BLOCK_ID
    case Loaded(ids, _) =>
      var li := LocalIdx(p, b);
      if 0 <= li < |ids| then ids[li] else DEFAULT_BLOCK_ID
  }

  /** The tile data at position p: none in an empty slot. */
  function TileIn<T>(slots: seq<Slot<T>>, grid: IntBoundary, b: nat, p: IVec3): Option<T> {
    match SlotAt(slots, grid, PosToChunkPos(p, b))
    case Empty => None
    case Loaded(_, tiles) =>
      var l := PosToChunkLocal(p, b);
      if l in tiles then Some(tiles[l]) else None
  }

  /** `setVolBlockState` on the slots: the default id written into an empty slot leaves it empty;
      any other id gives the slot a fresh chunk first. */
  function WithId<T>(slots: seq<Slot<T>>, grid: IntBoundary, b: nat, p: IVec3, id: int): (r: seq<Slot<T>>)
    requires SlotsFit(slots, b)
    ensures |r| == |slots| && SlotsFit(r, b)
    ensures forall i :: 0 <= i < |slots| ==> (r[i].Empty? <==>
      slots[i].Empty? && (i != PosToYzxIdx(grid, PosToChunkPos(p, b)) || id == DEFAULT_BLOCK_ID))
  {
    var i := PosToYzxIdx(grid, PosToChunkPos(p, b));
    var li := LocalIdx(p, b);
    LocalIdxRange(p, b);
    if !(0 <= i < |slots|) then slots
    else match slots[i]
      case Empty =>
        if id == DEFAULT_BLOCK_ID then slots else slots[i := Loaded(EmptyIds(b)[li := id], map[])]
      case Loaded(ids, tiles) => slots[i := Loaded(ids[li := id], tiles)]
  }

  /** `setTileData` on the slots: removing tile data from an empty slot leaves it empty; storing
      some gives the slot a fresh chunk first. */
  function WithTile<T>(slots: seq<Slot<T>>, grid: IntBoundary, b: nat, p: IVec3, data: Option<T>): (r: seq<Slot<T>>)
    requires SlotsFit(slots, b)
    ensures |r| == |slots| && SlotsFit(r, b)
    ensures forall i :: 0 <= i < |slots| ==> (r[i].Empty? <==>
      slots[i].Empty? && (i != PosToYzxIdx(grid, PosToChunkPos(p, b)) || data.None?))
  {
    var i := PosToYzxIdx(grid, PosToChunkPos(p, b));
    var l := PosToChunkLocal(p, b);
    if !(0 <= i < |slots|) then slots
    else match slots[i]
      case Empty =>
        if data.None? then slots else slots[i := Loaded(EmptyIds(b), map[l := data.value])]
      case Loaded(ids, tiles) =>
        slots[i := Loaded(ids, if data.None? then tiles - {l} else tiles[l := data.value])]
  }

  // ---------------------------------------------------------------------------
  // Addressing facts

  /** The chunk index of a loaded position is in range, and its local offset is a local position. */
  lemma LoadedIdx(grid: IntBoundary, b: nat, p: IVec3)
    requires Normal(grid) && PosInside(Scaled(grid, b), p)
    ensures PosInside(grid, PosToChunkPos(p, b))
    ensures 0 <= PosToYzxIdx(grid, PosToChunkPos(p, b)) < Volume(grid)
    ensures InChunk(PosToChunkLocal(p, b), b)
  {
    ScaledInside(grid, b, p);
    YzxIdxInRange(grid, PosToChunkPos(p, b));
    ChunkSplit(p, b);
  }

  /** Two distinct positions whose chunks share a slot of the grid differ in their cell. */
  lemma SameSlot(grid: IntBoundary, b: nat, p: IVec3, q: IVec3)
    requires Normal(grid) && PosInside(grid, PosToChunkPos(p, b)) && PosInside(grid, PosToChunkPos(q, b))
    requires PosToYzxIdx(grid, PosToChunkPos(p, b)) == PosToYzxIdx(grid, PosToChunkPos(q, b))
    requires p != q
    ensures LocalIdx(p, b) != LocalIdx(q, b)
  {
    YzxIdxInjective(grid, PosToChunkPos(p, b), PosToChunkPos(q, b));
    ChunkSplit(p, b);
    ChunkSplit(q, b);
    if PosToChunkLocal(p, b) == PosToChunkLocal(q, b) {
      ChunkSplitInjective(p, q, b);
    }
    LocalIdxInjective(PosToChunkLocal(p, b), PosToChunkLocal(q, b), b);
  }

  // ---------------------------------------------------------------------------
  // Read after write

  /** After writing id at p, p reads back id and every other position reads what it read
      before; no tile data changes. */
  lemma WithIdEffect<T>(slots: seq<Slot<T>>, grid: IntBoundary, b: nat, p: IVec3, id: int, q: IVec3)
    requires SlotsFit(slots, b) && Normal(grid) && |slots| == Volume(grid)
    requires PosInside(Scaled(grid, b), p)
    ensures IdIn(WithId(slots, grid, b, p, id), grid, b, q) == if q == p then id else IdIn(slots, grid, b, q)
    ensures TileIn(WithId(slots, grid, b, p, id), grid, b, q) == TileIn(slots, grid, b, q)
  {
    LoadedIdx(grid, b, p);
    LocalIdxRange(p, b);
    var cq := PosToChunkPos(q, b);
    if q != p && PosInside(grid, cq) && PosToYzxIdx(grid, cq) == PosToYzxIdx(grid, PosToChunkPos(p, b)) {
      SameSlot(grid, b, p, q);
    }
  }

  /** After storing tile data at p, p reads it back and every other position keeps its tile
      data; no id changes. */
  lemma WithTileEffect<T>(slots: seq<Slot<T>>, grid: IntBoundary, b: nat, p: IVec3, data: Option<T>, q: IVec3)
    requires SlotsFit(slots, b) && Normal(grid) && |slots| == Volume(grid)
    requires PosInside(Scaled(grid, b), p)
    ensures TileIn(WithTile(slots, grid, b, p, data), grid, b, q) == if q == p then data else TileIn(slots, grid, b, q)
    ensures IdIn(WithTile(slots, grid, b, p, data), grid, b, q) == IdIn(slots, grid, b, q)
  {
    LoadedIdx(grid, b, p);
    LocalIdxRange(q, b);
    var cq := PosToChunkPos(q, b);
    if q != p && PosInside(grid, cq) && PosToYzxIdx(grid, cq) == PosToYzxIdx(grid, PosToChunkPos(p, b)) {
      YzxIdxInjective(grid, PosToChunkPos(p, b), cq);
      if PosToChunkLocal(p, b) == PosToChunkLocal(q, b) {
        ChunkSplitInjective(p, q, b);
      }
    }
  }

  // ---------------------------------------------------------------------------
  // Shifting the grid

  /** `shiftChunks` keeps the chunk array and moves the grid: a position moved by a whole number
      of chunks reads what the unmoved position read. */
  lemma ShiftedIn<T>(slots: seq<Slot<T>>, grid: IntBoundary, b: nat, v: IVec3, p: IVec3)
    requires Normal(grid)
    ensures IdIn(slots, Move(grid, v), b, Add(p, Shl(v, b))) == IdIn(slots, grid, b, p)
    ensures TileIn(slots, Move(grid, v), b, Add(p, Shl(v, b))) == TileIn(slots, grid, b, p)
  {
    ShiftedSplit(p, v, b);
    YzxIdxMoved(grid, v, PosToChunkPos(p, b));
  }

  // ---------------------------------------------------------------------------
  // Resizing the loaded area

  /** A normal box with no width along X or Z holds no points. */
  lemma FlatVolume(bd: IntBoundary)
    requires Normal(bd) && (bd.dim.x == 0 || bd.dim.z == 0)
    ensures Volume(bd) == 0
  {
  }

  lemma VolumeNonNegative(bd: IntBoundary)
    requires Normal(bd)
    ensures Volume(bd) >= 0
  {
    MulPos(bd.dim.x, bd.dim.y);
    MulPos(bd.dim.x * bd.dim.y, bd.dim.z);
  }

  /** `setLoadedArea` on the slots: every position of the new grid holds the slot it held in the
      old grid, or an empty one if the old grid did not have it. */
  function Regridded<T>(slots: seq<Slot<T>>, g: IntBoundary, g2: IntBoundary): (r: seq<Slot<T>>)
    requires Normal(g2)
    ensures |r| == Volume(g2)
  {
    var pts := GridPoints(g2);
    seq(|pts|, i requires 0 <= i < |pts| => SlotAt(slots, g, pts[i]))
  }

  lemma RegriddedFit<T>(slots: seq<Slot<T>>, g: IntBoundary, g2: IntBoundary, b: nat)
    requires Normal(g2) && SlotsFit(slots, b)
    ensures SlotsFit(Regridded(slots, g, g2), b)
  {
  }

  /** After a resize, a position inside the new loaded area reads what it read before (the
      default id and no tile data if the old area did not have it); a position outside reads
      the default id and no tile data. */
  lemma RegriddedIn<T>(slots: seq<Slot<T>>, g: IntBoundary, g2: IntBoundary, b: nat, p: IVec3)
    requires Normal(g) && Normal(g2) && |slots| == Volume(g)
    ensures IdIn(Regridded(slots, g, g2), g2, b, p)
      == if PosInside(Scaled(g2, b), p) then IdIn(slots, g, b, p) else DEFAULT_BLOCK_ID
    ensures TileIn(Regridded(slots, g, g2), g2, b, p)
      == if PosInside(Scaled(g2, b), p) then TileIn(slots, g, b, p) else None
  {
    var c := PosToChunkPos(p, b);
    ScaledInside(g2, b, p);
    if PosInside(g2, c) {
      var j := PosToYzxIdx(g2, c);
      YzxIdxInRange(g2, c);
      YzxIdxInjective(g2, c, GridPoints(g2)[j]);
    }
  }

  // ---------------------------------------------------------------------------
  // Cleaning

  /** A loaded slot whose ids are all the default id. */
  predicate Idle<T>(s: Slot<T>) {
    s.Loaded? && AllDefault(s.ids)
  }

  /** `cleanChunks` on the slots: idle slots become empty. */
  function Cleaned<T>(slots: seq<Slot<T>>): (r: seq<Slot<T>>)
    ensures |r| == |slots|
  {
    seq(|slots|, i requires 0 <= i < |slots| => if Idle(slots[i]) then Empty else slots[i])
  }

  /** The first k slots cleaned, the rest as they were: the state of `cleanChunks` after k steps. */
  function CleanedUpTo<T>(slots: seq<Slot<T>>, k: int): (r: seq<Slot<T>>)
    ensures |r| == |slots|
  {
    seq(|slots|, i requires 0 <= i < |slots| => if i < k && Idle(slots[i]) then Empty else slots[i])
  }

  /** One more step of `cleanChunks`: slot k is emptied exactly when it is idle. */
  lemma CleanedStep<T>(slots: seq<Slot<T>>, k: int)
    requires 0 <= k < |slots|
    ensures CleanedUpTo(slots, k)[k] == slots[k]
    ensures CleanedUpTo(slots, k + 1)
      == if Idle(slots[k]) then CleanedUpTo(slots, k)[k := Empty] else CleanedUpTo(slots, k)
  {
  }

  /** After the last step every slot has been cleaned. */
  lemma CleanedDone<T>(slots: seq<Slot<T>>)
    ensures CleanedUpTo(slots, |slots|) == Cleaned(slots)
  {
  }

  /** No loaded slot is idle: what `cleanChunks` leaves behind. */
  predicate NoIdleSlot<T>(slots: seq<Slot<T>>) {
    forall i :: 0 <= i < |slots| ==> !Idle(slots[i])
  }

  /** Cleaning leaves no idle slot, changes no id, and drops the tile data of the slots it
      empties; it changes nothing when there is no idle slot. */
  lemma CleanedMeaning<T>(slots: seq<Slot<T>>, grid: IntBoundary, b: nat, p: IVec3)
    requires SlotsFit(slots, b)
    ensures NoIdleSlot(Cleaned(slots)) && SlotsFit(Cleaned(slots), b)
    ensures IdIn(Cleaned(slots), grid, b, p) == IdIn(slots, grid, b, p)
    ensures TileIn(Cleaned(slots), grid, b, p)
      == if Idle(SlotAt(slots, grid, PosToChunkPos(p, b))) then None else TileIn(slots, grid, b, p)
    ensures NoIdleSlot(slots) ==> Cleaned(slots) == slots
  {
    LocalIdxRange(p, b);
  }

  // ---------------------------------------------------------------------------
  // Build chunk bounds

  /** The positions of a grid's slots, in slot order. */
  function GridPoints(grid: IntBoundary): (pts: seq<IVec3>)
    requires Normal(grid)
    ensures |pts| == Volume(grid)
    ensures forall i :: 0 <= i < |pts| ==> PosInside(grid, pts[i]) && PosToYzxIdx(grid, pts[i]) == i
  {
    if grid.dim.x == 0 || grid.dim.z == 0 then FlatVolume(grid); []
    else
      VolumeNonNegative(grid);
      var pts := seq(Volume(grid), i => PointAt(grid, i));
      assert forall i :: 0 <= i < |pts| ==> PosInside(grid, pts[i]) && PosToYzxIdx(grid, pts[i]) == i by {
        forall i | 0 <= i < |pts| ensures PosInside(grid, pts[i]) && PosToYzxIdx(grid, pts[i]) == i {
          YzxIdxPointAt(grid, i);
        }
      }
      pts
  }

  /** The componentwise least and greatest positions of the loaded slots among the first k,
      folded in slot order as `getBuildChunkBounds` does; None if none of them is loaded. */
  function ChunkExtent<T>(slots: seq<Slot<T>>, pts: seq<IVec3>, k: nat): Option<(IVec3, IVec3)>
    requires k <= |slots| <= |pts|
  {
    if k == 0 then None
    else
      var prev := ChunkExtent(slots, pts, k - 1);
      var c := pts[k - 1];
      if slots[k - 1].Empty? then prev
      else if prev.None? then Some((c, c))
      else Some((Min(prev.value.0, c), Max(prev.value.1, c)))
  }

  /** Each coordinate of v is that coordinate of a loaded slot's position among the first k. */
  predicate Attained<T>(slots: seq<Slot<T>>, pts: seq<IVec3>, k: nat, v: IVec3)
    requires k <= |slots| <= |pts|
  {
    (exists i :: 0 <= i < k && slots[i].Loaded? && pts[i].x == v.x)
    && (exists i :: 0 <= i < k && slots[i].Loaded? && pts[i].y == v.y)
    && (exists i :: 0 <= i < k && slots[i].Loaded? && pts[i].z == v.z)
  }

  /** What the fold computes: None exactly when no slot among the first k is loaded; otherwise a
      lower and an upper corner of their positions, each coordinate attained by one of them. */
  lemma ChunkExtentMeaning<T>(slots: seq<Slot<T>>, pts: seq<IVec3>, k: nat)
    requires k <= |slots| <= |pts|
    ensures ChunkExtent(slots, pts, k).None? <==> forall i :: 0 <= i < k ==> slots[i].Empty?
    ensures ChunkExtent(slots, pts, k).Some? ==>
      var (lo, hi) := ChunkExtent(slots, pts, k).value;
      (forall i :: 0 <= i < k && slots[i].Loaded? ==> Le(lo, pts[i]) && Le(pts[i], hi))
      && Attained(slots, pts, k, lo) && Attained(slots, pts, k, hi)
  {
    ChunkExtentNone(slots, pts, k);
    ChunkExtentBounds(slots, pts, k);
    ChunkExtentAttained(slots, pts, k);
  }

  lemma {:induction false} ChunkExtentNone<T>(slots: seq<Slot<T>>, pts: seq<IVec3>, k: nat)
    requires k <= |slots| <= |pts|
    ensures ChunkExtent(slots, pts, k).None? <==> forall i :: 0 <= i < k ==> slots[i].Empty?
  {
    if k > 0 {
      ChunkExtentNone(slots, pts, k - 1);
    }
  }

  lemma {:induction false} ChunkExtentBounds<T>(slots: seq<Slot<T>>, pts: seq<IVec3>, k: nat)
    requires k <= |slots| <= |pts|
    ensures ChunkExtent(slots, pts, k).Some? ==>
      var (lo, hi) := ChunkExtent(slots, pts, k).value;
      forall i :: 0 <= i < k && slots[i].Loaded? ==> Le(lo, pts[i]) && Le(pts[i], hi)
  {
    if k > 0 && ChunkExtent(slots, pts, k).Some? {
      ChunkExtentBounds(slots, pts, k - 1);
      ChunkExtentNone(slots, pts, k - 1);
      var prev := ChunkExtent(slots, pts, k - 1);
      var (lo, hi) := ChunkExtent(slots, pts, k).value;
      forall i | 0 <= i < k && slots[i].Loaded? ensures Le(lo, pts[i]) && Le(pts[i], hi) {
        if i < k - 1 {
          assert prev.Some? && Le(prev.value.0, pts[i]) && Le(pts[i], prev.value.1);
        }
      }
    }
  }

  lemma {:induction false} ChunkExtentAttained<T>(slots: seq<Slot<T>>, pts: seq<IVec3>, k: nat)
    requires k <= |slots| <= |pts|
    ensures ChunkExtent(slots, pts, k).Some? ==>
      Attained(slots, pts, k, ChunkExtent(slots, pts, k).value.0)
      && Attained(slots, pts, k, ChunkExtent(slots, pts, k).value.1)
  {
    if k > 0 {
      ChunkExtentAttained(slots, pts, k - 1);
      var prev := ChunkExtent(slots, pts, k - 1);
      if slots[k - 1].Loaded? && prev.Some? {
        var (lo, hi) := prev.value;
        AttainedMore(slots, pts, k - 1, lo);
        AttainedMore(slots, pts, k - 1, hi);
        AttainedMix(slots, pts, k - 1, lo, Min(lo, pts[k - 1]));
        AttainedMix(slots, pts, k - 1, hi, Max(hi, pts[k - 1]));
      } else if slots[k - 1].Loaded? {
        AttainedSelf(slots, pts, k - 1);
      } else if prev.Some? {
        AttainedMore(slots, pts, k - 1, prev.value.0);
        AttainedMore(slots, pts, k - 1, prev.value.1);
      }
    }
  }

  lemma AttainedMore<T>(slots: seq<Slot<T>>, pts: seq<IVec3>, k: nat, v: IVec3)
    requires k < |slots| <= |pts| && Attained(slots, pts, k, v)
    ensures Attained(slots, pts, k + 1, v)
  {
  }

  lemma AttainedSelf<T>(slots: seq<Slot<T>>, pts: seq<IVec3>, k: nat)
    requires k < |slots| <= |pts| && slots[k].Loaded?
    ensures Attained(slots, pts, k + 1, pts[k])
  {
  }

  /** Combining an attained corner with slot k's position, one coordinate at a time, gives an
      attained corner. */
  lemma AttainedMix<T>(slots: seq<Slot<T>>, pts: seq<IVec3>, k: nat, v: IVec3, m: IVec3)
    requires k < |slots| <= |pts| && slots[k].Loaded? && Attained(slots, pts, k + 1, v)
    requires (m.x == v.x || m.x == pts[k].x) && (m.y == v.y || m.y == pts[k].y) && (m.z == v.z || m.z == pts[k].z)
    ensures Attained(slots, pts, k + 1, m)
  {
  }

  /** `getBuildChunkBounds` as a value: the box from the least to one past the greatest loaded
      grid position, or None when every slot is empty. */
  function BuildChunkBounds<T>(slots: seq<Slot<T>>, grid: IntBoundary): Option<IntBoundary>
    requires Normal(grid) && |slots| == Volume(grid)
  {
    match ChunkExtent(slots, GridPoints(grid), |slots|)
    case None => None
    case Some((lo, hi)) => Some(New(lo, AddScalar(hi, 1)))
  }

  /** A box holding every loaded slot's point holds every loaded grid position. */
  lemma LoadedInsideExtent<T>(slots: seq<Slot<T>>, grid: IntBoundary, lo: IVec3, hi: IVec3)
    requires Normal(grid) && |slots| == Volume(grid)
    requires forall i :: 0 <= i < |slots| && slots[i].Loaded? ==> Le(lo, GridPoints(grid)[i]) && Le(GridPoints(grid)[i], hi)
    ensures forall c :: PosInside(grid, c) && SlotAt(slots, grid, c).Loaded? ==> PosInside(New(lo, AddScalar(hi, 1)), c)
  {
    var pts := GridPoints(grid);
    var r := New(lo, AddScalar(hi, 1));
    forall c | PosInside(grid, c) && SlotAt(slots, grid, c).Loaded? ensures PosInside(r, c) {
      var j := PosToYzxIdx(grid, c);
      YzxIdxInRange(grid, c);
      PointAtYzxIdx(grid, c);
      YzxIdxInjective(grid, c, pts[j]);
      assert Le(lo, pts[j]) && Le(pts[j], hi);
    }
  }

  /** The build chunk bounds are None exactly when every slot is empty; otherwise they lie in
      the grid, hold the position of every loaded slot, and each of their six faces touches one. */
  lemma BuildChunkBoundsMeaning<T>(slots: seq<Slot<T>>, grid: IntBoundary)
    requires Normal(grid) && |slots| == Volume(grid)
    ensures BuildChunkBounds(slots, grid).None? <==> forall i :: 0 <= i < |slots| ==> slots[i].Empty?
    ensures BuildChunkBounds(slots, grid).Some? ==>
      var r := BuildChunkBounds(slots, grid).value;
      NonEmpty(r) && FullyInside(r, grid)
      && (forall c :: PosInside(grid, c) && SlotAt(slots, grid, c).Loaded? ==> PosInside(r, c))
      && Attained(slots, GridPoints(grid), |slots|, r.a)
      && Attained(slots, GridPoints(grid), |slots|, AddScalar(r.b, -1))
  {
    var pts := GridPoints(grid);
    ChunkExtentMeaning(slots, pts, |slots|);
    if ChunkExtent(slots, pts, |slots|).Some? {
      var (lo, hi) := ChunkExtent(slots, pts, |slots|).value;
      var i :| 0 <= i < |slots| && slots[i].Loaded?;
      assert Le(lo, pts[i]) && Le(pts[i], hi);
      var r := New(lo, AddScalar(hi, 1));
      assert r.a == lo && AddScalar(r.b, -1) == hi;
      LoadedInsideExtent(slots, grid, lo, hi);
      AttainedInside(slots, pts, grid, lo);
      AttainedInside(slots, pts, grid, hi);
    }
  }

  /** The part of BuildChunkBoundsMeaning a walk over the build chunk bounds needs: they are a
      well-formed box inside the grid. */
  lemma BuildChunkBoundsInGrid<T>(slots: seq<Slot<T>>, grid: IntBoundary)
    requires Normal(grid) && |slots| == Volume(grid)
    ensures BuildChunkBounds(slots, grid).Some? ==>
      var r := BuildChunkBounds(slots, grid).value;
      Normal(r) && NonEmpty(r) && FullyInside(r, grid)
  {
    BuildChunkBoundsMeaning(slots, grid);
  }

  /** An attained corner lies in the grid, since every slot position does. */
  lemma AttainedInside<T>(slots: seq<Slot<T>>, pts: seq<IVec3>, grid: IntBoundary, v: IVec3)
    requires |slots| <= |pts| && Attained(slots, pts, |slots|, v)
    requires forall i :: 0 <= i < |pts| ==> PosInside(grid, pts[i])
    ensures grid.a.x <= v.x < grid.b.x && grid.a.y <= v.y < grid.b.y && grid.a.z <= v.z < grid.b.z
  {
  }
}
