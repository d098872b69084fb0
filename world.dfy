/** The Anvil export of World.kt (`saveToRegions`): the regions, column chunks and sections each
    volume chunk lands in, the per-section palette and block index, the palette entries split out
    of state strings, and the region file's location table and sector layout. */
module Worlds {
  import opened Wrappers
  import opened Vec
  import opened Bytes
  import opened Bounds
  import opened Strs
  import opened BlockStates
  import opened McvUtils
  import opened Chunks

  /** A region is 2^9 = 512 blocks wide. */
  const BLOCK_TO_REGION_SHIFT: nat := 9
  /** Region files are laid out in sectors of 4096 bytes. */
  const SECTOR: nat := 4096
  const LOWEST_SECTION: int := -4
  const DATA_VERSION: int := 3578

  // ---------------------------------------------------------------------------
  // Binning chunks into regions, column chunks and sections

  /** `IntBoundary.new(chunkPos shl b, (chunkPos + 1) shl b)`: the blocks of a chunk. */
  function ChunkBlockBounds(chunkPos: IVec3, bits: nat): IntBoundary {
    Bounds.New(Shl(chunkPos, bits), Shl(AddScalar(chunkPos, 1), bits))
  }

  /** The box the region loop iterates: both corners of the chunk shifted down by 9, with Y set
      to [0, 1). */
  function RegionBounds(chunkPos: IVec3, bits: nat): IntBoundary {
    var cb := ChunkBlockBounds(chunkPos, bits);
    var a := Shr(cb.a, BLOCK_TO_REGION_SHIFT);
    var b := Shr(cb.b, BLOCK_TO_REGION_SHIFT);
    Bounds.New(IVec3(a.x, 0, a.z), IVec3(b.x, 1, b.z))
  }

  /** The region holding block p (arithmetic shift right by 9 on X and Z). */
  function RegionOf(p: IVec3): IVec3 {
    IVec3(p.x / Pow2(BLOCK_TO_REGION_SHIFT), 0, p.z / Pow2(BLOCK_TO_REGION_SHIFT))
  }

  lemma Distrib(a: int, b: int, s: int)
    ensures (a + b) * s == a * s + b * s
  {
  }

  lemma Regroup(q: int, m: int, s: int)
    ensures (q * m) * s == q * (s * m)
  {
  }

  /** Cells of size s, grouped m at a time: every point of cell c falls in group c / m. */
  lemma AlignedDivPoint(c: int, s: nat, m: nat, l: int)
    requires s > 0 && m > 0 && 0 <= l < s
    ensures (c * s + l) / (s * m) == c / m
  {
    var q, r := c / m, c % m;
    assert c == q * m + r;
    Distrib(q * m, r, s);
    Regroup(q, m, s);
    assert c * s == q * (s * m) + r * s;
    MulMono(r, m - 1, s);
    Distrib(m - 1, 1, s);
    assert r * s + l < s * m;
    MulPos(r, s);
    DivModUnique(q, r * s + l, s * m);
  }

  /** The end of cell c, split by groups of m cells. */
  lemma CellEndSplit(c: int, s: nat, m: nat)
    requires s > 0 && m > 0
    ensures (c + 1) * s == (c / m) * (s * m) + (c % m + 1) * s
  {
    var q, r := c / m, c % m;
    assert c + 1 == q * m + (r + 1);
    Distrib(q * m, r + 1, s);
    Regroup(q, m, s);
  }

  /** The end of cell c falls in group c / m or the next. */
  lemma AlignedDivEnd(c: int, s: nat, m: nat)
    requires s > 0 && m > 0
    ensures (c + 1) * s / (s * m) == c / m || (c + 1) * s / (s * m) == c / m + 1
  {
    var q, r := c / m, c % m;
    CellEndSplit(c, s, m);
    if r + 1 < m {
      MulMono(r + 1, m - 1, s);
      Distrib(m - 1, 1, s);
      MulPos(r + 1, s);
      DivModUnique(q, (r + 1) * s, s * m);
    } else {
      assert (r + 1) * s == s * m;
      assert (c + 1) * s == (q + 1) * (s * m) + 0;
      DivModUnique(q + 1, 0, s * m);
    }
  }

  lemma Pow2Split(bits: nat)
    requires bits <= 9
    ensures Pow2(bits) * Pow2(9 - bits) == Pow2(BLOCK_TO_REGION_SHIFT)
  {
    Pow2Add(bits, 9 - bits);
  }

  /** The blocks of a chunk: from chunkPos * 2^bits up to (chunkPos + 1) * 2^bits. */
  lemma ChunkBlockBoundsShape(chunkPos: IVec3, bits: nat)
    ensures ChunkBlockBounds(chunkPos, bits).a == Shl(chunkPos, bits)
    ensures ChunkBlockBounds(chunkPos, bits).b == Shl(AddScalar(chunkPos, 1), bits)
    ensures var cb := ChunkBlockBounds(chunkPos, bits); cb.a.x < cb.b.x && cb.a.z < cb.b.z
  {
    var s := Pow2(bits);
    Distrib(chunkPos.x, 1, s);
    Distrib(chunkPos.y, 1, s);
    Distrib(chunkPos.z, 1, s);
  }

  /** One axis of a cell of size s, in groups of m cells: its points all lie in the group of
      its first point, and its end in that group or the next. */
  lemma AxisInOneGroup(c: int, s: nat, m: nat)
    requires s > 0 && m > 0
    ensures c * s / (s * m) <= (c + 1) * s / (s * m) <= c * s / (s * m) + 1
    ensures forall t :: c * s <= t < (c + 1) * s ==> t / (s * m) == c * s / (s * m)
  {
    AlignedDivPoint(c, s, m, 0);
    AlignedDivEnd(c, s, m);
    forall t | c * s <= t < (c + 1) * s
      ensures t / (s * m) == c * s / (s * m)
    {
      Distrib(c, 1, s);
      AlignedDivPoint(c, s, m, t - c * s);
    }
  }

  /** One axis of a chunk of 2^bits blocks, bits at most 9, in regions of 2^9 blocks. */
  lemma AxisInOneRegion(c: int, bits: nat)
    requires bits <= 9
    ensures var s, r := Pow2(bits), Pow2(BLOCK_TO_REGION_SHIFT);
      c * s / r <= (c + 1) * s / r <= c * s / r + 1
      && forall t :: c * s <= t < (c + 1) * s ==> t / r == c * s / r
  {
    Pow2Split(bits);
    AxisInOneGroup(c, Pow2(bits), Pow2(9 - bits));
  }

  /** A chunk of 2^bits blocks, bits at most 9, lies inside one region: its region box starts
      at that region and is at most one wide on X and Z. */
  lemma ChunkInOneRegion(chunkPos: IVec3, bits: nat)
    requires 1 <= bits <= 8
    ensures var rb := RegionBounds(chunkPos, bits);
      rb.a == RegionOf(Shl(chunkPos, bits)) && rb.b.y == 1
      && rb.a.x <= rb.b.x <= rb.a.x + 1 && rb.a.z <= rb.b.z <= rb.a.z + 1
    ensures forall p :: PosInside(ChunkBlockBounds(chunkPos, bits), p) ==>
      RegionOf(p) == RegionOf(Shl(chunkPos, bits))
  {
    ChunkBlockBoundsShape(chunkPos, bits);
    AxisInOneRegion(chunkPos.x, bits);
    AxisInOneRegion(chunkPos.z, bits);
  }

  /** The region loop of `saveToRegions` for one chunk: `iterYzx` over RegionBounds. For the
      chunk sizes a volume allows (2^1 to 2^8 blocks) the region box is usually empty along X
      and Z, and it is the iterator's guard, which only looks at Y, that makes the loop visit
      its corner: exactly one region, the one holding every block of the chunk. */
  method RegionsOfChunk(chunkPos: IVec3, bits: nat) returns (rs: seq<IVec3>)
    requires 1 <= bits <= 8
    ensures rs == [RegionOf(Shl(chunkPos, bits))]
    ensures forall p :: PosInside(ChunkBlockBounds(chunkPos, bits), p) ==> RegionOf(p) == rs[0]
  {
    var bd := RegionBounds(chunkPos, bits);
    ChunkInOneRegion(chunkPos, bits);
    var it := new YzxIter(bd);
    rs := [];
    while it.HasNext()
      invariant it.box == bd && it.x == bd.a.x && it.z == bd.a.z
      invariant (it.y == 0 && rs == []) || (it.y == 1 && rs == [bd.a])
      decreases 1 - it.y
    {
      var r := it.Next();
      rs := rs + [r];
    }
  }

  /** `a shr 4 until b shr 4`, as the section loop (and the column loops) write it: the block
      range [lo, hi) shifted down by 4 at both ends. */
  function ShiftedRange(lo: int, hi: int): (int, int) {
    (lo / 16, hi / 16)
  }

  /** The 16-block slices that meet [lo, hi): from that of lo to that of hi - 1. */
  function CoveringRange(lo: int, hi: int): (r: (int, int))
    requires lo < hi
    ensures forall s :: r.0 <= s < r.1 <==> RangeIntersect(16 * s, 16 * s + 16, lo, hi)
  {
    (lo / 16, (hi - 1) / 16 + 1)
  }

  /** For chunks of 16 blocks or more the written range is the covering one. */
  lemma ShiftedRangeOfWideChunk(c: int, bits: nat)
    requires bits >= 4
    ensures ShiftedRange(c * Pow2(bits), (c + 1) * Pow2(bits)) == CoveringRange(c * Pow2(bits), (c + 1) * Pow2(bits))
  {
    var m := Pow2(bits - 4);
    Pow2Add(4, bits - 4);
    assert Pow2(4) == 16;
    var lo, hi := c * Pow2(bits), (c + 1) * Pow2(bits);
    Regroup(c, m, 16);
    Regroup(c + 1, m, 16);
    assert lo == (c * m) * 16 && hi == ((c + 1) * m) * 16;
    DivModUnique(c * m, 0, 16);
    DivModUnique((c + 1) * m, 0, 16);
    Distrib((c + 1) * m - 1, 1, 16);
    assert hi - 1 == ((c + 1) * m - 1) * 16 + 15;
    DivModUnique((c + 1) * m - 1, 15, 16);
  }

  /** As written, a chunk of 8 blocks (bit size 3) at the origin spans blocks [0, 8), which meet
      section 0, yet the shifted range is empty: the chunk is added to no section and no column,
      and its blocks are not exported. */
  lemma SmallChunkInNoSection()
    ensures ShiftedRange(0 * Pow2(3), 1 * Pow2(3)) == (0, 0)
    ensures RangeIntersect(16 * 0, 16 * 0 + 16, 0 * Pow2(3), 1 * Pow2(3))
    ensures CoveringRange(0 * Pow2(3), 1 * Pow2(3)) == (0, 1)
  {
    assert Pow2(3) == 8;
  }

  /** The section loop for one chunk, over the covering range of its block rows: the sections
      it adds the chunk to are exactly those meeting the chunk, in increasing order. */
  method SectionsOfChunk(chunkPos: IVec3, bits: nat) returns (sys: seq<int>)
    ensures forall sy :: sy in sys <==>
      RangeIntersect(16 * sy, 16 * sy + 16, ChunkBlockBounds(chunkPos, bits).a.y, ChunkBlockBounds(chunkPos, bits).b.y)
    ensures forall i, j :: 0 <= i < j < |sys| ==> sys[i] < sys[j]
  {
    var cb := ChunkBlockBounds(chunkPos, bits);
    var range := CoveringRange(cb.a.y, cb.b.y);
    var minSectionY, maxSectionY := range.0, range.1;
    sys := [];
    var sy := minSectionY;
    while sy < maxSectionY
      invariant minSectionY <= sy <= maxSectionY
      invariant forall t :: t in sys <==> minSectionY <= t < sy
      invariant forall i, j :: 0 <= i < j < |sys| ==> sys[i] < sys[j]
      invariant forall i :: 0 <= i < |sys| ==> sys[i] < sy
    {
      sys := sys + [sy];
      sy := sy + 1;
    }
  }

  /** `regionBlockBounds`: the blocks of a region, over Y in [0, 1). */
  function RegionBlockBounds(regionPos: IVec3): IntBoundary {
    Bounds.New(Shl(IVec3(regionPos.x, 0, regionPos.z), BLOCK_TO_REGION_SHIFT),
               Shl(AddScalar(IVec3(regionPos.x, 0, regionPos.z), 1), BLOCK_TO_REGION_SHIFT))
  }

  /** On X and Z, a chunk clamped into its own region is the chunk. */
  lemma ClampedIntoOwnRegion(chunkPos: IVec3, bits: nat, regionPos: IVec3)
    requires 1 <= bits <= 8 && regionPos == RegionOf(Shl(chunkPos, bits))
    ensures var cb := ChunkBlockBounds(chunkPos, bits);
      var cl := GetClampedInside(cb, RegionBlockBounds(regionPos));
      cl.a.x == cb.a.x && cl.b.x == cb.b.x && cl.a.z == cb.a.z && cl.b.z == cb.b.z
  {
    var r := Pow2(BLOCK_TO_REGION_SHIFT);
    ChunkBlockBoundsShape(chunkPos, bits);
    ChunkBlockBoundsShape(IVec3(regionPos.x, 0, regionPos.z), BLOCK_TO_REGION_SHIFT);
    AxisEndInRegion(chunkPos.x, bits);
    AxisEndInRegion(chunkPos.z, bits);
  }

  /** One axis of a cell of size s lies in [G * s * m, (G + 1) * s * m) for G the group of its
      first point. */
  lemma AxisInGroupBox(c: int, s: nat, m: nat)
    requires s > 0 && m > 0
    ensures (c * s / (s * m)) * (s * m) <= c * s && (c + 1) * s <= (c * s / (s * m) + 1) * (s * m)
  {
    var r := s * m;
    AxisInOneGroup(c, s, m);
    var n := c * s;
    var q := n / r;
    assert n == q * r + n % r;
    Distrib(c, 1, s);
    var t := n + s - 1;
    assert t / r == q;
    assert t == q * r + t % r;
    Distrib(q, 1, r);
  }

  /** One axis of a chunk lies in [R * 512, (R + 1) * 512) for R the region of its first block. */
  lemma AxisEndInRegion(c: int, bits: nat)
    requires bits <= 9
    ensures var s, r := Pow2(bits), Pow2(BLOCK_TO_REGION_SHIFT);
      (c * s / r) * r <= c * s && (c + 1) * s <= (c * s / r + 1) * r
  {
    Pow2Split(bits);
    AxisInGroupBox(c, Pow2(bits), Pow2(9 - bits));
  }

  /** The column-chunk loops over a box of blocks: every column over the covering ranges of the
      box on X and Z, Z outer. */
  method ColumnsIn(lo: IVec3, hi: IVec3) returns (cs: seq<IVec3>)
    requires lo.x < hi.x && lo.z < hi.z
    ensures forall c :: c in cs <==>
      c.y == 0 && RangeIntersect(16 * c.x, 16 * c.x + 16, lo.x, hi.x) && RangeIntersect(16 * c.z, 16 * c.z + 16, lo.z, hi.z)
  {
    var xs := CoveringRange(lo.x, hi.x);
    var zs := CoveringRange(lo.z, hi.z);
    cs := [];
    var ccz := zs.0;
    while ccz < zs.1
      invariant zs.0 <= ccz <= zs.1
      invariant forall c :: c in cs <==> c.y == 0 && xs.0 <= c.x < xs.1 && zs.0 <= c.z < ccz
    {
      var ccx := xs.0;
      while ccx < xs.1
        invariant xs.0 <= ccx <= xs.1 && zs.0 <= ccz < zs.1
        invariant forall c :: c in cs <==>
          c.y == 0 && xs.0 <= c.x < xs.1 && (zs.0 <= c.z < ccz || (c.z == ccz && c.x < ccx))
      {
        cs := cs + [IVec3(ccx, 0, ccz)];
        ccx := ccx + 1;
      }
      ccz := ccz + 1;
    }
  }

  /** The column-chunk loops for one chunk of a region: the chunk's blocks clamped into the
      region, then ColumnsIn. The columns it adds the chunk to are exactly those whose 16 x 16
      footprint meets the chunk. */
  method ColumnsOfChunk(chunkPos: IVec3, bits: nat, regionPos: IVec3) returns (cs: seq<IVec3>)
    requires 1 <= bits <= 8 && regionPos == RegionOf(Shl(chunkPos, bits))
    ensures forall c :: c in cs <==>
      c.y == 0
      && RangeIntersect(16 * c.x, 16 * c.x + 16, ChunkBlockBounds(chunkPos, bits).a.x, ChunkBlockBounds(chunkPos, bits).b.x)
      && RangeIntersect(16 * c.z, 16 * c.z + 16, ChunkBlockBounds(chunkPos, bits).a.z, ChunkBlockBounds(chunkPos, bits).b.z)
  {
    var cb := ChunkBlockBounds(chunkPos, bits);
    var cl := GetClampedInside(cb, RegionBlockBounds(regionPos));
    ClampedIntoOwnRegion(chunkPos, bits, regionPos);
    ChunkBlockBoundsShape(chunkPos, bits);
    assert cl.a.x == cb.a.x && cl.b.x == cb.b.x && cl.a.z == cb.a.z && cl.b.z == cb.b.z;
    cs := ColumnsIn(cl.a, cl.b);
  }

  // ---------------------------------------------------------------------------
  // A section: its block index and its palette remap

  lemma Pow2Section()
    ensures Pow2(4) == 16 && Pow2(4 + 4) == 256
  {
  }

  /** `pos and 0xF`, then `(y shl 8) + (z shl 4) + x`: the index of p in its 16^3 section. */
  function SectionIdx(p: IVec3): (i: int)
    ensures 0 <= i < 4096
  {
    (p.y % 16) * 256 + (p.z % 16) * 16 + p.x % 16
  }

  /** The section index is the chunk index of p's offset in its section, for chunks of 2^4
      blocks, so it lies in [0, 4096). */
  lemma SectionIdxIsLocalIdx(p: IVec3)
    ensures SectionIdx(p) == LocalToBlockIdx(AndMask(p, 4), 4)
    ensures 0 <= SectionIdx(p) < 4096
  {
    Pow2Section();
  }

  /** Two positions of one section never share an index. */
  lemma SectionIdxInjective(p: IVec3, q: IVec3)
    requires Shr(p, 4) == Shr(q, 4) && p != q
    ensures SectionIdx(p) != SectionIdx(q)
  {
    ShrAndMaskSplit(p, 4);
    ShrAndMaskSplit(q, 4);
    assert AndMask(p, 4) != AndMask(q, 4);
    LocalIdxInjective(AndMask(p, 4), AndMask(q, 4), 4);
    SectionIdxIsLocalIdx(p);
    SectionIdxIsLocalIdx(q);
  }

  /** The state of one section while it is filled: `blocks`, `sectionMappings` (volume palette
      id to section id), the volume palette ids whose NBT entries `sectionPalette` holds, in
      order, and `runningMappedBId`. */
  class Section {
    var blocks: array<int>
    var mappings: seq<Option<int>>
    var palette: seq<int>
    var running: int

    /** The mapping and the section palette are inverse: section id l stands for volume id
        palette[l], and volume id g maps to l exactly when palette[l] == g. */
    ghost predicate Valid()
      reads this
    {
      blocks.Length == 4096 && running == |palette|
      && (forall l :: 0 <= l < |palette| ==> 0 <= palette[l] < |mappings| && mappings[palette[l]] == Some(l))
      && (forall g :: 0 <= g < |mappings| && mappings[g].Some? ==>
            0 <= mappings[g].value < |palette| && palette[mappings[g].value] == g)
    }

    constructor (paletteSize: nat)
      ensures Valid() && fresh(blocks)
      ensures blocks[..] == seq(4096, _ => 0) && mappings == seq(paletteSize, _ => None) && palette == []
    {
      blocks := new int[4096](_ => 0);
      mappings := seq(paletteSize, _ => None);
      palette := [];
      running := 0;
    }

    /** The body of the innermost loop for one block: map its volume id into the section
        (a new id, in first-seen order, with its NBT entry pushed once) and store it at the
        position's section index. */
    method Place(pos: IVec3, blockId: int)
      requires Valid() && 0 <= blockId < |mappings|
      modifies this, blocks
      ensures Valid() && blocks == old(blocks) && |mappings| == old(|mappings|)
      ensures old(mappings[blockId]).Some? ==> palette == old(palette)
      ensures old(mappings[blockId]).None? ==> palette == old(palette) + [blockId]
      ensures 0 <= blocks[SectionIdx(pos)] < |palette| && palette[blocks[SectionIdx(pos)]] == blockId
      ensures forall i :: 0 <= i < 4096 && i != SectionIdx(pos) ==> blocks[i] == old(blocks[i])
    {
      SectionIdxIsLocalIdx(pos);
      var mapping := mappings[blockId];
      var idInSection: int;
      if mapping.Some? {
        idInSection := mapping.value;
      } else {
        var newId := running;
        mappings := mappings[blockId := Some(newId)];
        running := running + 1;
        palette := palette + [blockId];
        idInSection := newId;
      }
      var idxInSection := SectionIdx(pos);
      blocks[idxInSection] := idInSection;
    }
  }

  /** A valid section palette holds each volume id at most once. */
  lemma SectionPaletteDistinct(s: Section, i: int, j: int)
    requires s.Valid() && 0 <= i < j < |s.palette|
    ensures s.palette[i] != s.palette[j]
  {
  }

  // ---------------------------------------------------------------------------
  // Filling a section from one chunk

  /** Section cell p holds a section id that stands for volume id g. */
  predicate DecodesTo(blocks: seq<int>, palette: seq<int>, p: IVec3, g: int) {
    |blocks| == 4096 && 0 <= blocks[SectionIdx(p)] < |palette| && palette[blocks[SectionIdx(p)]] == g
  }

  /** The chunk's volume id at block p (-1 for a block outside the chunk). */
  function IdAt(chunkIds: seq<int>, origin: IVec3, bits: nat, p: IVec3): int {
    var i := LocalToBlockIdx(Sub(p, origin), bits);
    if 0 <= i < |chunkIds| then chunkIds[i] else -1
  }

  /** The loops' cursor c has passed p: Y outer, then Z, then X. */
  predicate Before(p: IVec3, c: IVec3) {
    p.y < c.y || (p.y == c.y && (p.z < c.z || (p.z == c.z && p.x < c.x)))
  }

  /** Every position of the box the cursor has passed decodes to the chunk's id there. */
  ghost predicate Filled(blocks: seq<int>, palette: seq<int>, chunkIds: seq<int>, origin: IVec3, bits: nat,
                         box: IntBoundary, c: IVec3)
  {
    forall p :: PosInside(box, p) && Before(p, c) ==> DecodesTo(blocks, palette, p, IdAt(chunkIds, origin, bits, p))
  }

  /** Every position of the section the cursor has not written keeps its old cell. */
  ghost predicate KeptOutside(blocks: seq<int>, blocks0: seq<int>, sectionPos: IVec3, box: IntBoundary, c: IVec3) {
    |blocks| == 4096 && |blocks0| == 4096
    && forall p :: Shr(p, 4) == sectionPos && !(PosInside(box, p) && Before(p, c)) ==>
         blocks[SectionIdx(p)] == blocks0[SectionIdx(p)]
  }

  /** Two cursors that have passed the same positions of the box. */
  lemma SameProgress(blocks: seq<int>, palette: seq<int>, blocks0: seq<int>, chunkIds: seq<int>, origin: IVec3,
                     bits: nat, sectionPos: IVec3, box: IntBoundary, c: IVec3, c': IVec3)
    requires forall p :: PosInside(box, p) ==> (Before(p, c) <==> Before(p, c'))
    ensures Filled(blocks, palette, chunkIds, origin, bits, box, c) ==> Filled(blocks, palette, chunkIds, origin, bits, box, c')
    ensures KeptOutside(blocks, blocks0, sectionPos, box, c) ==> KeptOutside(blocks, blocks0, sectionPos, box, c')
  {
  }

  /** The blocks of the section at sectionPos lie in it. */
  lemma InSection(sectionPos: IVec3, p: IVec3)
    requires PosInside(ChunkBlockBounds(sectionPos, 4), p)
    ensures Shr(p, 4) == sectionPos
  {
    ChunkBlockBoundsShape(sectionPos, 4);
    ShrOfSplit(sectionPos, Sub(p, Shl(sectionPos, 4)), 4);
    assert Add(Shl(sectionPos, 4), Sub(p, Shl(sectionPos, 4))) == p;
  }

  /** The blocks of a chunk sit at local positions inside it. */
  lemma InChunkBox(chunkPos: IVec3, bits: nat, p: IVec3)
    requires PosInside(ChunkBlockBounds(chunkPos, bits), p)
    ensures InChunk(Sub(p, ChunkBlockBounds(chunkPos, bits).a), bits)
  {
    ChunkBlockBoundsShape(chunkPos, bits);
    Distrib(chunkPos.x, 1, Pow2(bits));
    Distrib(chunkPos.y, 1, Pow2(bits));
    Distrib(chunkPos.z, 1, Pow2(bits));
  }

  /** One pass of the innermost loop, at the cursor c. */
  method PlaceAt(sec: Section, chunkIds: seq<int>, origin: IVec3, bits: nat, sectionPos: IVec3, box: IntBoundary,
                 c: IVec3, ghost blocks0: seq<int>)
    requires sec.Valid() && PosInside(box, c)
    requires Shr(c, 4) == sectionPos && InChunk(Sub(c, origin), bits)
    requires |chunkIds| == BlockCount(bits) && forall i :: 0 <= i < |chunkIds| ==> 0 <= chunkIds[i] < |sec.mappings|
    requires Filled(sec.blocks[..], sec.palette, chunkIds, origin, bits, box, c)
    requires KeptOutside(sec.blocks[..], blocks0, sectionPos, box, c)
    requires forall p :: PosInside(box, p) ==> Shr(p, 4) == sectionPos
    modifies sec, sec.blocks
    ensures sec.Valid() && sec.blocks == old(sec.blocks) && |sec.mappings| == old(|sec.mappings|)
    ensures old(sec.palette) <= sec.palette
    ensures Filled(sec.blocks[..], sec.palette, chunkIds, origin, bits, box, IVec3(c.x + 1, c.y, c.z))
    ensures KeptOutside(sec.blocks[..], blocks0, sectionPos, box, IVec3(c.x + 1, c.y, c.z))
  {
    ghost var before, pal0 := sec.blocks[..], sec.palette;
    var blockIdx := LocalToBlockIdx(Sub(c, origin), bits);
    BlockIdxRoundTrip(Sub(c, origin), 0, bits);
    var blockId := chunkIds[blockIdx];
    sec.Place(c, blockId);
    var c' := IVec3(c.x + 1, c.y, c.z);
    forall p | PosInside(box, p) && Before(p, c')
      ensures DecodesTo(sec.blocks[..], sec.palette, p, IdAt(chunkIds, origin, bits, p))
    {
      if p != c {
        SectionIdxInjective(p, c);
        assert DecodesTo(before, pal0, p, IdAt(chunkIds, origin, bits, p));
      }
    }
    forall p | Shr(p, 4) == sectionPos && !(PosInside(box, p) && Before(p, c'))
      ensures sec.blocks[SectionIdx(p)] == blocks0[SectionIdx(p)]
    {
      SectionIdxInjective(p, c);
    }
  }

  /** What the loops over a box of one section need: the box is in the section and in the chunk,
      and the chunk's ids are volume ids the section can map. */
  ghost predicate FillsFrom(sec: Section, chunkIds: seq<int>, origin: IVec3, bits: nat, sectionPos: IVec3, box: IntBoundary)
    reads sec
  {
    sec.Valid() && |chunkIds| == BlockCount(bits) && (forall i :: 0 <= i < |chunkIds| ==> 0 <= chunkIds[i] < |sec.mappings|)
    && forall p :: PosInside(box, p) ==> Shr(p, 4) == sectionPos && InChunk(Sub(p, origin), bits)
  }

  /** The innermost loop, over X at row (y, z). */
  method PlaceRow(sec: Section, chunkIds: seq<int>, origin: IVec3, bits: nat, sectionPos: IVec3, box: IntBoundary,
                  y: int, z: int, ghost blocks0: seq<int>)
    requires FillsFrom(sec, chunkIds, origin, bits, sectionPos, box) && Normal(box)
    requires box.a.y <= y < box.b.y && box.a.z <= z < box.b.z
    requires Filled(sec.blocks[..], sec.palette, chunkIds, origin, bits, box, IVec3(box.a.x, y, z))
    requires KeptOutside(sec.blocks[..], blocks0, sectionPos, box, IVec3(box.a.x, y, z))
    modifies sec, sec.blocks
    ensures FillsFrom(sec, chunkIds, origin, bits, sectionPos, box)
    ensures sec.blocks == old(sec.blocks) && |sec.mappings| == old(|sec.mappings|) && old(sec.palette) <= sec.palette
    ensures Filled(sec.blocks[..], sec.palette, chunkIds, origin, bits, box, IVec3(box.a.x, y, z + 1))
    ensures KeptOutside(sec.blocks[..], blocks0, sectionPos, box, IVec3(box.a.x, y, z + 1))
  {
    var x := box.a.x;
    while x < box.b.x
      invariant FillsFrom(sec, chunkIds, origin, bits, sectionPos, box)
      invariant sec.blocks == old(sec.blocks) && |sec.mappings| == old(|sec.mappings|)
      invariant old(sec.palette) <= sec.palette && box.a.x <= x <= box.b.x
      invariant Filled(sec.blocks[..], sec.palette, chunkIds, origin, bits, box, IVec3(x, y, z))
      invariant KeptOutside(sec.blocks[..], blocks0, sectionPos, box, IVec3(x, y, z))
    {
      PlaceAt(sec, chunkIds, origin, bits, sectionPos, box, IVec3(x, y, z), blocks0);
      x := x + 1;
    }
    SameProgress(sec.blocks[..], sec.palette, blocks0, chunkIds, origin, bits, sectionPos, box,
                 IVec3(x, y, z), IVec3(box.a.x, y, z + 1));
  }

  /** The middle loop, over Z at layer y. */
  method PlaceLayer(sec: Section, chunkIds: seq<int>, origin: IVec3, bits: nat, sectionPos: IVec3, box: IntBoundary,
                    y: int, ghost blocks0: seq<int>)
    requires FillsFrom(sec, chunkIds, origin, bits, sectionPos, box) && Normal(box)
    requires box.a.y <= y < box.b.y
    requires Filled(sec.blocks[..], sec.palette, chunkIds, origin, bits, box, IVec3(box.a.x, y, box.a.z))
    requires KeptOutside(sec.blocks[..], blocks0, sectionPos, box, IVec3(box.a.x, y, box.a.z))
    modifies sec, sec.blocks
    ensures FillsFrom(sec, chunkIds, origin, bits, sectionPos, box)
    ensures sec.blocks == old(sec.blocks) && |sec.mappings| == old(|sec.mappings|) && old(sec.palette) <= sec.palette
    ensures Filled(sec.blocks[..], sec.palette, chunkIds, origin, bits, box, IVec3(box.a.x, y + 1, box.a.z))
    ensures KeptOutside(sec.blocks[..], blocks0, sectionPos, box, IVec3(box.a.x, y + 1, box.a.z))
  {
    var z := box.a.z;
    while z < box.b.z
      invariant FillsFrom(sec, chunkIds, origin, bits, sectionPos, box)
      invariant sec.blocks == old(sec.blocks) && |sec.mappings| == old(|sec.mappings|)
      invariant old(sec.palette) <= sec.palette && box.a.z <= z <= box.b.z
      invariant Filled(sec.blocks[..], sec.palette, chunkIds, origin, bits, box, IVec3(box.a.x, y, z))
      invariant KeptOutside(sec.blocks[..], blocks0, sectionPos, box, IVec3(box.a.x, y, z))
    {
      PlaceRow(sec, chunkIds, origin, bits, sectionPos, box, y, z, blocks0);
      z := z + 1;
    }
    SameProgress(sec.blocks[..], sec.palette, blocks0, chunkIds, origin, bits, sectionPos, box,
                 IVec3(box.a.x, y, z), IVec3(box.a.x, y + 1, box.a.z));
  }

  /** The box one chunk covers in a section lies in both. */
  lemma ChunkInSectionBox(chunkPos: IVec3, bits: nat, sectionPos: IVec3)
    ensures var cb := ChunkBlockBounds(chunkPos, bits);
      var box := GetClampedInside(cb, ChunkBlockBounds(sectionPos, 4));
      Normal(box) && forall p :: PosInside(box, p) ==> Shr(p, 4) == sectionPos && InChunk(Sub(p, cb.a), bits)
  {
    var cb := ChunkBlockBounds(chunkPos, bits);
    var sb := ChunkBlockBounds(sectionPos, 4);
    var box := GetClampedInside(cb, sb);
    NewOfNormal(box);
    forall p | PosInside(box, p)
      ensures Shr(p, 4) == sectionPos && InChunk(Sub(p, cb.a), bits)
    {
      ClampedIsIntersection(cb, sb, p);
      InSection(sectionPos, p);
      InChunkBox(chunkPos, bits, p);
    }
  }

  /** The loops over the part of a section one chunk covers (`chunkInsideSectionBounds`, Y,
      then Z, then X): afterwards every position of that part decodes, through the section
      palette, to the chunk's volume id there; the rest of the section is untouched, and the
      section palette has only grown. */
  method PlaceChunk(sec: Section, chunkIds: seq<int>, chunkPos: IVec3, bits: nat, sectionPos: IVec3)
    requires sec.Valid()
    requires |chunkIds| == BlockCount(bits) && forall i :: 0 <= i < |chunkIds| ==> 0 <= chunkIds[i] < |sec.mappings|
    modifies sec, sec.blocks
    ensures sec.Valid() && sec.blocks == old(sec.blocks) && |sec.mappings| == old(|sec.mappings|)
    ensures old(sec.palette) <= sec.palette
    ensures var cb := ChunkBlockBounds(chunkPos, bits);
      var box := GetClampedInside(cb, ChunkBlockBounds(sectionPos, 4));
      forall p :: PosInside(box, p) ==> DecodesTo(sec.blocks[..], sec.palette, p, IdAt(chunkIds, cb.a, bits, p))
    ensures var box := GetClampedInside(ChunkBlockBounds(chunkPos, bits), ChunkBlockBounds(sectionPos, 4));
      forall p :: Shr(p, 4) == sectionPos && !PosInside(box, p) ==>
        sec.blocks[SectionIdx(p)] == old(sec.blocks[SectionIdx(p)])
  {
    var cb := ChunkBlockBounds(chunkPos, bits);
    var box := GetClampedInside(cb, ChunkBlockBounds(sectionPos, 4));
    ChunkInSectionBox(chunkPos, bits, sectionPos);
    ghost var blocks0 := sec.blocks[..];
    var y := box.a.y;
    while y < box.b.y
      invariant FillsFrom(sec, chunkIds, cb.a, bits, sectionPos, box)
      invariant sec.blocks == old(sec.blocks) && |sec.mappings| == old(|sec.mappings|)
      invariant old(sec.palette) <= sec.palette && box.a.y <= y <= box.b.y
      invariant Filled(sec.blocks[..], sec.palette, chunkIds, cb.a, bits, box, IVec3(box.a.x, y, box.a.z))
      invariant KeptOutside(sec.blocks[..], blocks0, sectionPos, box, IVec3(box.a.x, y, box.a.z))
    {
      PlaceLayer(sec, chunkIds, cb.a, bits, sectionPos, box, y, blocks0);
      y := y + 1;
    }
    SameProgress(sec.blocks[..], sec.palette, blocks0, chunkIds, cb.a, bits, sectionPos, box,
                 IVec3(box.a.x, y, box.a.z), IVec3(box.a.x, box.b.y + 1, box.a.z));
  }

  // ---------------------------------------------------------------------------
  // Palette entries

  /** One property piece of the palette entry: trimmed, split on `=`, and the first two parts
      trimmed again as name and value; a piece without `=` has no second part and throws. */
  function PropPair(piece: string): Result<(string, string)> {
    var nameAndVal := Split(Trim(piece), '=');
    if |nameAndVal| < 2 then Err(IndexOutOfRange) else Ok((Trim(nameAndVal[0]), Trim(nameAndVal[1])))
  }

  /** The values of a list of results, in order; the first failure fails the whole list. */
  function CollectAll<X>(rs: seq<Result<X>>): (r: Result<seq<X>>)
    ensures r.Ok? <==> forall i :: 0 <= i < |rs| ==> rs[i].Ok?
    ensures r.Ok? ==> |r.value| == |rs| && forall i :: 0 <= i < |rs| ==> r.value[i] == rs[i].value
  {
    if rs == [] then Ok([])
    else
      var tail := CollectAll(rs[1..]);
      assert forall i :: 1 <= i < |rs| ==> rs[1..][i - 1] == rs[i];
      if rs[0].Err? then Err(rs[0].error)
      else if tail.Err? then tail
      else Ok([rs[0].value] + tail.value)
  }

  /** The pieces' pairs in order; the first failing piece fails the entry. */
  function PropPairs(pieces: seq<string>): Result<seq<(string, string)>> {
    CollectAll(seq(|pieces|, i requires 0 <= i < |pieces| => PropPair(pieces[i])))
  }

  /** The `Name` and the `Properties` pairs the palette NBT entry of a state string gets: the
      name is the text before the first `[`; when there is a `[`, the properties are the
      comma-separated pieces between it and the last character. */
  function PaletteEntry(stateStr: string): Result<(string, seq<(string, string)>)> {
    var brack := IndexOf(stateStr, '[');
    if brack == -1 then Ok((stateStr, []))
    else
      match PropPairs(Split(PropsText(stateStr, brack), ','))
      case Err(e) => Err(e)
      case Ok(ps) => Ok((stateStr[..brack], ps))
  }

  /** The pairs of a property list. */
  function PairsOf(ps: seq<Prop>): (r: seq<(string, string)>)
    ensures |r| == |ps| && forall i :: 0 <= i < |ps| ==> r[i] == (ps[i].name, ps[i].value)
  {
    seq(|ps|, i requires 0 <= i < |ps| => (ps[i].name, ps[i].value))
  }

  /** A printed property of a well-formed state splits back into its name and value. */
  lemma PropPairOfPropStr(p: Prop)
    requires ',' !in p.name && '=' !in p.name && Trimmed(p.name)
    requires '=' !in p.value && Trimmed(p.value)
    ensures PropPair(PropStr(p)) == Ok((p.name, p.value))
  {
    TrimPropStr(p);
    SplitPropStr(p);
    TrimProperties(p.name);
    TrimProperties(p.value);
  }

  /** Printed properties whose names and values hold no separator and no surrounding blanks
      parse back into their pairs. */
  lemma PropPairsOfPropStrs(ps: seq<Prop>)
    requires forall i :: 0 <= i < |ps| ==>
               ',' !in ps[i].name && '=' !in ps[i].name && Trimmed(ps[i].name)
               && '=' !in ps[i].value && Trimmed(ps[i].value)
    ensures PropPairs(PropStrs(ps)) == Ok(PairsOf(ps))
  {
    var pieces := PropStrs(ps);
    var rs := seq(|pieces|, i requires 0 <= i < |pieces| => PropPair(pieces[i]));
    forall i | 0 <= i < |ps|
      ensures rs[i] == Ok((ps[i].name, ps[i].value))
    {
      PropPairOfPropStr(ps[i]);
    }
    var c := CollectAll(rs);
    assert c.Ok?;
    assert c.value == PairsOf(ps);
  }

  /** The palette entry of a well-formed state's string carries its full name and its
      properties, name and value, in order: the exported palette describes the volume's states. */
  lemma PaletteEntryOfStateStr(bs: BlockState)
    requires WellFormed(bs)
    ensures PaletteEntry(StateStr(bs)) == Ok((FullName(bs), PairsOf(bs.props)))
  {
    SortSortedIsIdentity(bs.props);
    if HasProps(bs) {
      StateStrLayout(bs);
      PropStrsNoComma(bs.props);
      SplitJoin(PropStrs(bs.props), ',');
      PropPairsOfPropStrs(bs.props);
    } else {
      NoBracketInFullName(bs);
      assert StateStr(bs) == FullName(bs);
      assert bs.props == [];
    }
  }

  // ---------------------------------------------------------------------------
  // The region file

  /** `((max(len, 1) - 1) / 4096) + 1`: the fewest whole sectors, and at least one, that hold
      len bytes. */
  function SectorCount(len: nat): (n: nat)
    ensures n >= 1 && len <= n * SECTOR
    ensures n == 1 || (n - 1) * SECTOR < len
  {
    var atLeastOne := if len < 1 then 1 else len;
    (atLeastOne - 1) / SECTOR + 1
  }

  /** `4 * ((x and 0x1F) + (z and 0x1F) * 32)`: where a column chunk's entry sits in the
      location table, the region's first sector. */
  function HeaderOffset(colPos: IVec3): (h: int)
    ensures 0 <= h <= SECTOR - 4 && h % 4 == 0
  {
    4 * ((colPos.x % 32) + (colPos.z % 32) * 32)
  }

  /** The column chunks of one region have distinct entries. */
  lemma HeaderOffsetsDistinct(p: IVec3, q: IVec3)
    requires p.x / 32 == q.x / 32 && p.z / 32 == q.z / 32 && (p.x != q.x || p.z != q.z)
    ensures HeaderOffset(p) != HeaderOffset(q)
  {
    assert p.x == 32 * (p.x / 32) + p.x % 32 && q.x == 32 * (q.x / 32) + q.x % 32;
    assert p.z == 32 * (p.z / 32) + p.z % 32 && q.z == 32 * (q.z / 32) + q.z % 32;
  }

  /** bin frames the compressed NBT nbt as a column chunk: the NBT's length plus one as a
      big-endian Int, the compression type 2 (zlib), then the compressed bytes. */
  predicate Framed(nbt: seq<Byte>, bin: seq<Byte>) {
    |bin| == |nbt| + 5 && bin[4] == 2 && bin[5..] == nbt
    && (IsInt(|nbt| + 1) ==> ToInt(FromBe(bin[..4])) == |nbt| + 1)
  }

  /** The column chunk's bytes. */
  method ColumnBinary(nbt: seq<Byte>) returns (bin: seq<Byte>)
    ensures Framed(nbt, bin)
  {
    bin := WriteIntBe([], |nbt| + 1);
    bin := bin + [2];
    var i := 0;
    while i < |nbt|
      invariant 0 <= i <= |nbt| && bin == BeBytes(|nbt| + 1, 4) + [2] + nbt[..i]
    {
      bin := bin + [nbt[i]];
      i := i + 1;
    }
    assert bin[..4] == BeBytes(|nbt| + 1, 4);
    if IsInt(|nbt| + 1) {
      IntBytesRoundTrip(|nbt| + 1);
    }
  }

  lemma Pow2TwentyFour()
    ensures Pow2(8 * 3) == 0x100_0000
  {
    Pow2Widths();
    Pow2Add(16, 8);
  }

  /** The three low bytes of `intToBEBytes(v)`. */
  lemma LowBeBytes(v: int)
    ensures BeBytes(v, 4)[1..4] == BeBytes(v, 3)
    ensures FromBe(BeBytes(v, 3)) == v % 0x100_0000
  {
    BeIsReversedLe(v, 3);
    Pow2TwentyFour();
  }

  /** The header-writing loop: `bytes` overwrite the region from index h on. */
  method WriteHeaderBytes(region: seq<Byte>, h: nat, bytes: seq<Byte>) returns (out: seq<Byte>)
    requires h + |bytes| <= |region|
    ensures |out| == |region| && out[h..h + |bytes|] == bytes
    ensures forall i :: 0 <= i < |region| && !(h <= i < h + |bytes|) ==> out[i] == region[i]
  {
    out := region;
    var headerWritingIdx := h;
    var k := 0;
    while k < |bytes|
      invariant 0 <= k <= |bytes| && headerWritingIdx == h + k && |out| == |region|
      invariant forall i :: 0 <= i < k ==> out[h + i] == bytes[i]
      invariant forall i :: 0 <= i < |region| && !(h <= i < h + k) ==> out[i] == region[i]
    {
      out := out[headerWritingIdx := bytes[k]];
      headerWritingIdx := headerWritingIdx + 1;
      k := k + 1;
    }
    assert out[h..h + |bytes|] == bytes;
  }

  /** The padding loop: zeros are appended until the column chunk fills whole sectors. */
  method PadToSectors(colBin: seq<Byte>) returns (padded: seq<Byte>)
    ensures |padded| == SectorCount(|colBin|) * SECTOR && colBin <= padded
    ensures forall i :: |colBin| <= i < |padded| ==> padded[i] == 0
  {
    var sectorCount := SectorCount(|colBin|);
    padded := colBin;
    while |padded| < sectorCount * SECTOR
      invariant |colBin| <= |padded| <= sectorCount * SECTOR && colBin <= padded
      invariant forall i :: |colBin| <= i < |padded| ==> padded[i] == 0
      decreases sectorCount * SECTOR - |padded|
    {
      padded := padded + [0];
    }
  }

  /** Adding one column chunk: its location entry (the sector the region has reached, as three
      big-endian bytes, then the sector count as a byte) is written into the table, and its
      bytes are appended, padded with zeros to whole sectors. */
  method AddColumn(region: seq<Byte>, colPos: IVec3, colBin: seq<Byte>) returns (out: seq<Byte>)
    requires |region| >= 2 * SECTOR
    ensures |out| == |region| + SectorCount(|colBin|) * SECTOR
    ensures var h := HeaderOffset(colPos);
      FromBe(out[h..h + 3]) == (|region| / SECTOR) % 0x100_0000 && out[h + 3] == SectorCount(|colBin|) % 256
    ensures colBin <= out[|region|..]
    ensures forall i :: |region| + |colBin| <= i < |out| ==> out[i] == 0
    ensures forall i :: 0 <= i < |region| && !(HeaderOffset(colPos) <= i < HeaderOffset(colPos) + 4) ==> out[i] == region[i]
  {
    var sectorCount := SectorCount(|colBin|);
    var headerOffset := HeaderOffset(colPos);
    var headerEntryChunkBinaryOffset := |region| / SECTOR;
    var headerEntryChunkBinaryLength: Byte := sectorCount % 256;
    var be := IntToBeBytes(headerEntryChunkBinaryOffset);
    LowBeBytes(headerEntryChunkBinaryOffset);
    var withOffset := WriteHeaderBytes(region, headerOffset, be[1..4]);
    out := withOffset[headerOffset + 3 := headerEntryChunkBinaryLength];
    assert out[headerOffset..headerOffset + 3] == withOffset[headerOffset..headerOffset + 3];
    assert FromBe(out[headerOffset..headerOffset + 3]) == headerEntryChunkBinaryOffset % 0x100_0000;
    var colChunkBinary := PadToSectors(colBin);
    var header := out;
    out := header + colChunkBinary;
    assert out[headerOffset..headerOffset + 3] == header[headerOffset..headerOffset + 3];
    assert out[|region|..] == colChunkBinary;
  }

  /** The location entry at colPos's slot points at sector off, which holds colBin and is
      followed by enough sectors for it. */
  ghost predicate Located(bin: seq<Byte>, colPos: IVec3, colBin: seq<Byte>, off: nat) {
    var h := HeaderOffset(colPos);
    2 * SECTOR <= |bin| && 2 <= off && off * SECTOR + SectorCount(|colBin|) * SECTOR <= |bin|
    && FromBe(bin[h..h + 3]) == off % 0x100_0000 && bin[h + 3] == SectorCount(|colBin|) % 256
    && colBin <= bin[off * SECTOR..]
  }

  /** Adding another column, whose entry has another slot, keeps a column located. */
  lemma LocatedKept(before: seq<Byte>, after: seq<Byte>, colPos: IVec3, colBin: seq<Byte>, off: nat, newPos: IVec3)
    requires Located(before, colPos, colBin, off)
    requires HeaderOffset(colPos) != HeaderOffset(newPos) && |before| <= |after|
    requires forall i :: 0 <= i < |before| && !(HeaderOffset(newPos) <= i < HeaderOffset(newPos) + 4) ==> after[i] == before[i]
    ensures Located(after, colPos, colBin, off)
  {
    var h, hn := HeaderOffset(colPos), HeaderOffset(newPos);
    assert h + 4 <= hn || hn + 4 <= h;
    assert after[h..h + 3] == before[h..h + 3];
    assert after[h + 3] == before[h + 3];
    assert 2 * SECTOR <= off * SECTOR;
    forall i | 0 <= i < |colBin|
      ensures after[off * SECTOR + i] == colBin[i]
    {
      assert before[off * SECTOR..][i] == colBin[i];
    }
  }

  /** The region loop: the two header tables (locations, then timestamps) as 8192 zeros, then
      each column chunk in turn, framed and added. */
  method WriteRegion(cols: seq<(IVec3, seq<Byte>)>) returns (bin: seq<Byte>, ghost colBins: seq<seq<Byte>>, ghost offs: seq<nat>)
    requires forall i, j :: 0 <= i < j < |cols| ==> HeaderOffset(cols[i].0) != HeaderOffset(cols[j].0)
    ensures |bin| % SECTOR == 0 && 2 * SECTOR <= |bin|
    ensures |colBins| == |cols| && |offs| == |cols|
    ensures forall j :: 0 <= j < |cols| ==> Framed(cols[j].1, colBins[j]) && Located(bin, cols[j].0, colBins[j], offs[j])
  {
    bin := seq(2 * SECTOR, _ => 0);
    colBins, offs := [], [];
    var k := 0;
    while k < |cols|
      invariant 0 <= k <= |cols| && |colBins| == k && |offs| == k
      invariant |bin| % SECTOR == 0 && 2 * SECTOR <= |bin|
      invariant forall j :: 0 <= j < k ==> Framed(cols[j].1, colBins[j]) && Located(bin, cols[j].0, colBins[j], offs[j])
    {
      var colBin := ColumnBinary(cols[k].1);
      var before := bin;
      bin := AddColumn(before, cols[k].0, colBin);
      forall j | 0 <= j < k
        ensures Located(bin, cols[j].0, colBins[j], offs[j])
      {
        LocatedKept(before, bin, cols[j].0, colBins[j], offs[j], cols[k].0);
      }
      assert (|before| / SECTOR) * SECTOR == |before|;
      colBins, offs := colBins + [colBin], offs + [|before| / SECTOR];
      k := k + 1;
    }
  }

  /** The tags the column chunk's NBT is written with, as written: `xPos` is put twice, the
      second time with the z coordinate, and `zPos` is never put. */
  function ColumnTagsAsWritten(colPos: IVec3): (tags: map<string, int>)
    ensures "xPos" in tags && "zPos" !in tags
  {
    map["DataVersion" := DATA_VERSION]["xPos" := colPos.x]["xPos" := colPos.z]["yPos" := LOWEST_SECTION]
  }

  /** The as-written tags lose the column's x and its z tag. */
  lemma ColumnTagsAsWrittenLoseX()
    ensures ColumnTagsAsWritten(IVec3(1, 0, 2))["xPos"] == 2
    ensures "zPos" !in ColumnTagsAsWritten(IVec3(1, 0, 2))
  {
  }

  /** The tags the column chunk's NBT evidently means to carry: its x and z coordinates. */
  function ColumnTags(colPos: IVec3): (tags: map<string, int>)
    ensures "xPos" in tags && "zPos" in tags && "yPos" in tags && "DataVersion" in tags
    ensures tags["xPos"] == colPos.x && tags["zPos"] == colPos.z
    ensures tags["yPos"] == LOWEST_SECTION && tags["DataVersion"] == DATA_VERSION
  {
    map["DataVersion" := DATA_VERSION]["xPos" := colPos.x]["zPos" := colPos.z]["yPos" := LOWEST_SECTION]
  }
}
