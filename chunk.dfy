/** `Chunk`: a cube of 2^b × 2^b × 2^b palette ids stored Y-Z-X in one array, with tile data
    keyed by local position. */
module Chunks {
  import opened Wrappers
  import opened Vec
  import opened Bounds
  import opened VolBlocks

  /** `CHUNK_SIDE_LEN`, `1 shl b`. */
  function SideLen(b: nat): nat { Pow2(b) }

  /** `CHUNK_BLOCK_COUNT`, the cube of the side length. */
  function BlockCount(b: nat): nat { Pow2(b) * Pow2(b) * Pow2(b) }

  /** A local position: every component in [0, 2^b). */
  predicate InChunk(l: IVec3, b: nat) { Le(Splat(0), l) && Le(l, Splat(Pow2(b) - 1)) }

  /** The chunk's own box [0, 2^b)^3. */
  function LocalBox(b: nat): IntBoundary { New(Splat(0), Splat(Pow2(b))) }

  /** `localToBlockIdx`: x + (z shl b) + (y shl 2b). */
  function LocalToBlockIdx(l: IVec3, b: nat): int {
    l.x + l.z * Pow2(b) + l.y * Pow2(b + b)
  }

  /** `blockIdxToLocal`: each coordinate is a b-bit field of the index (x lowest, then z, then y). */
  function BlockIdxToLocal(idx: int, b: nat): IVec3 {
    IVec3(idx % Pow2(b), (idx / Pow2(b + b)) % Pow2(b), (idx / Pow2(b)) % Pow2(b))
  }

  /** The chunk index is the Y-Z-X index of the local position in the chunk's own box: chunks
      and block grids share one linearisation. */
  lemma LocalIdxIsYzx(l: IVec3, b: nat)
    ensures LocalToBlockIdx(l, b) == PosToYzxIdx(LocalBox(b), l)
    ensures Volume(LocalBox(b)) == BlockCount(b)
  {
    var s := Pow2(b);
    LocalBoxShape(b);
    Pow2Square(b);
    assert PosToYzxIdx(LocalBox(b), l) == l.x + l.z * s + l.y * s * s;
    assert LocalToBlockIdx(l, b) == l.x + l.z * s + l.y * (s * s);
  }

  lemma LocalBoxShape(b: nat)
    ensures LocalBox(b) == IntBoundary(Splat(0), Splat(Pow2(b)), Splat(Pow2(b)))
  {
  }

  lemma Pow2Square(b: nat)
    ensures Pow2(b + b) == Pow2(b) * Pow2(b)
  {
    Pow2Add(b, b);
  }

  lemma DivDiv(i: int, s: int)
    requires s > 0
    ensures i / (s * s) == (i / s) / s
  {
    var q, r := i / s, i % s;
    var q2, r2 := q / s, q % s;
    assert i == q * s + r;
    assert q == q2 * s + r2;
    assert i == q2 * (s * s) + (r2 * s + r) by {
      assert q * s == q2 * (s * s) + r2 * s;
    }
    assert 0 <= r2 * s + r < s * s by {
      assert r2 * s <= (s - 1) * s by { MulLe(r2, s - 1, s); }
    }
    DivModUnique(q2, r2 * s + r, s * s);
  }

  /** Reading the fields back is the inverse Y-Z-X map of the chunk's box. */
  lemma BlockIdxIsPointAt(i: int, b: nat)
    requires 0 <= i < BlockCount(b)
    ensures BlockIdxToLocal(i, b) == PointAt(LocalBox(b), i)
  {
    var s := Pow2(b);
    Pow2Square(b);
    LocalBoxShape(b);
    TopDigit(i, s);
  }

  /** The y field: the index divided by s², reduced mod s, is the top base-s digit. */
  lemma TopDigit(i: int, s: int)
    requires s > 0 && 0 <= i < s * s * s
    ensures (i / (s * s)) % s == (i / s) / s
  {
    DivDiv(i, s);
    var t := (i / s) / s;
    assert 0 <= t < s by {
      YzxDigits(i, s, s, s);
    }
    DivModUnique(0, t, s);
  }

  /** `blockIdxToLocal` and `localToBlockIdx` are inverse bijections between local positions
      and [0, 2^3b). */
  lemma BlockIdxRoundTrip(l: IVec3, i: int, b: nat)
    ensures InChunk(l, b) ==>
      0 <= LocalToBlockIdx(l, b) < BlockCount(b) && BlockIdxToLocal(LocalToBlockIdx(l, b), b) == l
    ensures 0 <= i < BlockCount(b) ==>
      InChunk(BlockIdxToLocal(i, b), b) && LocalToBlockIdx(BlockIdxToLocal(i, b), b) == i
  {
    var box := LocalBox(b);
    LocalIdxIsYzx(l, b);
    if InChunk(l, b) {
      YzxIdxInRange(box, l);
      PointAtYzxIdx(box, l);
      BlockIdxIsPointAt(LocalToBlockIdx(l, b), b);
    }
    if 0 <= i < BlockCount(b) {
      BlockIdxIsPointAt(i, b);
      YzxIdxPointAt(box, i);
      LocalIdxIsYzx(BlockIdxToLocal(i, b), b);
    }
  }

  /** Distinct local positions occupy distinct cells. */
  lemma LocalIdxInjective(l: IVec3, m: IVec3, b: nat)
    requires InChunk(l, b) && InChunk(m, b) && l != m
    ensures LocalToBlockIdx(l, b) != LocalToBlockIdx(m, b)
  {
    BlockIdxRoundTrip(l, 0, b);
    BlockIdxRoundTrip(m, 0, b);
  }

  class Chunk<T> {
    /** `CHUNK_BIT_SIZE`. */
    const bitSize: nat
    const blocks: array<int>
    /** Local position → tile data. */
    var tileData: map<IVec3, T>

    ghost predicate Valid() {
      blocks.Length == BlockCount(bitSize)
    }

    /** `Chunk.new(b)`: every cell holds the default id and there is no tile data. */
    constructor (b: nat)
      ensures bitSize == b && Valid() && fresh(blocks) && tileData == map[]
      ensures forall i :: 0 <= i < blocks.Length ==> blocks[i] == DEFAULT_BLOCK_ID
    {
      bitSize := b;
      blocks := new int[BlockCount(b)](_ => DEFAULT_BLOCK_ID);
      tileData := map[];
    }

    function GetTileData(l: IVec3): Option<T>
      reads this
    {
      if l in tileData then Some(tileData[l]) else None
    }

    /** None removes the tile data at l, Some stores it; every other position keeps its data. */
    method SetTileData(l: IVec3, data: Option<T>)
      modifies this
      ensures tileData == if data.None? then old(tileData) - {l} else old(tileData)[l := data.value]
      ensures GetTileData(l) == data
      ensures forall m :: m != l ==> GetTileData(m) == old(GetTileData(m))
    {
      if data.None? {
        tileData := tileData - {l};
      } else {
        tileData := tileData[l := data.value];
      }
    }

    function GetBlock(l: IVec3): int
      requires Valid() && InChunk(l, bitSize)
      reads blocks
    {
      BlockIdxRoundTrip(l, 0, bitSize);
      blocks[LocalToBlockIdx(l, bitSize)]
    }

    /** Writes exactly the cell of l: it reads back as the entry's id, every other local
        position keeps its id. */
    method SetBlock(l: IVec3, e: VolBlockState)
      requires Valid() && InChunk(l, bitSize)
      modifies blocks
      ensures GetBlock(l) == e.paletteId
      ensures forall m :: InChunk(m, bitSize) && m != l ==> GetBlock(m) == old(GetBlock(m))
      ensures 0 <= LocalToBlockIdx(l, bitSize) < blocks.Length
      ensures blocks[..] == old(blocks[..])[LocalToBlockIdx(l, bitSize) := e.paletteId]
    {
      BlockIdxRoundTrip(l, 0, bitSize);
      blocks[LocalToBlockIdx(l, bitSize)] := e.paletteId;
      forall m | InChunk(m, bitSize) && m != l ensures GetBlock(m) == old(GetBlock(m)) {
        LocalIdxInjective(l, m, bitSize);
        BlockIdxRoundTrip(m, 0, bitSize);
      }
    }

    /** `canBeCleanedUp`: every cell holds the default id. */
    predicate CanBeCleanedUp()
      reads blocks
    {
      forall i :: 0 <= i < blocks.Length ==> blocks[i] == DEFAULT_BLOCK_ID
    }

    /** The componentwise minimum of the local positions of non-default cells, or None when
        there are none. */
    method ComputeMinLocalPos() returns (r: Option<IVec3>)
      requires Valid()
      ensures r.None? <==> CanBeCleanedUp()
      ensures r.Some? ==> forall i :: 0 <= i < blocks.Length && blocks[i] != DEFAULT_BLOCK_ID ==>
        Le(r.value, BlockIdxToLocal(i, bitSize))
      ensures r.Some? ==> AttainedOnEachAxis(r.value, blocks[..], bitSize)
    {
      r := None;
      var i := 0;
      while i < blocks.Length
        invariant 0 <= i <= blocks.Length
        invariant r.None? <==> AllDefault(blocks[..i])
        invariant r.Some? ==> BelowAll(r.value, blocks[..i], bitSize)
        invariant r.Some? ==> AttainedOnEachAxis(r.value, blocks[..i], bitSize)
      {
        ScanStep(r, blocks[..i], blocks[..i + 1]);
        if blocks[i] != DEFAULT_BLOCK_ID {
          var l := BlockIdxToLocal(i, bitSize);
          var m := if r.None? then l else Min(r.value, l);
          AttainedStep(r, m, l, blocks[..i], blocks[..i + 1], bitSize);
          BelowStep(r, m, l, blocks[..i], blocks[..i + 1], bitSize);
          r := Some(m);
        } else {
          AttainedExtend(r, blocks[..i], blocks[..i + 1], bitSize);
          if r.Some? { BelowExtend(r.value, blocks[..i], blocks[..i + 1], bitSize); }
        }
        i := i + 1;
      }
      assert blocks[..i] == blocks[..];
    }

    /** The componentwise maximum of the local positions of non-default cells, or None. */
    method ComputeMaxLocalPos() returns (r: Option<IVec3>)
      requires Valid()
      ensures r.None? <==> CanBeCleanedUp()
      ensures r.Some? ==> forall i :: 0 <= i < blocks.Length && blocks[i] != DEFAULT_BLOCK_ID ==>
        Le(BlockIdxToLocal(i, bitSize), r.value)
      ensures r.Some? ==> AttainedOnEachAxis(r.value, blocks[..], bitSize)
    {
      r := None;
      var i := 0;
      while i < blocks.Length
        invariant 0 <= i <= blocks.Length
        invariant r.None? <==> AllDefault(blocks[..i])
        invariant r.Some? ==> AboveAll(r.value, blocks[..i], bitSize)
        invariant r.Some? ==> AttainedOnEachAxis(r.value, blocks[..i], bitSize)
      {
        ScanStep(r, blocks[..i], blocks[..i + 1]);
        if blocks[i] != DEFAULT_BLOCK_ID {
          var l := BlockIdxToLocal(i, bitSize);
          var m := if r.None? then l else Max(r.value, l);
          AttainedStep(r, m, l, blocks[..i], blocks[..i + 1], bitSize);
          AboveStep(r, m, l, blocks[..i], blocks[..i + 1], bitSize);
          r := Some(m);
        } else {
          AttainedExtend(r, blocks[..i], blocks[..i + 1], bitSize);
          if r.Some? { AboveExtend(r.value, blocks[..i], blocks[..i + 1], bitSize); }
        }
        i := i + 1;
      }
      assert blocks[..i] == blocks[..];
    }
  }

  predicate AllDefault(cells: seq<int>) {
    forall j :: 0 <= j < |cells| ==> cells[j] == DEFAULT_BLOCK_ID
  }

  /** v is componentwise at most the local position of every non-default cell. */
  predicate BelowAll(v: IVec3, cells: seq<int>, b: nat) {
    forall j :: 0 <= j < |cells| && cells[j] != DEFAULT_BLOCK_ID ==> Le(v, BlockIdxToLocal(j, b))
  }

  /** v is componentwise at least the local position of every non-default cell. */
  predicate AboveAll(v: IVec3, cells: seq<int>, b: nat) {
    forall j :: 0 <= j < |cells| && cells[j] != DEFAULT_BLOCK_ID ==> Le(BlockIdxToLocal(j, b), v)
  }

  /** One more cell: the prefix is all default exactly when the old one was and the cell is. */
  lemma ScanStep(r: Option<IVec3>, cells: seq<int>, cells': seq<int>)
    requires |cells'| == |cells| + 1 && cells == cells'[..|cells|]
    ensures AllDefault(cells') <==> AllDefault(cells) && cells'[|cells|] == DEFAULT_BLOCK_ID
  {
    if AllDefault(cells) && cells'[|cells|] == DEFAULT_BLOCK_ID {
      forall j | 0 <= j < |cells'| ensures cells'[j] == DEFAULT_BLOCK_ID {
        if j < |cells| { assert cells'[j] == cells[j]; }
      }
    }
    if AllDefault(cells') {
      forall j | 0 <= j < |cells| ensures cells[j] == DEFAULT_BLOCK_ID {
        assert cells'[j] == cells[j];
      }
    }
  }

  lemma BelowExtend(v: IVec3, cells: seq<int>, cells': seq<int>, b: nat)
    requires |cells'| == |cells| + 1 && cells == cells'[..|cells|]
    requires BelowAll(v, cells, b) && cells'[|cells|] == DEFAULT_BLOCK_ID
    ensures BelowAll(v, cells', b)
  {
    forall j | 0 <= j < |cells'| && cells'[j] != DEFAULT_BLOCK_ID ensures Le(v, BlockIdxToLocal(j, b)) {
      assert cells'[j] == cells[j];
    }
  }

  lemma AboveExtend(v: IVec3, cells: seq<int>, cells': seq<int>, b: nat)
    requires |cells'| == |cells| + 1 && cells == cells'[..|cells|]
    requires AboveAll(v, cells, b) && cells'[|cells|] == DEFAULT_BLOCK_ID
    ensures AboveAll(v, cells', b)
  {
    forall j | 0 <= j < |cells'| && cells'[j] != DEFAULT_BLOCK_ID ensures Le(BlockIdxToLocal(j, b), v) {
      assert cells'[j] == cells[j];
    }
  }

  /** A new non-default cell: the minimum with its position bounds every cell from below. */
  lemma BelowStep(r: Option<IVec3>, m: IVec3, l: IVec3, cells: seq<int>, cells': seq<int>, b: nat)
    requires |cells'| == |cells| + 1 && cells == cells'[..|cells|]
    requires l == BlockIdxToLocal(|cells|, b)
    requires r.None? ==> AllDefault(cells) && m == l
    requires r.Some? ==> BelowAll(r.value, cells, b) && m == Min(r.value, l)
    ensures BelowAll(m, cells', b)
  {
    forall j | 0 <= j < |cells'| && cells'[j] != DEFAULT_BLOCK_ID ensures Le(m, BlockIdxToLocal(j, b)) {
      if j < |cells| { assert cells'[j] == cells[j]; }
    }
  }

  /** A new non-default cell: the maximum with its position bounds every cell from above. */
  lemma AboveStep(r: Option<IVec3>, m: IVec3, l: IVec3, cells: seq<int>, cells': seq<int>, b: nat)
    requires |cells'| == |cells| + 1 && cells == cells'[..|cells|]
    requires l == BlockIdxToLocal(|cells|, b)
    requires r.None? ==> AllDefault(cells) && m == l
    requires r.Some? ==> AboveAll(r.value, cells, b) && m == Max(r.value, l)
    ensures AboveAll(m, cells', b)
  {
    forall j | 0 <= j < |cells'| && cells'[j] != DEFAULT_BLOCK_ID ensures Le(BlockIdxToLocal(j, b), m) {
      if j < |cells| { assert cells'[j] == cells[j]; }
    }
  }

  /** Each component of v is the component of some non-default cell's local position, so a
      bound built from them is tight. */
  predicate AttainedOnEachAxis(v: IVec3, cells: seq<int>, b: nat) {
    (exists i :: 0 <= i < |cells| && cells[i] != DEFAULT_BLOCK_ID && BlockIdxToLocal(i, b).x == v.x)
    && (exists i :: 0 <= i < |cells| && cells[i] != DEFAULT_BLOCK_ID && BlockIdxToLocal(i, b).y == v.y)
    && (exists i :: 0 <= i < |cells| && cells[i] != DEFAULT_BLOCK_ID && BlockIdxToLocal(i, b).z == v.z)
  }

  lemma AttainedExtend(r: Option<IVec3>, cells: seq<int>, cells': seq<int>, b: nat)
    requires |cells'| == |cells| + 1 && cells == cells'[..|cells|]
    requires r.Some? ==> AttainedOnEachAxis(r.value, cells, b)
    ensures r.Some? ==> AttainedOnEachAxis(r.value, cells', b)
  {
    if r.Some? {
      var v := r.value;
      var ix :| 0 <= ix < |cells| && cells[ix] != DEFAULT_BLOCK_ID && BlockIdxToLocal(ix, b).x == v.x;
      var iy :| 0 <= iy < |cells| && cells[iy] != DEFAULT_BLOCK_ID && BlockIdxToLocal(iy, b).y == v.y;
      var iz :| 0 <= iz < |cells| && cells[iz] != DEFAULT_BLOCK_ID && BlockIdxToLocal(iz, b).z == v.z;
      assert cells'[ix] == cells[ix] && cells'[iy] == cells[iy] && cells'[iz] == cells[iz];
    }
  }

  /** A new non-default cell at the end: each component of the new accumulator comes either
      from the old accumulator or from the new cell. */
  lemma AttainedStep(r: Option<IVec3>, m: IVec3, l: IVec3, cells: seq<int>, cells': seq<int>, b: nat)
    requires |cells'| == |cells| + 1 && cells == cells'[..|cells|]
    requires cells'[|cells|] != DEFAULT_BLOCK_ID && l == BlockIdxToLocal(|cells|, b)
    requires r.Some? ==> AttainedOnEachAxis(r.value, cells, b)
    requires r.None? ==> m == l
    requires r.Some? ==> ((m.x == r.value.x || m.x == l.x) && (m.y == r.value.y || m.y == l.y)
      && (m.z == r.value.z || m.z == l.z))
    ensures AttainedOnEachAxis(m, cells', b)
  {
    var n := |cells|;
    AttainedExtend(r, cells, cells', b);
  }
}
