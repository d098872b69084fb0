/** The Sloimay quad export: each chunk's visible faces are sorted into planes, one set per face
    normal, and each plane is greedily meshed into rectangles of one block id. */
module Quads {
  import opened Wrappers
  import opened Vec
  import opened Bytes
  import opened Chunks
  import opened VolBlocks
  import opened BlockStates
  import opened Bounds

  // ---------------------------------------------------------------------------
  // One plane of a flat plane array

  /** A yLen × xLen plane stored row by row from index base: cell (x, y) sits at
      `base + y * xLen + x`. */
  datatype Plane = Plane(base: int, xLen: int, yLen: int)

  function Idx(p: Plane, x: int, y: int): int { p.base + y * p.xLen + x }

  predicate InPlane(p: Plane, x: int, y: int) { 0 <= x < p.xLen && 0 <= y < p.yLen }

  /** The plane lies inside an array of n cells. */
  predicate Fits(p: Plane, n: int) {
    0 <= p.base && 0 < p.xLen && 0 < p.yLen && p.base + p.yLen * p.xLen <= n
  }

  /** The cell (x, y) of the plane in cells. */
  function At(cells: seq<int>, p: Plane, x: int, y: int): int {
    var k := Idx(p, x, y);
    if 0 <= k < |cells| then cells[k] else 0
  }

  lemma IdxInPlane(p: Plane, n: int, x: int, y: int)
    requires Fits(p, n) && InPlane(p, x, y)
    ensures p.base <= Idx(p, x, y) < p.base + p.yLen * p.xLen <= n
  {
    MulLe(y, p.yLen - 1, p.xLen);
    assert (p.yLen - 1) * p.xLen + p.xLen == p.yLen * p.xLen;
    assert 0 <= y * p.xLen;
  }

  /** Two cells of a plane never share an index. */
  lemma IdxInjective(p: Plane, x: int, y: int, x': int, y': int)
    requires InPlane(p, x, y) && InPlane(p, x', y') && (x != x' || y != y')
    ensures Idx(p, x, y) != Idx(p, x', y')
  {
    if y < y' {
      MulLe(y + 1, y', p.xLen);
      assert (y + 1) * p.xLen == y * p.xLen + p.xLen;
    } else if y' < y {
      MulLe(y' + 1, y, p.xLen);
      assert (y' + 1) * p.xLen == y' * p.xLen + p.xLen;
    }
  }

  /** Cells outside the plane keep their value. */
  ghost predicate SameOutside(p: Plane, cells: seq<int>, cells': seq<int>) {
    |cells'| == |cells|
    && forall k :: 0 <= k < |cells| && !(p.base <= k < p.base + p.yLen * p.xLen) ==> cells'[k] == cells[k]
  }

  /** Writing v into the cell (x0, y0) changes that cell of the plane and nothing else. */
  lemma WriteCell(p: Plane, cells: seq<int>, x0: int, y0: int, v: int)
    requires Fits(p, |cells|) && InPlane(p, x0, y0)
    ensures 0 <= Idx(p, x0, y0) < |cells|
    ensures var cells' := cells[Idx(p, x0, y0) := v];
      SameOutside(p, cells, cells')
      && forall x, y :: InPlane(p, x, y) ==> At(cells', p, x, y) == if x == x0 && y == y0 then v else At(cells, p, x, y)
  {
    IdxInPlane(p, |cells|, x0, y0);
    var cells' := cells[Idx(p, x0, y0) := v];
    forall x, y | InPlane(p, x, y)
      ensures At(cells', p, x, y) == if x == x0 && y == y0 then v else At(cells, p, x, y)
    {
      IdxInPlane(p, |cells|, x, y);
      if x != x0 || y != y0 {
        IdxInjective(p, x, y, x0, y0);
      }
    }
  }

  // ---------------------------------------------------------------------------
  // Quads and how many of them cover a cell

  /** A quad: the cells [startX, endX) × [startY, endY) of a plane, all of block id `id`. */
  datatype Quad = Quad(startX: int, endX: int, startY: int, endY: int, id: int)

  predicate InQuad(q: Quad, x: int, y: int) { q.startX <= x < q.endX && q.startY <= y < q.endY }

  /** The number of quads of qs that cover the cell (x, y). */
  function CoverCount(qs: seq<Quad>, x: int, y: int): nat {
    if qs == [] then 0
    else CoverCount(qs[..|qs| - 1], x, y) + if InQuad(qs[|qs| - 1], x, y) then 1 else 0
  }

  lemma CoverCountSnoc(qs: seq<Quad>, q: Quad, x: int, y: int)
    ensures CoverCount(qs + [q], x, y) == CoverCount(qs, x, y) + if InQuad(q, x, y) then 1 else 0
  {
    assert (qs + [q])[..|qs|] == qs;
  }

  /** q lies inside the plane, is not air, and every one of its cells held its id in cells. */
  ghost predicate QuadOf(p: Plane, air: int, cells: seq<int>, q: Quad) {
    0 <= q.startX < q.endX <= p.xLen && 0 <= q.startY < q.endY <= p.yLen && q.id != air
    && forall x, y :: InQuad(q, x, y) ==> At(cells, p, x, y) == q.id
  }

  /** The mesh so far: the quads qs were cut from the original plane orig, no cell is covered
      twice, covered cells are air now, and the others still hold their original id. */
  ghost predicate Meshed(p: Plane, air: int, orig: seq<int>, cur: seq<int>, qs: seq<Quad>) {
    Fits(p, |orig|) && SameOutside(p, orig, cur)
    && (forall i :: 0 <= i < |qs| ==> QuadOf(p, air, orig, qs[i]))
    && forall x, y :: InPlane(p, x, y) ==>
         CoverCount(qs, x, y) <= 1
         && (CoverCount(qs, x, y) == 1 ==> At(orig, p, x, y) != air)
         && At(cur, p, x, y) == if CoverCount(qs, x, y) == 1 then air else At(orig, p, x, y)
  }

  /** Every cell scanned before (x0, y0), in row order, is air. */
  ghost predicate AirBefore(p: Plane, air: int, cur: seq<int>, x0: int, y0: int) {
    forall x, y :: InPlane(p, x, y) && (y < y0 || (y == y0 && x < x0)) ==> At(cur, p, x, y) == air
  }

  /** Cutting q, whose cells all hold its id now, keeps the mesh invariant. */
  lemma MeshedSnoc(p: Plane, air: int, orig: seq<int>, cur: seq<int>, cur': seq<int>, qs: seq<Quad>, q: Quad)
    requires Meshed(p, air, orig, cur, qs)
    requires 0 <= q.startX < q.endX <= p.xLen && 0 <= q.startY < q.endY <= p.yLen && q.id != air
    requires forall x, y :: InQuad(q, x, y) ==> At(cur, p, x, y) == q.id
    requires SameOutside(p, cur, cur')
    requires forall x, y :: InPlane(p, x, y) ==> At(cur', p, x, y) == if InQuad(q, x, y) then air else At(cur, p, x, y)
    ensures Meshed(p, air, orig, cur', qs + [q])
  {
    forall x, y | InQuad(q, x, y)
      ensures At(orig, p, x, y) == q.id
    {
      assert InPlane(p, x, y);
    }
    assert QuadOf(p, air, orig, q);
    forall i | 0 <= i < |qs + [q]|
      ensures QuadOf(p, air, orig, (qs + [q])[i])
    {
      if i < |qs| {
        assert (qs + [q])[i] == qs[i];
      }
    }
    forall x, y | InPlane(p, x, y)
      ensures CoverCount(qs + [q], x, y) <= 1
      ensures CoverCount(qs + [q], x, y) == 1 ==> At(orig, p, x, y) != air
      ensures At(cur', p, x, y) == if CoverCount(qs + [q], x, y) == 1 then air else At(orig, p, x, y)
    {
      CoverCountSnoc(qs, q, x, y);
    }
  }

  // ---------------------------------------------------------------------------
  // The greedy mesh of one plane

  /** Expanding in X: from the start cell, the quad grows right while the next cell holds its id
      and stays inside the plane; without greedy meshing it is one cell wide. */
  method ExpandX(plane: array<int>, p: Plane, x: int, y: int, id: int, greedy: bool) returns (endX: int)
    requires Fits(p, plane.Length) && InPlane(p, x, y) && At(plane[..], p, x, y) == id
    ensures x < endX <= p.xLen
    ensures forall i :: x <= i < endX ==> At(plane[..], p, i, y) == id
    ensures greedy ==> endX == p.xLen || At(plane[..], p, endX, y) != id
    ensures !greedy ==> endX == x + 1
  {
    endX := x;
    while true
      invariant x <= endX <= p.xLen
      invariant forall i :: x <= i < endX ==> At(plane[..], p, i, y) == id
      invariant !greedy ==> endX == x
      decreases p.xLen - endX
    {
      var xExpandNotDone := false;
      if endX < p.xLen {
        IdxInPlane(p, plane.Length, endX, y);
        xExpandNotDone := plane[p.base + y * p.xLen + endX] == id;
      }
      if !xExpandNotDone {
        break;
      }
      endX := endX + 1;
      if !greedy {
        break;
      }
    }
  }

  /** Whether every cell of row `row` in [startX, endX) holds id, scanned by flat index. */
  method RowHolds(plane: array<int>, p: Plane, startX: int, endX: int, row: int, id: int) returns (validRow: bool)
    requires Fits(p, plane.Length) && 0 <= startX < endX <= p.xLen && 0 <= row < p.yLen
    ensures validRow <==> forall i :: startX <= i < endX ==> At(plane[..], p, i, row) == id
  {
    var rowStartIdx := p.base + row * p.xLen + startX;
    var rowEndIdx := p.base + row * p.xLen + endX;
    IdxInPlane(p, plane.Length, endX - 1, row);
    validRow := true;
    var k := rowStartIdx;
    while k < rowEndIdx
      invariant rowStartIdx <= k <= rowEndIdx
      invariant forall i :: startX <= i < startX + (k - rowStartIdx) ==> At(plane[..], p, i, row) == id
    {
      if plane[k] != id {
        validRow := false;
        assert At(plane[..], p, startX + (k - rowStartIdx), row) != id;
        return;
      }
      k := k + 1;
    }
  }

  /** Expanding in Y: rows below are taken while every cell under the quad's width holds its id
      and the plane has rows left; without greedy meshing the quad is one row tall. */
  method ExpandY(plane: array<int>, p: Plane, startX: int, endX: int, y: int, id: int, greedy: bool)
    returns (endY: int)
    requires Fits(p, plane.Length) && 0 <= startX < endX <= p.xLen && 0 <= y < p.yLen
    requires forall i :: startX <= i < endX ==> At(plane[..], p, i, y) == id
    ensures y < endY <= p.yLen
    ensures forall i, j :: startX <= i < endX && y <= j < endY ==> At(plane[..], p, i, j) == id
    ensures greedy ==> endY == p.yLen || exists i :: startX <= i < endX && At(plane[..], p, i, endY) != id
    ensures !greedy ==> endY == y + 1
  {
    endY := y;
    while true
      invariant y <= endY <= p.yLen
      invariant forall i, j :: startX <= i < endX && y <= j < endY ==> At(plane[..], p, i, j) == id
      invariant !greedy ==> endY == y
      decreases p.yLen - endY
    {
      if !(endY < p.yLen) {
        break;
      }
      var validRow := RowHolds(plane, p, startX, endX, endY, id);
      if !validRow {
        break;
      }
      endY := endY + 1;
      if !greedy {
        break;
      }
    }
  }

  /** One row of a finished quad set to air. */
  method ClearRow(plane: array<int>, p: Plane, startX: int, endX: int, row: int, air: int)
    requires Fits(p, plane.Length) && 0 <= startX <= endX <= p.xLen && 0 <= row < p.yLen
    modifies plane
    ensures SameOutside(p, old(plane[..]), plane[..])
    ensures forall x, y :: InPlane(p, x, y) ==>
      At(plane[..], p, x, y) == if y == row && startX <= x < endX then air else At(old(plane[..]), p, x, y)
  {
    var x := startX;
    while x < endX
      invariant startX <= x <= endX
      invariant SameOutside(p, old(plane[..]), plane[..])
      invariant forall i, j :: InPlane(p, i, j) ==>
        At(plane[..], p, i, j) == if j == row && startX <= i < x then air else At(old(plane[..]), p, i, j)
    {
      WriteCell(p, plane[..], x, row, air);
      plane[p.base + row * p.xLen + x] := air;
      x := x + 1;
    }
  }

  /** The quad's cells set to air. */
  method ClearQuad(plane: array<int>, p: Plane, q: Quad, air: int)
    requires Fits(p, plane.Length) && 0 <= q.startX <= q.endX <= p.xLen && 0 <= q.startY <= q.endY <= p.yLen
    modifies plane
    ensures SameOutside(p, old(plane[..]), plane[..])
    ensures forall x, y :: InPlane(p, x, y) ==>
      At(plane[..], p, x, y) == if InQuad(q, x, y) then air else At(old(plane[..]), p, x, y)
  {
    var y := q.startY;
    while y < q.endY
      invariant q.startY <= y <= q.endY
      invariant SameOutside(p, old(plane[..]), plane[..])
      invariant forall i, j :: InPlane(p, i, j) ==>
        At(plane[..], p, i, j) == if q.startX <= i < q.endX && q.startY <= j < y then air else At(old(plane[..]), p, i, j)
    {
      ClearRow(plane, p, q.startX, q.endX, y, air);
      y := y + 1;
    }
  }

  /** One cell of the scan: an air cell starts nothing; any other cell starts a quad that grows
      right, then down, and whose cells are then set to air. */
  method MeshCell(plane: array<int>, p: Plane, air: int, greedy: bool, x: int, y: int,
                  ghost orig: seq<int>, ghost qs: seq<Quad>) returns (q: Option<Quad>)
    requires InPlane(p, x, y) && Meshed(p, air, orig, plane[..], qs) && AirBefore(p, air, plane[..], x, y)
    modifies plane
    ensures var qs' := if q.Some? then qs + [q.value] else qs;
      Meshed(p, air, orig, plane[..], qs') && AirBefore(p, air, plane[..], x + 1, y)
    ensures q.Some? ==> q.value.startX == x && q.value.startY == y
    ensures q.Some? && !greedy ==> q.value.endX == x + 1 && q.value.endY == y + 1
  {
    IdxInPlane(p, plane.Length, x, y);
    if plane[p.base + y * p.xLen + x] == air {
      return None;
    }
    var quadBlockId := plane[p.base + y * p.xLen + x];
    var endX := ExpandX(plane, p, x, y, quadBlockId, greedy);
    var endY := ExpandY(plane, p, x, endX, y, quadBlockId, greedy);
    var quad := Quad(x, endX, y, endY, quadBlockId);
    ghost var before := plane[..];
    ClearQuad(plane, p, quad, air);
    MeshedSnoc(p, air, orig, before, plane[..], qs, quad);
    q := Some(quad);
  }

  /** One row of the scan. */
  method MeshRow(plane: array<int>, p: Plane, air: int, greedy: bool, y: int,
                 ghost orig: seq<int>, ghost qs: seq<Quad>) returns (rowQuads: seq<Quad>)
    requires 0 <= y < p.yLen && Meshed(p, air, orig, plane[..], qs) && AirBefore(p, air, plane[..], 0, y)
    modifies plane
    ensures Meshed(p, air, orig, plane[..], qs + rowQuads) && AirBefore(p, air, plane[..], 0, y + 1)
    ensures !greedy ==> forall i :: 0 <= i < |rowQuads| ==>
      rowQuads[i].endX == rowQuads[i].startX + 1 && rowQuads[i].endY == rowQuads[i].startY + 1
  {
    rowQuads := [];
    assert qs + rowQuads == qs;
    var x := 0;
    while x < p.xLen
      invariant 0 <= x <= p.xLen
      invariant Meshed(p, air, orig, plane[..], qs + rowQuads) && AirBefore(p, air, plane[..], x, y)
      invariant !greedy ==> forall i :: 0 <= i < |rowQuads| ==>
        rowQuads[i].endX == rowQuads[i].startX + 1 && rowQuads[i].endY == rowQuads[i].startY + 1
    {
      var q := MeshCell(plane, p, air, greedy, x, y, orig, qs + rowQuads);
      if q.Some? {
        assert qs + rowQuads + [q.value] == qs + (rowQuads + [q.value]);
        rowQuads := rowQuads + [q.value];
      }
      x := x + 1;
    }
  }

  /** The greedy mesh of one plane: every cell that is not air ends up covered by exactly one
      quad, a quad of its own id; air cells by none; and the plane is all air afterwards. */
  method MeshPlane(plane: array<int>, p: Plane, air: int, greedy: bool) returns (quads: seq<Quad>)
    requires Fits(p, plane.Length)
    modifies plane
    ensures SameOutside(p, old(plane[..]), plane[..])
    ensures forall x, y :: InPlane(p, x, y) ==> At(plane[..], p, x, y) == air
    ensures forall i :: 0 <= i < |quads| ==> QuadOf(p, air, old(plane[..]), quads[i])
    ensures forall x, y :: InPlane(p, x, y) ==>
      CoverCount(quads, x, y) == if At(old(plane[..]), p, x, y) == air then 0 else 1
    ensures !greedy ==> forall i :: 0 <= i < |quads| ==>
      quads[i].endX == quads[i].startX + 1 && quads[i].endY == quads[i].startY + 1
  {
    ghost var orig := plane[..];
    quads := [];
    var y := 0;
    while y < p.yLen
      invariant 0 <= y <= p.yLen
      invariant Meshed(p, air, orig, plane[..], quads) && AirBefore(p, air, plane[..], 0, y)
      invariant !greedy ==> forall i :: 0 <= i < |quads| ==>
        quads[i].endX == quads[i].startX + 1 && quads[i].endY == quads[i].startY + 1
    {
      var rowQuads := MeshRow(plane, p, air, greedy, y, orig, quads);
      quads := quads + rowQuads;
      y := y + 1;
    }
  }

  // ---------------------------------------------------------------------------
  // Plane coordinates

  /** The face normals in `normals` order: +X, -X, +Y, -Y, +Z, -Z. */
  function Normal(n: nat): (v: IVec3)
    requires n < 6
    ensures Get(v, n / 2) == (if n % 2 == 0 then 1 else -1)
    ensures forall a :: 0 <= a < 3 && a != n / 2 ==> Get(v, a) == 0
  {
    if n == 0 then IVec3(1, 0, 0) else if n == 1 then IVec3(-1, 0, 0)
    else if n == 2 then IVec3(0, 1, 0) else if n == 3 then IVec3(0, -1, 0)
    else if n == 4 then IVec3(0, 0, 1) else IVec3(0, 0, -1)
  }

  /** `coordIndexesPerAxis[axis]`: the axis along the normal, then the plane's Y axis, then its
      X axis; the plane's X axis is the lower of the two others. */
  function PlaneAxes(axis: nat): (ci: IVec3)
    requires axis < 3
    ensures ci.x == axis && 0 <= ci.z < ci.y < 3 && ci.y != axis && ci.z != axis
  {
    if axis == 0 then IVec3(0, 2, 1) else if axis == 1 then IVec3(1, 2, 0) else IVec3(2, 1, 0)
  }

  /** The loop that builds `coordIndexesPerAxis[axis]`: the first index other than the axis
      becomes the X axis, the second the Y axis. */
  method CoordIndexes(axis: nat) returns (ci: IVec3)
    requires axis < 3
    ensures ci == PlaneAxes(axis)
  {
    var xCoordIdx := 0;
    var yCoordIdx := 0;
    var xFound := false;
    for i := 0 to 3
      invariant xFound <==> PlaneAxes(axis).z < i
      invariant xFound ==> xCoordIdx == PlaneAxes(axis).z
      invariant PlaneAxes(axis).y < i ==> yCoordIdx == PlaneAxes(axis).y
    {
      if i == axis {
        continue;
      }
      if !xFound {
        xCoordIdx := i;
        xFound := true;
      } else {
        yCoordIdx := i;
      }
    }
    ci := IVec3(axis, yCoordIdx, xCoordIdx);
  }

  /** Where the face of the block at local position l lands: (plane depth, y, x) are l's
      components along the plane axes of `axis`. */
  function LocalToPlane(l: IVec3, axis: nat): IVec3
    requires axis < 3
  {
    var ci := PlaneAxes(axis);
    IVec3(Get(l, ci.x), Get(l, ci.y), Get(l, ci.z))
  }

  /** Which plane coordinate holds local axis j: `indexOfFirst { it == j }` over the axes. */
  function AxisSlot(ci: IVec3, j: nat): nat {
    if ci.x == j then 0 else if ci.y == j then 1 else 2
  }

  /** `planeCoordsToLocalChunkCoords` without the normal offset: the inverse of LocalToPlane. */
  function PlaneToLocal(pc: IVec3, axis: nat): IVec3
    requires axis < 3
  {
    var ci := PlaneAxes(axis);
    IVec3(Get(pc, AxisSlot(ci, 0)), Get(pc, AxisSlot(ci, 1)), Get(pc, AxisSlot(ci, 2)))
  }

  /** Plane and local coordinates are two orderings of one position. */
  lemma PlaneLocalRoundTrip(l: IVec3, pc: IVec3, axis: nat)
    requires axis < 3
    ensures PlaneToLocal(LocalToPlane(l, axis), axis) == l
    ensures LocalToPlane(PlaneToLocal(pc, axis), axis) == pc
  {
  }

  /** The index of plane cell pc = (depth, y, x) in a plane array of 2^b planes of 2^b × 2^b
      cells: `depth * yLen * xLen + y * xLen + x`. */
  function PlaneArrIdx(pc: IVec3, b: nat): (k: int)
    ensures InChunk(pc, b) ==> 0 <= k < BlockCount(b)
  {
    BlockIdxRoundTrip(IVec3(pc.z, pc.x, pc.y), 0, b);
    LocalToBlockIdx(IVec3(pc.z, pc.x, pc.y), b)
  }

  lemma PlaneArrIdxFormula(pc: IVec3, b: nat)
    ensures PlaneArrIdx(pc, b) == pc.x * Pow2(b) * Pow2(b) + pc.y * Pow2(b) + pc.z
  {
    Pow2Square(b);
    assert pc.x * Pow2(b + b) == pc.x * (Pow2(b) * Pow2(b));
  }

  /** Distinct cells of the plane array have distinct indices. */
  lemma PlaneArrIdxInjective(pc: IVec3, qc: IVec3, b: nat)
    requires InChunk(pc, b) && InChunk(qc, b) && pc != qc
    ensures PlaneArrIdx(pc, b) != PlaneArrIdx(qc, b)
  {
    LocalIdxInjective(IVec3(pc.z, pc.x, pc.y), IVec3(qc.z, qc.x, qc.y), b);
  }

  // ---------------------------------------------------------------------------
  // Populating the planes of one normal

  /** The id of the chunk cell at local position l (0 past the chunk's cells, which no caller
      reads). */
  function BlockAt(blocks: seq<int>, b: nat, l: IVec3): int {
    var k := LocalToBlockIdx(l, b);
    if 0 <= k < |blocks| then blocks[k] else 0
  }

  /** The alpha byte (byte 3) of id's colour (255, opaque, for an id with fewer than four
      bytes, which no caller reads). */
  function Alpha(table: seq<seq<Byte>>, id: int): int {
    if 0 <= id < |table| && |table[id]| >= 4 then table[id][3] else 255
  }

  /** Every id of the chunk has a colour of at least four bytes. */
  predicate Coloured(blocks: seq<int>, table: seq<seq<Byte>>) {
    forall k :: 0 <= k < |blocks| ==> 0 <= blocks[k] < |table| && |table[blocks[k]]| >= 4
  }

  /** The face recorded at plane cell pc of normal n: the block behind it when that block is not
      air and its neighbour along the normal is outside the chunk or lets light through (alpha
      below 255); air otherwise. */
  function FaceId(blocks: seq<int>, b: nat, table: seq<seq<Byte>>, air: int, n: nat, pc: IVec3): int
    requires n < 6
  {
    var l := PlaneToLocal(pc, n / 2);
    var id := BlockAt(blocks, b, l);
    var adj := Add(l, Normal(n));
    if id != air && (!InChunk(adj, b) || Alpha(table, BlockAt(blocks, b, adj)) < 255) then id else air
  }

  /** The blocks before index i have recorded their faces; the other cells are still air. */
  ghost predicate Populated(cells: seq<int>, blocks: seq<int>, b: nat, table: seq<seq<Byte>>, air: int, n: nat, i: int)
    requires n < 6
  {
    |cells| == BlockCount(b)
    && forall pc :: InChunk(pc, b) ==>
         cells[PlaneArrIdx(pc, b)] ==
           if LocalToBlockIdx(PlaneToLocal(pc, n / 2), b) < i then FaceId(blocks, b, table, air, n, pc) else air
  }

  /** A plane cell's position in the chunk is a chunk cell, and back. */
  lemma PlaneCellInChunk(pc: IVec3, b: nat, axis: nat)
    requires axis < 3
    ensures InChunk(pc, b) <==> InChunk(PlaneToLocal(pc, axis), b)
    ensures InChunk(pc, b) ==> 0 <= LocalToBlockIdx(PlaneToLocal(pc, axis), b) < BlockCount(b)
  {
    BlockIdxRoundTrip(PlaneToLocal(pc, axis), 0, b);
  }

  lemma PopulatedInit(cells: seq<int>, blocks: seq<int>, b: nat, table: seq<seq<Byte>>, air: int, n: nat)
    requires n < 6 && |cells| == BlockCount(b) && forall k :: 0 <= k < |cells| ==> cells[k] == air
    ensures Populated(cells, blocks, b, table, air, n, 0)
  {
    forall pc | InChunk(pc, b)
      ensures LocalToBlockIdx(PlaneToLocal(pc, n / 2), b) >= 0
    {
      PlaneCellInChunk(pc, b, n / 2);
    }
  }

  lemma PopulatedDone(cells: seq<int>, blocks: seq<int>, b: nat, table: seq<seq<Byte>>, air: int, n: nat)
    requires n < 6 && Populated(cells, blocks, b, table, air, n, BlockCount(b))
    ensures forall pc :: InChunk(pc, b) ==> cells[PlaneArrIdx(pc, b)] == FaceId(blocks, b, table, air, n, pc)
  {
    forall pc | InChunk(pc, b)
      ensures LocalToBlockIdx(PlaneToLocal(pc, n / 2), b) < BlockCount(b)
    {
      PlaneCellInChunk(pc, b, n / 2);
    }
  }

  /** Block i records v, its face, in its own plane cell, which held air; no other cell of the
      plane belongs to block i. */
  lemma PopulatedStep(cells: seq<int>, blocks: seq<int>, b: nat, table: seq<seq<Byte>>, air: int, n: nat, i: int, v: int)
    requires n < 6 && 0 <= i < BlockCount(b) && Populated(cells, blocks, b, table, air, n, i)
    requires v == FaceId(blocks, b, table, air, n, LocalToPlane(BlockIdxToLocal(i, b), n / 2))
    ensures var k := PlaneArrIdx(LocalToPlane(BlockIdxToLocal(i, b), n / 2), b);
      0 <= k < |cells| && cells[k] == air && Populated(cells[k := v], blocks, b, table, air, n, i + 1)
  {
    var l := BlockIdxToLocal(i, b);
    var pci := LocalToPlane(l, n / 2);
    BlockIdxRoundTrip(l, i, b);
    PlaneLocalRoundTrip(l, pci, n / 2);
    PlaneCellInChunk(pci, b, n / 2);
    var k := PlaneArrIdx(pci, b);
    var cells' := cells[k := v];
    forall pc | InChunk(pc, b)
      ensures cells'[PlaneArrIdx(pc, b)] ==
        if LocalToBlockIdx(PlaneToLocal(pc, n / 2), b) < i + 1 then FaceId(blocks, b, table, air, n, pc) else air
    {
      if pc != pci {
        PlaneArrIdxInjective(pc, pci, b);
        PlaneCellInChunk(pc, b, n / 2);
        PlaneLocalRoundTrip(l, pc, n / 2);
        LocalIdxInjective(PlaneToLocal(pc, n / 2), l, b);
      }
    }
  }

  /** One block of the chunk: a block that is not air records its block id in its plane cell
      when its neighbour along the normal is outside the chunk or transparent. */
  method PopulateBlock(blocks: array<int>, b: nat, table: seq<seq<Byte>>, air: int, n: nat, planes: array<int>, i: int)
    requires n < 6 && blocks.Length == BlockCount(b) && planes != blocks && 0 <= i < BlockCount(b)
    requires Coloured(blocks[..], table) && Populated(planes[..], blocks[..], b, table, air, n, i)
    modifies planes
    ensures Populated(planes[..], blocks[..], b, table, air, n, i + 1)
  {
    var currPosInChunk := BlockIdxToLocal(i, b);
    var pc := LocalToPlane(currPosInChunk, n / 2);
    BlockIdxRoundTrip(currPosInChunk, i, b);
    PlaneLocalRoundTrip(currPosInChunk, pc, n / 2);
    var v := FaceId(blocks[..], b, table, air, n, pc);
    PopulatedStep(planes[..], blocks[..], b, table, air, n, i, v);
    var k := PlaneArrIdx(pc, b);
    if blocks[i] == air {
      assert planes[..][k := v] == planes[..];
      return;
    }
    var adjPosInChunk := Add(currPosInChunk, Normal(n));
    LocalBoxShape(b);
    var adjPosInChunkInside := PosInside(LocalBox(b), adjPosInChunk);
    assert adjPosInChunkInside <==> InChunk(adjPosInChunk, b);
    var adjIsTransparent := true;
    if adjPosInChunkInside {
      BlockIdxRoundTrip(adjPosInChunk, 0, b);
      var adjBlockId := blocks[LocalToBlockIdx(adjPosInChunk, b)];
      adjIsTransparent := table[adjBlockId][3] < 255;
    }
    if !adjIsTransparent {
      assert planes[..][k := v] == planes[..];
      return;
    }
    var ci := PlaneAxes(n / 2);
    var planeIdx := Get(currPosInChunk, ci.x);
    var yInPlane := Get(currPosInChunk, ci.y);
    var xInPlane := Get(currPosInChunk, ci.z);
    var sideLen := Pow2(b);
    PlaneArrIdxFormula(pc, b);
    planes[planeIdx * sideLen * sideLen + yInPlane * sideLen + xInPlane] := blocks[i];
  }

  /** The faces of one normal sorted into its planes, which start all air: each plane cell holds
      the face of the block behind it, or air. */
  method PopulatePlanes(blocks: array<int>, b: nat, table: seq<seq<Byte>>, air: int, n: nat, planes: array<int>)
    requires n < 6 && blocks.Length == BlockCount(b) && planes.Length == BlockCount(b) && planes != blocks
    requires forall k :: 0 <= k < planes.Length ==> planes[k] == air
    requires Coloured(blocks[..], table)
    modifies planes
    ensures forall pc :: InChunk(pc, b) ==> planes[PlaneArrIdx(pc, b)] == FaceId(blocks[..], b, table, air, n, pc)
  {
    PopulatedInit(planes[..], blocks[..], b, table, air, n);
    var i := 0;
    while i < blocks.Length
      invariant 0 <= i <= blocks.Length
      invariant Populated(planes[..], blocks[..], b, table, air, n, i)
    {
      PopulateBlock(blocks, b, table, air, n, planes, i);
      i := i + 1;
    }
    PopulatedDone(planes[..], blocks[..], b, table, air, n);
  }

  // ---------------------------------------------------------------------------
  // The colour table

  const AIR_COLOR: seq<Byte> := [0, 0, 0, 0]
  const UNKNOWN_COLOR: seq<Byte> := [0, 0, 0, 255]

  /** The colour table, one colour per palette entry in palette order: the air entry is fully
      transparent, an entry whose state string the colour map names gets that colour, and any
      other entry is opaque black. */
  method ColorTable(palette: seq<VolBlockState>, airId: int, colorMap: map<string, seq<Byte>>)
    returns (table: seq<seq<Byte>>)
    ensures |table| == |palette|
    ensures forall i :: 0 <= i < |palette| && palette[i].paletteId == airId ==> table[i] == AIR_COLOR
    ensures forall i :: 0 <= i < |palette| && palette[i].paletteId != airId ==>
      table[i] == if StateStr(palette[i].state) in colorMap then colorMap[StateStr(palette[i].state)] else UNKNOWN_COLOR
  {
    table := [];
    for i := 0 to |palette|
      invariant |table| == i
      invariant forall j :: 0 <= j < i && palette[j].paletteId == airId ==> table[j] == AIR_COLOR
      invariant forall j :: 0 <= j < i && palette[j].paletteId != airId ==>
        table[j] == if StateStr(palette[j].state) in colorMap then colorMap[StateStr(palette[j].state)] else UNKNOWN_COLOR
    {
      var b := palette[i];
      var col: seq<Byte>;
      if b.paletteId == airId {
        col := AIR_COLOR;
      } else {
        if StateStr(b.state) in colorMap {
          col := colorMap[StateStr(b.state)];
        } else {
          col := UNKNOWN_COLOR;
        }
      }
      table := table + [col];
    }
  }

  /** A face against an air neighbour inside the chunk is always recorded, and one against a
      neighbour of unknown colour never is: air is see-through, unknown states are opaque. */
  lemma NeighbourColourDecides(blocks: seq<int>, b: nat, table: seq<seq<Byte>>, air: int, n: nat, pc: IVec3)
    requires n < 6
    requires var l := PlaneToLocal(pc, n / 2);
      BlockAt(blocks, b, l) != air && InChunk(Add(l, Normal(n)), b)
      && 0 <= BlockAt(blocks, b, Add(l, Normal(n))) < |table|
    ensures var l := PlaneToLocal(pc, n / 2);
      var adjId := BlockAt(blocks, b, Add(l, Normal(n)));
      (table[adjId] == AIR_COLOR ==> FaceId(blocks, b, table, air, n, pc) == BlockAt(blocks, b, l))
      && (table[adjId] == UNKNOWN_COLOR ==> FaceId(blocks, b, table, air, n, pc) == air)
  {
  }

  // ---------------------------------------------------------------------------
  // Serial chunks and quad corners

  /** The quads of one chunk as three parallel lists: corner pairs, colour indices, normals. */
  class SerialChunk {
    var pos: IVec3
    var chunkSideLenBitCount: int
    var colorPaletteIdxBitCount: int
    var localPoints: seq<(IVec3, IVec3)>
    var colorPaletteIdxs: seq<int>
    var normalsIdxs: seq<int>

    /** The three lists describe the same quads. */
    ghost predicate Valid()
      reads this
    {
      |localPoints| == |colorPaletteIdxs| == |normalsIdxs|
    }

    constructor (chunkPos: IVec3, colorBits: int, sideBits: int)
      ensures Valid() && pos == chunkPos && colorPaletteIdxBitCount == colorBits && chunkSideLenBitCount == sideBits
      ensures localPoints == [] && colorPaletteIdxs == [] && normalsIdxs == []
    {
      pos := chunkPos;
      chunkSideLenBitCount := sideBits;
      colorPaletteIdxBitCount := colorBits;
      localPoints := [];
      colorPaletteIdxs := [];
      normalsIdxs := [];
    }

    /** `addQuad`: one entry on each list, so they stay the same length. */
    method AddQuad(nCorner: IVec3, pCorner: IVec3, colorIdx: int, normalIdx: int)
      requires Valid()
      modifies this
      ensures Valid()
      ensures localPoints == old(localPoints) + [(nCorner, pCorner)]
      ensures colorPaletteIdxs == old(colorPaletteIdxs) + [colorIdx]
      ensures normalsIdxs == old(normalsIdxs) + [normalIdx]
      ensures pos == old(pos) && chunkSideLenBitCount == old(chunkSideLenBitCount)
      ensures colorPaletteIdxBitCount == old(colorPaletteIdxBitCount)
    {
      localPoints := localPoints + [(nCorner, pCorner)];
      colorPaletteIdxs := colorPaletteIdxs + [colorIdx];
      normalsIdxs := normalsIdxs + [normalIdx];
    }
  }

  /** `planeCoordsToLocalChunkCoords`: a plane corner in chunk coordinates, moved to the far side
      of its blocks for a positive normal. */
  function CornerToLocal(pc: IVec3, n: nat): IVec3
    requires n < 6
  {
    Add(PlaneToLocal(pc, n / 2), Max(Normal(n), Splat(0)))
  }

  /** The corners of a quad cut at depth d of normal n. */
  function QuadCorners(d: int, q: Quad, n: nat): (IVec3, IVec3)
    requires n < 6
  {
    (CornerToLocal(IVec3(d, q.startY, q.startX), n), CornerToLocal(IVec3(d, q.endY, q.endX), n))
  }

  /** A quad's corners lie on the face it shows: both at the depth's near side for a negative
      normal and its far side for a positive one, and spanning exactly the quad's cells along
      the plane's two axes. */
  lemma QuadOnFace(d: int, q: Quad, n: nat)
    requires n < 6
    ensures var (nc, pc) := QuadCorners(d, q, n);
      var ci := PlaneAxes(n / 2);
      Get(nc, n / 2) == d + (if n % 2 == 0 then 1 else 0) && Get(pc, n / 2) == Get(nc, n / 2)
      && Get(nc, ci.y) == q.startY && Get(pc, ci.y) == q.endY
      && Get(nc, ci.z) == q.startX && Get(pc, ci.z) == q.endX
  {
  }

  // ---------------------------------------------------------------------------
  // Meshing every plane of one normal

  /** The plane at depth d of a plane array of 2^b planes of 2^b × 2^b cells. */
  function DepthPlane(d: int, b: nat): Plane {
    Plane(d * Pow2(b + b), Pow2(b), Pow2(b))
  }

  /** Cell (x, y) of the plane at depth d is the plane array's cell (d, y, x). */
  lemma DepthPlaneCell(d: int, b: nat, x: int, y: int)
    ensures Idx(DepthPlane(d, b), x, y) == PlaneArrIdx(IVec3(d, y, x), b)
  {
  }

  lemma DepthPlaneFits(d: int, b: nat)
    requires 0 <= d < Pow2(b)
    ensures Fits(DepthPlane(d, b), BlockCount(b))
  {
    var s := Pow2(b);
    Pow2Square(b);
    MulLe(d + 1, s, s * s);
    assert (d + 1) * (s * s) == d * (s * s) + s * s;
    assert s * (s * s) == s * s * s;
  }

  /** Blocks of S cells: a cell of block a never lies in another block d. */
  lemma OtherBlock(a: int, d: int, S: int, off: int)
    requires 0 <= a && 0 <= d && a != d && 0 <= off < S
    ensures !(d * S <= a * S + off < d * S + S)
  {
    if a < d {
      MulLe(a + 1, d, S);
    } else {
      MulLe(d + 1, a, S);
    }
  }

  /** A cell of another depth lies outside the plane at depth d. */
  lemma OtherDepthOutside(pc: IVec3, d: int, b: nat)
    requires InChunk(pc, b) && 0 <= d < Pow2(b) && pc.x != d
    ensures var p := DepthPlane(d, b);
      !(p.base <= PlaneArrIdx(pc, b) < p.base + p.yLen * p.xLen)
  {
    var s := Pow2(b);
    var S := Pow2(b + b);
    Pow2Square(b);
    var off := pc.z + pc.y * s;
    assert 0 <= off < S by {
      DepthPlaneFits(pc.x, b);
      IdxInPlane(DepthPlane(0, b), BlockCount(b), pc.z, pc.y);
    }
    assert PlaneArrIdx(pc, b) == pc.x * S + off;
    OtherBlock(pc.x, d, S, off);
  }

  /** The corner pairs handed to `addQuad`, depth by depth, each depth's quads in order. */
  function EmittedCorners(byDepth: seq<seq<Quad>>, n: nat): seq<(IVec3, IVec3)>
    requires n < 6
  {
    if byDepth == [] then []
    else
      var d := |byDepth| - 1;
      EmittedCorners(byDepth[..d], n) + seq(|byDepth[d]|, j requires 0 <= j < |byDepth[d]| => QuadCorners(d, byDepth[d][j], n))
  }

  /** The colour indices handed to `addQuad`: each quad's block id. */
  function EmittedIds(byDepth: seq<seq<Quad>>): seq<int> {
    if byDepth == [] then []
    else
      var d := |byDepth| - 1;
      EmittedIds(byDepth[..d]) + seq(|byDepth[d]|, j requires 0 <= j < |byDepth[d]| => byDepth[d][j].id)
  }

  /** Each quad of depth d goes to the serial chunk with its corners, its id and the normal. */
  method EmitQuads(sc: SerialChunk, d: int, quads: seq<Quad>, n: nat)
    requires n < 6 && sc.Valid()
    modifies sc
    ensures sc.Valid()
    ensures sc.localPoints == old(sc.localPoints) + seq(|quads|, j requires 0 <= j < |quads| => QuadCorners(d, quads[j], n))
    ensures sc.colorPaletteIdxs == old(sc.colorPaletteIdxs) + seq(|quads|, j requires 0 <= j < |quads| => quads[j].id)
    ensures old(sc.normalsIdxs) <= sc.normalsIdxs
    ensures forall k :: |old(sc.normalsIdxs)| <= k < |sc.normalsIdxs| ==> sc.normalsIdxs[k] == n
  {
    for j := 0 to |quads|
      invariant sc.Valid()
      invariant sc.localPoints == old(sc.localPoints) + seq(j, i requires 0 <= i < j => QuadCorners(d, quads[i], n))
      invariant sc.colorPaletteIdxs == old(sc.colorPaletteIdxs) + seq(j, i requires 0 <= i < j => quads[i].id)
      invariant old(sc.normalsIdxs) <= sc.normalsIdxs
      invariant forall k :: |old(sc.normalsIdxs)| <= k < |sc.normalsIdxs| ==> sc.normalsIdxs[k] == n
    {
      var (localChunkCoordsNC, localChunkCoordsPC) := QuadCorners(d, quads[j], n);
      sc.AddQuad(localChunkCoordsNC, localChunkCoordsPC, quads[j].id, n);
      assert seq(j + 1, i requires 0 <= i < j + 1 => QuadCorners(d, quads[i], n))
        == seq(j, i requires 0 <= i < j => QuadCorners(d, quads[i], n)) + [QuadCorners(d, quads[j], n)];
      assert seq(j + 1, i requires 0 <= i < j + 1 => quads[i].id)
        == seq(j, i requires 0 <= i < j => quads[i].id) + [quads[j].id];
    }
  }

  /** The planes of the depths before |byDepth| are meshed: all air, each cell that held a face
      covered by exactly one quad of its depth and the others by none; later depths are as
      they were. */
  ghost predicate DepthsMeshed(cur: seq<int>, orig: seq<int>, byDepth: seq<seq<Quad>>, b: nat, air: int) {
    |cur| == BlockCount(b) && |orig| == BlockCount(b)
    && (forall d, i :: 0 <= d < |byDepth| && 0 <= i < |byDepth[d]| ==> QuadOf(DepthPlane(d, b), air, orig, byDepth[d][i]))
    && forall pc :: InChunk(pc, b) ==>
         if pc.x < |byDepth| then
           cur[PlaneArrIdx(pc, b)] == air
           && CoverCount(byDepth[pc.x], pc.z, pc.y) == if orig[PlaneArrIdx(pc, b)] == air then 0 else 1
         else cur[PlaneArrIdx(pc, b)] == orig[PlaneArrIdx(pc, b)]
  }

  lemma DepthsMeshedStep(cur: seq<int>, cur': seq<int>, orig: seq<int>, byDepth: seq<seq<Quad>>, quads: seq<Quad>, b: nat, air: int)
    requires |byDepth| < Pow2(b) && DepthsMeshed(cur, orig, byDepth, b, air)
    requires var p := DepthPlane(|byDepth|, b);
      SameOutside(p, cur, cur')
      && (forall x, y :: InPlane(p, x, y) ==> At(cur', p, x, y) == air)
      && (forall i :: 0 <= i < |quads| ==> QuadOf(p, air, cur, quads[i]))
      && (forall x, y :: InPlane(p, x, y) ==> CoverCount(quads, x, y) == if At(cur, p, x, y) == air then 0 else 1)
    ensures DepthsMeshed(cur', orig, byDepth + [quads], b, air)
  {
    var d := |byDepth|;
    var p := DepthPlane(d, b);
    var bd := byDepth + [quads];
    DepthPlaneFits(d, b);
    forall x, y | InPlane(p, x, y)
      ensures At(cur, p, x, y) == At(orig, p, x, y)
    {
      DepthPlaneCell(d, b, x, y);
      assert InChunk(IVec3(d, y, x), b);
    }
    forall dd, i | 0 <= dd < |bd| && 0 <= i < |bd[dd]|
      ensures QuadOf(DepthPlane(dd, b), air, orig, bd[dd][i])
    {
      if dd == d {
        var q := quads[i];
        assert QuadOf(p, air, cur, q);
        forall x, y | InQuad(q, x, y)
          ensures At(orig, p, x, y) == q.id
        {
          assert InPlane(p, x, y);
        }
      } else {
        assert bd[dd] == byDepth[dd];
      }
    }
    forall pc | InChunk(pc, b)
      ensures if pc.x < |bd| then
          cur'[PlaneArrIdx(pc, b)] == air
          && CoverCount(bd[pc.x], pc.z, pc.y) == if orig[PlaneArrIdx(pc, b)] == air then 0 else 1
        else cur'[PlaneArrIdx(pc, b)] == orig[PlaneArrIdx(pc, b)]
    {
      if pc.x == d {
        DepthPlaneCell(d, b, pc.z, pc.y);
        assert InPlane(p, pc.z, pc.y);
        IdxInPlane(p, BlockCount(b), pc.z, pc.y);
      } else {
        OtherDepthOutside(pc, d, b);
        assert bd[..d] == byDepth;
        if pc.x < d {
          assert bd[pc.x] == byDepth[pc.x];
        }
      }
    }
  }

  lemma EmittedSnoc(byDepth: seq<seq<Quad>>, quads: seq<Quad>, n: nat)
    requires n < 6
    ensures EmittedCorners(byDepth + [quads], n)
      == EmittedCorners(byDepth, n) + seq(|quads|, j requires 0 <= j < |quads| => QuadCorners(|byDepth|, quads[j], n))
    ensures EmittedIds(byDepth + [quads]) == EmittedIds(byDepth) + seq(|quads|, j requires 0 <= j < |quads| => quads[j].id)
  {
    assert (byDepth + [quads])[..|byDepth|] == byDepth;
  }

  /** One depth of the normal: its plane meshed. */
  method MeshDepth(planes: array<int>, b: nat, air: int, greedy: bool, planeDepth: int,
                   ghost orig: seq<int>, ghost byDepth: seq<seq<Quad>>)
    returns (quads: seq<Quad>)
    requires 0 <= planeDepth == |byDepth| < Pow2(b) && DepthsMeshed(planes[..], orig, byDepth, b, air)
    modifies planes
    ensures DepthsMeshed(planes[..], orig, byDepth + [quads], b, air)
  {
    var sideLen := Pow2(b);
    Pow2Square(b);
    var planeBaseIdx := planeDepth * sideLen * sideLen;
    var p := Plane(planeBaseIdx, sideLen, sideLen);
    assert p == DepthPlane(planeDepth, b);
    DepthPlaneFits(planeDepth, b);
    ghost var before := planes[..];
    quads := MeshPlane(planes, p, air, greedy);
    DepthsMeshedStep(before, planes[..], orig, byDepth, quads, b, air);
  }

  /** One depth of the normal: its quads handed to the serial chunk. */
  method EmitDepth(sc: SerialChunk, n: nat, planeDepth: int, quads: seq<Quad>, ghost byDepth: seq<seq<Quad>>,
                   ghost pts0: seq<(IVec3, IVec3)>, ghost ids0: seq<int>, ghost nrm0: seq<int>)
    requires n < 6 && planeDepth == |byDepth| && sc.Valid()
    requires sc.localPoints == pts0 + EmittedCorners(byDepth, n) && sc.colorPaletteIdxs == ids0 + EmittedIds(byDepth)
    requires nrm0 <= sc.normalsIdxs && forall k :: |nrm0| <= k < |sc.normalsIdxs| ==> sc.normalsIdxs[k] == n
    modifies sc
    ensures sc.Valid()
    ensures sc.localPoints == pts0 + EmittedCorners(byDepth + [quads], n)
    ensures sc.colorPaletteIdxs == ids0 + EmittedIds(byDepth + [quads])
    ensures nrm0 <= sc.normalsIdxs && forall k :: |nrm0| <= k < |sc.normalsIdxs| ==> sc.normalsIdxs[k] == n
  {
    EmitQuads(sc, planeDepth, quads, n);
    EmittedSnoc(byDepth, quads, n);
  }

  /** The greedy mesh of one normal's planes, depth by depth, each quad handed to the serial
      chunk: afterwards the planes are all air, and each plane cell that held a face is covered
      by exactly one quad of its depth, of its id, while the other cells are covered by none. */
  method MeshNormal(planes: array<int>, b: nat, air: int, greedy: bool, sc: SerialChunk, n: nat)
    returns (ghost byDepth: seq<seq<Quad>>)
    requires n < 6 && planes.Length == BlockCount(b) && sc.Valid()
    modifies planes, sc
    ensures sc.Valid() && |byDepth| == Pow2(b)
    ensures forall pc :: InChunk(pc, b) ==> planes[PlaneArrIdx(pc, b)] == air
    ensures forall pc :: InChunk(pc, b) ==>
      CoverCount(byDepth[pc.x], pc.z, pc.y) == if old(planes[PlaneArrIdx(pc, b)]) == air then 0 else 1
    ensures forall d, i :: 0 <= d < |byDepth| && 0 <= i < |byDepth[d]| ==>
      QuadOf(DepthPlane(d, b), air, old(planes[..]), byDepth[d][i])
    ensures sc.localPoints == old(sc.localPoints) + EmittedCorners(byDepth, n)
    ensures sc.colorPaletteIdxs == old(sc.colorPaletteIdxs) + EmittedIds(byDepth)
    ensures old(sc.normalsIdxs) <= sc.normalsIdxs
    ensures forall k :: |old(sc.normalsIdxs)| <= k < |sc.normalsIdxs| ==> sc.normalsIdxs[k] == n
  {
    ghost var orig := planes[..];
    byDepth := [];
    var sideLen := Pow2(b);
    var planeDepth := 0;
    while planeDepth < sideLen
      invariant 0 <= planeDepth <= sideLen && |byDepth| == planeDepth && sc.Valid()
      invariant DepthsMeshed(planes[..], orig, byDepth, b, air)
      invariant sc.localPoints == old(sc.localPoints) + EmittedCorners(byDepth, n)
      invariant sc.colorPaletteIdxs == old(sc.colorPaletteIdxs) + EmittedIds(byDepth)
      invariant old(sc.normalsIdxs) <= sc.normalsIdxs
      invariant forall k :: |old(sc.normalsIdxs)| <= k < |sc.normalsIdxs| ==> sc.normalsIdxs[k] == n
    {
      var quads := MeshDepth(planes, b, air, greedy, planeDepth, orig, byDepth);
      EmitDepth(sc, n, planeDepth, quads, byDepth, old(sc.localPoints), old(sc.colorPaletteIdxs), old(sc.normalsIdxs));
      byDepth := byDepth + [quads];
      planeDepth := planeDepth + 1;
    }
  }

  /** `fill(air)`: the planes reset before a chunk is populated. */
  method FillAir(planes: array<int>, air: int)
    modifies planes
    ensures forall k :: 0 <= k < planes.Length ==> planes[k] == air
  {
    for k := 0 to planes.Length
      invariant forall j :: 0 <= j < k ==> planes[j] == air
    {
      planes[k] := air;
    }
  }

  /** A quad cut from the recorded faces carries the face of each of its cells. */
  lemma QuadIdsAreFaces(faces: seq<int>, blocks: seq<int>, b: nat, table: seq<seq<Byte>>, air: int, n: nat,
                        byDepth: seq<seq<Quad>>)
    requires n < 6 && |faces| == BlockCount(b) && |byDepth| == Pow2(b)
    requires forall pc :: InChunk(pc, b) ==> faces[PlaneArrIdx(pc, b)] == FaceId(blocks, b, table, air, n, pc)
    requires forall d, i :: 0 <= d < |byDepth| && 0 <= i < |byDepth[d]| ==> QuadOf(DepthPlane(d, b), air, faces, byDepth[d][i])
    ensures forall d, i, x, y :: 0 <= d < |byDepth| && 0 <= i < |byDepth[d]| && InQuad(byDepth[d][i], x, y) ==>
      byDepth[d][i].id == FaceId(blocks, b, table, air, n, IVec3(d, y, x))
  {
    forall d, i, x, y | 0 <= d < |byDepth| && 0 <= i < |byDepth[d]| && InQuad(byDepth[d][i], x, y)
      ensures byDepth[d][i].id == FaceId(blocks, b, table, air, n, IVec3(d, y, x))
    {
      var q := byDepth[d][i];
      assert QuadOf(DepthPlane(d, b), air, faces, q);
      assert InPlane(DepthPlane(d, b), x, y);
      DepthPlaneCell(d, b, x, y);
      assert InChunk(IVec3(d, y, x), b);
    }
  }

  /** Every index of the plane array is some plane cell's. */
  lemma AllCellsAir(cells: seq<int>, b: nat, air: int)
    requires |cells| == BlockCount(b) && forall pc :: InChunk(pc, b) ==> cells[PlaneArrIdx(pc, b)] == air
    ensures forall k :: 0 <= k < |cells| ==> cells[k] == air
  {
    forall k | 0 <= k < |cells|
      ensures cells[k] == air
    {
      BlockIdxRoundTrip(IVec3(0, 0, 0), k, b);
      var l := BlockIdxToLocal(k, b);
      assert PlaneArrIdx(IVec3(l.y, l.z, l.x), b) == k;
      assert InChunk(IVec3(l.y, l.z, l.x), b);
    }
  }

  /** One chunk and one normal: the planes reset, its faces recorded, and the planes meshed.
      Every face of the chunk along the normal is covered by exactly one quad of the block's
      id at its depth, and no quad covers a cell without a face. */
  method MeshChunkNormal(blocks: array<int>, b: nat, table: seq<seq<Byte>>, air: int, greedy: bool,
                         planes: array<int>, sc: SerialChunk, n: nat)
    returns (ghost byDepth: seq<seq<Quad>>)
    requires n < 6 && blocks.Length == BlockCount(b) && planes.Length == BlockCount(b) && planes != blocks
    requires Coloured(blocks[..], table) && sc.Valid()
    modifies planes, sc
    ensures sc.Valid() && |byDepth| == Pow2(b)
    ensures forall pc :: InChunk(pc, b) ==>
      CoverCount(byDepth[pc.x], pc.z, pc.y) == if FaceId(blocks[..], b, table, air, n, pc) == air then 0 else 1
    ensures forall d, i, x, y :: 0 <= d < |byDepth| && 0 <= i < |byDepth[d]| && InQuad(byDepth[d][i], x, y) ==>
      byDepth[d][i].id == FaceId(blocks[..], b, table, air, n, IVec3(d, y, x))
    ensures forall k :: 0 <= k < planes.Length ==> planes[k] == air
  {
    FillAir(planes, air);
    PopulatePlanes(blocks, b, table, air, n, planes);
    ghost var faces := planes[..];
    byDepth := MeshNormal(planes, b, air, greedy, sc, n);
    QuadIdsAreFaces(faces, blocks[..], b, table, air, n, byDepth);
    AllCellsAir(planes[..], b, air);
  }
}
