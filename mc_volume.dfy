/** `McVolume`: a sparse voxel store. The loaded area is a box of chunks addressed Y-Z-X by
    their chunk-grid position; a chunk slot stays null until something other than the default
    block (or some tile data) is written into it. Ids in the chunks index the volume's hashed
    palette, whose entries carry the volume's uuid. */
module Volumes {
  import opened Wrappers
  import opened Vec
  import opened Bounds
  import opened BlockStates
  import opened VolBlocks
  import opened HashedPalettes
  import opened Chunks
  import opened ChunkGrid
  import opened VolumeSlots
  import opened BuildBounds
  import opened BlockGrids

  /** What `blockPalette.getFromId` gives for an id of a linked palette. */
  function FromId(es: seq<VolBlockState>, id: int): Result<VolBlockState> {
    if 0 <= id < |es| then Ok(es[id]) else Err(IndexOutOfRange)
  }

  /** t holds, for each grid id j, the palette id that the index hp gives the state of j. */
  ghost predicate TableOf(t: seq<int>, mappings: map<int, BlockState>, dflt: BlockState,
                          es: seq<VolBlockState>, hp: map<string, int>)
  {
    forall j :: 0 <= j < |t| ==>
      var key := StateStr(GridState(mappings, j, dflt));
      key in hp && 0 <= hp[key] < |es| && t[j] == es[hp[key]].paletteId
  }

  /** Appending entries that move no indexed key keeps the table. */
  lemma TableGrow(t: seq<int>, mappings: map<int, BlockState>, dflt: BlockState,
                  es: seq<VolBlockState>, hp: map<string, int>, es': seq<VolBlockState>, hp': map<string, int>, newKey: string)
    requires TableOf(t, mappings, dflt, es, hp)
    requires |es| <= |es'| && es'[..|es|] == es
    requires hp' == hp || (newKey !in hp && hp' == hp[newKey := |es|])
    ensures TableOf(t, mappings, dflt, es', hp')
  {
    forall j | 0 <= j < |t|
      ensures var key := StateStr(GridState(mappings, j, dflt));
        key in hp' && 0 <= hp'[key] < |es'| && t[j] == es'[hp'[key]].paletteId
    {
      var key := StateStr(GridState(mappings, j, dflt));
      assert es[hp[key]] == es'[..|es|][hp[key]];
    }
  }

  lemma TableExtend(t: seq<int>, x: int, mappings: map<int, BlockState>, dflt: BlockState,
                    es: seq<VolBlockState>, hp: map<string, int>)
    requires TableOf(t, mappings, dflt, es, hp)
    requires var key := StateStr(GridState(mappings, |t|, dflt));
      key in hp && 0 <= hp[key] < |es| && x == es[hp[key]].paletteId
    ensures TableOf(t + [x], mappings, dflt, es, hp)
  {
    forall j | 0 <= j < |t| + 1
      ensures var key := StateStr(GridState(mappings, j, dflt));
        key in hp && 0 <= hp[key] < |es| && (t + [x])[j] == es[hp[key]].paletteId
    {
      if j < |t| {
        assert (t + [x])[j] == t[j];
      }
    }
  }

  class McVolume<T> {
    /** `CHUNK_BIT_SIZE`: chunks are 2^b blocks on a side. */
    const bitSize: nat
    /** The volume's uuid, drawn from a global counter when the volume is built. */
    const uuid: int
    /** `blockPalette`. */
    const palette: HashedBlockPalette
    /** One slot per chunk-grid position, Y-Z-X; null means every block is the default. */
    var chunks: array<Chunk?<T>>
    /** The loaded chunks, in chunk-grid coordinates. */
    var chunkGridBound: IntBoundary
    /** The loaded blocks: the chunk grid times the chunk side. */
    var loadedBound: IntBoundary
    /** The area last asked for (`setLoadedArea`'s argument). */
    var targetBounds: IntBoundary

    /** The chunks as values. */
    ghost var slots: seq<Slot<T>>
    ghost var Repr: set<object>

    /** The internal constructor: no chunk slots, an empty unlinked palette, every bound the
        empty box at the origin. */
    constructor Init(b: nat, id: int, origin: IntBoundary)
      requires origin == IntBoundary(Splat(0), Splat(0), Splat(0))
      ensures bitSize == b && uuid == id && fresh(palette) && fresh(chunks)
      ensures palette.linked == None && palette.entries == [] && palette.Valid()
      ensures chunkGridBound == origin && loadedBound == origin && targetBounds == origin
      ensures slots == [] && Repr == {this, chunks, palette}
      ensures 1 <= b <= 8 ==> GridValid()
    {
      bitSize := b;
      uuid := id;
      palette := new HashedBlockPalette();
      chunks := new Chunk?<T>[0];
      chunkGridBound := origin;
      loadedBound := origin;
      targetBounds := origin;
      slots := [];
      Repr := {this, chunks, palette};
    }

    /** The value of one chunk slot. */
    ghost predicate Mirrors(c: Chunk?<T>, s: Slot<T>)
      reads c, if c == null then {} else {c.blocks}
    {
      if c == null then s.Empty?
      else s.Loaded? && s.ids == c.blocks[..] && s.tiles == c.tileData
    }

    /** One slot per grid position, mirrored by `slots`; the loaded blocks are the grid scaled by
        the chunk side; allocated chunks are well-formed, of the volume's bit size, owned by the
        volume, and share neither themselves nor their block arrays. */
    ghost predicate GridValid()
      reads this, Repr - {palette}
    {
      this in Repr && chunks in Repr && palette in Repr
      && 1 <= bitSize <= 8
      && Normal(chunkGridBound) && chunks.Length == Volume(chunkGridBound) == |slots|
      && loadedBound == Scaled(chunkGridBound, bitSize)
      && SlotsFit(slots, bitSize)
      && (forall i :: 0 <= i < chunks.Length && chunks[i] != null ==>
            chunks[i] in Repr && chunks[i].blocks in Repr
            && chunks[i].bitSize == bitSize && chunks[i].Valid())
      && (forall i :: 0 <= i < chunks.Length ==> Mirrors(chunks[i], slots[i]))
      && (forall i, j ::
            (0 <= i < chunks.Length && 0 <= j < chunks.Length && i != j
             && chunks[i] != null && chunks[j] != null) ==>
            chunks[i] != chunks[j] && chunks[i].blocks != chunks[j].blocks)
    }

    /** The grid invariant, and the palette is linked to this volume and holds the default entry. */
    ghost predicate Valid()
      reads this, Repr
    {
      GridValid() && palette.Valid() && palette.linked == Some(uuid) && |palette.entries| >= 1
    }

    /** The id stored at p. */
    ghost function Id(p: IVec3): int
      reads this
    {
      IdIn(slots, chunkGridBound, bitSize, p)
    }

    /** The tile data stored at p. */
    ghost function Tile(p: IVec3): Option<T>
      reads this
    {
      TileIn(slots, chunkGridBound, bitSize, p)
    }

    /** `posToChunkIdx`: the slot of the chunk holding p. */
    function ChunkIdx(p: IVec3): int
      reads this
    {
      PosToYzxIdx(chunkGridBound, PosToChunkPos(p, bitSize))
    }

    /** `getEnsuredPaletteBlock`: the palette entry for bs, appended under the next id when no
        entry has an equal state; either way it carries this volume's uuid. */
    method GetEnsuredPaletteBlock(bs: BlockState) returns (e: VolBlockState)
      requires Valid()
      modifies palette
      ensures Valid()
      ensures StateStr(e.state) == StateStr(bs) && e.parentVolUuid == uuid
      ensures StateStr(bs) in palette.hashPalette && 0 <= palette.hashPalette[StateStr(bs)] < |palette.entries|
      ensures e == palette.entries[palette.hashPalette[StateStr(bs)]]
      ensures old(HasState(palette.entries, bs)) ==> palette.entries == old(palette.entries)
      ensures !old(HasState(palette.entries, bs)) ==>
        e == VolBlockState(uuid, ToShort(old(|palette.entries|)), bs) && palette.entries == old(palette.entries) + [e]
    {
      var r := palette.GetOrAddBlock(bs);
      e := r.value;
    }

    /** `getPaletteBlock`: the entry with a state equal to bs, if any; never inserts. */
    method GetPaletteBlock(bs: BlockState) returns (r: Option<VolBlockState>)
      requires Valid()
      ensures r.Some? <==> HasState(palette.entries, bs)
      ensures r.Some? ==> r.value in palette.entries && StateStr(r.value.state) == StateStr(bs)
    {
      var found := palette.GetBlock(bs);
      r := found.value;
    }

    /** `getEnsuredPaletteBlock(String)`: the string is parsed (a malformed one is refused with
        the palette unchanged) and its state interned as `getEnsuredPaletteBlock` does. */
    method GetEnsuredPaletteBlockStr(str: string) returns (r: Result<VolBlockState>)
      requires Valid()
      modifies palette
      ensures Valid()
      ensures FromStr(str).Err? ==> r == Err(FromStr(str).error) && palette.entries == old(palette.entries)
      ensures FromStr(str).Ok? ==>
        var bs := FromStr(str).value;
        r.Ok? && StateStr(r.value.state) == StateStr(bs) && r.value.parentVolUuid == uuid
        && (old(HasState(palette.entries, bs)) ==> palette.entries == old(palette.entries) && r.value in palette.entries)
        && (!old(HasState(palette.entries, bs)) ==>
              r.value == VolBlockState(uuid, ToShort(old(|palette.entries|)), bs)
              && palette.entries == old(palette.entries) + [r.value])
    {
      var bs := FromStr(str);
      if bs.Err? {
        return Err(bs.error);
      }
      var e := GetEnsuredPaletteBlock(bs.value);
      r := Ok(e);
    }

    /** `getPaletteBlock(String)`: the entry with the parsed state, if any; a malformed string is
        refused. */
    method GetPaletteBlockStr(str: string) returns (r: Result<Option<VolBlockState>>)
      requires Valid()
      ensures FromStr(str).Err? ==> r == Err(FromStr(str).error)
      ensures FromStr(str).Ok? ==> r.Ok? && (r.value.Some? <==> HasState(palette.entries, FromStr(str).value))
      ensures r.Ok? && r.value.Some? ==>
        r.value.value in palette.entries && StateStr(r.value.value.state) == StateStr(FromStr(str).value)
    {
      var bs := FromStr(str);
      if bs.Err? {
        return Err(bs.error);
      }
      var e := GetPaletteBlock(bs.value);
      r := Ok(e);
    }

    /** `getDefaultBlock`: palette entry 0. */
    method GetDefaultBlock() returns (e: VolBlockState)
      requires Valid()
      ensures e == palette.entries[0]
    {
      var r := palette.GetDefaultBlock();
      e := r.value;
    }

    /** `setBlockState`: the state is interned first (so the palette grows even when the
        position is then refused), and its entry is written at p. */
    method SetBlockState(p: IVec3, bs: BlockState) returns (r: Outcome)
      requires Valid()
      modifies Repr
      ensures Valid() && fresh(Repr - old(Repr))
      ensures chunkGridBound == old(chunkGridBound) && loadedBound == old(loadedBound)
      ensures targetBounds == old(targetBounds)
      ensures old(HasState(palette.entries, bs)) ==> palette.entries == old(palette.entries)
      ensures !old(HasState(palette.entries, bs)) ==>
        palette.entries == old(palette.entries) + [VolBlockState(uuid, ToShort(old(|palette.entries|)), bs)]
      ensures StateStr(bs) in palette.hashPalette && 0 <= palette.hashPalette[StateStr(bs)] < |palette.entries|
      ensures StateStr(palette.entries[palette.hashPalette[StateStr(bs)]].state) == StateStr(bs)
      ensures r == if !PosInside(loadedBound, p) then Fail(OutOfBounds) else Pass
      ensures slots == if r.Fail? then old(slots)
        else WithId(old(slots), chunkGridBound, bitSize, p, palette.entries[palette.hashPalette[StateStr(bs)]].paletteId)
    {
      var e := GetEnsuredPaletteBlock(bs);
      r := SetVolBlockState(p, e);
    }

    /** `setBlockStateStr`: the string is parsed (a malformed one is refused with nothing changed)
        and the state is set as `setBlockState` does. */
    method SetBlockStateStr(p: IVec3, str: string) returns (r: Outcome)
      requires Valid()
      modifies Repr
      ensures Valid() && fresh(Repr - old(Repr))
      ensures chunkGridBound == old(chunkGridBound) && loadedBound == old(loadedBound)
      ensures targetBounds == old(targetBounds)
      ensures FromStr(str).Err? ==> r == Fail(FromStr(str).error) && slots == old(slots) && unchanged(palette)
      ensures FromStr(str).Ok? ==>
        var bs := FromStr(str).value;
        (StateStr(bs) in palette.hashPalette && 0 <= palette.hashPalette[StateStr(bs)] < |palette.entries|
         && (old(HasState(palette.entries, bs)) ==> palette.entries == old(palette.entries))
         && (!old(HasState(palette.entries, bs)) ==>
               palette.entries == old(palette.entries) + [VolBlockState(uuid, ToShort(old(|palette.entries|)), bs)])
         && r == (if !PosInside(loadedBound, p) then Fail(OutOfBounds) else Pass)
         && slots == if r.Fail? then old(slots)
              else WithId(old(slots), chunkGridBound, bitSize, p, palette.entries[palette.hashPalette[StateStr(bs)]].paletteId))
    {
      var bs := FromStr(str);
      if bs.Err? {
        return Fail(bs.error);
      }
      r := SetBlockState(p, bs.value);
    }

    /** `setVolBlockState`: refused outside the loaded area and for an entry stamped by another
        volume; otherwise the id is written at p (allocating the chunk only for a non-default id). */
    method SetVolBlockState(p: IVec3, e: VolBlockState) returns (r: Outcome)
      requires Valid()
      modifies Repr
      ensures Valid() && fresh(Repr - old(Repr))
      ensures chunkGridBound == old(chunkGridBound) && loadedBound == old(loadedBound)
      ensures targetBounds == old(targetBounds) && unchanged(palette)
      ensures r == if !PosInside(loadedBound, p) then Fail(OutOfBounds)
        else if e.parentVolUuid != uuid then Fail(UnregisteredBlock) else Pass
      ensures slots == if r.Fail? then old(slots) else WithId(old(slots), chunkGridBound, bitSize, p, e.paletteId)
    {
      if !PosInside(loadedBound, p) {
        return Fail(OutOfBounds);
      }
      if e.parentVolUuid != uuid {
        return Fail(UnregisteredBlock);
      }
      LoadedIdx(chunkGridBound, bitSize, p);
      var c := chunks[ChunkIdx(p)];
      if c == null {
        if e.paletteId != DEFAULT_BLOCK_ID {
          WriteIdFresh(p, e);
        } else {
          slots := WithId(slots, chunkGridBound, bitSize, p, e.paletteId);
        }
      } else {
        WriteIdInto(c, p, e);
      }
      r := Pass;
    }

    /** The write into an allocated chunk. */
    method WriteIdInto(c: Chunk<T>, p: IVec3, e: VolBlockState)
      requires Valid() && PosInside(loadedBound, p) && 0 <= ChunkIdx(p) < chunks.Length && c == chunks[ChunkIdx(p)]
      modifies c.blocks, this`slots
      ensures Valid() && slots == WithId(old(slots), chunkGridBound, bitSize, p, e.paletteId)
    {
      LoadedIdx(chunkGridBound, bitSize, p);
      LocalIdxRange(p, bitSize);
      var idx := ChunkIdx(p);
      c.SetBlock(PosToChunkLocal(p, bitSize), e);
      slots := WithId(slots, chunkGridBound, bitSize, p, e.paletteId);
      forall i | 0 <= i < chunks.Length && i != idx ensures Mirrors(chunks[i], slots[i]) {
        var ci := chunks[i];
        if ci != null {
          assert old(Mirrors(ci, slots[i])) && ci.blocks != c.blocks;
        }
      }
    }

    /** The write that first puts a fresh chunk in the empty slot of p. */
    method WriteIdFresh(p: IVec3, e: VolBlockState)
      requires Valid() && PosInside(loadedBound, p) && 0 <= ChunkIdx(p) < chunks.Length && chunks[ChunkIdx(p)] == null
      requires e.paletteId != DEFAULT_BLOCK_ID
      modifies chunks, this`slots, this`Repr
      ensures Valid() && fresh(Repr - old(Repr))
      ensures slots == WithId(old(slots), chunkGridBound, bitSize, p, e.paletteId)
    {
      LoadedIdx(chunkGridBound, bitSize, p);
      LocalIdxRange(p, bitSize);
      var idx := ChunkIdx(p);
      var nc := new Chunk<T>(bitSize);
      assert nc.blocks[..] == EmptyIds(bitSize);
      nc.SetBlock(PosToChunkLocal(p, bitSize), e);
      chunks[idx] := nc;
      Repr := Repr + {nc, nc.blocks};
      slots := WithId(slots, chunkGridBound, bitSize, p, e.paletteId);
      forall i | 0 <= i < chunks.Length && i != idx ensures Mirrors(chunks[i], slots[i]) {
        var ci := chunks[i];
        if ci != null {
          assert old(Mirrors(ci, slots[i])) && ci.blocks in old(Repr);
        }
      }
    }

    /** `getVolBlockState`: refused outside the loaded area; otherwise the palette entry of the id
        at p (entry 0 for a null chunk). */
    method GetVolBlockState(p: IVec3) returns (r: Result<VolBlockState>)
      requires Valid()
      ensures r == if !PosInside(loadedBound, p) then Err(OutOfBounds) else FromId(palette.entries, Id(p))
    {
      if !PosInside(loadedBound, p) {
        return Err(OutOfBounds);
      }
      LoadedIdx(chunkGridBound, bitSize, p);
      LocalIdxRange(p, bitSize);
      var c := chunks[ChunkIdx(p)];
      if c == null {
        r := palette.GetFromId(DEFAULT_BLOCK_ID);
      } else {
        r := palette.GetFromId(c.GetBlock(PosToChunkLocal(p, bitSize)));
      }
    }

    /** `getBlockState`: the state of the entry `getVolBlockState` answers. */
    method GetBlockState(p: IVec3) returns (r: Result<BlockState>)
      requires Valid()
      ensures !PosInside(loadedBound, p) ==> r == Err(OutOfBounds)
      ensures PosInside(loadedBound, p) && 0 <= Id(p) < |palette.entries| ==> r == Ok(palette.entries[Id(p)].state)
      ensures PosInside(loadedBound, p) && !(0 <= Id(p) < |palette.entries|) ==> r == Err(IndexOutOfRange)
    {
      var e := GetVolBlockState(p);
      r := if e.Ok? then Ok(e.value.state) else Err(e.error);
    }

    /** `getVolBlockStateSafe`: the default entry outside the loaded area instead of a failure. */
    method GetVolBlockStateSafe(p: IVec3) returns (r: Result<VolBlockState>)
      requires Valid()
      ensures r == if !PosInside(loadedBound, p) then Ok(palette.entries[0]) else FromId(palette.entries, Id(p))
    {
      if !PosInside(loadedBound, p) {
        var e := GetDefaultBlock();
        return Ok(e);
      }
      r := GetVolBlockState(p);
    }

    /** `getBlockStateSafe`. */
    method GetBlockStateSafe(p: IVec3) returns (r: Result<BlockState>)
      requires Valid()
      ensures !PosInside(loadedBound, p) ==> r == Ok(palette.entries[0].state)
      ensures PosInside(loadedBound, p) && 0 <= Id(p) < |palette.entries| ==> r == Ok(palette.entries[Id(p)].state)
      ensures PosInside(loadedBound, p) && !(0 <= Id(p) < |palette.entries|) ==> r == Err(IndexOutOfRange)
    {
      var e := GetVolBlockStateSafe(p);
      r := if e.Ok? then Ok(e.value.state) else Err(e.error);
    }

    /** `setTileData`: refused outside the loaded area; otherwise the data is stored at p (or
        removed, for none), allocating the chunk only to store some. */
    method SetTileData(p: IVec3, data: Option<T>) returns (r: Outcome)
      requires Valid()
      modifies Repr
      ensures Valid() && fresh(Repr - old(Repr))
      ensures chunkGridBound == old(chunkGridBound) && loadedBound == old(loadedBound)
      ensures targetBounds == old(targetBounds) && unchanged(palette)
      ensures r == if !PosInside(loadedBound, p) then Fail(OutOfBounds) else Pass
      ensures slots == if r.Fail? then old(slots) else WithTile(old(slots), chunkGridBound, bitSize, p, data)
    {
      if !PosInside(loadedBound, p) {
        return Fail(OutOfBounds);
      }
      LoadedIdx(chunkGridBound, bitSize, p);
      var c := chunks[ChunkIdx(p)];
      if c == null {
        if data.Some? {
          WriteTileFresh(p, data.value);
        } else {
          slots := WithTile(slots, chunkGridBound, bitSize, p, data);
        }
      } else {
        WriteTileInto(c, p, data);
      }
      r := Pass;
    }

    /** Tile data stored into (or removed from) an allocated chunk. */
    method WriteTileInto(c: Chunk<T>, p: IVec3, data: Option<T>)
      requires Valid() && PosInside(loadedBound, p) && 0 <= ChunkIdx(p) < chunks.Length && c == chunks[ChunkIdx(p)]
      modifies c, this`slots
      ensures Valid() && slots == WithTile(old(slots), chunkGridBound, bitSize, p, data)
    {
      LoadedIdx(chunkGridBound, bitSize, p);
      var idx := ChunkIdx(p);
      c.SetTileData(PosToChunkLocal(p, bitSize), data);
      slots := WithTile(slots, chunkGridBound, bitSize, p, data);
      forall i | 0 <= i < chunks.Length && i != idx ensures Mirrors(chunks[i], slots[i]) {
        var ci := chunks[i];
        if ci != null {
          assert old(Mirrors(ci, slots[i])) && ci != c;
        }
      }
    }

    /** Tile data stored at p by first putting a fresh chunk in p's empty slot. */
    method WriteTileFresh(p: IVec3, data: T)
      requires Valid() && PosInside(loadedBound, p) && 0 <= ChunkIdx(p) < chunks.Length && chunks[ChunkIdx(p)] == null
      modifies chunks, this`slots, this`Repr
      ensures Valid() && fresh(Repr - old(Repr))
      ensures slots == WithTile(old(slots), chunkGridBound, bitSize, p, Some(data))
    {
      LoadedIdx(chunkGridBound, bitSize, p);
      var idx := ChunkIdx(p);
      var nc := new Chunk<T>(bitSize);
      assert nc.blocks[..] == EmptyIds(bitSize);
      nc.SetTileData(PosToChunkLocal(p, bitSize), Some(data));
      chunks[idx] := nc;
      Repr := Repr + {nc, nc.blocks};
      slots := WithTile(slots, chunkGridBound, bitSize, p, Some(data));
      forall i | 0 <= i < chunks.Length && i != idx ensures Mirrors(chunks[i], slots[i]) {
        var ci := chunks[i];
        if ci != null {
          assert old(Mirrors(ci, slots[i])) && ci in old(Repr);
        }
      }
    }

    /** `getTileData`: refused outside the loaded area; otherwise the data at p (none for a null
        chunk). */
    method GetTileData(p: IVec3) returns (r: Result<Option<T>>)
      requires Valid()
      ensures r == if !PosInside(loadedBound, p) then Err(OutOfBounds) else Ok(Tile(p))
    {
      if !PosInside(loadedBound, p) {
        return Err(OutOfBounds);
      }
      LoadedIdx(chunkGridBound, bitSize, p);
      var c := chunks[ChunkIdx(p)];
      if c == null {
        r := Ok(None);
      } else {
        r := Ok(c.GetTileData(PosToChunkLocal(p, bitSize)));
      }
    }

    /** `getTileDataSafe`: no tile data outside the loaded area instead of a failure. */
    method GetTileDataSafe(p: IVec3) returns (r: Option<T>)
      requires Valid()
      ensures r == if !PosInside(loadedBound, p) then None else Tile(p)
    {
      if !PosInside(loadedBound, p) {
        return None;
      }
      var t := GetTileData(p);
      r := t.value;
    }

    /** `shiftChunks`: the grid moves by a whole number of chunks and the loaded and target
        areas move with it, without touching a chunk; `ShiftedIn` gives what each position then reads. */
    method ShiftChunks(shift: IVec3)
      requires Valid()
      modifies this`chunkGridBound, this`loadedBound, this`targetBounds
      ensures Valid()
      ensures chunkGridBound == Move(old(chunkGridBound), shift)
      ensures loadedBound == Move(old(loadedBound), Shl(shift, bitSize))
      ensures targetBounds == Move(old(targetBounds), Shl(shift, bitSize))
      ensures slots == old(slots)
    {
      ScaledMoved(chunkGridBound, shift, bitSize);
      YzxIdxMoved(chunkGridBound, shift, chunkGridBound.a);
      chunkGridBound := Move(chunkGridBound, shift);
      var blockShift := Shl(shift, bitSize);
      loadedBound := Move(loadedBound, blockShift);
      targetBounds := Move(targetBounds, blockShift);
    }

    /** The chunk at grid position q, or null when the grid does not have q. */
    function ChunkAt(q: IVec3): Chunk?<T>
      reads this, chunks
    {
      var i := PosToYzxIdx(chunkGridBound, q);
      if PosInside(chunkGridBound, q) && 0 <= i < chunks.Length then chunks[i] else null
    }

    /** `setLoadedArea`: a new chunk array for the chunk grid covering [min, max) (corners
        normalised). Each chunk whose position is in both grids keeps its object and moves to
        its new slot; every other chunk is dropped. */
    method SetLoadedArea(areaMin: IVec3, areaMax: IVec3)
      requires GridValid()
      modifies this`chunks, this`chunkGridBound, this`loadedBound, this`targetBounds, this`slots, this`Repr
      ensures GridValid() && fresh(Repr - old(Repr)) && (old(Valid()) ==> Valid())
      ensures targetBounds == Bounds.New(areaMin, areaMax)
      ensures chunkGridBound == GridFor(targetBounds, bitSize)
      ensures loadedBound == Scaled(chunkGridBound, bitSize) && FullyInside(targetBounds, loadedBound)
      ensures forall i :: 0 <= i < chunks.Length ==>
        var q := GridPoints(chunkGridBound)[i]; chunks[i] == old(ChunkAt(q))
      ensures slots == Regridded(old(slots), old(chunkGridBound), chunkGridBound)
    {
      var target := Bounds.New(areaMin, areaMax);
      var grid := GridFor(target, bitSize);
      GridForCovers(target, bitSize);
      VolumeNonNegative(grid);
      var newChunks := new Chunk?<T>[Volume(grid)](_ => null);
      if chunks.Length > 0 {
        MoveChunks(newChunks, grid);
      } else {
        forall i | 0 <= i < newChunks.Length ensures newChunks[i] == ChunkAt(GridPoints(grid)[i]) {
        }
      }
      assert forall i :: 0 <= i < newChunks.Length ==>
        newChunks[i] == old(ChunkAt(GridPoints(grid)[i]));
      ghost var kept := Regridded(slots, chunkGridBound, grid);
      KeptChunks(newChunks, grid);
      RegriddedFit(slots, chunkGridBound, grid, bitSize);
      Install(newChunks, grid, target, kept);
    }

    /** The chunks `setLoadedArea` keeps are well-formed, owned, mirrored by the regridded slots
        and still pairwise distinct. */
    lemma KeptChunks(newChunks: array<Chunk?<T>>, grid: IntBoundary)
      requires GridValid() && Normal(grid) && newChunks.Length == Volume(grid)
      requires forall i :: 0 <= i < newChunks.Length ==> newChunks[i] == ChunkAt(GridPoints(grid)[i])
      ensures var kept := Regridded(slots, chunkGridBound, grid);
        forall i :: 0 <= i < newChunks.Length ==>
          (newChunks[i] == null <==> kept[i].Empty?)
          && (newChunks[i] != null ==>
            newChunks[i] in Repr && newChunks[i].blocks in Repr && newChunks[i].bitSize == bitSize
            && newChunks[i].Valid() && Mirrors(newChunks[i], kept[i]))
      ensures forall i, i' ::
          (0 <= i < newChunks.Length && 0 <= i' < newChunks.Length && i != i'
           && newChunks[i] != null && newChunks[i'] != null) ==>
          newChunks[i] != newChunks[i'] && newChunks[i].blocks != newChunks[i'].blocks
    {
      var pts := GridPoints(grid);
      var kept := Regridded(slots, chunkGridBound, grid);
      forall i | 0 <= i < newChunks.Length
        ensures newChunks[i] == null <==> kept[i].Empty?
        ensures newChunks[i] != null ==>
          newChunks[i] in Repr && newChunks[i].blocks in Repr && newChunks[i].bitSize == bitSize
          && newChunks[i].Valid() && Mirrors(newChunks[i], kept[i])
      {
        var j := PosToYzxIdx(chunkGridBound, pts[i]);
        if PosInside(chunkGridBound, pts[i]) && 0 <= j < chunks.Length {
          assert Mirrors(chunks[j], slots[j]);
        }
      }
      forall i, i' | 0 <= i < newChunks.Length && 0 <= i' < newChunks.Length && i != i'
          && newChunks[i] != null && newChunks[i'] != null
        ensures newChunks[i] != newChunks[i'] && newChunks[i].blocks != newChunks[i'].blocks
      {
        var j, j' := PosToYzxIdx(chunkGridBound, pts[i]), PosToYzxIdx(chunkGridBound, pts[i']);
        if j == j' {
          YzxIdxInjective(chunkGridBound, pts[i], pts[i']);
        }
      }
    }

    /** The field updates that end `setLoadedArea`. */
    method Install(newChunks: array<Chunk?<T>>, grid: IntBoundary, target: IntBoundary,
                   ghost kept: seq<Slot<T>>)
      requires GridValid() && Normal(grid) && newChunks.Length == Volume(grid) == |kept|
      requires SlotsFit(kept, bitSize)
      requires forall i :: 0 <= i < newChunks.Length ==>
          (newChunks[i] == null <==> kept[i].Empty?)
          && (newChunks[i] != null ==>
            newChunks[i] in Repr && newChunks[i].blocks in Repr && newChunks[i].bitSize == bitSize
            && newChunks[i].Valid() && Mirrors(newChunks[i], kept[i]))
      requires forall i, i' ::
          (0 <= i < newChunks.Length && 0 <= i' < newChunks.Length && i != i'
           && newChunks[i] != null && newChunks[i'] != null) ==>
          newChunks[i] != newChunks[i'] && newChunks[i].blocks != newChunks[i'].blocks
      modifies this`chunks, this`chunkGridBound, this`loadedBound, this`targetBounds, this`slots, this`Repr
      ensures chunks == newChunks && chunkGridBound == grid && loadedBound == Scaled(grid, bitSize)
      ensures targetBounds == target && slots == kept && Repr == old(Repr) + {newChunks}
      ensures GridValid() && (old(Valid()) ==> Valid())
    {
      chunks := newChunks;
      chunkGridBound := grid;
      loadedBound := Scaled(grid, bitSize);
      targetBounds := target;
      slots := kept;
      Repr := Repr + {newChunks};
    }

    /** The copy loop of `setLoadedArea` over the old grid (which is not empty, so `iterYzx`
        visits exactly its positions): each old chunk whose position is in the new grid is
        stored in its slot there. */
    method MoveChunks(newChunks: array<Chunk?<T>>, grid: IntBoundary)
      requires GridValid() && chunks.Length > 0 && Normal(grid) && newChunks.Length == Volume(grid)
      requires newChunks !in Repr && forall i :: 0 <= i < newChunks.Length ==> newChunks[i] == null
      modifies newChunks
      ensures forall i :: 0 <= i < newChunks.Length ==> newChunks[i] == ChunkAt(GridPoints(grid)[i])
    {
      var pts := GridPoints(grid);
      var g := chunkGridBound;
      if g.dim.x == 0 || g.dim.z == 0 {
        FlatVolume(g);
      }
      var it := new YzxIter(g);
      while it.HasNext()
        invariant it.Valid() && it.box == g
        invariant forall i :: 0 <= i < newChunks.Length ==>
          newChunks[i] == if PosToYzxIdx(g, pts[i]) < it.yielded then ChunkAt(pts[i]) else null
        decreases Volume(g) - it.yielded
      {
        PointAtBelowTop(g, it.yielded);
        YzxIdxPointAt(g, it.yielded);
        ghost var k := it.yielded;
        var c := it.Next();
        MoveOne(newChunks, grid, pts, c, k);
      }
      PointAtBelowTop(g, it.yielded);
      forall i | 0 <= i < newChunks.Length ensures newChunks[i] == ChunkAt(pts[i]) {
        if PosInside(g, pts[i]) {
          YzxIdxInRange(g, pts[i]);
        }
      }
    }

    /** One step of the copy loop of `setLoadedArea`: the old chunk at c, the k-th position of
        the old grid, goes to c's slot in the new grid when c lies there. */
    method MoveOne(newChunks: array<Chunk?<T>>, grid: IntBoundary, ghost pts: seq<IVec3>,
                   c: IVec3, ghost k: int)
      requires GridValid() && Normal(grid) && newChunks.Length == Volume(grid) == |pts|
      requires forall i :: 0 <= i < |pts| ==> PosInside(grid, pts[i]) && PosToYzxIdx(grid, pts[i]) == i
      requires newChunks !in Repr && 0 <= k < chunks.Length
      requires PosInside(chunkGridBound, c) && PosToYzxIdx(chunkGridBound, c) == k
      requires forall i :: 0 <= i < newChunks.Length ==>
        newChunks[i] == if PosToYzxIdx(chunkGridBound, pts[i]) < k then ChunkAt(pts[i]) else null
      modifies newChunks
      ensures forall i :: 0 <= i < newChunks.Length ==>
        newChunks[i] == if PosToYzxIdx(chunkGridBound, pts[i]) < k + 1 then ChunkAt(pts[i]) else null
    {
      var g := chunkGridBound;
      ghost var before := newChunks[..];
      ghost var target := -1;
      if PosInside(grid, c) {
        var oldChunk := chunks[PosToYzxIdx(g, c)];
        if oldChunk != null {
          YzxIdxInRange(grid, c);
          target := PosToYzxIdx(grid, c);
          newChunks[PosToYzxIdx(grid, c)] := oldChunk;
        }
      }
      forall i | 0 <= i < newChunks.Length
        ensures newChunks[i] == if PosToYzxIdx(g, pts[i]) < k + 1 then ChunkAt(pts[i]) else null
      {
        if PosToYzxIdx(g, pts[i]) == k && PosInside(g, pts[i]) {
          YzxIdxInjective(g, pts[i], c);
        }
        if i == target {
          YzxIdxInjective(grid, pts[i], c);
        } else {
          assert newChunks[i] == before[i];
        }
      }
    }

    /** `cleanChunks`: every allocated chunk whose blocks are all the default id is dropped,
        tile data and all. The walk over the grid uses the corrected guard of `iterYzx`
        (`HasNextInside`): as written it would index an empty chunk array on a grid with no
        width along X or Z. */
    method CleanChunks()
      requires Valid()
      modifies chunks, this`slots
      ensures Valid() && slots == Cleaned(old(slots))
    {
      var g := chunkGridBound;
      var it := new YzxIter(g);
      ghost var s0 := slots;
      ghost var positive := g.dim.x > 0 && g.dim.z > 0;
      if !positive {
        FlatVolume(g);
      }
      while it.HasNextInside()
        invariant Valid() && it.box == g && chunkGridBound == g
        invariant positive ==> it.Valid()
        invariant !positive ==> it.yielded == 0
        invariant it.yielded <= |s0|
        invariant slots == CleanedUpTo(s0, it.yielded)
        decreases Volume(g) - it.yielded
      {
        PointAtBelowTop(g, it.yielded);
        YzxIdxPointAt(g, it.yielded);
        ghost var k := it.yielded;
        var c := it.Next();
        CleanSlot(PosToYzxIdx(g, c), s0);
      }
      if positive {
        PointAtBelowTop(g, it.yielded);
      }
      CleanedDone(s0);
    }

    /** One step of `cleanChunks`: the chunk in slot idx is dropped when it holds only default
        ids. */
    method CleanSlot(idx: int, ghost s0: seq<Slot<T>>)
      requires Valid() && 0 <= idx < |s0| && slots == CleanedUpTo(s0, idx)
      modifies chunks, this`slots
      ensures Valid() && slots == CleanedUpTo(s0, idx + 1)
    {
      CleanedStep(s0, idx);
      var chunk := chunks[idx];
      assert Mirrors(chunk, slots[idx]);
      if chunk != null && chunk.CanBeCleanedUp() {
        assert chunk.blocks[..] == slots[idx].ids;
        DropChunk(idx);
      }
    }

    /** Empties slot idx, whose chunk holds only default ids. */
    method DropChunk(idx: int)
      requires Valid() && 0 <= idx < chunks.Length && chunks[idx] != null
      requires AllDefault(slots[idx].ids)
      modifies chunks, this`slots
      ensures Valid() && slots == old(slots)[idx := Empty]
    {
      chunks[idx] := null;
      slots := slots[idx := Empty];
      forall i | 0 <= i < chunks.Length && i != idx ensures Mirrors(chunks[i], slots[i]) {
        assert old(Mirrors(chunks[i], slots[i]));
      }
    }

    /** `getBuildChunkBounds`: the least and greatest positions of the allocated chunks, folded
        over the grid in Y-Z-X order, as a box; None when no chunk is allocated. The walk uses
        the corrected guard of `iterYzx`, as `cleanChunks` does. */
    method GetBuildChunkBounds() returns (r: Option<IntBoundary>)
      requires Valid()
      ensures r == BuildChunkBounds(slots, chunkGridBound)
    {
      var minChunkPos: Option<IVec3> := None;
      var maxChunkPos: Option<IVec3> := None;
      var g := chunkGridBound;
      ghost var pts := GridPoints(g);
      var it := new YzxIter(g);
      ghost var positive := g.dim.x > 0 && g.dim.z > 0;
      if !positive {
        FlatVolume(g);
      }
      while it.HasNextInside()
        invariant it.box == g && (positive ==> it.Valid()) && (!positive ==> it.yielded == 0)
        invariant it.yielded <= |slots|
        invariant minChunkPos.Some? == maxChunkPos.Some?
        invariant ChunkExtent(slots, pts, it.yielded)
          == if minChunkPos.Some? then Some((minChunkPos.value, maxChunkPos.value)) else None
        decreases Volume(g) - it.yielded
      {
        PointAtBelowTop(g, it.yielded);
        YzxIdxPointAt(g, it.yielded);
        ghost var k := it.yielded;
        var c := it.Next();
        YzxIdxInjective(g, c, pts[k]);
        var chunk := chunks[PosToYzxIdx(g, c)];
        assert Mirrors(chunk, slots[k]);
        if chunk != null {
          if minChunkPos.None? { minChunkPos := Some(c); }
          if maxChunkPos.None? { maxChunkPos := Some(c); }
          minChunkPos := Some(Min(minChunkPos.value, c));
          maxChunkPos := Some(Max(maxChunkPos.value, c));
        }
      }
      if positive {
        PointAtBelowTop(g, it.yielded);
      }
      if minChunkPos.None? || maxChunkPos.None? {
        return None;
      }
      r := Some(Bounds.New(minChunkPos.value, AddScalar(maxChunkPos.value, 1)));
    }

    /** `computeBuildBounds`: the box of blocks in use. It is [0, 1)^3 when no chunk is
        allocated. Otherwise only the chunks on the border of the build chunk bounds are read:
        each one on a lower face lowers the lower corner to its least non-default cell, each one
        on an upper face raises the upper corner to its greatest. When no allocated chunk is all
        default (what `cleanChunks` leaves) and the loaded area has 32-bit coordinates, the
        result holds every non-default position and each of its six faces touches one. */
    method ComputeBuildBounds() returns (r: IntBoundary)
      requires Valid()
      ensures BuildChunkBounds(slots, chunkGridBound).None? ==> r == Bounds.New(Splat(0), Splat(1))
      ensures BuildChunkBounds(slots, chunkGridBound).Some? && NoIdleSlot(slots) && FitsInt(loadedBound) ==>
        (forall p :: Id(p) != DEFAULT_BLOCK_ID ==> PosInside(r, p))
        && AttainedBySolid(slots, chunkGridBound, bitSize, r.a)
        && AttainedBySolid(slots, chunkGridBound, bitSize, AddScalar(r.b, -1))
    {
      var buildChunkBounds := GetBuildChunkBounds();
      if buildChunkBounds.None? {
        return Bounds.New(Splat(0), Splat(1));
      }
      var bcb := buildChunkBounds.value;
      BuildChunkBoundsInGrid(slots, chunkGridBound);
      var minPos, maxPos, seenLo, seenHi := WalkBorders(bcb);
      if NoIdleSlot(slots) && FitsInt(loadedBound) {
        WalkResult(slots, chunkGridBound, bitSize, minPos, maxPos, seenLo, seenHi);
      }
      r := Bounds.New(minPos, AddScalar(maxPos, 1));
    }

    /** The loop of `computeBuildBounds`: starting from IVec3.MAX and IVec3.MIN, merges the
        contribution of every chunk of the build chunk bounds, in YZX order. */
    method WalkBorders(bcb: IntBoundary) returns (minPos: IVec3, maxPos: IVec3, ghost seenLo: bool, ghost seenHi: bool)
      requires Valid() && Normal(bcb) && NonEmpty(bcb) && FullyInside(bcb, chunkGridBound)
      ensures WalkInv(slots, chunkGridBound, bitSize, bcb, Volume(bcb), minPos, maxPos, seenLo, seenHi,
                      FitsInt(loadedBound))
    {
      minPos := Splat(INT_MAX);
      maxPos := Splat(INT_MIN);
      ghost var sl, g, bs := slots, chunkGridBound, bitSize;
      seenLo, seenHi := false, false;
      ghost var fits := FitsInt(loadedBound);
      ghost var k := 0;
      NothingSeenYet(sl, g, bs, bcb);
      var it := new YzxIter(bcb);
      while it.HasNext()
        invariant it.Valid() && it.box == bcb && it.yielded == k
        invariant WalkInv(sl, g, bs, bcb, k, minPos, maxPos, seenLo, seenHi, fits)
        decreases Volume(bcb) - k
      {
        PointAtBelowTop(bcb, k);
        YzxIdxPointAt(bcb, k);
        var chunkPos := it.Next();
        minPos, maxPos, seenLo, seenHi := WalkBorderChunk(bcb, chunkPos, sl, g, bs, k, minPos, maxPos, seenLo, seenHi, fits);
        k := k + 1;
      }
      PointAtBelowTop(bcb, k);
    }

    /** One iteration of the walk in `computeBuildBounds`: merges the contribution of the k-th
        chunk of the build chunk bounds into the running corners. */
    method WalkBorderChunk(bcb: IntBoundary, c: IVec3, ghost sl: seq<Slot<T>>, ghost g: IntBoundary,
                           ghost bs: nat, ghost k: int, minPos: IVec3, maxPos: IVec3,
                           ghost seenLo: bool, ghost seenHi: bool, ghost fits: bool)
      returns (nextMin: IVec3, nextMax: IVec3, ghost nextSeenLo: bool, ghost nextSeenHi: bool)
      requires Valid() && sl == slots && g == chunkGridBound && bs == bitSize
      requires FullyInside(bcb, g) && Normal(bcb) && PosInside(bcb, c) && PosToYzxIdx(bcb, c) == k
      requires fits ==> FitsInt(Scaled(g, bs))
      requires WalkInv(sl, g, bs, bcb, k, minPos, maxPos, seenLo, seenHi, fits)
      ensures WalkInv(sl, g, bs, bcb, k + 1, nextMin, nextMax, nextSeenLo, nextSeenHi, fits)
    {
      var minLocalPos, maxLocalPos := BorderChunkExtent(bcb, c);
      MinStep(sl, g, bs, bcb, k, k + 1, c, minLocalPos, minPos, seenLo);
      MaxStep(sl, g, bs, bcb, k, k + 1, c, maxLocalPos, maxPos, seenHi);
      if fits {
        MergeMinAttained(sl, g, bs, c, minLocalPos, minPos, seenLo);
        MergeMaxAttained(sl, g, bs, c, maxLocalPos, maxPos, seenHi);
      }
      ghost var mergedMin, mergedMax := MergeMin(minPos, c, minLocalPos, bs), MergeMax(maxPos, c, maxLocalPos, bs);
      nextMin, nextMax := minPos, maxPos;
      var chunkWorldPos := ChunkPosToPos(c, bitSize);
      if minLocalPos.Some? {
        nextMin := Min(nextMin, Add(chunkWorldPos, minLocalPos.value));
      }
      if maxLocalPos.Some? {
        nextMax := Max(nextMax, Add(chunkWorldPos, maxLocalPos.value));
      }
      assert nextMin == mergedMin && nextMax == mergedMax;
      nextSeenLo, nextSeenHi := seenLo || minLocalPos.Some?, seenHi || maxLocalPos.Some?;
    }

    /** What one chunk of the build chunk bounds contributes: its least non-default cell if it
        is allocated and on a lower face, its greatest if it is allocated and on an upper face. */
    method BorderChunkExtent(bcb: IntBoundary, c: IVec3) returns (lo: Option<IVec3>, hi: Option<IVec3>)
      requires GridValid() && FullyInside(bcb, chunkGridBound) && PosInside(bcb, c)
      ensures var s := SlotAt(slots, chunkGridBound, c);
        (lo.Some? ==> (PosOnMinBorder(bcb, c) && s.Loaded?
          && BelowAll(lo.value, s.ids, bitSize) && AttainedOnEachAxis(lo.value, s.ids, bitSize)))
        && (lo.None? && PosOnMinBorder(bcb, c) && s.Loaded? ==> AllDefault(s.ids))
        && (hi.Some? ==> (PosOnMaxBorder(bcb, c) && s.Loaded?
          && AboveAll(hi.value, s.ids, bitSize) && AttainedOnEachAxis(hi.value, s.ids, bitSize)))
        && (hi.None? && PosOnMaxBorder(bcb, c) && s.Loaded? ==> AllDefault(s.ids))
    {
      lo, hi := None, None;
      if !PosOnBorder(bcb, c) {
        return;
      }
      FullyInsideContains(bcb, chunkGridBound, c);
      YzxIdxInRange(chunkGridBound, c);
      var idx := PosToYzxIdx(chunkGridBound, c);
      var chunk := chunks[idx];
      assert Mirrors(chunk, slots[idx]);
      if chunk == null {
        return;
      }
      assert chunk.blocks[..] == slots[idx].ids;
      if PosOnMinBorder(bcb, c) {
        lo := chunk.ComputeMinLocalPos();
      }
      if PosOnMaxBorder(bcb, c) {
        hi := chunk.ComputeMaxLocalPos();
      }
    }

    /** `extractBlockGrid`: the ids of a box of the loaded area as a flat Y-Z-X grid, with the
        box's dimensions and the whole palette as unlinked mappings. A box outside the loaded
        area, a thread count below one and a box too large for one JVM array are refused. The
        threads become a loop over their jobs; the chunks of each job are walked with the
        corrected guard of `iterYzx`. */
    method ExtractBlockGrid(bounds: IntBoundary, threadCount: int)
      returns (r: Result<(IVec3, array<int>, map<int, BlockState>)>)
      requires Valid() && Normal(bounds)
      ensures !FullyInside(bounds, loadedBound) ==> r == Err(OutOfBounds)
      ensures FullyInside(bounds, loadedBound) && threadCount < 1 ==> r == Err(InvalidConfiguration)
      ensures FullyInside(bounds, loadedBound) && threadCount >= 1 && Volume(bounds) > MAX_SAFE_ARR_LEN ==>
        r == Err(ArrayTooLarge)
      ensures r.Ok? <==> FullyInside(bounds, loadedBound) && threadCount >= 1 && Volume(bounds) <= MAX_SAFE_ARR_LEN
      ensures r.Ok? ==>
        var (dims, arr, mappings) := r.value;
        dims == bounds.dim && fresh(arr) && arr.Length == Volume(bounds) && mappings == palette.ToUnlinked()
        && forall p | PosInside(bounds, p) ::
             0 <= PosToYzxIdx(bounds, p) < arr.Length && arr[PosToYzxIdx(bounds, p)] == Id(p)
    {
      if !FullyInside(bounds, loadedBound) {
        return Err(OutOfBounds);
      }
      if threadCount < 1 {
        return Err(InvalidConfiguration);
      }
      var bgChunkBounds := PosBoundsToChunkBounds(bounds, bitSize);
      var arrLen := Volume(bounds);
      if arrLen > MAX_SAFE_ARR_LEN {
        return Err(ArrayTooLarge);
      }
      var defaultBlock := GetDefaultBlock();
      ToShortOfShort(0);
      VolumeNonNegative(bounds);
      var arr := new int[arrLen](_ => defaultBlock.paletteId);
      ChunkBoundsInside(bounds, chunkGridBound, bitSize);
      var jobs := ChunkJobs(bgChunkBounds, threadCount);
      CopiedStart(arr[..], bounds, slots, chunkGridBound, bitSize);
      ghost var done: set<IVec3> := {};
      var j := 0;
      while j < |jobs.value|
        invariant 0 <= j <= |jobs.value|
        invariant Copied(arr[..], bounds, slots, chunkGridBound, bitSize, done, bounds.a, bounds.a.y, bounds.a.z)
        invariant forall k, c :: 0 <= k < j && PosInside(jobs.value[k], c) ==> c in done
      {
        done := FillFromChunks(arr, bounds, jobs.value[j], done);
        j := j + 1;
      }
      CopiedAll(arr[..], bounds, slots, chunkGridBound, bitSize, done);
      r := Ok((bounds.dim, arr, palette.ToUnlinked()));
    }

    /** `fillArrFromChunksInChunkBounds`: the chunks of one job, in Y-Z-X order; a null chunk
        leaves its blocks at the default id the grid starts with. */
    method FillFromChunks(arr: array<int>, bounds: IntBoundary, job: IntBoundary, ghost done0: set<IVec3>)
      returns (ghost done: set<IVec3>)
      requires Valid() && Normal(bounds) && Normal(job) && arr !in Repr
      requires FullyInside(job, chunkGridBound)
      requires Copied(arr[..], bounds, slots, chunkGridBound, bitSize, done0, bounds.a, bounds.a.y, bounds.a.z)
      modifies arr
      ensures Copied(arr[..], bounds, slots, chunkGridBound, bitSize, done, bounds.a, bounds.a.y, bounds.a.z)
      ensures done0 <= done && forall c :: PosInside(job, c) ==> c in done
    {
      var it := new YzxIter(job);
      done := done0;
      ghost var positive := job.dim.x > 0 && job.dim.z > 0;
      while it.HasNextInside()
        invariant it.box == job
        invariant positive ==> it.Valid()
        invariant !positive ==> it.yielded == 0
        invariant done0 <= done
        invariant Copied(arr[..], bounds, slots, chunkGridBound, bitSize, done, bounds.a, bounds.a.y, bounds.a.z)
        invariant forall k :: 0 <= k < it.yielded ==> positive && PointAt(job, k) in done
        decreases Volume(job) - it.yielded
      {
        PointAtBelowTop(job, it.yielded);
        YzxIdxPointAt(job, it.yielded);
        var c := it.Next();
        FillFromChunk(arr, bounds, c, done);
        done := done + {c};
      }
      if positive {
        PointAtBelowTop(job, it.yielded);
      }
      forall c | PosInside(job, c) ensures c in done {
        YzxIdxInRange(job, c);
        PointAtYzxIdx(job, c);
      }
    }

    /** The body of `fillArrFromChunksInChunkBounds` for chunk position c. */
    method FillFromChunk(arr: array<int>, bounds: IntBoundary, c: IVec3, ghost done: set<IVec3>)
      requires Valid() && Normal(bounds) && arr !in Repr && PosInside(chunkGridBound, c)
      requires Copied(arr[..], bounds, slots, chunkGridBound, bitSize, done, bounds.a, bounds.a.y, bounds.a.z)
      modifies arr
      ensures Copied(arr[..], bounds, slots, chunkGridBound, bitSize, done + {c}, bounds.a, bounds.a.y, bounds.a.z)
    {
      YzxIdxInRange(chunkGridBound, c);
      var idx := PosToYzxIdx(chunkGridBound, c);
      var chunk := chunks[idx];
      assert Mirrors(chunk, slots[idx]);
      if chunk == null {
        CopiedEmptySlot(arr[..], bounds, slots, chunkGridBound, bitSize, done, c);
      } else {
        CopyChunkRows(chunk.blocks, arr, bounds, c, bitSize, slots, chunkGridBound, done);
      }
    }

    /** The palette id of the entry whose state equals bs (the default id when there is none). */
    ghost function PaletteId(bs: BlockState): int
      reads palette
    {
      var k := StateStr(bs);
      if k in palette.hashPalette && 0 <= palette.hashPalette[k] < |palette.entries|
      then palette.entries[palette.hashPalette[k]].paletteId else DEFAULT_BLOCK_ID
    }

    /** `bgMapToVolMap`: for each grid id below n, the palette id of its state (the default
        state for an unmapped id), interned in increasing grid-id order. */
    method BuildVolMap(mappings: map<int, BlockState>, n: int, dflt: BlockState) returns (volMap: array<int>)
      requires Valid() && n >= 0
      modifies palette
      ensures Valid() && fresh(volMap) && volMap.Length == n
      ensures |old(palette.entries)| <= |palette.entries| && palette.entries[..|old(palette.entries)|] == old(palette.entries)
      ensures forall k :: 0 <= k < n ==>
        StateStr(GridState(mappings, k, dflt)) in palette.hashPalette && volMap[k] == PaletteId(GridState(mappings, k, dflt))
    {
      volMap := new int[n];
      var k := 0;
      while k < n
        invariant 0 <= k <= n && Valid() && fresh(volMap)
        invariant |old(palette.entries)| <= |palette.entries| && palette.entries[..|old(palette.entries)|] == old(palette.entries)
        invariant TableOf(volMap[..k], mappings, dflt, palette.entries, palette.hashPalette)
      {
        ghost var t := volMap[..k];
        var id := InternGridId(mappings, dflt, k, t);
        volMap[k] := id;
        assert volMap[..k + 1] == t + [id];
        k := k + 1;
      }
      assert volMap[..] == volMap[..n];
      forall j | 0 <= j < n
        ensures StateStr(GridState(mappings, j, dflt)) in palette.hashPalette && volMap[j] == PaletteId(GridState(mappings, j, dflt))
      {
        assert volMap[j] == volMap[..n][j];
      }
    }

    /** One entry of `bgMapToVolMap`: the state of grid id k is interned, and the ids already
        in the table keep their meaning. */
    method InternGridId(mappings: map<int, BlockState>, dflt: BlockState, k: int, ghost t: seq<int>) returns (id: int)
      requires Valid() && |t| == k && TableOf(t, mappings, dflt, palette.entries, palette.hashPalette)
      modifies palette
      ensures Valid()
      ensures |old(palette.entries)| <= |palette.entries| && palette.entries[..|old(palette.entries)|] == old(palette.entries)
      ensures TableOf(t + [id], mappings, dflt, palette.entries, palette.hashPalette)
    {
      ghost var es, hp := palette.entries, palette.hashPalette;
      var bs := GridState(mappings, k, dflt);
      var e := GetEnsuredPaletteBlock(bs);
      if palette.entries != es {
        HashIndexMeaning(es, StateStr(bs));
        HashIndexAppend(es, e);
      }
      TableGrow(t, mappings, dflt, es, hp, palette.entries, palette.hashPalette, StateStr(bs));
      id := e.paletteId;
      TableExtend(t, id, mappings, dflt, palette.entries, palette.hashPalette);
    }

    /** `placeBlockGrid`: a Y-Z-X grid of ids with the given dimensions, placed with its low
        corner at pos. The largest mapped grid id sizes the id table, so empty mappings are
        refused and a largest key below -1 is a negative array size; each grid id's state (the
        volume's default for an unmapped one) is interned, growing the palette, before a thread
        count of zero fails as a division. A negative thread count then places nothing. The
        threads become a loop over their jobs, whose chunks are walked with the corrected
        guard of `iterYzx`, and an absent chunk is allocated with the corrected default test. */
    method PlaceBlockGrid(pos: IVec3, grid: array<int>, dims: IVec3, mappings: map<int, BlockState>, threadCount: int)
      returns (r: Outcome)
      requires Valid() && grid !in Repr && ShortKeys(mappings)
      requires |mappings| > 0 && threadCount >= 1 ==>
        FullyInside(GridBox(pos, dims), loadedBound) && GridIdsFit(grid[..], MaxKey(mappings) + 1, GridBox(pos, dims))
      modifies Repr
      ensures Valid() && fresh(Repr - old(Repr))
      ensures chunkGridBound == old(chunkGridBound) && loadedBound == old(loadedBound) && targetBounds == old(targetBounds)
      ensures |mappings| == 0 ==> r == Fail(NoSuchElement) && palette.entries == old(palette.entries)
      ensures |mappings| > 0 && MaxKey(mappings) < -1 ==> r == Fail(NegativeArraySize) && palette.entries == old(palette.entries)
      ensures |mappings| > 0 && MaxKey(mappings) >= -1 ==>
        |old(palette.entries)| <= |palette.entries| && palette.entries[..|old(palette.entries)|] == old(palette.entries)
      ensures |mappings| > 0 && MaxKey(mappings) >= -1 && threadCount == 0 ==> r == Fail(DivisionByZero)
      ensures |mappings| > 0 && MaxKey(mappings) >= -1 && threadCount != 0 ==> r == Pass
      ensures r.Fail? || threadCount < 1 ==> slots == old(slots)
      ensures r.Pass? && threadCount >= 1 ==>
        forall p | PosInside(GridBox(pos, dims), p) ::
          0 <= PosToYzxIdx(GridBox(pos, dims), p) < grid.Length
          && Id(p) == PaletteId(GridState(mappings, grid[PosToYzxIdx(GridBox(pos, dims), p)], old(palette.entries[0].state)))
      ensures forall p | !PosInside(GridBox(pos, dims), p) :: Id(p) == old(Id(p))
      ensures forall p :: Tile(p) == old(Tile(p))
    {
      if |mappings| == 0 {
        return Fail(NoSuchElement);
      }
      var maxKey := MaxKeyOf(mappings);
      if maxKey + 1 < 0 {
        return Fail(NegativeArraySize);
      }
      r := PlaceMapped(pos, grid, dims, mappings, maxKey + 1, threadCount);
    }

    /** The body of `placeBlockGrid` once the id table has a size n >= 0: the table is built,
        then the grid is written job by job. */
    method PlaceMapped(pos: IVec3, grid: array<int>, dims: IVec3, mappings: map<int, BlockState>, n: int, threadCount: int)
      returns (r: Outcome)
      requires Valid() && grid !in Repr && n >= 0
      requires threadCount >= 1 ==> FullyInside(GridBox(pos, dims), loadedBound) && GridIdsFit(grid[..], n, GridBox(pos, dims))
      modifies Repr
      ensures Valid() && fresh(Repr - old(Repr))
      ensures chunkGridBound == old(chunkGridBound) && loadedBound == old(loadedBound) && targetBounds == old(targetBounds)
      ensures |old(palette.entries)| <= |palette.entries| && palette.entries[..|old(palette.entries)|] == old(palette.entries)
      ensures r == if threadCount == 0 then Fail(DivisionByZero) else Pass
      ensures threadCount < 1 ==> slots == old(slots)
      ensures threadCount >= 1 ==>
        forall p | PosInside(GridBox(pos, dims), p) ::
          0 <= PosToYzxIdx(GridBox(pos, dims), p) < grid.Length
          && Id(p) == PaletteId(GridState(mappings, grid[PosToYzxIdx(GridBox(pos, dims), p)], old(palette.entries[0].state)))
      ensures forall p | !PosInside(GridBox(pos, dims), p) :: Id(p) == old(Id(p))
      ensures forall p :: Tile(p) == old(Tile(p))
    {
      var dflt := GetDefaultBlock();
      var volMap := BuildVolMap(mappings, n, dflt.state);
      var box := GridBox(pos, dims);
      var found, idx := FindDefaultIndex(volMap);
      r := PlaceWithTable(grid, volMap, box, threadCount, found, idx);
      if threadCount >= 1 {
        forall p | PosInside(box, p)
          ensures 0 <= PosToYzxIdx(box, p) < grid.Length
          ensures Id(p) == PaletteId(GridState(mappings, grid[PosToYzxIdx(box, p)], dflt.state))
        {
          YzxIdxInRange(box, p);
        }
      }
    }

    /** The placing half of `placeBlockGrid`, once the id table is built: the chunk bounds of the
        box are split into jobs as `extractBlockGrid` splits them, and the jobs are placed. */
    method PlaceWithTable(grid: array<int>, volMap: array<int>, box: IntBoundary, threadCount: int, found: bool, idx: int)
      returns (r: Outcome)
      requires Valid() && Normal(box) && grid !in Repr && volMap !in Repr && DefaultIndex(volMap[..], found, idx)
      requires threadCount >= 1 ==> FullyInside(box, loadedBound) && GridIdsFit(grid[..], volMap.Length, box)
      modifies Repr
      ensures Valid() && fresh(Repr - old(Repr))
      ensures chunkGridBound == old(chunkGridBound) && loadedBound == old(loadedBound) && targetBounds == old(targetBounds)
      ensures unchanged(palette)
      ensures r == if threadCount == 0 then Fail(DivisionByZero) else Pass
      ensures threadCount < 1 ==> slots == old(slots)
      ensures threadCount >= 1 ==>
        forall p :: Id(p) == if PosInside(box, p) then PlacedId(grid[..], volMap[..], box, p) else old(Id(p))
      ensures forall p :: Tile(p) == old(Tile(p))
    {
      var bgChunkBounds := PosBoundsToChunkBounds(box, bitSize);
      var jobs := ChunkJobs(bgChunkBounds, threadCount);
      if jobs.Err? {
        return Fail(DivisionByZero);
      }
      if threadCount >= 1 {
        ChunkBoundsInside(box, chunkGridBound, bitSize);
        PlaceJobs(grid, volMap, box, jobs.value, found, idx);
      }
      r := Pass;
    }

    /** The jobs of `placeBlockGrid`, one after another. Once they cover every chunk of the box,
        the box holds the placed ids; the rest of the volume and all tile data are unchanged. */
    method PlaceJobs(grid: array<int>, volMap: array<int>, box: IntBoundary, jobs: seq<IntBoundary>, found: bool, idx: int)
      requires Valid() && Normal(box) && grid !in Repr && volMap !in Repr
      requires GridIdsFit(grid[..], volMap.Length, box) && DefaultIndex(volMap[..], found, idx)
      requires forall k :: 0 <= k < |jobs| ==> Normal(jobs[k]) && FullyInside(jobs[k], chunkGridBound)
      requires forall c :: PosInside(PosBoundsToChunkBounds(box, bitSize), c) ==> exists k :: 0 <= k < |jobs| && PosInside(jobs[k], c)
      modifies Repr
      ensures Valid() && fresh(Repr - old(Repr))
      ensures chunkGridBound == old(chunkGridBound) && loadedBound == old(loadedBound) && targetBounds == old(targetBounds)
      ensures unchanged(palette)
      ensures forall p :: Id(p) == if PosInside(box, p) then PlacedId(grid[..], volMap[..], box, p) else old(Id(p))
      ensures forall p :: Tile(p) == old(Tile(p))
    {
      ghost var s0 := slots;
      PlacedStart(slots, chunkGridBound, bitSize, box, grid[..], volMap[..]);
      ghost var done: set<IVec3> := {};
      var j := 0;
      while j < |jobs|
        invariant 0 <= j <= |jobs|
        invariant Valid() && fresh(Repr - old(Repr))
        invariant chunkGridBound == old(chunkGridBound) && loadedBound == old(loadedBound) && targetBounds == old(targetBounds)
        invariant unchanged(palette)
        invariant Placed(slots, s0, chunkGridBound, bitSize, box, grid[..], volMap[..], done, box.a, box.a.y, box.a.z)
        invariant SameTiles(slots, s0, chunkGridBound, bitSize)
        invariant forall k, c :: 0 <= k < j && PosInside(jobs[k], c) ==> c in done
      {
        done := PlaceChunks(grid, volMap, box, jobs[j], found, idx, s0, done);
        j := j + 1;
      }
      PlacedAll(slots, s0, chunkGridBound, bitSize, box, grid[..], volMap[..], done);
    }

    /** `fillChunksInChunksBounds`: the chunks of one job, in Y-Z-X order. */
    method PlaceChunks(grid: array<int>, volMap: array<int>, box: IntBoundary, job: IntBoundary, found: bool, idx: int,
                       ghost s0: seq<Slot<T>>, ghost done0: set<IVec3>)
      returns (ghost done: set<IVec3>)
      requires Valid() && Normal(box) && Normal(job) && grid !in Repr && volMap !in Repr
      requires FullyInside(job, chunkGridBound)
      requires GridIdsFit(grid[..], volMap.Length, box) && DefaultIndex(volMap[..], found, idx)
      requires Placed(slots, s0, chunkGridBound, bitSize, box, grid[..], volMap[..], done0, box.a, box.a.y, box.a.z)
      requires SameTiles(slots, s0, chunkGridBound, bitSize)
      modifies Repr
      ensures Valid() && fresh(Repr - old(Repr))
      ensures chunkGridBound == old(chunkGridBound) && loadedBound == old(loadedBound) && targetBounds == old(targetBounds)
      ensures unchanged(palette)
      ensures Placed(slots, s0, chunkGridBound, bitSize, box, grid[..], volMap[..], done, box.a, box.a.y, box.a.z)
      ensures SameTiles(slots, s0, chunkGridBound, bitSize)
      ensures done0 <= done && forall c :: PosInside(job, c) ==> c in done
    {
      var it := new YzxIter(job);
      done := done0;
      ghost var positive := job.dim.x > 0 && job.dim.z > 0;
      while it.HasNextInside()
        invariant it.box == job && it !in Repr
        invariant positive ==> it.Valid()
        invariant !positive ==> it.yielded == 0
        invariant Valid() && fresh(Repr - old(Repr))
        invariant chunkGridBound == old(chunkGridBound) && loadedBound == old(loadedBound) && targetBounds == old(targetBounds)
        invariant unchanged(palette)
        invariant done0 <= done
        invariant Placed(slots, s0, chunkGridBound, bitSize, box, grid[..], volMap[..], done, box.a, box.a.y, box.a.z)
        invariant SameTiles(slots, s0, chunkGridBound, bitSize)
        invariant forall k :: 0 <= k < it.yielded ==> positive && PointAt(job, k) in done
        decreases Volume(job) - it.yielded
      {
        var c;
        c, done := PlaceNext(it, grid, volMap, box, job, found, idx, s0, done);
      }
      if positive {
        PointAtBelowTop(job, it.yielded);
      }
      forall c | PosInside(job, c) ensures c in done {
        YzxIdxInRange(job, c);
        PointAtYzxIdx(job, c);
      }
    }

    /** The body of `fillChunksInChunksBounds` for chunk position c: its rows are placed, and a
        chunk allocated on the way takes the empty slot. */
    /** One step of the walk over a job: the next chunk position of the job placed. */
    method PlaceNext(it: YzxIter, grid: array<int>, volMap: array<int>, box: IntBoundary, job: IntBoundary,
                     found: bool, idx: int, ghost s0: seq<Slot<T>>, ghost done: set<IVec3>)
      returns (c: IVec3, ghost done': set<IVec3>)
      requires it.box == job && it.Valid() && it.HasNextInside() && it !in Repr
      requires Valid() && Normal(box) && Normal(job) && grid !in Repr && volMap !in Repr
      requires FullyInside(job, chunkGridBound)
      requires GridIdsFit(grid[..], volMap.Length, box) && DefaultIndex(volMap[..], found, idx)
      requires Placed(slots, s0, chunkGridBound, bitSize, box, grid[..], volMap[..], done, box.a, box.a.y, box.a.z)
      requires SameTiles(slots, s0, chunkGridBound, bitSize)
      modifies it, chunks, this`slots, this`Repr, BlockArrays()
      ensures it.box == job && it.Valid() && it.yielded == old(it.yielded) + 1
      ensures c == PointAt(job, old(it.yielded)) && done' == done + {c}
      ensures Valid() && fresh(Repr - old(Repr))
      ensures Placed(slots, s0, chunkGridBound, bitSize, box, grid[..], volMap[..], done', box.a, box.a.y, box.a.z)
      ensures SameTiles(slots, s0, chunkGridBound, bitSize)
    {
      PointAtBelowTop(job, it.yielded);
      YzxIdxPointAt(job, it.yielded);
      c := it.Next();
      PlaceChunk(grid, volMap, box, c, found, idx, s0, done);
      done' := done + {c};
    }

    method PlaceChunk(grid: array<int>, volMap: array<int>, box: IntBoundary, c: IVec3, found: bool, idx: int,
                      ghost s0: seq<Slot<T>>, ghost done: set<IVec3>)
      requires Valid() && Normal(box) && PosInside(chunkGridBound, c) && grid !in Repr && volMap !in Repr
      requires GridIdsFit(grid[..], volMap.Length, box) && DefaultIndex(volMap[..], found, idx)
      requires Placed(slots, s0, chunkGridBound, bitSize, box, grid[..], volMap[..], done, box.a, box.a.y, box.a.z)
      requires SameTiles(slots, s0, chunkGridBound, bitSize)
      modifies chunks, this`slots, this`Repr, BlockArrays()
      ensures Valid() && fresh(Repr - old(Repr))
      ensures Placed(slots, s0, chunkGridBound, bitSize, box, grid[..], volMap[..], done + {c}, box.a, box.a.y, box.a.z)
      ensures SameTiles(slots, s0, chunkGridBound, bitSize)
    {
      YzxIdxInRange(chunkGridBound, c);
      var ci := PosToYzxIdx(chunkGridBound, c);
      var chunk := chunks[ci];
      if chunk == null {
        PlaceIntoEmpty(grid, volMap, box, c, found, idx, s0, done);
      } else {
        PlaceIntoChunk(chunk, grid, volMap, box, c, found, idx, s0, done);
      }
    }

    /** Chunk c is allocated: its rows are overwritten in place. */
    method PlaceIntoChunk(chunk: Chunk<T>, grid: array<int>, volMap: array<int>, box: IntBoundary, c: IVec3,
                          found: bool, idx: int, ghost s0: seq<Slot<T>>, ghost done: set<IVec3>)
      requires Valid() && Normal(box) && PosInside(chunkGridBound, c) && grid !in Repr && volMap !in Repr
      requires 0 <= PosToYzxIdx(chunkGridBound, c) < chunks.Length && chunks[PosToYzxIdx(chunkGridBound, c)] == chunk
      requires GridIdsFit(grid[..], volMap.Length, box) && DefaultIndex(volMap[..], found, idx)
      requires Placed(slots, s0, chunkGridBound, bitSize, box, grid[..], volMap[..], done, box.a, box.a.y, box.a.z)
      requires SameTiles(slots, s0, chunkGridBound, bitSize)
      modifies chunk.blocks, this`slots
      ensures Valid()
      ensures Placed(slots, s0, chunkGridBound, bitSize, box, grid[..], volMap[..], done + {c}, box.a, box.a.y, box.a.z)
      ensures SameTiles(slots, s0, chunkGridBound, bitSize)
    {
      var ci := PosToYzxIdx(chunkGridBound, c);
      assert Mirrors(chunk, slots[ci]);
      var out;
      ghost var sl';
      out, sl' := PlaceChunkRows(chunk, bitSize, grid, volMap, box, c, found, idx, slots, chunkGridBound, s0, done);
      slots := sl';
      forall i | 0 <= i < chunks.Length && i != ci ensures Mirrors(chunks[i], slots[i]) {
        var co := chunks[i];
        if co != null {
          assert old(Mirrors(co, slots[i])) && co.blocks != chunk.blocks;
        }
      }
    }

    /** Chunk c is absent: a fresh chunk takes its slot if some row needed one. */
    method PlaceIntoEmpty(grid: array<int>, volMap: array<int>, box: IntBoundary, c: IVec3,
                          found: bool, idx: int, ghost s0: seq<Slot<T>>, ghost done: set<IVec3>)
      requires Valid() && Normal(box) && PosInside(chunkGridBound, c) && grid !in Repr && volMap !in Repr
      requires 0 <= PosToYzxIdx(chunkGridBound, c) < chunks.Length && chunks[PosToYzxIdx(chunkGridBound, c)] == null
      requires GridIdsFit(grid[..], volMap.Length, box) && DefaultIndex(volMap[..], found, idx)
      requires Placed(slots, s0, chunkGridBound, bitSize, box, grid[..], volMap[..], done, box.a, box.a.y, box.a.z)
      requires SameTiles(slots, s0, chunkGridBound, bitSize)
      modifies chunks, this`slots, this`Repr
      ensures Valid() && fresh(Repr - old(Repr))
      ensures Placed(slots, s0, chunkGridBound, bitSize, box, grid[..], volMap[..], done + {c}, box.a, box.a.y, box.a.z)
      ensures SameTiles(slots, s0, chunkGridBound, bitSize)
    {
      var ci := PosToYzxIdx(chunkGridBound, c);
      assert Mirrors(null, slots[ci]);
      var out;
      ghost var sl';
      out, sl' := PlaceChunkRows(null, bitSize, grid, volMap, box, c, found, idx, slots, chunkGridBound, s0, done);
      InstallChunk(ci, out, SlotOf(out));
    }

    /** An empty slot given the chunk `out` (or left empty when it is null), mirrored by s. */
    method InstallChunk(ci: int, out: Chunk?<T>, ghost s: Slot<T>)
      requires Valid() && 0 <= ci < chunks.Length && chunks[ci] == null
      requires out != null ==> out.Valid() && out.bitSize == bitSize && out !in Repr && out.blocks !in Repr
      requires Mirrors(out, s)
      modifies chunks, this`slots, this`Repr
      ensures Valid() && Repr == old(Repr) + (if out == null then {} else {out, out.blocks})
      ensures slots == old(slots)[ci := s]
    {
      if out != null {
        chunks[ci] := out;
        Repr := Repr + {out, out.blocks};
      }
      slots := slots[ci := s];
      forall i | 0 <= i < chunks.Length && i != ci ensures Mirrors(chunks[i], slots[i]) {
        var co := chunks[i];
        if co != null {
          assert old(Mirrors(co, slots[i])) && co.blocks in old(Repr);
        }
      }
    }

    /** The block arrays of the allocated chunks. */
    ghost function BlockArrays(): set<array<int>>
      reads this, chunks
    {
      set i, co | 0 <= i < chunks.Length && co == chunks[i] && co != null :: co.blocks
    }

    /** The first entry interned into the freshly linked, empty palette: the default block. */
    method InternDefault(bs: BlockState)
      requires GridValid() && palette.Valid() && palette.linked == Some(uuid) && palette.entries == []
      modifies palette
      ensures Valid() && palette.entries == [VolBlockState(uuid, DEFAULT_BLOCK_ID, bs)]
    {
      var e := palette.GetOrAddBlock(bs);
      assert GridValid();
    }

    /** `expandLoadedArea`: `setLoadedArea` on the target area grown by e on every side. */
    method ExpandLoadedArea(e: IVec3)
      requires GridValid()
      modifies this`chunks, this`chunkGridBound, this`loadedBound, this`targetBounds, this`slots, this`Repr
      ensures GridValid() && fresh(Repr - old(Repr)) && (old(Valid()) ==> Valid())
      ensures targetBounds == Expand(old(targetBounds), e)
      ensures chunkGridBound == GridFor(targetBounds, bitSize)
      ensures loadedBound == Scaled(chunkGridBound, bitSize) && FullyInside(targetBounds, loadedBound)
      ensures forall i :: 0 <= i < chunks.Length ==>
        var q := GridPoints(chunkGridBound)[i]; chunks[i] == old(ChunkAt(q))
      ensures slots == Regridded(old(slots), old(chunkGridBound), chunkGridBound)
    {
      SetLoadedArea(Sub(targetBounds.a, e), Add(targetBounds.b, e));
    }
  }

  /** `McVolume.new`: a chunk bit size outside 1..8 is refused. Otherwise the volume loads the
      chunks covering [min, max), links its palette and interns the default block, which becomes
      entry 0; a malformed default block string is refused after that. The uuid, which the
      source draws from a global counter, is a parameter. */
  method NewVolume<T>(areaMin: IVec3, areaMax: IVec3, defaultBlockStr: string, b: int, uuid: int)
    returns (r: Result<McVolume<T>>)
    ensures !(1 <= b <= 8) ==> r == Err(InvalidConfiguration)
    ensures 1 <= b <= 8 && FromStr(defaultBlockStr).Err? ==> r == Err(FromStr(defaultBlockStr).error)
    ensures 1 <= b <= 8 && FromStr(defaultBlockStr).Ok? ==> r.Ok?
    ensures r.Ok? ==>
      var v := r.value;
      fresh(v) && v.Valid() && v.bitSize == b && v.uuid == uuid
      && v.palette.entries == [VolBlockState(uuid, DEFAULT_BLOCK_ID, FromStr(defaultBlockStr).value)]
      && v.targetBounds == Bounds.New(areaMin, areaMax)
      && forall p :: v.Id(p) == DEFAULT_BLOCK_ID && v.Tile(p) == None
  {
    if !(1 <= b <= 8) {
      return Err(InvalidConfiguration);
    }
    var vol := new McVolume<T>.Init(b, uuid, IntBoundary(Splat(0), Splat(0), Splat(0)));
    vol.SetLoadedArea(areaMin, areaMax);
    var linked := vol.palette.Link(uuid);
    var bs := FromStr(defaultBlockStr);
    if bs.Err? {
      return Err(bs.error);
    }
    vol.InternDefault(bs.value);
    forall p ensures vol.Id(p) == DEFAULT_BLOCK_ID && vol.Tile(p) == None {
      RegriddedIn<T>([], IntBoundary(Splat(0), Splat(0), Splat(0)), vol.chunkGridBound, b, p);
    }
    r := Ok(vol);
  }
}
