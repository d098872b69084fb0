/** The legacy `McVolume` of the `me.sloimay.mcvolume` package: the same sparse chunk store as
    the current volume, but with no ownership stamp and with its palette kept as a plain list of
    `VolBlock`s inside the volume, searched linearly by state string. */
module LegacyVolumes {
  import opened Wrappers
  import opened Vec
  import opened Bounds
  import opened BlockStates
  import opened VolBlocks
  import opened Chunks
  import opened ChunkGrid
  import opened VolumeSlots
  import opened BuildBounds

  /** `VolBlock`: a palette id and its block state. */
  datatype VolBlock = VolBlock(paletteId: int, state: BlockState)

  /** `indexOfFirst { str == it.state.stateStr }`: the first entry whose state prints as key, or -1. */
  function IndexOfFirst(es: seq<VolBlock>, key: string): (i: int)
    ensures -1 <= i < |es|
    ensures i == -1 <==> forall j :: 0 <= j < |es| ==> StateStr(es[j].state) != key
    ensures i >= 0 ==> StateStr(es[i].state) == key && forall j :: 0 <= j < i ==> StateStr(es[j].state) != key
  {
    if |es| == 0 then -1
    else if StateStr(es[|es| - 1].state) == key && IndexOfFirst(es[..|es| - 1], key) == -1 then |es| - 1
    else
      var i := IndexOfFirst(es[..|es| - 1], key);
      assert forall j :: 0 <= j < |es| - 1 ==> es[..|es| - 1][j] == es[j];
      i
  }

  /** Entry i carries id i (as a Short): what appending with id = size keeps. */
  predicate DenseList(es: seq<VolBlock>) {
    forall i :: 0 <= i < |es| ==> es[i].paletteId == ToShort(i)
  }

  /** No two entries print the same state. */
  predicate DistinctStates(es: seq<VolBlock>) {
    forall i, j :: 0 <= i < j < |es| ==> StateStr(es[i].state) != StateStr(es[j].state)
  }

  /** `volBlockPalette[id]`: the entry at id, or a failure for an id outside the list. */
  function EntryAt(es: seq<VolBlock>, id: int): (r: Result<VolBlock>)
    ensures r.Ok? <==> 0 <= id < |es|
    ensures r.Ok? ==> r.value == es[id]
  {
    if 0 <= id < |es| then Ok(es[id]) else Err(IndexOutOfRange)
  }

  // ---------------------------------------------------------------------------
  // The palette lookup by string

  /** The palette after `getPaletteBlock(str)` as written: the raw string is compared with the
      printed states, and when none matches, the parsed state is appended under the next id. */
  function AsWrittenLookup(es: seq<VolBlock>, str: string): seq<VolBlock> {
    if IndexOfFirst(es, str) >= 0 then es
    else match FromStr(str)
      case Err(_) => es
      case Ok(bs) => es + [VolBlock(ToShort(|es|), bs)]
  }

  /** The palette after interning bs: unchanged when an entry prints like bs, else bs appended
      under the next id. */
  function Interned(es: seq<VolBlock>, bs: BlockState): seq<VolBlock> {
    if IndexOfFirst(es, StateStr(bs)) >= 0 then es else es + [VolBlock(ToShort(|es|), bs)]
  }

  /** The palette after the corrected lookup: the string is parsed first and its printed form
      is searched for, so a state is appended only when no entry prints the same way. */
  function CanonicalLookup(es: seq<VolBlock>, str: string): seq<VolBlock> {
    match FromStr(str)
    case Err(_) => es
    case Ok(bs) => Interned(es, bs)
  }

  /** Every printed state holds the `:` between namespace and name. */
  lemma ColonInStateStr(bs: BlockState)
    ensures ':' in StateStr(bs)
  {
    assert StateStr(bs)[|bs.resLoc|] == ':';
  }

  /** A string without `:` never matches a printed state, so the lookup as written never finds it. */
  lemma RawKeyNeverFound(es: seq<VolBlock>, str: string)
    requires ':' !in str
    ensures IndexOfFirst(es, str) == -1
  {
    forall j | 0 <= j < |es| ensures StateStr(es[j].state) != str {
      ColonInStateStr(es[j].state);
    }
  }

  /** As written, looking the same namespace-less string up twice (`stone`, say) appends its
      state twice: the palette then holds two entries that print the same. */
  lemma AsWrittenLookupDuplicates(es: seq<VolBlock>, str: string)
    requires ':' !in str && FromStr(str).Ok?
    ensures |AsWrittenLookup(AsWrittenLookup(es, str), str)| == |es| + 2
    ensures !DistinctStates(AsWrittenLookup(AsWrittenLookup(es, str), str))
  {
    RawKeyNeverFound(es, str);
    var es1 := AsWrittenLookup(es, str);
    RawKeyNeverFound(es1, str);
    var es2 := AsWrittenLookup(es1, str);
    assert es2[|es|].state == es2[|es| + 1].state;
  }

  /** Interning keeps the states distinct, and interning the same state again changes nothing. */
  lemma InternedDistinct(es: seq<VolBlock>, bs: BlockState)
    requires DistinctStates(es)
    ensures DistinctStates(Interned(es, bs))
    ensures Interned(Interned(es, bs), bs) == Interned(es, bs)
  {
    var es1 := Interned(es, bs);
    if IndexOfFirst(es, StateStr(bs)) < 0 {
      assert es1[|es|].state == bs;
      assert IndexOfFirst(es1, StateStr(bs)) >= 0;
    }
  }

  /** The corrected lookup keeps the states distinct, and looking the same string up again
      changes nothing. */
  lemma CanonicalLookupDistinct(es: seq<VolBlock>, str: string)
    requires DistinctStates(es)
    ensures DistinctStates(CanonicalLookup(es, str))
    ensures CanonicalLookup(CanonicalLookup(es, str), str) == CanonicalLookup(es, str)
  {
    if FromStr(str).Ok? {
      InternedDistinct(es, FromStr(str).value);
    }
  }

  /** On a string that is already the printed form of its state the two lookups agree; this is
      the case for every call made with `blockState.stateStr` of a well-formed state. */
  lemma CanonicalLookupAgrees(es: seq<VolBlock>, str: string)
    requires FromStr(str).Ok? && StateStr(FromStr(str).value) == str
    ensures CanonicalLookup(es, str) == AsWrittenLookup(es, str)
  {
  }

  lemma CanonicalLookupOfState(es: seq<VolBlock>, bs: BlockState)
    requires WellFormed(bs)
    ensures CanonicalLookup(es, StateStr(bs)) == AsWrittenLookup(es, StateStr(bs))
    ensures FromStr(StateStr(bs)) == Ok(bs)
  {
    FromStrStateStr(bs);
    CanonicalLookupAgrees(es, StateStr(bs));
  }

  /** Appending keeps ids dense. */
  lemma DenseAppend(es: seq<VolBlock>, bs: BlockState)
    requires DenseList(es)
    ensures DenseList(es + [VolBlock(ToShort(|es|), bs)])
  {
  }

  class LegacyVolume<T> {
    /** `CHUNK_BIT_SIZE`: chunks are 2^b blocks on a side. */
    const bitSize: nat
    /** One slot per chunk-grid position, Y-Z-X; null means every block is the default. */
    var chunks: array<Chunk?<T>>
    /** `volBlockPalette`: entry i has id i. */
    var volBlockPalette: seq<VolBlock>
    /** The loaded chunks, in chunk-grid coordinates. */
    var chunkGridBound: IntBoundary
    /** The loaded blocks: the chunk grid times the chunk side. */
    var loadedBound: IntBoundary
    /** The area last asked for (`setLoadedArea`'s argument). */
    var wantedBound: IntBoundary

    /** The chunks as values. */
    ghost var slots: seq<Slot<T>>
    ghost var Repr: set<object>

    /** The field initialisers: no chunk slots, an empty palette, every bound the empty box at
        the origin. */
    constructor Init(b: nat, origin: IntBoundary)
      requires origin == IntBoundary(Splat(0), Splat(0), Splat(0))
      ensures bitSize == b && fresh(chunks) && volBlockPalette == []
      ensures chunkGridBound == origin && loadedBound == origin && wantedBound == origin
      ensures slots == [] && Repr == {this, chunks}
      ensures 1 <= b <= 8 ==> GridValid()
    {
      bitSize := b;
      chunks := new Chunk?<T>[0];
      volBlockPalette := [];
      chunkGridBound := origin;
      loadedBound := origin;
      wantedBound := origin;
      slots := [];
      Repr := {this, chunks};
    }

    /** The value of one chunk slot. */
    ghost predicate Mirrors(c: Chunk?<T>, s: Slot<T>)
      reads c, if c == null then {} else {c.blocks}
    {
      if c == null then s.Empty?
      else s.Loaded? && s.ids == c.blocks[..] && s.tiles == c.tileData
    }

    /** One slot per grid position, mirrored by `slots`; the loaded blocks are the grid scaled by
        the chunk side; allocated chunks are well-formed, of the volume's bit size, owned by the
        volume, and share neither themselves nor their block arrays. */
    ghost predicate GridValid()
      reads this, Repr
    {
      this in Repr && chunks in Repr
      && 1 <= bitSize <= 8
      && Normal(chunkGridBound) && chunks.Length == Volume(chunkGridBound) == |slots|
      && loadedBound == Scaled(chunkGridBound, bitSize)
      && SlotsFit(slots, bitSize)
      && (forall i :: 0 <= i < chunks.Length && chunks[i] != null ==>
            chunks[i] in Repr && chunks[i].blocks in Repr
            && chunks[i].bitSize == bitSize && chunks[i].Valid())
      && (forall i :: 0 <= i < chunks.Length ==> Mirrors(chunks[i], slots[i]))
      && (forall i, j ::
            (0 <= i < chunks.Length && 0 <= j < chunks.Length && i != j
             && chunks[i] != null && chunks[j] != null) ==>
            chunks[i] != chunks[j] && chunks[i].blocks != chunks[j].blocks)
    }

    /** The grid invariant, and the palette holds the default entry and dense ids. */
    ghost predicate Valid()
      reads this, Repr
    {
      GridValid() && |volBlockPalette| >= 1 && DenseList(volBlockPalette)
    }

    /** The id stored at p. */
    ghost function Id(p: IVec3): int
      reads this
    {
      IdIn(slots, chunkGridBound, bitSize, p)
    }

    /** The tile data stored at p. */
    ghost function Tile(p: IVec3): Option<T>
      reads this
    {
      TileIn(slots, chunkGridBound, bitSize, p)
    }

    /** `chunkGridBound.posToYzxIdx(posToChunkPos(p))`: the slot of the chunk holding p. */
    function ChunkIdx(p: IVec3): int
      reads this
    {
      PosToYzxIdx(chunkGridBound, PosToChunkPos(p, bitSize))
    }

    /** `addPaletteBlock`: the parsed state is appended under id = size (a malformed string is
        refused with nothing changed). */
    method AddPaletteBlock(str: string) returns (r: Result<VolBlock>)
      requires GridValid() && DenseList(volBlockPalette)
      modifies this`volBlockPalette
      ensures GridValid() && DenseList(volBlockPalette)
      ensures FromStr(str).Err? ==> r == Err(FromStr(str).error) && volBlockPalette == old(volBlockPalette)
      ensures FromStr(str).Ok? ==>
        r == Ok(VolBlock(ToShort(old(|volBlockPalette|)), FromStr(str).value))
        && volBlockPalette == old(volBlockPalette) + [r.value]
    {
      var bs := FromStr(str);
      if bs.Err? {
        return Err(bs.error);
      }
      var vb := VolBlock(ToShort(|volBlockPalette|), bs.value);
      DenseAppend(volBlockPalette, bs.value);
      volBlockPalette := volBlockPalette + [vb];
      r := Ok(vb);
    }

    /** `getPaletteBlock(String)` as written: the first entry whose printed state equals the raw
        string, else the string's state appended. A string without a namespace never matches,
        so each call appends another entry for it. */
    method GetPaletteBlockStr(str: string) returns (r: Result<VolBlock>)
      requires Valid()
      modifies this`volBlockPalette
      ensures Valid()
      ensures volBlockPalette == AsWrittenLookup(old(volBlockPalette), str)
      ensures old(IndexOfFirst(volBlockPalette, str)) >= 0 ==>
        r == Ok(volBlockPalette[old(IndexOfFirst(volBlockPalette, str))])
      ensures old(IndexOfFirst(volBlockPalette, str)) < 0 && FromStr(str).Err? ==> r == Err(FromStr(str).error)
      ensures old(IndexOfFirst(volBlockPalette, str)) < 0 && FromStr(str).Ok? ==>
        r == Ok(volBlockPalette[old(|volBlockPalette|)])
      ensures ':' !in str && FromStr(str).Ok? ==> |volBlockPalette| == old(|volBlockPalette|) + 1
    {
      if ':' !in str {
        RawKeyNeverFound(volBlockPalette, str);
      }
      var blockIdx := IndexOfFirst(volBlockPalette, str);
      if blockIdx == -1 {
        r := AddPaletteBlock(str);
      } else {
        r := Ok(volBlockPalette[blockIdx]);
      }
    }

    /** The corrected lookup: the string is parsed first and the entry printing like its state
        is returned, appended only when there is none. */
    method GetPaletteBlockCanonical(str: string) returns (r: Result<VolBlock>)
      requires Valid()
      modifies this`volBlockPalette
      ensures Valid()
      ensures volBlockPalette == CanonicalLookup(old(volBlockPalette), str)
      ensures r.Err? <==> FromStr(str).Err?
      ensures r.Err? ==> r.error == FromStr(str).error
      ensures r.Ok? ==> r.value in volBlockPalette && StateStr(r.value.state) == StateStr(FromStr(str).value)
    {
      var bs := FromStr(str);
      if bs.Err? {
        return Err(bs.error);
      }
      var vb := InternState(bs.value);
      r := Ok(vb);
    }

    /** Interning one state: the first entry printing like it, else it appended under the next
        id. Distinct printed states stay distinct. */
    method InternState(bs: BlockState) returns (vb: VolBlock)
      requires Valid()
      modifies this`volBlockPalette
      ensures Valid()
      ensures volBlockPalette == Interned(old(volBlockPalette), bs)
      ensures vb in volBlockPalette && StateStr(vb.state) == StateStr(bs)
      ensures old(DistinctStates(volBlockPalette)) ==> DistinctStates(volBlockPalette)
    {
      if DistinctStates(volBlockPalette) {
        InternedDistinct(volBlockPalette, bs);
      }
      var blockIdx := IndexOfFirst(volBlockPalette, StateStr(bs));
      if blockIdx == -1 {
        vb := VolBlock(ToShort(|volBlockPalette|), bs);
        DenseAppend(volBlockPalette, bs);
        volBlockPalette := volBlockPalette + [vb];
      } else {
        vb := volBlockPalette[blockIdx];
      }
    }

    /** `getPaletteBlock(BlockState)`: the lookup by the state's printed form. For a well-formed
        state that form parses back to the state, so the source's lookup and the corrected one
        do the same thing. */
    method GetPaletteBlock(bs: BlockState) returns (r: Result<VolBlock>)
      requires Valid()
      modifies this`volBlockPalette
      ensures Valid()
      ensures volBlockPalette == CanonicalLookup(old(volBlockPalette), StateStr(bs))
      ensures WellFormed(bs) ==>
        volBlockPalette == AsWrittenLookup(old(volBlockPalette), StateStr(bs))
        && r.Ok? && r.value in volBlockPalette && StateStr(r.value.state) == StateStr(bs)
    {
      if WellFormed(bs) {
        CanonicalLookupOfState(volBlockPalette, bs);
      }
      r := GetPaletteBlockCanonical(StateStr(bs));
    }

    /** `getDefaultBlock`: palette entry 0. */
    function GetDefaultBlock(): (e: VolBlock)
      requires Valid()
      reads this, Repr
      ensures e == volBlockPalette[0] && e.paletteId == DEFAULT_BLOCK_ID
    {
      ToShortOfShort(0);
      volBlockPalette[0]
    }

    /** `setBlock`: refused outside the loaded area; any entry is accepted otherwise (there is no
        ownership check) and its id is written at p, allocating the chunk only for a
        non-default id. */
    method SetBlock(p: IVec3, vb: VolBlock) returns (r: Outcome)
      requires Valid()
      modifies Repr
      ensures Valid() && fresh(Repr - old(Repr))
      ensures chunkGridBound == old(chunkGridBound) && loadedBound == old(loadedBound)
      ensures wantedBound == old(wantedBound) && volBlockPalette == old(volBlockPalette)
      ensures r == if !PosInside(loadedBound, p) then Fail(OutOfBounds) else Pass
      ensures slots == if r.Fail? then old(slots) else WithId(old(slots), chunkGridBound, bitSize, p, vb.paletteId)
    {
      if !PosInside(loadedBound, p) {
        return Fail(OutOfBounds);
      }
      LoadedIdx(chunkGridBound, bitSize, p);
      var c := chunks[ChunkIdx(p)];
      if c == null {
        if vb.paletteId != DEFAULT_BLOCK_ID {
          WriteIdFresh(p, vb.paletteId);
        } else {
          slots := WithId(slots, chunkGridBound, bitSize, p, vb.paletteId);
        }
      } else {
        WriteIdInto(c, p, vb.paletteId);
      }
      r := Pass;
    }

    /** The write into an allocated chunk. */
    method WriteIdInto(c: Chunk<T>, p: IVec3, id: int)
      requires Valid() && PosInside(loadedBound, p) && 0 <= ChunkIdx(p) < chunks.Length && c == chunks[ChunkIdx(p)]
      modifies c.blocks, this`slots
      ensures Valid() && slots == WithId(old(slots), chunkGridBound, bitSize, p, id)
    {
      LoadedIdx(chunkGridBound, bitSize, p);
      LocalIdxRange(p, bitSize);
      var idx := ChunkIdx(p);
      // the chunk stores only the id of what it is given
      c.SetBlock(PosToChunkLocal(p, bitSize), VolBlockState(0, id, BlockState("", "", [])));
      slots := WithId(slots, chunkGridBound, bitSize, p, id);
      forall i | 0 <= i < chunks.Length && i != idx ensures Mirrors(chunks[i], slots[i]) {
        var ci := chunks[i];
        if ci != null {
          assert old(Mirrors(ci, slots[i])) && ci.blocks != c.blocks;
        }
      }
    }

    /** The write that first puts a fresh chunk in the empty slot of p. */
    method WriteIdFresh(p: IVec3, id: int)
      requires Valid() && PosInside(loadedBound, p) && 0 <= ChunkIdx(p) < chunks.Length && chunks[ChunkIdx(p)] == null
      requires id != DEFAULT_BLOCK_ID
      modifies chunks, this`slots, this`Repr
      ensures Valid() && fresh(Repr - old(Repr))
      ensures slots == WithId(old(slots), chunkGridBound, bitSize, p, id)
    {
      LoadedIdx(chunkGridBound, bitSize, p);
      LocalIdxRange(p, bitSize);
      var idx := ChunkIdx(p);
      var nc := new Chunk<T>(bitSize);
      assert nc.blocks[..] == EmptyIds(bitSize);
      nc.SetBlock(PosToChunkLocal(p, bitSize), VolBlockState(0, id, BlockState("", "", [])));
      chunks[idx] := nc;
      Repr := Repr + {nc, nc.blocks};
      slots := WithId(slots, chunkGridBound, bitSize, p, id);
      forall i | 0 <= i < chunks.Length && i != idx ensures Mirrors(chunks[i], slots[i]) {
        var ci := chunks[i];
        if ci != null {
          assert old(Mirrors(ci, slots[i])) && ci.blocks in old(Repr);
        }
      }
    }

    /** `getBlock`: refused outside the loaded area; otherwise the palette entry of the id at p
        (entry 0 for a null chunk). */
    method GetBlock(p: IVec3) returns (r: Result<VolBlock>)
      requires Valid()
      ensures r == if !PosInside(loadedBound, p) then Err(OutOfBounds) else EntryAt(volBlockPalette, Id(p))
    {
      if !PosInside(loadedBound, p) {
        return Err(OutOfBounds);
      }
      LoadedIdx(chunkGridBound, bitSize, p);
      LocalIdxRange(p, bitSize);
      var c := chunks[ChunkIdx(p)];
      if c == null {
        r := EntryAt(volBlockPalette, DEFAULT_BLOCK_ID);
      } else {
        r := EntryAt(volBlockPalette, c.GetBlock(PosToChunkLocal(p, bitSize)));
      }
    }

    /** `setTileData`: refused outside the loaded area; otherwise the data is stored at p (or
        removed, for none), allocating the chunk only to store some. */
    method SetTileData(p: IVec3, data: Option<T>) returns (r: Outcome)
      requires Valid()
      modifies Repr
      ensures Valid() && fresh(Repr - old(Repr))
      ensures chunkGridBound == old(chunkGridBound) && loadedBound == old(loadedBound)
      ensures wantedBound == old(wantedBound) && volBlockPalette == old(volBlockPalette)
      ensures r == if !PosInside(loadedBound, p) then Fail(OutOfBounds) else Pass
      ensures slots == if r.Fail? then old(slots) else WithTile(old(slots), chunkGridBound, bitSize, p, data)
    {
      if !PosInside(loadedBound, p) {
        return Fail(OutOfBounds);
      }
      LoadedIdx(chunkGridBound, bitSize, p);
      var c := chunks[ChunkIdx(p)];
      if c == null {
        if data.Some? {
          WriteTileFresh(p, data.value);
        } else {
          slots := WithTile(slots, chunkGridBound, bitSize, p, data);
        }
      } else {
        WriteTileInto(c, p, data);
      }
      r := Pass;
    }

    /** Tile data stored into (or removed from) an allocated chunk. */
    method WriteTileInto(c: Chunk<T>, p: IVec3, data: Option<T>)
      requires Valid() && PosInside(loadedBound, p) && 0 <= ChunkIdx(p) < chunks.Length && c == chunks[ChunkIdx(p)]
      modifies c, this`slots
      ensures Valid() && slots == WithTile(old(slots), chunkGridBound, bitSize, p, data)
    {
      LoadedIdx(chunkGridBound, bitSize, p);
      var idx := ChunkIdx(p);
      c.SetTileData(PosToChunkLocal(p, bitSize), data);
      slots := WithTile(slots, chunkGridBound, bitSize, p, data);
      forall i | 0 <= i < chunks.Length && i != idx ensures Mirrors(chunks[i], slots[i]) {
        var ci := chunks[i];
        if ci != null {
          assert old(Mirrors(ci, slots[i])) && ci != c;
        }
      }
    }

    /** Tile data stored at p by first putting a fresh chunk in p's empty slot. */
    method WriteTileFresh(p: IVec3, data: T)
      requires Valid() && PosInside(loadedBound, p) && 0 <= ChunkIdx(p) < chunks.Length && chunks[ChunkIdx(p)] == null
      modifies chunks, this`slots, this`Repr
      ensures Valid() && fresh(Repr - old(Repr))
      ensures slots == WithTile(old(slots), chunkGridBound, bitSize, p, Some(data))
    {
      LoadedIdx(chunkGridBound, bitSize, p);
      var idx := ChunkIdx(p);
      var nc := new Chunk<T>(bitSize);
      assert nc.blocks[..] == EmptyIds(bitSize);
      nc.SetTileData(PosToChunkLocal(p, bitSize), Some(data));
      chunks[idx] := nc;
      Repr := Repr + {nc, nc.blocks};
      slots := WithTile(slots, chunkGridBound, bitSize, p, Some(data));
      forall i | 0 <= i < chunks.Length && i != idx ensures Mirrors(chunks[i], slots[i]) {
        var ci := chunks[i];
        if ci != null {
          assert old(Mirrors(ci, slots[i])) && ci in old(Repr);
        }
      }
    }

    /** `getTileData`: refused outside the loaded area; otherwise the data at p (none for a null
        chunk). */
    method GetTileData(p: IVec3) returns (r: Result<Option<T>>)
      requires Valid()
      ensures r == if !PosInside(loadedBound, p) then Err(OutOfBounds) else Ok(Tile(p))
    {
      if !PosInside(loadedBound, p) {
        return Err(OutOfBounds);
      }
      LoadedIdx(chunkGridBound, bitSize, p);
      var c := chunks[ChunkIdx(p)];
      if c == null {
        r := Ok(None);
      } else {
        r := Ok(c.GetTileData(PosToChunkLocal(p, bitSize)));
      }
    }

    /** The chunk at grid position q, or null when the grid does not have q. */
    function ChunkAt(q: IVec3): Chunk?<T>
      reads this, chunks
    {
      var i := PosToYzxIdx(chunkGridBound, q);
      if PosInside(chunkGridBound, q) && 0 <= i < chunks.Length then chunks[i] else null
    }

    /** `setLoadedArea`: a new chunk array for the chunk grid covering [min, max) (corners
        normalised); the wanted area becomes that box. Each chunk whose position is in both
        grids keeps its object and moves to its new slot; every other chunk is dropped. */
    method SetLoadedArea(areaMin: IVec3, areaMax: IVec3)
      requires GridValid()
      modifies this`chunks, this`chunkGridBound, this`loadedBound, this`wantedBound, this`slots, this`Repr
      ensures GridValid() && fresh(Repr - old(Repr)) && (old(Valid()) ==> Valid())
      ensures wantedBound == Bounds.New(areaMin, areaMax)
      ensures chunkGridBound == GridFor(wantedBound, bitSize)
      ensures loadedBound == Scaled(chunkGridBound, bitSize) && FullyInside(wantedBound, loadedBound)
      ensures forall i :: 0 <= i < chunks.Length ==>
        var q := GridPoints(chunkGridBound)[i]; chunks[i] == old(ChunkAt(q))
      ensures slots == Regridded(old(slots), old(chunkGridBound), chunkGridBound)
    {
      var wanted := Bounds.New(areaMin, areaMax);
      var grid := GridFor(wanted, bitSize);
      GridForCovers(wanted, bitSize);
      VolumeNonNegative(grid);
      var newChunks := new Chunk?<T>[Volume(grid)](_ => null);
      if chunks.Length > 0 {
        MoveChunks(newChunks, grid);
      } else {
        forall i | 0 <= i < newChunks.Length ensures newChunks[i] == ChunkAt(GridPoints(grid)[i]) {
        }
      }
      assert forall i :: 0 <= i < newChunks.Length ==>
        newChunks[i] == old(ChunkAt(GridPoints(grid)[i]));
      ghost var kept := Regridded(slots, chunkGridBound, grid);
      KeptChunks(newChunks, grid);
      RegriddedFit(slots, chunkGridBound, grid, bitSize);
      Install(newChunks, grid, wanted, kept);
    }

    /** The chunks `setLoadedArea` keeps are well-formed, owned, mirrored by the regridded slots
        and still pairwise distinct. */
    lemma KeptChunks(newChunks: array<Chunk?<T>>, grid: IntBoundary)
      requires GridValid() && Normal(grid) && newChunks.Length == Volume(grid)
      requires forall i :: 0 <= i < newChunks.Length ==> newChunks[i] == ChunkAt(GridPoints(grid)[i])
      ensures var kept := Regridded(slots, chunkGridBound, grid);
        forall i :: 0 <= i < newChunks.Length ==>
          (newChunks[i] == null <==> kept[i].Empty?)
          && (newChunks[i] != null ==>
            newChunks[i] in Repr && newChunks[i].blocks in Repr && newChunks[i].bitSize == bitSize
            && newChunks[i].Valid() && Mirrors(newChunks[i], kept[i]))
      ensures forall i, i' ::
          (0 <= i < newChunks.Length && 0 <= i' < newChunks.Length && i != i'
           && newChunks[i] != null && newChunks[i'] != null) ==>
          newChunks[i] != newChunks[i'] && newChunks[i].blocks != newChunks[i'].blocks
    {
      var pts := GridPoints(grid);
      var kept := Regridded(slots, chunkGridBound, grid);
      forall i | 0 <= i < newChunks.Length
        ensures newChunks[i] == null <==> kept[i].Empty?
        ensures newChunks[i] != null ==>
          newChunks[i] in Repr && newChunks[i].blocks in Repr && newChunks[i].bitSize == bitSize
          && newChunks[i].Valid() && Mirrors(newChunks[i], kept[i])
      {
        var j := PosToYzxIdx(chunkGridBound, pts[i]);
        if PosInside(chunkGridBound, pts[i]) && 0 <= j < chunks.Length {
          assert Mirrors(chunks[j], slots[j]);
        }
      }
      forall i, i' | 0 <= i < newChunks.Length && 0 <= i' < newChunks.Length && i != i'
          && newChunks[i] != null && newChunks[i'] != null
        ensures newChunks[i] != newChunks[i'] && newChunks[i].blocks != newChunks[i'].blocks
      {
        var j, j' := PosToYzxIdx(chunkGridBound, pts[i]), PosToYzxIdx(chunkGridBound, pts[i']);
        if j == j' {
          YzxIdxInjective(chunkGridBound, pts[i], pts[i']);
        }
      }
    }

    /** The field updates that end `setLoadedArea`. */
    method Install(newChunks: array<Chunk?<T>>, grid: IntBoundary, wanted: IntBoundary,
                   ghost kept: seq<Slot<T>>)
      requires GridValid() && Normal(grid) && newChunks.Length == Volume(grid) == |kept|
      requires SlotsFit(kept, bitSize)
      requires forall i :: 0 <= i < newChunks.Length ==>
          (newChunks[i] == null <==> kept[i].Empty?)
          && (newChunks[i] != null ==>
            newChunks[i] in Repr && newChunks[i].blocks in Repr && newChunks[i].bitSize == bitSize
            && newChunks[i].Valid() && Mirrors(newChunks[i], kept[i]))
      requires forall i, i' ::
          (0 <= i < newChunks.Length && 0 <= i' < newChunks.Length && i != i'
           && newChunks[i] != null && newChunks[i'] != null) ==>
          newChunks[i] != newChunks[i'] && newChunks[i].blocks != newChunks[i'].blocks
      modifies this`chunks, this`chunkGridBound, this`loadedBound, this`wantedBound, this`slots, this`Repr
      ensures chunks == newChunks && chunkGridBound == grid && loadedBound == Scaled(grid, bitSize)
      ensures wantedBound == wanted && slots == kept && Repr == old(Repr) + {newChunks}
      ensures GridValid() && (old(Valid()) ==> Valid())
    {
      chunks := newChunks;
      chunkGridBound := grid;
      loadedBound := Scaled(grid, bitSize);
      wantedBound := wanted;
      slots := kept;
      Repr := Repr + {newChunks};
    }

    /** The copy loop of `setLoadedArea` over the old grid (which is not empty, so `iterYzx`
        visits exactly its positions): each old chunk whose position is in the new grid is
        stored in its slot there. */
    method MoveChunks(newChunks: array<Chunk?<T>>, grid: IntBoundary)
      requires GridValid() && chunks.Length > 0 && Normal(grid) && newChunks.Length == Volume(grid)
      requires newChunks !in Repr && forall i :: 0 <= i < newChunks.Length ==> newChunks[i] == null
      modifies newChunks
      ensures forall i :: 0 <= i < newChunks.Length ==> newChunks[i] == ChunkAt(GridPoints(grid)[i])
    {
      var pts := GridPoints(grid);
      var g := chunkGridBound;
      if g.dim.x == 0 || g.dim.z == 0 {
        FlatVolume(g);
      }
      var it := new YzxIter(g);
      while it.HasNext()
        invariant it.Valid() && it.box == g
        invariant forall i :: 0 <= i < newChunks.Length ==>
          newChunks[i] == if PosToYzxIdx(g, pts[i]) < it.yielded then ChunkAt(pts[i]) else null
        decreases Volume(g) - it.yielded
      {
        PointAtBelowTop(g, it.yielded);
        YzxIdxPointAt(g, it.yielded);
        ghost var k := it.yielded;
        var c := it.Next();
        MoveOne(newChunks, grid, pts, c, k);
      }
      PointAtBelowTop(g, it.yielded);
      forall i | 0 <= i < newChunks.Length ensures newChunks[i] == ChunkAt(pts[i]) {
        if PosInside(g, pts[i]) {
          YzxIdxInRange(g, pts[i]);
        }
      }
    }

    /** One step of the copy loop of `setLoadedArea`: the old chunk at c, the k-th position of
        the old grid, goes to c's slot in the new grid when c lies there. */
    method MoveOne(newChunks: array<Chunk?<T>>, grid: IntBoundary, ghost pts: seq<IVec3>,
                   c: IVec3, ghost k: int)
      requires GridValid() && Normal(grid) && newChunks.Length == Volume(grid) == |pts|
      requires forall i :: 0 <= i < |pts| ==> PosInside(grid, pts[i]) && PosToYzxIdx(grid, pts[i]) == i
      requires newChunks !in Repr && 0 <= k < chunks.Length
      requires PosInside(chunkGridBound, c) && PosToYzxIdx(chunkGridBound, c) == k
      requires forall i :: 0 <= i < newChunks.Length ==>
        newChunks[i] == if PosToYzxIdx(chunkGridBound, pts[i]) < k then ChunkAt(pts[i]) else null
      modifies newChunks
      ensures forall i :: 0 <= i < newChunks.Length ==>
        newChunks[i] == if PosToYzxIdx(chunkGridBound, pts[i]) < k + 1 then ChunkAt(pts[i]) else null
    {
      var g := chunkGridBound;
      ghost var before := newChunks[..];
      ghost var target := -1;
      if PosInside(grid, c) {
        var oldChunk := chunks[PosToYzxIdx(g, c)];
        if oldChunk != null {
          YzxIdxInRange(grid, c);
          target := PosToYzxIdx(grid, c);
          newChunks[PosToYzxIdx(grid, c)] := oldChunk;
        }
      }
      forall i | 0 <= i < newChunks.Length
        ensures newChunks[i] == if PosToYzxIdx(g, pts[i]) < k + 1 then ChunkAt(pts[i]) else null
      {
        if PosToYzxIdx(g, pts[i]) == k && PosInside(g, pts[i]) {
          YzxIdxInjective(g, pts[i], c);
        }
        if i == target {
          YzxIdxInjective(grid, pts[i], c);
        } else {
          assert newChunks[i] == before[i];
        }
      }
    }

    /** `expandLoadedArea`: `setLoadedArea` on the wanted area grown by e on every side. */
    method ExpandLoadedArea(e: IVec3)
      requires GridValid()
      modifies this`chunks, this`chunkGridBound, this`loadedBound, this`wantedBound, this`slots, this`Repr
      ensures GridValid() && fresh(Repr - old(Repr)) && (old(Valid()) ==> Valid())
      ensures wantedBound == Expand(old(wantedBound), e)
      ensures chunkGridBound == GridFor(wantedBound, bitSize)
      ensures loadedBound == Scaled(chunkGridBound, bitSize) && FullyInside(wantedBound, loadedBound)
      ensures forall i :: 0 <= i < chunks.Length ==>
        var q := GridPoints(chunkGridBound)[i]; chunks[i] == old(ChunkAt(q))
      ensures slots == Regridded(old(slots), old(chunkGridBound), chunkGridBound)
    {
      SetLoadedArea(Sub(wantedBound.a, e), Add(wantedBound.b, e));
    }

    /** `cleanChunks`: every allocated chunk whose blocks are all the default id is dropped,
        tile data and all. The walk uses the corrected guard of `iterYzx` (`HasNextInside`), as
        the current volume's does. */
    method CleanChunks()
      requires Valid()
      modifies chunks, this`slots
      ensures Valid() && slots == Cleaned(old(slots))
    {
      var g := chunkGridBound;
      var it := new YzxIter(g);
      ghost var s0 := slots;
      ghost var positive := g.dim.x > 0 && g.dim.z > 0;
      if !positive {
        FlatVolume(g);
      }
      while it.HasNextInside()
        invariant Valid() && it.box == g && chunkGridBound == g
        invariant positive ==> it.Valid()
        invariant !positive ==> it.yielded == 0
        invariant it.yielded <= |s0|
        invariant slots == CleanedUpTo(s0, it.yielded)
        decreases Volume(g) - it.yielded
      {
        PointAtBelowTop(g, it.yielded);
        YzxIdxPointAt(g, it.yielded);
        var c := it.Next();
        CleanSlot(PosToYzxIdx(g, c), s0);
      }
      if positive {
        PointAtBelowTop(g, it.yielded);
      }
      CleanedDone(s0);
    }

    /** One step of `cleanChunks`: the chunk in slot idx is dropped when it holds only default
        ids. */
    method CleanSlot(idx: int, ghost s0: seq<Slot<T>>)
      requires Valid() && 0 <= idx < |s0| && slots == CleanedUpTo(s0, idx)
      modifies chunks, this`slots
      ensures Valid() && slots == CleanedUpTo(s0, idx + 1)
    {
      CleanedStep(s0, idx);
      var chunk := chunks[idx];
      assert Mirrors(chunk, slots[idx]);
      if chunk != null && chunk.CanBeCleanedUp() {
        assert chunk.blocks[..] == slots[idx].ids;
        DropChunk(idx);
      }
    }

    /** Empties slot idx, whose chunk holds only default ids. */
    method DropChunk(idx: int)
      requires Valid() && 0 <= idx < chunks.Length && chunks[idx] != null
      requires AllDefault(slots[idx].ids)
      modifies chunks, this`slots
      ensures Valid() && slots == old(slots)[idx := Empty]
    {
      chunks[idx] := null;
      slots := slots[idx := Empty];
      forall i | 0 <= i < chunks.Length && i != idx ensures Mirrors(chunks[i], slots[i]) {
        assert old(Mirrors(chunks[i], slots[i]));
      }
    }

    /** `getBuildChunkBounds`: the least and greatest positions of the allocated chunks, folded
        over the grid in Y-Z-X order, as a box; None when no chunk is allocated. */
    method GetBuildChunkBounds() returns (r: Option<IntBoundary>)
      requires Valid()
      ensures r == BuildChunkBounds(slots, chunkGridBound)
    {
      var minChunkPos: Option<IVec3> := None;
      var maxChunkPos: Option<IVec3> := None;
      var g := chunkGridBound;
      ghost var pts := GridPoints(g);
      var it := new YzxIter(g);
      ghost var positive := g.dim.x > 0 && g.dim.z > 0;
      if !positive {
        FlatVolume(g);
      }
      while it.HasNextInside()
        invariant it.box == g && (positive ==> it.Valid()) && (!positive ==> it.yielded == 0)
        invariant it.yielded <= |slots|
        invariant minChunkPos.Some? == maxChunkPos.Some?
        invariant ChunkExtent(slots, pts, it.yielded)
          == if minChunkPos.Some? then Some((minChunkPos.value, maxChunkPos.value)) else None
        decreases Volume(g) - it.yielded
      {
        PointAtBelowTop(g, it.yielded);
        YzxIdxPointAt(g, it.yielded);
        ghost var k := it.yielded;
        var c := it.Next();
        YzxIdxInjective(g, c, pts[k]);
        var chunk := chunks[PosToYzxIdx(g, c)];
        assert Mirrors(chunk, slots[k]);
        if chunk != null {
          if minChunkPos.None? { minChunkPos := Some(c); }
          if maxChunkPos.None? { maxChunkPos := Some(c); }
          minChunkPos := Some(Min(minChunkPos.value, c));
          maxChunkPos := Some(Max(maxChunkPos.value, c));
        }
      }
      if positive {
        PointAtBelowTop(g, it.yielded);
      }
      if minChunkPos.None? || maxChunkPos.None? {
        return None;
      }
      r := Some(Bounds.New(minChunkPos.value, AddScalar(maxChunkPos.value, 1)));
    }

    /** `getBuildBounds`: [0, 1)^3 when no chunk is allocated; otherwise the chunks on the
        border of the build chunk bounds widen the box to their extreme non-default cells. When
        no allocated chunk is all default and the loaded area has 32-bit coordinates, the box
        holds every non-default position and each of its six faces touches one. */
    method GetBuildBounds() returns (r: IntBoundary)
      requires Valid()
      ensures BuildChunkBounds(slots, chunkGridBound).None? ==> r == Bounds.New(Splat(0), Splat(1))
      ensures BuildChunkBounds(slots, chunkGridBound).Some? && NoIdleSlot(slots) && FitsInt(loadedBound) ==>
        (forall p :: Id(p) != DEFAULT_BLOCK_ID ==> PosInside(r, p))
        && AttainedBySolid(slots, chunkGridBound, bitSize, r.a)
        && AttainedBySolid(slots, chunkGridBound, bitSize, AddScalar(r.b, -1))
    {
      var buildChunkBounds := GetBuildChunkBounds();
      if buildChunkBounds.None? {
        return Bounds.New(Splat(0), Splat(1));
      }
      var bcb := buildChunkBounds.value;
      BuildChunkBoundsInGrid(slots, chunkGridBound);
      var minPos, maxPos, seenLo, seenHi := WalkBorders(bcb);
      if NoIdleSlot(slots) && FitsInt(loadedBound) {
        WalkResult(slots, chunkGridBound, bitSize, minPos, maxPos, seenLo, seenHi);
      }
      r := Bounds.New(minPos, AddScalar(maxPos, 1));
    }

    /** The loop of `getBuildBounds`: starting from IVec3.MAX and IVec3.MIN, merges the
        contribution of every chunk of the build chunk bounds, in YZX order. */
    method WalkBorders(bcb: IntBoundary) returns (minPos: IVec3, maxPos: IVec3, ghost seenLo: bool, ghost seenHi: bool)
      requires Valid() && Normal(bcb) && NonEmpty(bcb) && FullyInside(bcb, chunkGridBound)
      ensures WalkInv(slots, chunkGridBound, bitSize, bcb, Volume(bcb), minPos, maxPos, seenLo, seenHi,
                      FitsInt(loadedBound))
    {
      minPos := Splat(INT_MAX);
      maxPos := Splat(INT_MIN);
      ghost var sl, g, bs := slots, chunkGridBound, bitSize;
      seenLo, seenHi := false, false;
      ghost var fits := FitsInt(loadedBound);
      ghost var k := 0;
      NothingSeenYet(sl, g, bs, bcb);
      var it := new YzxIter(bcb);
      while it.HasNext()
        invariant it.Valid() && it.box == bcb && it.yielded == k
        invariant WalkInv(sl, g, bs, bcb, k, minPos, maxPos, seenLo, seenHi, fits)
        decreases Volume(bcb) - k
      {
        PointAtBelowTop(bcb, k);
        YzxIdxPointAt(bcb, k);
        var chunkPos := it.Next();
        minPos, maxPos, seenLo, seenHi := WalkBorderChunk(bcb, chunkPos, sl, g, bs, k, minPos, maxPos, seenLo, seenHi, fits);
        k := k + 1;
      }
      PointAtBelowTop(bcb, k);
    }

    /** One iteration of the walk in `getBuildBounds`: merges the contribution of the k-th
        chunk of the build chunk bounds into the running corners. */
    method WalkBorderChunk(bcb: IntBoundary, c: IVec3, ghost sl: seq<Slot<T>>, ghost g: IntBoundary,
                           ghost bs: nat, ghost k: int, minPos: IVec3, maxPos: IVec3,
                           ghost seenLo: bool, ghost seenHi: bool, ghost fits: bool)
      returns (nextMin: IVec3, nextMax: IVec3, ghost nextSeenLo: bool, ghost nextSeenHi: bool)
      requires Valid() && sl == slots && g == chunkGridBound && bs == bitSize
      requires FullyInside(bcb, g) && Normal(bcb) && PosInside(bcb, c) && PosToYzxIdx(bcb, c) == k
      requires fits ==> FitsInt(Scaled(g, bs))
      requires WalkInv(sl, g, bs, bcb, k, minPos, maxPos, seenLo, seenHi, fits)
      ensures WalkInv(sl, g, bs, bcb, k + 1, nextMin, nextMax, nextSeenLo, nextSeenHi, fits)
    {
      var minLocalPos, maxLocalPos := BorderChunkExtent(bcb, c);
      MinStep(sl, g, bs, bcb, k, k + 1, c, minLocalPos, minPos, seenLo);
      MaxStep(sl, g, bs, bcb, k, k + 1, c, maxLocalPos, maxPos, seenHi);
      if fits {
        MergeMinAttained(sl, g, bs, c, minLocalPos, minPos, seenLo);
        MergeMaxAttained(sl, g, bs, c, maxLocalPos, maxPos, seenHi);
      }
      ghost var mergedMin, mergedMax := MergeMin(minPos, c, minLocalPos, bs), MergeMax(maxPos, c, maxLocalPos, bs);
      nextMin, nextMax := minPos, maxPos;
      var chunkWorldPos := ChunkPosToPos(c, bitSize);
      if minLocalPos.Some? {
        nextMin := Min(nextMin, Add(chunkWorldPos, minLocalPos.value));
      }
      if maxLocalPos.Some? {
        nextMax := Max(nextMax, Add(chunkWorldPos, maxLocalPos.value));
      }
      assert nextMin == mergedMin && nextMax == mergedMax;
      nextSeenLo, nextSeenHi := seenLo || minLocalPos.Some?, seenHi || maxLocalPos.Some?;
    }

    /** What one chunk of the build chunk bounds contributes: its least non-default cell if it
        is allocated and on a lower face, its greatest if it is allocated and on an upper face. */
    method BorderChunkExtent(bcb: IntBoundary, c: IVec3) returns (lo: Option<IVec3>, hi: Option<IVec3>)
      requires GridValid() && FullyInside(bcb, chunkGridBound) && PosInside(bcb, c)
      ensures var s := SlotAt(slots, chunkGridBound, c);
        (lo.Some? ==> (PosOnMinBorder(bcb, c) && s.Loaded?
          && BelowAll(lo.value, s.ids, bitSize) && AttainedOnEachAxis(lo.value, s.ids, bitSize)))
        && (lo.None? && PosOnMinBorder(bcb, c) && s.Loaded? ==> AllDefault(s.ids))
        && (hi.Some? ==> (PosOnMaxBorder(bcb, c) && s.Loaded?
          && AboveAll(hi.value, s.ids, bitSize) && AttainedOnEachAxis(hi.value, s.ids, bitSize)))
        && (hi.None? && PosOnMaxBorder(bcb, c) && s.Loaded? ==> AllDefault(s.ids))
    {
      lo, hi := None, None;
      if !PosOnBorder(bcb, c) {
        return;
      }
      FullyInsideContains(bcb, chunkGridBound, c);
      YzxIdxInRange(chunkGridBound, c);
      var idx := PosToYzxIdx(chunkGridBound, c);
      var chunk := chunks[idx];
      assert Mirrors(chunk, slots[idx]);
      if chunk == null {
        return;
      }
      assert chunk.blocks[..] == slots[idx].ids;
      if PosOnMinBorder(bcb, c) {
        lo := chunk.ComputeMinLocalPos();
      }
      if PosOnMaxBorder(bcb, c) {
        hi := chunk.ComputeMaxLocalPos();
      }
    }
  }

  /** `McVolume.new`: the default block is added first, so it is palette entry 0 (a malformed
      default string is refused), and then the chunks covering [min, max) are loaded, all
      empty. The legacy chunk side is a parameter here. */
  method NewLegacyVolume<T>(areaMin: IVec3, areaMax: IVec3, defaultBlockStr: string, b: nat)
    returns (r: Result<LegacyVolume<T>>)
    requires 1 <= b <= 8
    ensures FromStr(defaultBlockStr).Err? ==> r == Err(FromStr(defaultBlockStr).error)
    ensures FromStr(defaultBlockStr).Ok? ==> r.Ok?
    ensures r.Ok? ==>
      var v := r.value;
      fresh(v) && v.Valid() && v.bitSize == b
      && v.volBlockPalette == [VolBlock(DEFAULT_BLOCK_ID, FromStr(defaultBlockStr).value)]
      && v.wantedBound == Bounds.New(areaMin, areaMax)
      && FullyInside(v.wantedBound, v.loadedBound)
      && forall p :: v.Id(p) == DEFAULT_BLOCK_ID && v.Tile(p) == None
  {
    var vol := new LegacyVolume<T>.Init(b, IntBoundary(Splat(0), Splat(0), Splat(0)));
    var dflt := vol.AddPaletteBlock(defaultBlockStr);
    if dflt.Err? {
      return Err(dflt.error);
    }
    ToShortOfShort(0);
    vol.SetLoadedArea(areaMin, areaMax);
    forall p ensures vol.Id(p) == DEFAULT_BLOCK_ID && vol.Tile(p) == None {
      RegriddedIn<T>([], IntBoundary(Splat(0), Splat(0), Splat(0)), vol.chunkGridBound, b, p);
    }
    r := Ok(vol);
  }
}
