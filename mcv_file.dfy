/** The file layout of `exportToMcv` and `fromMcv` (Mcv.kt:102-228), before gzip: the misc data,
    the block palette, a table with the byte offset of every written chunk, then the chunks. The
    writer puts a table of zeros first and patches slot i in as soon as chunk i is written; the
    reader seeks to each offset of the table and installs the chunk it finds at the chunk's slot. */
module McvFile {
  import opened Vec
  import opened Bytes
  import opened Wrappers
  import opened Bounds
  import opened McvCodec
  import opened McvRoundTrip
  import ByteBufs

  /** A chunk as the file holds it: its chunk-grid position and its block ids (no tile data). */
  type ChunkRec = (IVec3, seq<Short>)

  /** A chunk table: one slot per chunk-grid position, in Y-Z-X order, holding the block ids of the
      chunk there or nothing. */
  type Slots = seq<Option<seq<Short>>>

  // ---------------------------------------------------------------------------
  // The path

  const MCV_SUFFIX: string := ".mcv"

  predicate EndsWith(s: string, suffix: string) {
    |suffix| <= |s| && s[|s| - |suffix|..] == suffix
  }

  /** The path `exportToMcv` writes to: the given one, with ".mcv" added unless it already ends so. */
  function McvPath(fp: string): (r: string)
    ensures EndsWith(r, MCV_SUFFIX) && fp <= r
    ensures r == fp <==> EndsWith(fp, MCV_SUFFIX)
  {
    if EndsWith(fp, MCV_SUFFIX) then fp else fp + MCV_SUFFIX
  }

  lemma McvPathIdempotent(fp: string)
    ensures McvPath(McvPath(fp)) == McvPath(fp)
  {
  }

  // ---------------------------------------------------------------------------
  // The bytes the writer produces

  /** Byte strings one after the other. */
  function Concat(cs: seq<seq<Byte>>): seq<Byte>
    decreases |cs|
  {
    if |cs| == 0 then [] else Concat(cs[..|cs| - 1]) + cs[|cs| - 1]
  }

  /** The chunks `exportToMcv` writes, in the order it writes them: the non-null slots in Y-Z-X
      order of the chunk grid, each with its chunk-grid position. */
  function Written(slots: Slots, grid: IntBoundary): (cs: seq<ChunkRec>)
    requires |slots| == 0 || (grid.dim.x > 0 && grid.dim.z > 0)
    ensures |cs| <= |slots|
    decreases |slots|
  {
    if |slots| == 0 then []
    else
      var k := |slots| - 1;
      Written(slots[..k], grid) + (if slots[k].Some? then [(PointAt(grid, k), slots[k].value)] else [])
  }

  function ChunkEncs(cs: seq<ChunkRec>): (encs: seq<seq<Byte>>)
    ensures |encs| == |cs|
  {
    seq(|cs|, i requires 0 <= i < |cs| => EncChunk(cs[i].0, cs[i].1))
  }

  /** Where each chunk starts when the chunk data begins at byte `base`. */
  function ChunkLocs(base: int, encs: seq<seq<Byte>>): (locs: seq<int>)
    ensures |locs| == |encs|
  {
    seq(|encs|, i requires 0 <= i < |encs| => base + |Concat(encs[..i])|)
  }

  function McvHeader(m: MiscData, k: PaletteKind, es: seq<Entry>): seq<Byte> {
    EncMiscData(m) + EncBlockPalette(k, es)
  }

  /** Where each encoded chunk starts when `header` comes first, then the table of |encs| Ints. */
  function TableLocs(header: seq<Byte>, encs: seq<seq<Byte>>): (locs: seq<int>)
    ensures |locs| == |encs|
  {
    ChunkLocs(|header| + 4 + 4 * |encs|, encs)
  }

  /** The header, the location table, then the encoded chunks. */
  function FileBytes(header: seq<Byte>, encs: seq<seq<Byte>>): seq<Byte> {
    header + EncIntArr(TableLocs(header, encs)) + Concat(encs)
  }

  /** The uncompressed bytes of an Mcv file holding these chunks. */
  function McvBytes(m: MiscData, k: PaletteKind, es: seq<Entry>, cs: seq<ChunkRec>): seq<Byte> {
    FileBytes(McvHeader(m, k, es), ChunkEncs(cs))
  }

  /** `IntArray(n)`: the table before any slot is patched. */
  function ZeroTable(n: nat): (z: seq<int>)
    ensures |z| == n
  {
    seq(n, _ => 0)
  }

  // ---------------------------------------------------------------------------
  // Writing

  /** `chunks.count { it != null }`. */
  function CountChunks(slots: Slots): nat
    decreases |slots|
  {
    if |slots| == 0 then 0 else CountChunks(slots[..|slots| - 1]) + (if slots[|slots| - 1].Some? then 1 else 0)
  }

  /** The table gets one slot per non-null chunk. */
  lemma {:induction false} CountIsWritten(slots: Slots, grid: IntBoundary)
    requires |slots| == 0 || (grid.dim.x > 0 && grid.dim.z > 0)
    ensures CountChunks(slots) == |Written(slots, grid)|
    decreases |slots|
  {
    if |slots| > 0 {
      CountIsWritten(slots[..|slots| - 1], grid);
    }
  }

  /** A grid with at least one slot has no empty axis. */
  lemma GridDims(grid: IntBoundary)
    requires Normal(grid)
    ensures Volume(grid) > 0 ==> grid.dim.x > 0 && grid.dim.z > 0
  {
    if grid.dim.x == 0 {
      assert Volume(grid) == 0 * grid.dim.y * grid.dim.z;
    } else if grid.dim.z == 0 {
      assert Volume(grid) == grid.dim.x * grid.dim.y * 0;
    }
  }

  /** `exportToMcv` without the gzip and the file write. */
  method ExportMcvBytes(m: MiscData, k: PaletteKind, es: seq<Entry>, slots: Slots, grid: IntBoundary)
    returns (out: seq<Byte>)
    requires Normal(grid) && |slots| == Volume(grid)
    ensures |slots| > 0 ==> grid.dim.x > 0 && grid.dim.z > 0
    ensures out == McvBytes(m, k, es, Written(slots, grid))
  {
    GridDims(grid);
    var header := EncMiscData(m) + EncBlockPalette(k, es);
    out := WriteChunks(header, slots, grid);
  }

  /** After the header: the zeroed table, then for every non-null chunk in Y-Z-X order its bytes,
      with the table slot of that chunk patched (a `seek` back, a `putInt` of the chunk's start, a
      `seek` to the end). */
  method WriteChunks(header: seq<Byte>, slots: Slots, grid: IntBoundary) returns (out: seq<Byte>)
    requires |slots| == 0 || (grid.dim.x > 0 && grid.dim.z > 0)
    ensures out == FileBytes(header, ChunkEncs(Written(slots, grid)))
  {
    var n := CountChunks(slots);
    CountIsWritten(slots, grid);
    out := header + EncIntArr(ZeroTable(n));
    WroteNone(header, ChunkEncs(Written(slots, grid)));
    assert slots[..0] == [];
    var i := 0;
    var idx := 0;
    while idx < |slots|
      invariant WroteSlots(header, slots, grid, idx, i, out)
      decreases |slots| - idx
    {
      i, out := WriteSlot(header, slots, grid, idx, i, out);
      idx := idx + 1;
    }
    assert slots[..idx] == slots;
    WroteAll(header, ChunkEncs(Written(slots, grid)), out);
  }

  /** The writer's state after the first idx slots, i of them non-null. */
  ghost predicate WroteSlots(header: seq<Byte>, slots: Slots, grid: IntBoundary, idx: int, i: int, out: seq<Byte>) {
    0 <= idx <= |slots| && 0 <= i
    && (|slots| == 0 || (grid.dim.x > 0 && grid.dim.z > 0))
    && Written(slots[..idx], grid) <= Written(slots, grid) && i == |Written(slots[..idx], grid)|
    && Wrote(header, ChunkEncs(Written(slots, grid)), i, out)
  }

  /** One slot of the writer's loop: a null slot is skipped; a chunk is appended and its table slot
      patched with the offset where it starts. */
  method WriteSlot(header: seq<Byte>, slots: Slots, grid: IntBoundary, idx: int, i: int, out: seq<Byte>)
    returns (i': int, out': seq<Byte>)
    requires idx < |slots| && WroteSlots(header, slots, grid, idx, i, out)
    ensures WroteSlots(header, slots, grid, idx + 1, i', out')
  {
    ghost var encs := ChunkEncs(Written(slots, grid));
    WrittenAt(slots, grid, idx);
    i', out' := i, out;
    if slots[idx].Some? {
      var start := |out|;
      var bytes := EncChunk(PointAt(grid, idx), slots[idx].value);
      WriteStep(header, encs, i, out);
      out' := ByteBufs.Splice(out + bytes, |header| + 4 + 4 * i, EncInt(start));
      i' := i + 1;
    }
  }

  /** The writer's state after i chunks: the table holds their offsets and zeros after them. */
  ghost predicate Wrote(header: seq<Byte>, encs: seq<seq<Byte>>, i: nat, out: seq<Byte>) {
    i <= |encs|
    && out == header + EncInt(|encs|) + EncEach(TableLocs(header, encs)[..i], 4)
              + EncEach(ZeroTable(|encs| - i), 4) + Concat(encs[..i])
  }

  lemma WroteNone(header: seq<Byte>, encs: seq<seq<Byte>>)
    ensures Wrote(header, encs, 0, header + EncIntArr(ZeroTable(|encs|)))
  {
    assert TableLocs(header, encs)[..0] == [];
    assert Concat(encs[..0]) == [];
  }

  lemma WroteAll(header: seq<Byte>, encs: seq<seq<Byte>>, out: seq<Byte>)
    requires Wrote(header, encs, |encs|, out)
    ensures out == FileBytes(header, encs)
  {
    var locs := TableLocs(header, encs);
    assert locs[..|encs|] == locs;
    assert ZeroTable(0) == [];
    assert encs[..|encs|] == encs;
  }

  /** One turn of the writer's loop: chunk i starts where the bytes end, and patching its slot
      with that offset gives the state after i + 1 chunks. */
  lemma WriteStep(header: seq<Byte>, encs: seq<seq<Byte>>, i: nat, out: seq<Byte>)
    requires i < |encs| && Wrote(header, encs, i, out)
    ensures |out| == TableLocs(header, encs)[i]
    ensures |header| + 4 + 4 * i + 4 <= |out + encs[i]|
    ensures Wrote(header, encs, i + 1, ByteBufs.Splice(out + encs[i], |header| + 4 + 4 * i, EncInt(|out|)))
  {
    var n := |encs|;
    var locs := TableLocs(header, encs);
    var front := header + EncInt(n) + EncEach(locs[..i], 4);
    var zeros := EncEach(ZeroTable(n - (i + 1)), 4);
    var done := Concat(encs[..i]);
    var rest := zeros + done + encs[i];
    assert |front| == |header| + 4 + 4 * i by {
      EncEachLength(locs[..i], 4);
    }
    assert out == front + EncInt(0) + zeros + done by {
      ZerosHead(n - i);
    }
    assert |out| == locs[i] by {
      EncEachLength(ZeroTable(n - (i + 1)), 4);
    }
    assert out + encs[i] == front + EncInt(0) + rest;
    var spliced := ByteBufs.Splice(out + encs[i], |header| + 4 + 4 * i, EncInt(|out|));
    assert |front| + 4 <= |out + encs[i]| && spliced == front + EncInt(locs[i]) + rest by {
      SpliceMiddle(front, EncInt(0), rest, EncInt(|out|));
    }
    assert EncEach(locs[..i + 1], 4) == EncEach(locs[..i], 4) + EncInt(locs[i]) by {
      EncEachSnoc(locs, i);
    }
    assert Concat(encs[..i + 1]) == done + encs[i] by {
      ConcatSnoc(encs, i);
    }
    assert spliced == header + EncInt(n) + EncEach(locs[..i + 1], 4) + zeros + Concat(encs[..i + 1]) by {
      Regroup(header + EncInt(n), EncEach(locs[..i], 4), EncInt(locs[i]), zeros, done, encs[i]);
    }
  }

  /** The same six pieces, grouped as the patched output and as the next step's layout. */
  lemma Regroup(h: seq<Byte>, t: seq<Byte>, l: seq<Byte>, z: seq<Byte>, d: seq<Byte>, e: seq<Byte>)
    ensures (h + t) + l + (z + d + e) == h + (t + l) + z + (d + e)
  {
  }


  lemma ZerosHead(m: nat)
    requires m > 0
    ensures EncEach(ZeroTable(m), 4) == EncInt(0) + EncEach(ZeroTable(m - 1), 4)
  {
    assert ZeroTable(m)[1..] == ZeroTable(m - 1);
  }

  lemma EncEachSnoc(vs: seq<int>, i: int)
    requires 0 <= i < |vs|
    ensures EncEach(vs[..i + 1], 4) == EncEach(vs[..i], 4) + EncInt(vs[i])
  {
    assert vs[..i + 1] == vs[..i] + [vs[i]];
    EncEachAppend(vs[..i], [vs[i]], 4);
    assert [vs[i]][1..] == [];
  }

  lemma ConcatSnoc(encs: seq<seq<Byte>>, i: int)
    requires 0 <= i < |encs|
    ensures Concat(encs[..i + 1]) == Concat(encs[..i]) + encs[i]
  {
    assert encs[..i + 1][..i] == encs[..i];
  }

  lemma SpliceMiddle(a: seq<Byte>, x: seq<Byte>, b: seq<Byte>, y: seq<Byte>)
    requires |x| == |y|
    ensures |a| + |y| <= |a + x + b| && ByteBufs.Splice(a + x + b, |a|, y) == a + y + b
  {
    var s := a + x + b;
    assert s[..|a|] == a;
    assert s[|a| + |x|..] == b;
  }

  /** Slot idx adds its chunk, as the next written one, when it is not null. */
  lemma WrittenAt(slots: Slots, grid: IntBoundary, idx: int)
    requires 0 <= idx < |slots| && grid.dim.x > 0 && grid.dim.z > 0
    ensures var w := Written(slots[..idx], grid);
            var w' := Written(slots[..idx + 1], grid);
            w' <= Written(slots, grid)
            && (slots[idx].None? ==> w' == w)
            && (slots[idx].Some? ==>
                  |w'| == |w| + 1 && |w| < |ChunkEncs(Written(slots, grid))|
                  && ChunkEncs(Written(slots, grid))[|w|] == EncChunk(PointAt(grid, idx), slots[idx].value))
  {
    assert slots[..idx + 1][..idx] == slots[..idx];
    WrittenPrefix(slots, grid, idx + 1);
    var w := Written(slots[..idx], grid);
    var w' := Written(slots[..idx + 1], grid);
    if slots[idx].Some? {
      assert w'[|w|] == (PointAt(grid, idx), slots[idx].value);
    }
  }

  /** The chunks written from the first j slots come first among all the chunks written. */
  lemma {:induction false} WrittenPrefix(slots: Slots, grid: IntBoundary, j: nat)
    requires j <= |slots| && (|slots| == 0 || (grid.dim.x > 0 && grid.dim.z > 0))
    ensures Written(slots[..j], grid) <= Written(slots, grid)
    decreases |slots| - j
  {
    if j < |slots| {
      WrittenPrefix(slots, grid, j + 1);
      assert slots[..j + 1][..j] == slots[..j];
    } else {
      assert slots[..j] == slots;
    }
  }

  lemma {:induction false} EncEachLength(vs: seq<int>, w: nat)
    ensures |EncEach(vs, w)| == w * |vs|
    decreases |vs|
  {
    if |vs| > 0 {
      EncEachLength(vs[1..], w);
    }
  }

  lemma {:induction false} EncEachAppend(a: seq<int>, b: seq<int>, w: nat)
    ensures EncEach(a + b, w) == EncEach(a, w) + EncEach(b, w)
    decreases |a|
  {
    if |a| == 0 {
      assert a + b == b;
    } else {
      assert (a + b)[1..] == a[1..] + b;
      EncEachAppend(a[1..], b, w);
    }
  }

  // ---------------------------------------------------------------------------
  // Reading

  /** `seek(loc)` then `getMcvChunk()` on a buffer holding exactly bs: a position past the capacity
      is refused by `seek`. Chunks are read with the corrected id rebuild (see DecChunkUnsigned). */
  function ChunkAt(bs: seq<Byte>, loc: int): Result<ChunkRec> {
    if loc < 0 || loc > |bs| then Err(IndexOutOfRange)
    else match DecChunkUnsigned(bs, loc)
      case Err(e) => Err(e)
      case Ok(r) => Ok(r.0)
  }

  /** A chunk put at its slot; a position outside the grid is an array index out of range. */
  function Install(s: Slots, grid: IntBoundary, c: ChunkRec): (r: Result<Slots>)
    ensures r.Ok? ==> |r.value| == |s|
  {
    var idx := PosToYzxIdx(grid, c.0);
    if 0 <= idx < |s| then Ok(s[idx := Some(c.1)]) else Err(IndexOutOfRange)
  }

  function EmptySlots(n: nat): (s: Slots)
    ensures |s| == n && forall j :: 0 <= j < n ==> s[j] == None
  {
    seq(n, _ => None)
  }

  /** The populate loop of `fromMcv`: each table offset in turn is read and installed into a table of
      n empty slots; the first failure ends it. */
  function Populated(bs: seq<Byte>, locs: seq<int>, grid: IntBoundary, n: nat): (r: Result<Slots>)
    ensures r.Ok? ==> |r.value| == n
    decreases |locs|
  {
    if |locs| == 0 then Ok(EmptySlots(n))
    else match Populated(bs, locs[..|locs| - 1], grid, n)
      case Err(e) => Err(e)
      case Ok(s) =>
        match ChunkAt(bs, locs[|locs| - 1])
        case Err(e) => Err(e)
        case Ok(c) => Install(s, grid, c)
  }

  /** The chunks installed one after the other into n empty slots. */
  function Placed(cs: seq<ChunkRec>, grid: IntBoundary, n: nat): (r: Result<Slots>)
    decreases |cs|
  {
    if |cs| == 0 then Ok(EmptySlots(n))
    else match Placed(cs[..|cs| - 1], grid, n)
      case Err(e) => Err(e)
      case Ok(s) => Install(s, grid, cs[|cs| - 1])
  }

  /** What `fromMcv` builds, short of the volume object: the misc data, the palette and the chunk
      table (block ids only). */
  datatype Loaded = Loaded(misc: MiscData, kind: PaletteKind, entries: seq<Entry>, slots: Slots)

  /** `fromMcv` on the uncompressed bytes. An empty file already fails at the buffer's
      `require(initialCapacity > 0)`; a grid of negative volume fails at the array allocation. */
  function LoadMcv(bs: seq<Byte>): Result<Loaded> {
    if |bs| == 0 then Err(InvalidConfiguration)
    else match DecMiscData(bs, 0)
      case Err(e) => Err(e)
      case Ok(md) =>
        match DecBlockPalette(bs, md.1)
        case Err(e) => Err(e)
        case Ok(pal) =>
          match DecIntArr(bs, pal.1)
          case Err(e) => Err(e)
          case Ok(locs) =>
            var grid := md.0.chunkGridBound;
            if Volume(grid) < 0 then Err(NegativeArraySize)
            else match Populated(bs, locs.0, grid, Volume(grid))
              case Err(e) => Err(e)
              case Ok(s) => Ok(Loaded(md.0, pal.0.0, pal.0.1, s))
  }

  /** The populate loop over the `chunks` array of the new volume. */
  method Populate(bs: seq<Byte>, locs: seq<int>, grid: IntBoundary, n: nat) returns (r: Result<Slots>)
    ensures r == Populated(bs, locs, grid, n)
  {
    var chunks := new Option<seq<Short>>[n](_ => None);
    assert locs[..0] == [] && chunks[..] == EmptySlots(n);
    var i := 0;
    while i < |locs|
      invariant 0 <= i <= |locs|
      invariant Populated(bs, locs[..i], grid, n).Ok? && Populated(bs, locs[..i], grid, n).value == chunks[..]
    {
      var c := ChunkAt(bs, locs[i]);
      PopulatedStep(bs, locs, grid, n, i, chunks[..]);
      if c.Err? {
        PopulatedFails(bs, locs, grid, n, i + 1, c.error);
        return Err(c.error);
      }
      var idx := PosToYzxIdx(grid, c.value.0);
      if !(0 <= idx < chunks.Length) {
        PopulatedFails(bs, locs, grid, n, i + 1, IndexOutOfRange);
        return Err(IndexOutOfRange);
      }
      ghost var before := chunks[..];
      chunks[idx] := Some(c.value.1);
      assert chunks[..] == before[idx := Some(c.value.1)];
      i := i + 1;
    }
    assert locs[..i] == locs;
    r := Ok(chunks[..]);
  }

  /** Once the loop fails it stays failed. */
  /** One more table offset read, after the first i have given the slots s. */
  lemma PopulatedStep(bs: seq<Byte>, locs: seq<int>, grid: IntBoundary, n: nat, i: nat, s: Slots)
    requires i < |locs| && Populated(bs, locs[..i], grid, n).Ok? && Populated(bs, locs[..i], grid, n).value == s
    ensures Populated(bs, locs[..i + 1], grid, n) ==
      match ChunkAt(bs, locs[i])
      case Err(e) => Err(e)
      case Ok(c) => Install(s, grid, c)
  {
    assert locs[..i + 1][..i] == locs[..i];
  }

  lemma {:induction false} PopulatedFails(bs: seq<Byte>, locs: seq<int>, grid: IntBoundary, n: nat, j: nat, e: Error)
    requires j <= |locs| && Populated(bs, locs[..j], grid, n) == Err(e)
    ensures Populated(bs, locs, grid, n) == Err(e)
    decreases |locs| - j
  {
    if j < |locs| {
      assert locs[..j + 1][..j] == locs[..j];
      PopulatedFails(bs, locs, grid, n, j + 1, e);
    } else {
      assert locs[..j] == locs;
    }
  }

  /** `fromMcv` without the file read and the gunzip. */
  method LoadMcvBytes(bs: seq<Byte>) returns (r: Result<Loaded>)
    ensures r == LoadMcv(bs)
  {
    if |bs| == 0 {
      return Err(InvalidConfiguration);
    }
    var md := DecMiscData(bs, 0);
    if md.Err? {
      return Err(md.error);
    }
    var pal := DecBlockPalette(bs, md.value.1);
    if pal.Err? {
      return Err(pal.error);
    }
    var locs := DecIntArr(bs, pal.value.1);
    if locs.Err? {
      return Err(locs.error);
    }
    var grid := md.value.0.chunkGridBound;
    if Volume(grid) < 0 {
      return Err(NegativeArraySize);
    }
    var s := Populate(bs, locs.value.0, grid, Volume(grid));
    if s.Err? {
      return Err(s.error);
    }
    r := Ok(Loaded(md.value.0, pal.value.0.0, pal.value.0.1, s.value));
  }

  // ---------------------------------------------------------------------------
  // Reading back what was written

  lemma {:induction false} ConcatAppend(a: seq<seq<Byte>>, b: seq<seq<Byte>>)
    ensures Concat(a + b) == Concat(a) + Concat(b)
    decreases |b|
  {
    if |b| == 0 {
      assert a + b == a;
    } else {
      var b' := b[..|b| - 1];
      assert (a + b)[..|a + b| - 1] == a + b';
      assert (a + b)[|a + b| - 1] == b[|b| - 1];
      ConcatAppend(a, b');
    }
  }

  lemma ConcatHead(cs: seq<seq<Byte>>)
    requires |cs| > 0
    ensures Concat(cs) == cs[0] + Concat(cs[1..])
  {
    var one: seq<seq<Byte>> := [cs[0]];
    assert one[..0] == [];
    assert Concat(one) == cs[0];
    assert cs == one + cs[1..];
    ConcatAppend(one, cs[1..]);
  }

  lemma AtMiddle(pre: seq<Byte>, c: seq<Byte>, l: seq<Byte>, e: seq<Byte>, r: seq<Byte>)
    requires c == l + e + r
    ensures At(pre + c, |pre| + |l|, e)
  {
    var bs := pre + c;
    assert bs[|pre| + |l|..|pre| + |l| + |e|] == e;
    AtSlice(bs, |pre| + |l|, e);
  }

  /** The i-th byte string of encs starts |pre| + |Concat(encs[..i])| bytes into pre + Concat(encs). */
  lemma ConcatAt(pre: seq<Byte>, encs: seq<seq<Byte>>, i: int)
    requires 0 <= i < |encs|
    ensures At(pre + Concat(encs), |pre| + |Concat(encs[..i])|, encs[i])
  {
    ConcatSplit(encs, i);
    AtMiddle(pre, Concat(encs), Concat(encs[..i]), encs[i], Concat(encs[i + 1..]));
  }

  /** The encodings before entry i, entry i, and the ones after it. */
  lemma ConcatSplit(encs: seq<seq<Byte>>, i: int)
    requires 0 <= i < |encs|
    ensures Concat(encs) == Concat(encs[..i]) + encs[i] + Concat(encs[i + 1..])
  {
    assert encs == encs[..i] + encs[i..];
    ConcatAppend(encs[..i], encs[i..]);
    ConcatHead(encs[i..]);
    assert encs[i..][0] == encs[i] && encs[i..][1..] == encs[i + 1..];
  }

  /** Slot i of the location table is the byte offset where chunk i starts. */
  lemma ChunkAtLoc(header: seq<Byte>, encs: seq<seq<Byte>>, i: int)
    requires 0 <= i < |encs|
    ensures At(FileBytes(header, encs), TableLocs(header, encs)[i], encs[i])
  {
    var locs := TableLocs(header, encs);
    var pre := header + EncIntArr(locs);
    EncEachLength(locs, 4);
    assert |pre| == |header| + 4 + 4 * |encs|;
    ConcatAt(pre, encs, i);
  }

  /** The table the writer leaves behind reads back as the offsets of the chunks. */
  lemma LocationTable(header: seq<Byte>, encs: seq<seq<Byte>>)
    requires |FileBytes(header, encs)| <= INT_MAX
    ensures DecIntArr(FileBytes(header, encs), |header|) == Ok((TableLocs(header, encs), |header| + 4 + 4 * |encs|))
    ensures forall i :: 0 <= i < |encs| ==> 0 <= TableLocs(header, encs)[i] <= |FileBytes(header, encs)|
  {
    var locs := TableLocs(header, encs);
    var bs := FileBytes(header, encs);
    EncEachLength(locs, 4);
    forall i | 0 <= i < |encs|
      ensures 0 <= locs[i] <= |bs|
    {
      ChunkAtLoc(header, encs, i);
      AtSlice(bs, locs[i], encs[i]);
    }
    var table := EncIntArr(locs);
    assert bs == header + table + Concat(encs);
    assert bs[|header|..|header| + |table|] == table;
    AtSlice(bs, |header|, table);
    DecIntArrAt(bs, |header|, locs);
  }

  /** The chunk at each offset of locs reads back as the matching chunk of cs. */
  ghost predicate ReadsBack(bs: seq<Byte>, locs: seq<int>, cs: seq<ChunkRec>) {
    |locs| == |cs| && forall i :: 0 <= i < |cs| ==> ChunkAt(bs, locs[i]) == Ok(cs[i])
  }

  /** Reading the chunks at the table's offsets installs them as `Placed` does. */
  lemma {:induction false} PopulatedIsPlaced(bs: seq<Byte>, locs: seq<int>, cs: seq<ChunkRec>, grid: IntBoundary, n: nat)
    requires ReadsBack(bs, locs, cs)
    ensures Populated(bs, locs, grid, n) == Placed(cs, grid, n)
    decreases |locs|
  {
    if |locs| > 0 {
      PopulatedIsPlaced(bs, locs[..|locs| - 1], cs[..|cs| - 1], grid, n);
    }
  }

  /** Installing the written chunks of a grid into empty slots gives the grid's slots back. */
  lemma {:induction false} PlacedWritten(slots: Slots, grid: IntBoundary, j: nat, n: nat)
    requires Normal(grid) && n == Volume(grid) && j <= |slots| == n
    requires n == 0 || (grid.dim.x > 0 && grid.dim.z > 0)
    ensures Placed(Written(slots[..j], grid), grid, n) == Ok(slots[..j] + EmptySlots(n - j))
    decreases j
  {
    if j == 0 {
      assert slots[..0] + EmptySlots(n) == EmptySlots(n);
    } else {
      var k := j - 1;
      assert slots[..j][..k] == slots[..k];
      PlacedWritten(slots, grid, k, n);
      var before := slots[..k] + EmptySlots(n - k);
      if slots[k].Some? {
        var w := Written(slots[..k], grid);
        var c := (PointAt(grid, k), slots[k].value);
        assert Written(slots[..j], grid) == w + [c];
        assert (w + [c])[..|w|] == w;
        YzxIdxPointAt(grid, k);
        assert before[k := Some(slots[k].value)] == slots[..j] + EmptySlots(n - j);
      } else {
        assert Written(slots[..j], grid) == Written(slots[..k], grid);
        assert before == slots[..j] + EmptySlots(n - j);
      }
    }
  }

  /** Every chunk `exportToMcv` writes reads back at its offset. */
  lemma ReadWrittenChunks(header: seq<Byte>, slots: Slots, grid: IntBoundary)
    requires IntBound(grid) && |slots| == Volume(grid)
    requires |slots| == 0 || (grid.dim.x > 0 && grid.dim.z > 0)
    requires forall j :: 0 <= j < |slots| && slots[j].Some? ==> |slots[j].value| <= INT_MAX
    ensures var cs := Written(slots, grid);
            ReadsBack(FileBytes(header, ChunkEncs(cs)), TableLocs(header, ChunkEncs(cs)), cs)
  {
    var cs := Written(slots, grid);
    var encs := ChunkEncs(cs);
    var locs := TableLocs(header, encs);
    var bs := FileBytes(header, encs);
    forall i | 0 <= i < |cs|
      ensures ChunkAt(bs, locs[i]) == Ok(cs[i])
    {
      assert slots[..|slots|] == slots;
      WrittenChunkIn(slots, grid, i, |slots|);
      ChunkAtLoc(header, encs, i);
      DecChunkUnsignedAt(bs, locs[i], cs[i].0, cs[i].1);
    }
  }

  /** A chunk written from the first j slots sits at a grid point and carries the block ids of a slot. */
  lemma {:induction false} WrittenChunkIn(slots: Slots, grid: IntBoundary, i: int, j: nat)
    requires IntBound(grid) && |slots| == Volume(grid) && j <= |slots|
    requires |slots| == 0 || (grid.dim.x > 0 && grid.dim.z > 0)
    requires forall t :: 0 <= t < |slots| && slots[t].Some? ==> |slots[t].value| <= INT_MAX
    requires 0 <= i < |Written(slots[..j], grid)|
    ensures IntVec(Written(slots[..j], grid)[i].0) && |Written(slots[..j], grid)[i].1| <= INT_MAX
    decreases j
  {
    var k := j - 1;
    assert slots[..j][..k] == slots[..k];
    var w := Written(slots[..k], grid);
    if i < |w| {
      WrittenChunkIn(slots, grid, i, k);
    } else {
      YzxIdxPointAt(grid, k);
    }
  }

  /** `fromMcv` of the bytes `exportToMcv` writes gives back the misc data, the palette and, at every
      slot of the chunk grid, the block ids of the chunk there. */
  lemma ExportThenLoad(m: MiscData, k: PaletteKind, es: seq<Entry>, slots: Slots)
    requires IntBound(m.chunkGridBound) && IntBound(m.loadedBound) && IntBound(m.wantedBound)
    requires |es| <= INT_MAX && EntriesFit(es)
    requires |slots| == Volume(m.chunkGridBound)
    requires |slots| > 0 ==> m.chunkGridBound.dim.x > 0 && m.chunkGridBound.dim.z > 0
    requires forall j :: 0 <= j < |slots| && slots[j].Some? ==> |slots[j].value| <= INT_MAX
    requires |McvBytes(m, k, es, Written(slots, m.chunkGridBound))| <= INT_MAX
    ensures LoadMcv(McvBytes(m, k, es, Written(slots, m.chunkGridBound))) == Ok(Loaded(m, k, es, slots))
  {
    var grid := m.chunkGridBound;
    var cs := Written(slots, grid);
    var header := McvHeader(m, k, es);
    var encs := ChunkEncs(cs);
    var bs := FileBytes(header, encs);
    HeaderLoads(m, k, es, encs);
    LocationTable(header, encs);
    ChunksLoad(header, slots, grid);
    LoadParts(bs, m, k, es, TableLocs(header, encs), slots);
  }

  /** The misc data and the palette read back from the front of the file. */
  lemma HeaderLoads(m: MiscData, k: PaletteKind, es: seq<Entry>, encs: seq<seq<Byte>>)
    requires IntBound(m.chunkGridBound) && IntBound(m.loadedBound) && IntBound(m.wantedBound)
    requires |es| <= INT_MAX && EntriesFit(es)
    ensures var bs := FileBytes(McvHeader(m, k, es), encs);
            DecMiscData(bs, 0) == Ok((m, 72))
            && DecBlockPalette(bs, 72) == Ok(((k, es), |McvHeader(m, k, es)|))
  {
    var bs := FileBytes(McvHeader(m, k, es), encs);
    HeaderAt(m, k, es, bs);
    DecMiscDataAt(bs, 0, m);
    DecBlockPaletteAt(bs, 72, k, es);
  }

  /** Populating from the written table installs every chunk back at its slot. */
  lemma ChunksLoad(header: seq<Byte>, slots: Slots, grid: IntBoundary)
    requires IntBound(grid) && |slots| == Volume(grid)
    requires |slots| == 0 || (grid.dim.x > 0 && grid.dim.z > 0)
    requires forall j :: 0 <= j < |slots| && slots[j].Some? ==> |slots[j].value| <= INT_MAX
    ensures var encs := ChunkEncs(Written(slots, grid));
            Populated(FileBytes(header, encs), TableLocs(header, encs), grid, |slots|) == Ok(slots)
  {
    ChunksLoadPlaced(header, slots, grid);
    PlacedAllWritten(slots, grid);
  }

  lemma PlacedAllWritten(slots: Slots, grid: IntBoundary)
    requires Normal(grid) && |slots| == Volume(grid)
    requires |slots| == 0 || (grid.dim.x > 0 && grid.dim.z > 0)
    ensures Placed(Written(slots, grid), grid, |slots|) == Ok(slots)
  {
    assert slots[..|slots|] == slots;
    PlacedWritten(slots, grid, |slots|, |slots|);
    assert slots + EmptySlots(0) == slots;
  }

  lemma ChunksLoadPlaced(header: seq<Byte>, slots: Slots, grid: IntBoundary)
    requires IntBound(grid) && |slots| == Volume(grid)
    requires |slots| == 0 || (grid.dim.x > 0 && grid.dim.z > 0)
    requires forall j :: 0 <= j < |slots| && slots[j].Some? ==> |slots[j].value| <= INT_MAX
    ensures var cs := Written(slots, grid);
            var encs := ChunkEncs(cs);
            Populated(FileBytes(header, encs), TableLocs(header, encs), grid, |slots|) == Placed(cs, grid, |slots|)
  {
    var cs := Written(slots, grid);
    var encs := ChunkEncs(cs);
    ReadWrittenChunks(header, slots, grid);
    PopulatedIsPlaced(FileBytes(header, encs), TableLocs(header, encs), cs, grid, |slots|);
  }

  /** `LoadMcv` from the results of its steps. */
  lemma LoadParts(bs: seq<Byte>, m: MiscData, k: PaletteKind, es: seq<Entry>, locs: seq<int>, slots: Slots)
    requires |bs| > 0 && DecMiscData(bs, 0) == Ok((m, 72))
    requires DecBlockPalette(bs, 72).Ok? && DecBlockPalette(bs, 72).value.0 == (k, es)
    requires DecIntArr(bs, DecBlockPalette(bs, 72).value.1).Ok?
    requires DecIntArr(bs, DecBlockPalette(bs, 72).value.1).value.0 == locs
    requires Volume(m.chunkGridBound) >= 0
    requires Populated(bs, locs, m.chunkGridBound, Volume(m.chunkGridBound)) == Ok(slots)
    ensures LoadMcv(bs) == Ok(Loaded(m, k, es, slots))
  {
  }

  /** The misc data and the palette open the file. */
  lemma HeaderAt(m: MiscData, k: PaletteKind, es: seq<Entry>, bs: seq<Byte>)
    requires McvHeader(m, k, es) <= bs
    ensures At(bs, 0, EncMiscData(m)) && At(bs, 72, EncBlockPalette(k, es))
    ensures |McvHeader(m, k, es)| == 72 + |EncBlockPalette(k, es)|
  {
    var misc := EncMiscData(m);
    var pal := EncBlockPalette(k, es);
    assert |misc| == 72;
    assert bs[..|misc|] == misc;
    assert bs[|misc|..|misc| + |pal|] == pal;
    AtSlice(bs, 0, misc);
    AtSlice(bs, |misc|, pal);
  }
}
