/** Sponge schematic files, versions 2 and 3 (`fromSchem2`, `fromSchem3`, `exportToSchem2`,
    `exportToSchem3`): the box the header describes, the palette arithmetic of the loaders, and
    the block data, a stream of unsigned varints holding one palette id per block in Y-Z-X
    order. The NBT tree itself is not modelled: a `Palette` compound is the list of its
    (key, int value) entries in iteration order, and a header is the handful of tags read. */
module Schems {
  import opened Wrappers
  import opened Vec
  import opened Bytes
  import opened Bounds
  import opened Varints
  import opened BlockStates
  import opened VolBlocks
  import opened ChunkGrid
  import opened VolumeSlots
  import opened Volumes

  /** The default block of every volume a schematic is loaded into, and the only default the
      exporters accept. */
  const AIR: string := "minecraft:air"

  /** A `Palette` compound: state-string keys with their int values, in iteration order. */
  type PaletteNbt = seq<(string, int)>

  datatype SchemVersion = V2 | V3

  // ---------------------------------------------------------------------------
  // Header: dimensions and offset

  /** The header tags the loaders read: `Width`, `Height`, `Length` (Shorts), `Offset`, and
      the `WEOffsetX/Y/Z` ints of the metadata compound (read by version 2 only). */
  datatype Header = Header(width: int, height: int, length: int, offset: Option<IVec3>,
                           weX: Option<int>, weY: Option<int>, weZ: Option<int>)

  /** `getShort(..).toInt() and 0xFFFF`: a stored Short read as an unsigned 16-bit value. */
  function Unsigned16(s: int): (u: int)
    ensures 0 <= u < 0x1_0000 && (u - s) % 0x1_0000 == 0
  {
    s % 0x1_0000
  }

  /** The stored value of an optional tag, or the fallback when the tag is missing. */
  function OrElse(o: Option<int>, fallback: int): int {
    if o.Some? then o.value else fallback
  }

  /** `schemSize`: the three dimensions, each read as unsigned. */
  function SchemSize(h: Header): (s: IVec3)
    ensures 0 <= s.x < 0x1_0000 && 0 <= s.y < 0x1_0000 && 0 <= s.z < 0x1_0000
  {
    IVec3(Unsigned16(h.width), Unsigned16(h.height), Unsigned16(h.length))
  }

  /** `schemOffset`: `Offset` when present, else the origin; version 2 then lets each
      `WEOffset` tag present in the metadata replace its axis. */
  function SchemOffset(v: SchemVersion, h: Header): (o: IVec3)
    ensures v.V3? || (h.weX.None? && h.weY.None? && h.weZ.None?) ==>
      o == if h.offset.Some? then h.offset.value else Splat(0)
    ensures v.V2? && h.weX.Some? ==> o.x == h.weX.value
    ensures v.V2? && h.weY.Some? ==> o.y == h.weY.value
    ensures v.V2? && h.weZ.Some? ==> o.z == h.weZ.value
  {
    var base := if h.offset.Some? then h.offset.value else IVec3(0, 0, 0);
    match v
      case V3 => base
      case V2 => IVec3(OrElse(h.weX, base.x), OrElse(h.weY, base.y), OrElse(h.weZ, base.z))
  }

  /** The area the loaders create the volume with: `[offset, offset + size)`. */
  function SchemBox(v: SchemVersion, h: Header): (bd: IntBoundary)
    ensures Normal(bd) && bd.a == SchemOffset(v, h) && bd.dim == SchemSize(h)
  {
    var o := SchemOffset(v, h);
    Bounds.New(o, Add(o, SchemSize(h)))
  }

  /** The header an exporter writes for the build bounds: each dimension `toShort()`, and the
      low corner as the `WEOffset` metadata (version 2, no `Offset` tag) or as `Offset`
      (version 3, no metadata offsets). */
  function ExportedHeader(v: SchemVersion, bounds: IntBoundary): Header {
    var d := bounds.dim;
    match v
      case V2 => Header(Bytes.ToShort(d.x), Bytes.ToShort(d.y), Bytes.ToShort(d.z), None,
                        Some(bounds.a.x), Some(bounds.a.y), Some(bounds.a.z))
      case V3 => Header(Bytes.ToShort(d.x), Bytes.ToShort(d.y), Bytes.ToShort(d.z), Some(bounds.a),
                        None, None, None)
  }

  /** A dimension below 2^16 survives `toShort()` followed by the unsigned read. */
  lemma Unsigned16OfShort(d: int)
    requires 0 <= d < 0x1_0000
    ensures Unsigned16(Bytes.ToShort(d)) == d
  {
    var s := Bytes.ToShort(d);
    assert -0x8000 <= s < 0x8000 && (s - d) % 0x1_0000 == 0;
    if d < 0x8000 {
      assert s == d;
    } else {
      assert s == d - 0x1_0000;
    }
  }

  /** Round trip of the header: loading what either exporter wrote recreates the build bounds,
      as long as no dimension reaches 2^16. */
  lemma HeaderRoundTrip(v: SchemVersion, bounds: IntBoundary)
    requires Normal(bounds)
    requires bounds.dim.x < 0x1_0000 && bounds.dim.y < 0x1_0000 && bounds.dim.z < 0x1_0000
    ensures SchemBox(v, ExportedHeader(v, bounds)) == bounds
  {
    var h := ExportedHeader(v, bounds);
    Unsigned16OfShort(bounds.dim.x);
    Unsigned16OfShort(bounds.dim.y);
    Unsigned16OfShort(bounds.dim.z);
    assert SchemSize(h) == bounds.dim;
    assert SchemOffset(v, h) == bounds.a;
  }

  // ---------------------------------------------------------------------------
  // Loader palette arithmetic

  /** `paletteMaxId`: the values of the compound folded with `max`, starting from 0. */
  function PaletteMaxId(pal: PaletteNbt): (m: int)
    ensures m >= 0
    ensures forall j :: 0 <= j < |pal| ==> pal[j].1 <= m
    ensures m == 0 || exists j :: 0 <= j < |pal| && pal[j].1 == m
  {
    if pal == [] then 0
    else
      var m := PaletteMaxId(pal[..|pal| - 1]);
      if pal[|pal| - 1].1 > m then pal[|pal| - 1].1 else m
  }

  /** What `paletteString[i]` holds after the first n assignments `paletteString[v] = k`: the
      key of the last of them with value i, or the default string when none has it. */
  function NameOf(pal: PaletteNbt, n: nat, i: int): string
    requires n <= |pal|
  {
    if n == 0 then AIR
    else if pal[n - 1].1 == i then pal[n - 1].0
    else NameOf(pal, n - 1, i)
  }

  /** An unnamed slot holds the default string; a named one the key of the last entry naming
      it, with no later entry naming the same slot. */
  lemma {:induction false} NameOfMeaning(pal: PaletteNbt, n: nat, i: int)
    requires n <= |pal|
    ensures (forall j :: 0 <= j < n ==> pal[j].1 != i) ==> NameOf(pal, n, i) == AIR
    ensures (exists j :: 0 <= j < n && pal[j].1 == i) ==>
      exists j :: 0 <= j < n && pal[j] == (NameOf(pal, n, i), i)
        && forall j' :: j < j' < n ==> pal[j'].1 != i
  {
    if n > 0 {
      NameOfMeaning(pal, n - 1, i);
      if pal[n - 1].1 != i && exists j :: 0 <= j < n && pal[j].1 == i {
        var j :| 0 <= j < n && pal[j].1 == i;
        assert j < n - 1;
      }
    }
  }

  /** The `paletteString` list: `paletteMaxId + 1` default strings, then `paletteString[v] = k`
      for each entry in turn; a negative value is an index error. */
  function PaletteStrings(pal: PaletteNbt): Result<seq<string>> {
    if exists j :: 0 <= j < |pal| && pal[j].1 < 0 then Err(IndexOutOfRange)
    else Ok(seq(PaletteMaxId(pal) + 1, i => NameOf(pal, |pal|, i)))
  }

  /** The loop that fills `paletteString`. */
  method FillPaletteStrings(pal: PaletteNbt) returns (r: Result<seq<string>>)
    ensures r == PaletteStrings(pal)
  {
    var paletteLength := PaletteMaxId(pal) + 1;
    var paletteString := seq(paletteLength, _ => AIR);
    var n := 0;
    while n < |pal|
      invariant 0 <= n <= |pal| && |paletteString| == paletteLength
      invariant forall j :: 0 <= j < n ==> pal[j].1 >= 0
      invariant forall i :: 0 <= i < paletteLength ==> paletteString[i] == NameOf(pal, n, i)
    {
      var (k, v) := pal[n];
      if v < 0 {
        return Err(IndexOutOfRange);
      }
      paletteString := paletteString[v := k];
      n := n + 1;
    }
    assert paletteString == seq(paletteLength, i => NameOf(pal, |pal|, i));
    return Ok(paletteString);
  }

  /** `indexOfFirst { it == s }`. */
  function IndexOfFirst(strs: seq<string>, s: string): (r: int)
    ensures -1 <= r < |strs|
    ensures r == -1 <==> s !in strs
    ensures r >= 0 ==> strs[r] == s && s !in strs[..r]
  {
    if strs == [] then -1
    else if strs[0] == s then 0
    else
      var r := IndexOfFirst(strs[1..], s);
      assert strs == [strs[0]] + strs[1..];
      if r == -1 then -1
      else
        assert strs[..r + 1] == [strs[0]] + strs[1..][..r];
        r + 1
  }

  /** The loaders' palette list and skipped id as written: `volPaletteLength` grows by one when
      the default string IS found, and a missing default gets `volPaletteLength - 1`, the
      largest id of the file itself. */
  function DefaultSlotAsWritten(strs: seq<string>): (int, int) {
    var pos := IndexOfFirst(strs, AIR);
    var volPaletteLength := if pos != -1 then |strs| + 1 else |strs|;
    (volPaletteLength, if pos == -1 then volPaletteLength - 1 else pos)
  }

  /** The evident intent, which the comment beside it states: a missing default gets one extra
      slot at the end, holding the default block, and that slot is the skipped id. */
  function DefaultSlot(strs: seq<string>): (r: (int, int))
    ensures r.0 == if AIR in strs then |strs| else |strs| + 1
    ensures 0 <= r.1 < r.0
  {
    var pos := IndexOfFirst(strs, AIR);
    var volPaletteLength := if pos == -1 then |strs| + 1 else |strs|;
    (volPaletteLength, if pos == -1 then volPaletteLength - 1 else pos)
  }

  /** The strings behind the loaders' `palette` list of n entries: the named slots, then the
      default for the slots past them. */
  function Padded(strs: seq<string>, n: int): (r: seq<string>)
    ensures |r| == if n >= |strs| then n else |strs|
    ensures forall i :: 0 <= i < |strs| ==> r[i] == strs[i]
    ensures forall i :: |strs| <= i < |r| ==> r[i] == AIR
  {
    if n <= |strs| then strs else strs + seq(n - |strs|, _ => AIR)
  }

  /** With the corrected arithmetic the skipped id always stands for the default block, so
      skipping it never drops a block of the file. */
  lemma DefaultSlotIsAir(strs: seq<string>)
    ensures var (n, d) := DefaultSlot(strs);
      0 <= d < |Padded(strs, n)| && Padded(strs, n)[d] == AIR
  {
  }

  /** As written, a palette without the default string has its largest id skipped: every block
      of that kind is left as air. */
  lemma DefaultSlotAsWrittenSkipsBlock(strs: seq<string>)
    requires |strs| > 0 && AIR !in strs
    ensures var (n, d) := DefaultSlotAsWritten(strs);
      n == |strs| && d == |strs| - 1 && Padded(strs, n)[d] == strs[|strs| - 1] != AIR
  {
  }

  /** The smallest such file: a palette `{"minecraft:stone": 0}`, whose only block kind is the
      one the loader skips. */
  lemma StoneOnlyPaletteSkipsStone()
    ensures PaletteStrings([("minecraft:stone", 0)]) == Ok(["minecraft:stone"])
    ensures DefaultSlotAsWritten(["minecraft:stone"]) == (1, 0)
    ensures DefaultSlot(["minecraft:stone"]) == (2, 1)
  {
    var pal := [("minecraft:stone", 0)];
    assert PaletteMaxId(pal) == 0;
    assert seq(1, i => NameOf(pal, 1, i)) == ["minecraft:stone"];
    assert "minecraft:stone" != AIR;
  }

  // ---------------------------------------------------------------------------
  // Block data: the varint stream

  /** The bytes `pushVarint` appends for each id in turn. */
  function VarintStream(ids: seq<int>): (bs: seq<Byte>)
    ensures |bs| >= |ids|
  {
    if ids == [] then []
    else VarintStream(ids[..|ids| - 1]) + VarintBytes(U32(ids[|ids| - 1]))
  }

  lemma {:induction false} VarintStreamAppend(a: seq<int>, b: seq<int>)
    ensures VarintStream(a + b) == VarintStream(a) + VarintStream(b)
    decreases |b|
  {
    if b != [] {
      var b' := b[..|b| - 1];
      assert (a + b)[..|a + b| - 1] == a + b';
      VarintStreamAppend(a, b');
    } else {
      assert a + b == a;
    }
  }

  /** The stream up to and including the k-th id. */
  lemma VarintStreamSnoc(ids: seq<int>, k: int)
    requires 0 <= k < |ids|
    ensures VarintStream(ids[..k + 1]) == VarintStream(ids[..k]) + VarintBytes(U32(ids[k]))
  {
    var p := ids[..k + 1];
    assert p[..|p| - 1] == ids[..k] && p[|p| - 1] == ids[k];
  }

  /** The stream around its k-th id: the ids before it, its varint, the ids after it. */
  lemma VarintStreamAt(ids: seq<int>, k: int)
    requires 0 <= k < |ids|
    ensures VarintStream(ids) == VarintStream(ids[..k]) + VarintBytes(U32(ids[k])) + VarintStream(ids[k + 1..])
  {
    assert ids == ids[..k + 1] + ids[k + 1..];
    VarintStreamAppend(ids[..k + 1], ids[k + 1..]);
    VarintStreamSnoc(ids, k);
  }

  /** One `setVolBlockState` the loader makes: the palette id written at a world position. */
  datatype Write = Write(pos: IVec3, id: int)

  /** The cursor step of `loadVarintBlockStates`: X advances, wraps into Z, which wraps into Y. */
  function Advance(size: IVec3, c: IVec3): IVec3 {
    if c.x + 1 >= size.x then
      if c.z + 1 >= size.z then IVec3(0, c.y + 1, 0) else IVec3(0, c.y, c.z + 1)
    else IVec3(c.x + 1, c.y, c.z)
  }

  /** The cursor after k steps from the origin. */
  function Cursor(size: IVec3, k: nat): IVec3 {
    if k == 0 then Splat(0) else Advance(size, Cursor(size, k - 1))
  }

  /** The schematic's blocks relative to its offset. */
  function Box(size: IVec3): IntBoundary {
    IntBoundary(Splat(0), size, size)
  }

  /** The loader visits the blocks in the order `iterYzx` yields them: the cursor of the k-th
      varint is the k-th Y-Z-X point of the box. */
  lemma {:induction false} CursorIsPointAt(size: IVec3, k: nat)
    requires size.x > 0 && size.y >= 0 && size.z > 0
    ensures Cursor(size, k) == PointAt(Box(size), k)
  {
    if k > 0 {
      CursorIsPointAt(size, k - 1);
      StepPointAt(Box(size), k - 1);
    }
  }

  /** Placed at the schematic's offset, the k-th cursor is the k-th Y-Z-X point of the build
      bounds the exporter walked. */
  lemma CursorInBounds(bounds: IntBoundary, k: nat)
    requires Normal(bounds) && bounds.dim.x > 0 && bounds.dim.z > 0
    ensures Add(Cursor(bounds.dim, k), bounds.a) == PointAt(bounds, k)
  {
    CursorIsPointAt(bounds.dim, k);
  }

  /** `loadVarintBlockStates` from byte idx on, with the cursor at c: the writes it makes and
      how it ends. Each varint read is the skipped default id, or an index into palette whose
      entry is written at c + offset; a malformed varint, an index outside the palette and a
      refused write (outside the loaded area, or an entry of another volume) each throw. */
  function Walk(data: seq<Byte>, idx: nat, c: IVec3, size: IVec3, offset: IVec3,
                palette: seq<VolBlockState>, dflt: int, loaded: IntBoundary, uuid: int): (seq<Write>, Outcome)
    decreases |data| - idx
  {
    if idx >= |data| then ([], Pass)
    else
      var read := ReadFrom(data, idx, 0, 0);
      if read.Err? then ([], Fail(read.error))
      else
        ReadFromEnds(data, idx, 0, 0);
        var id := read.value.0;
        var next := read.value.1;
        if id == dflt then Walk(data, next, Advance(size, c), size, offset, palette, dflt, loaded, uuid)
        else if !(0 <= id < |palette|) then ([], Fail(IndexOutOfRange))
        else
          var pos := Add(c, offset);
          if !PosInside(loaded, pos) then ([], Fail(OutOfBounds))
          else if palette[id].parentVolUuid != uuid then ([], Fail(UnregisteredBlock))
          else
            var rest := Walk(data, next, Advance(size, c), size, offset, palette, dflt, loaded, uuid);
            ([Write(pos, palette[id].paletteId)] + rest.0, rest.1)
  }

  /** The writes a stream of ids asks for from the k-th id on: each id but the skipped one goes
      to its cursor position as the palette id of the entry it indexes. */
  function WritesFrom(ids: seq<int>, k: nat, size: IVec3, offset: IVec3,
                      palette: seq<VolBlockState>, dflt: int): seq<Write>
    requires k <= |ids|
    decreases |ids| - k
  {
    if k == |ids| then []
    else
      var rest := WritesFrom(ids, k + 1, size, offset, palette, dflt);
      if ids[k] == dflt || !(0 <= ids[k] < |palette|) then rest
      else [Write(Add(Cursor(size, k), offset), palette[ids[k]].paletteId)] + rest
  }

  /** Ids the loader accepts from the k-th on: each is skipped or indexes an entry of this
      volume, and lands inside the loaded area. */
  ghost predicate Accepted(ids: seq<int>, k: nat, size: IVec3, offset: IVec3,
                           palette: seq<VolBlockState>, dflt: int, loaded: IntBoundary, uuid: int)
  {
    forall j :: k <= j < |ids| && ids[j] != dflt ==>
      0 <= ids[j] < |palette| && palette[ids[j]].parentVolUuid == uuid
      && PosInside(loaded, Add(Cursor(size, j), offset))
  }

  /** Decoding a stream of 32-bit ids walks it id by id: the loader makes exactly the writes
      the ids ask for, in order, and ends normally. */
  lemma {:induction false} WalkStream(ids: seq<int>, k: nat, size: IVec3, offset: IVec3,
                                      palette: seq<VolBlockState>, dflt: int, loaded: IntBoundary, uuid: int)
    requires k <= |ids| && forall j :: 0 <= j < |ids| ==> IsInt(ids[j])
    requires Accepted(ids, k, size, offset, palette, dflt, loaded, uuid)
    ensures Walk(VarintStream(ids), |VarintStream(ids[..k])|, Cursor(size, k), size, offset, palette, dflt, loaded, uuid)
      == (WritesFrom(ids, k, size, offset, palette, dflt), Pass)
    decreases |ids| - k
  {
    var data := VarintStream(ids);
    if k == |ids| {
      assert ids[..k] == ids;
    } else {
      var pre := VarintStream(ids[..k]);
      var next := |VarintStream(ids[..k + 1])|;
      StreamReadAt(ids, k);
      var c := Cursor(size, k);
      assert Cursor(size, k + 1) == Advance(size, c);
      var tail := Walk(data, next, Advance(size, c), size, offset, palette, dflt, loaded, uuid);
      WalkStream(ids, k + 1, size, offset, palette, dflt, loaded, uuid);
      assert tail == (WritesFrom(ids, k + 1, size, offset, palette, dflt), Pass);
      WalkStep(data, |pre|, c, size, offset, palette, dflt, loaded, uuid, ids[k], next);
      if ids[k] != dflt {
        assert 0 <= ids[k] < |palette| && palette[ids[k]].parentVolUuid == uuid
          && PosInside(loaded, Add(c, offset));
      }
    }
  }

  /** The k-th varint of the stream starts where the first k end, and reads back as the k-th id. */
  lemma StreamReadAt(ids: seq<int>, k: nat)
    requires k < |ids| && forall j :: 0 <= j < |ids| ==> IsInt(ids[j])
    ensures |VarintStream(ids[..k])| < |VarintStream(ids)|
    ensures ReadFrom(VarintStream(ids), |VarintStream(ids[..k])|, 0, 0) == Ok((ids[k], |VarintStream(ids[..k + 1])|))
  {
    var pre := VarintStream(ids[..k]);
    var bs := VarintBytes(U32(ids[k]));
    var post := VarintStream(ids[k + 1..]);
    VarintStreamAt(ids, k);
    assert VarintStream(ids) == pre + bs + post;
    VarintStreamSnoc(ids, k);
    assert |VarintStream(ids[..k + 1])| == |pre| + |bs|;
    VarintRoundTrip(pre, ids[k], post);
  }

  lemma ConcatAssoc<X>(a: seq<X>, b: seq<X>, c: seq<X>)
    ensures a + (b + c) == (a + b) + c
  {
  }

  /** One step of the walk over a varint that reads back as id. */
  lemma WalkStep(data: seq<Byte>, idx: nat, c: IVec3, size: IVec3, offset: IVec3,
                 palette: seq<VolBlockState>, dflt: int, loaded: IntBoundary, uuid: int, id: int, next: nat)
    requires idx < |data| && ReadFrom(data, idx, 0, 0) == Ok((id, next))
    ensures var tail := Walk(data, next, Advance(size, c), size, offset, palette, dflt, loaded, uuid);
      Walk(data, idx, c, size, offset, palette, dflt, loaded, uuid)
      == if id == dflt then tail
         else if !(0 <= id < |palette|) then ([], Fail(IndexOutOfRange))
         else if !PosInside(loaded, Add(c, offset)) then ([], Fail(OutOfBounds))
         else if palette[id].parentVolUuid != uuid then ([], Fail(UnregisteredBlock))
         else ([Write(Add(c, offset), palette[id].paletteId)] + tail.0, tail.1)
  {
  }

  // ---------------------------------------------------------------------------
  // The writes, applied to the volume's chunk slots

  /** The chunk slots after each write in turn. */
  function Applied<T>(slots: seq<Slot<T>>, grid: IntBoundary, b: nat, ws: seq<Write>): (r: seq<Slot<T>>)
    requires SlotsFit(slots, b)
    ensures |r| == |slots| && SlotsFit(r, b)
    decreases |ws|
  {
    if ws == [] then slots
    else Applied(WithId(slots, grid, b, ws[0].pos, ws[0].id), grid, b, ws[1..])
  }

  lemma {:induction false} AppliedSnoc<T>(slots: seq<Slot<T>>, grid: IntBoundary, b: nat, ws: seq<Write>, w: Write)
    requires SlotsFit(slots, b)
    ensures Applied(slots, grid, b, ws + [w]) == WithId(Applied(slots, grid, b, ws), grid, b, w.pos, w.id)
    decreases |ws|
  {
    if ws == [] {
      assert (ws + [w])[1..] == [];
    } else {
      assert (ws + [w])[1..] == ws[1..] + [w];
      AppliedSnoc(WithId(slots, grid, b, ws[0].pos, ws[0].id), grid, b, ws[1..], w);
    }
  }

  /** The id of the last write to q, if any. */
  function LastWrite(ws: seq<Write>, q: IVec3): Option<int> {
    if ws == [] then None
    else
      var later := LastWrite(ws[1..], q);
      if later.Some? then later else if ws[0].pos == q then Some(ws[0].id) else None
  }

  /** Every write lands in the area. */
  ghost predicate AllIn(area: IntBoundary, ws: seq<Write>) {
    forall i :: 0 <= i < |ws| ==> PosInside(area, ws[i].pos)
  }

  /** After the writes, each position reads the id last written to it, or what it read before. */
  lemma {:induction false} AppliedEffect<T>(slots: seq<Slot<T>>, grid: IntBoundary, b: nat, ws: seq<Write>, q: IVec3)
    requires SlotsFit(slots, b) && Normal(grid) && |slots| == Volume(grid)
    requires AllIn(Scaled(grid, b), ws)
    ensures IdIn(Applied(slots, grid, b, ws), grid, b, q)
      == if LastWrite(ws, q).Some? then LastWrite(ws, q).value else IdIn(slots, grid, b, q)
    decreases |ws|
  {
    if ws != [] {
      var s1 := WithId(slots, grid, b, ws[0].pos, ws[0].id);
      WithIdEffect(slots, grid, b, ws[0].pos, ws[0].id, q);
      assert forall j :: 0 <= j < |ws[1..]| ==> ws[1..][j] == ws[j + 1];
      assert AllIn(Scaled(grid, b), ws[1..]);
      AppliedEffect(s1, grid, b, ws[1..], q);
    }
  }

  /** Over the build bounds, the write to the j-th point is the j-th id's, unless it is skipped,
      and no other write reaches that point. */
  lemma {:induction false} LastWriteAt(ids: seq<int>, k: nat, bounds: IntBoundary,
                                       palette: seq<VolBlockState>, dflt: int, j: int)
    requires Normal(bounds) && bounds.dim.x > 0 && bounds.dim.z > 0
    requires k <= |ids| <= Volume(bounds) && 0 <= j < |ids|
    ensures LastWrite(WritesFrom(ids, k, bounds.dim, bounds.a, palette, dflt), PointAt(bounds, j))
      == if j < k || ids[j] == dflt || !(0 <= ids[j] < |palette|) then None
         else Some(palette[ids[j]].paletteId)
    decreases |ids| - k
  {
    if k < |ids| {
      var rest := WritesFrom(ids, k + 1, bounds.dim, bounds.a, palette, dflt);
      LastWriteAt(ids, k + 1, bounds, palette, dflt, j);
      if !(ids[k] == dflt || !(0 <= ids[k] < |palette|)) {
        var w := Write(Add(Cursor(bounds.dim, k), bounds.a), palette[ids[k]].paletteId);
        assert ([w] + rest)[1..] == rest;
        CursorInBounds(bounds, k);
        if j != k {
          YzxIdxPointAt(bounds, j);
          YzxIdxPointAt(bounds, k);
        }
      }
    }
  }

  /** Every write the stream asks for lands in the build bounds. */
  lemma {:induction false} WritesInBounds(ids: seq<int>, k: nat, bounds: IntBoundary,
                                          palette: seq<VolBlockState>, dflt: int, q: IVec3)
    requires Normal(bounds) && bounds.dim.x > 0 && bounds.dim.z > 0
    requires k <= |ids| <= Volume(bounds) && !PosInside(bounds, q)
    ensures LastWrite(WritesFrom(ids, k, bounds.dim, bounds.a, palette, dflt), q) == None
    decreases |ids| - k
  {
    if k < |ids| {
      var rest := WritesFrom(ids, k + 1, bounds.dim, bounds.a, palette, dflt);
      WritesInBounds(ids, k + 1, bounds, palette, dflt, q);
      if !(ids[k] == dflt || !(0 <= ids[k] < |palette|)) {
        var w := Write(Add(Cursor(bounds.dim, k), bounds.a), palette[ids[k]].paletteId);
        assert ([w] + rest)[1..] == rest;
        CursorInBounds(bounds, k);
        YzxIdxPointAt(bounds, k);
      }
    }
  }

  /** The writes of a stream lie in the loaded area when the bounds do. */
  lemma WritesLoaded(ids: seq<int>, bounds: IntBoundary, palette: seq<VolBlockState>, dflt: int,
                     loaded: IntBoundary, k: nat)
    requires Normal(bounds) && bounds.dim.x > 0 && bounds.dim.z > 0
    requires k <= |ids| <= Volume(bounds)
    requires forall p :: PosInside(bounds, p) ==> PosInside(loaded, p)
    ensures AllIn(loaded, WritesFrom(ids, k, bounds.dim, bounds.a, palette, dflt))
    decreases |ids| - k
  {
    if k < |ids| {
      WritesLoaded(ids, bounds, palette, dflt, loaded, k + 1);
      CursorInBounds(bounds, k);
      YzxIdxPointAt(bounds, k);
    }
  }

  /** The id a position reads after the stream of ids over the bounds is loaded. */
  function LoadedId<T>(slots: seq<Slot<T>>, grid: IntBoundary, b: nat, ids: seq<int>, bounds: IntBoundary,
                       palette: seq<VolBlockState>, dflt: int, p: IVec3): int
  {
    if PosInside(bounds, p) && 0 <= PosToYzxIdx(bounds, p) < |ids| && ids[PosToYzxIdx(bounds, p)] != dflt
       && 0 <= ids[PosToYzxIdx(bounds, p)] < |palette|
    then palette[ids[PosToYzxIdx(bounds, p)]].paletteId
    else IdIn(slots, grid, b, p)
  }

  /** One position after the writes of a stream over the bounds. */
  lemma StreamIdAt<T>(ids: seq<int>, bounds: IntBoundary, palette: seq<VolBlockState>, dflt: int,
                      slots: seq<Slot<T>>, grid: IntBoundary, b: nat, p: IVec3)
    requires Normal(bounds) && bounds.dim.x > 0 && bounds.dim.z > 0 && |ids| == Volume(bounds)
    requires SlotsFit(slots, b) && Normal(grid) && |slots| == Volume(grid)
    requires forall q :: PosInside(bounds, q) ==> PosInside(Scaled(grid, b), q)
    ensures IdIn(Applied(slots, grid, b, WritesFrom(ids, 0, bounds.dim, bounds.a, palette, dflt)), grid, b, p)
      == LoadedId(slots, grid, b, ids, bounds, palette, dflt, p)
  {
    var ws := WritesFrom(ids, 0, bounds.dim, bounds.a, palette, dflt);
    var loaded := Scaled(grid, b);
    WritesLoaded(ids, bounds, palette, dflt, loaded, 0);
    AppliedEffect(slots, grid, b, ws, p);
    if PosInside(bounds, p) {
      PointAtYzxIdx(bounds, p);
      YzxIdxInRange(bounds, p);
      LastWriteAt(ids, 0, bounds, palette, dflt, PosToYzxIdx(bounds, p));
    } else {
      WritesInBounds(ids, 0, bounds, palette, dflt, p);
    }
  }

  /** Block data round trip: loading the stream of one id per point of the build bounds, in
      Y-Z-X order, with the schematic's box equal to those bounds, ends normally and leaves
      every point of the bounds holding the palette id its varint indexes (the skipped id leaves
      the point as it was), and every other position as it was. */
  lemma BlockDataRoundTrip<T>(ids: seq<int>, bounds: IntBoundary, palette: seq<VolBlockState>, dflt: int,
                              slots: seq<Slot<T>>, grid: IntBoundary, b: nat, uuid: int)
    requires Normal(bounds) && bounds.dim.x > 0 && bounds.dim.z > 0 && |ids| == Volume(bounds)
    requires forall j :: 0 <= j < |ids| ==> IsInt(ids[j])
    requires forall j :: 0 <= j < |ids| && ids[j] != dflt ==>
      0 <= ids[j] < |palette| && palette[ids[j]].parentVolUuid == uuid
    requires SlotsFit(slots, b) && Normal(grid) && |slots| == Volume(grid)
    requires forall p :: PosInside(bounds, p) ==> PosInside(Scaled(grid, b), p)
    ensures var w := Walk(VarintStream(ids), 0, Splat(0), bounds.dim, bounds.a, palette, dflt, Scaled(grid, b), uuid);
      w.1 == Pass
      && (forall p :: IdIn(Applied(slots, grid, b, w.0), grid, b, p)
            == LoadedId(slots, grid, b, ids, bounds, palette, dflt, p))
  {
    var size, offset, loaded := bounds.dim, bounds.a, Scaled(grid, b);
    forall j | 0 <= j < |ids| && ids[j] != dflt
      ensures PosInside(loaded, Add(Cursor(size, j), offset))
    {
      CursorInBounds(bounds, j);
      YzxIdxPointAt(bounds, j);
    }
    assert Accepted(ids, 0, size, offset, palette, dflt, loaded, uuid);
    assert ids[..0] == [];
    WalkStream(ids, 0, size, offset, palette, dflt, loaded, uuid);
    forall p
      ensures IdIn(Applied(slots, grid, b, WritesFrom(ids, 0, size, offset, palette, dflt)), grid, b, p)
        == LoadedId(slots, grid, b, ids, bounds, palette, dflt, p)
    {
      StreamIdAt(ids, bounds, palette, dflt, slots, grid, b, p);
    }
  }

  // ---------------------------------------------------------------------------
  // The loops over the volume

  /** `loadVarintBlockStates`: reads varints until the data is exhausted, writing
      `palette[blockId]` at the cursor plus the offset for every id but the skipped one, and
      stepping the cursor X, then Z, then Y. The volume ends as the walk's writes leave it. */
  method LoadVarintBlockStates<T>(vol: McVolume<T>, schemSize: IVec3, schemOffset: IVec3, blockVolumeData: seq<Byte>,
                                  palette: seq<VolBlockState>, defaultBlockInPaletteId: int) returns (r: Outcome)
    requires vol.Valid()
    modifies vol.Repr
    ensures vol.Valid() && fresh(vol.Repr - old(vol.Repr))
    ensures vol.chunkGridBound == old(vol.chunkGridBound) && vol.loadedBound == old(vol.loadedBound)
    ensures vol.targetBounds == old(vol.targetBounds) && unchanged(vol.palette)
    ensures var w := Walk(blockVolumeData, 0, Splat(0), schemSize, schemOffset, palette, defaultBlockInPaletteId,
                          vol.loadedBound, vol.uuid);
      r == w.1 && vol.slots == Applied(old(vol.slots), vol.chunkGridBound, vol.bitSize, w.0)
  {
    var blockVolumeIdx := 0;
    var bvX, bvY, bvZ := 0, 0, 0;
    ghost var done: seq<Write> := [];
    ghost var walk := Walk(blockVolumeData, 0, Splat(0), schemSize, schemOffset, palette, defaultBlockInPaletteId,
                           vol.loadedBound, vol.uuid);
    assert walk.0 == done + walk.0;
    while blockVolumeIdx < |blockVolumeData|
      invariant vol.Valid() && fresh(vol.Repr - old(vol.Repr))
      invariant vol.chunkGridBound == old(vol.chunkGridBound) && vol.loadedBound == old(vol.loadedBound)
      invariant vol.targetBounds == old(vol.targetBounds) && unchanged(vol.palette)
      invariant 0 <= blockVolumeIdx
      invariant var rest := Walk(blockVolumeData, blockVolumeIdx, IVec3(bvX, bvY, bvZ), schemSize, schemOffset,
                                 palette, defaultBlockInPaletteId, vol.loadedBound, vol.uuid);
        walk.0 == done + rest.0 && walk.1 == rest.1
      invariant vol.slots == Applied(old(vol.slots), vol.chunkGridBound, vol.bitSize, done)
      decreases |blockVolumeData| - blockVolumeIdx
    {
      var stop, c;
      stop, blockVolumeIdx, c, done := LoadStep(vol, schemSize, schemOffset, blockVolumeData, palette,
        defaultBlockInPaletteId, blockVolumeIdx, IVec3(bvX, bvY, bvZ), old(vol.slots), done);
      if stop.Some? {
        assert walk.0 == done + [] == done && walk.1 == stop.value;
        return stop.value;
      }
      bvX, bvY, bvZ := c.x, c.y, c.z;
    }
    assert walk.0 == done + [] == done && walk.1 == Pass;
    return Pass;
  }

  /** One pass of the loop body: the varint at idx is read and written at the cursor c unless
      skipped, and the cursor steps. stop is the exception that ends the loop, if any. */
  method LoadStep<T>(vol: McVolume<T>, schemSize: IVec3, schemOffset: IVec3, blockVolumeData: seq<Byte>,
                     palette: seq<VolBlockState>, defaultBlockInPaletteId: int, idx: nat, c: IVec3,
                     ghost s0: seq<Slot<T>>, ghost done: seq<Write>)
    returns (stop: Option<Outcome>, next: nat, c': IVec3, ghost done': seq<Write>)
    requires vol.Valid() && idx < |blockVolumeData| && SlotsFit(s0, vol.bitSize)
    requires vol.slots == Applied(s0, vol.chunkGridBound, vol.bitSize, done)
    modifies vol.Repr
    ensures vol.Valid() && fresh(vol.Repr - old(vol.Repr))
    ensures vol.chunkGridBound == old(vol.chunkGridBound) && vol.loadedBound == old(vol.loadedBound)
    ensures vol.targetBounds == old(vol.targetBounds) && unchanged(vol.palette)
    ensures var rest := Walk(blockVolumeData, idx, c, schemSize, schemOffset, palette, defaultBlockInPaletteId,
                             vol.loadedBound, vol.uuid);
      var tail := Walk(blockVolumeData, next, c', schemSize, schemOffset, palette, defaultBlockInPaletteId,
                       vol.loadedBound, vol.uuid);
      (stop.Some? ==>
         stop.value == rest.1 && done + rest.0 == done' + []
         && vol.slots == Applied(s0, vol.chunkGridBound, vol.bitSize, done'))
      && (stop.None? ==>
         next > idx && done + rest.0 == done' + tail.0 && rest.1 == tail.1
         && vol.slots == Applied(s0, vol.chunkGridBound, vol.bitSize, done'))
  {
    done' := done;
    c' := c;
    next := idx;
    var read := ReadVarint(blockVolumeData, idx);
    if read.Err? {
      return Some(Fail(read.error)), next, c', done';
    }
    ReadFromEnds(blockVolumeData, idx, 0, 0);
    var (blockId, newBVIdx) := read.value;
    next := newBVIdx;
    WalkStep(blockVolumeData, idx, c, schemSize, schemOffset, palette, defaultBlockInPaletteId,
             vol.loadedBound, vol.uuid, blockId, newBVIdx);
    ghost var tail := Walk(blockVolumeData, next, Advance(schemSize, c), schemSize, schemOffset, palette,
                           defaultBlockInPaletteId, vol.loadedBound, vol.uuid);

    if blockId != defaultBlockInPaletteId {
      var worldPos := Add(c, schemOffset);
      if !(0 <= blockId < |palette|) {
        return Some(Fail(IndexOutOfRange)), next, c', done';
      }
      var block := palette[blockId];
      var placed := vol.SetVolBlockState(worldPos, block);
      if placed.Fail? {
        return Some(placed), next, c', done';
      }
      AppliedSnoc(s0, vol.chunkGridBound, vol.bitSize, done, Write(worldPos, block.paletteId));
      done' := done + [Write(worldPos, block.paletteId)];
      ConcatAssoc(done, [Write(worldPos, block.paletteId)], tail.0);
    }

    var bvX, bvY, bvZ := c.x + 1, c.y, c.z;
    if bvX >= schemSize.x {
      bvX := 0;
      bvZ := bvZ + 1;
      if bvZ >= schemSize.z {
        bvZ := 0;
        bvY := bvY + 1;
      }
    }
    c' := IVec3(bvX, bvY, bvZ);
    assert c' == Advance(schemSize, c);
    stop := None;
  }

  /** What `getVolBlockState` answers at p. */
  ghost function Lookup<T>(vol: McVolume<T>, p: IVec3): Result<VolBlockState>
    reads vol, vol.palette
  {
    if !PosInside(vol.loadedBound, p) then Err(OutOfBounds) else FromId(vol.palette.entries, vol.Id(p))
  }

  /** The answers of `getVolBlockState` at the points of the bounds, in `iterYzx` order. */
  ghost function Lookups<T>(vol: McVolume<T>, bounds: IntBoundary): (rs: seq<Result<VolBlockState>>)
    reads vol, vol.palette
    requires Normal(bounds) && bounds.dim.x > 0 && bounds.dim.z > 0
    ensures |rs| == Volume(bounds)
  {
    VolumeNonNegative(bounds);
    seq(Volume(bounds), k requires 0 <= k < Volume(bounds) reads vol, vol.palette => Lookup(vol, PointAt(bounds, k)))
  }

  /** The bytes the encoder produces from a sequence of answers: the first failed answer is the
      exception thrown; otherwise one varint per entry, holding its palette id. */
  function Emit(rs: seq<Result<VolBlockState>>): Result<seq<Byte>> {
    if rs == [] then Ok([])
    else
      var last := rs[|rs| - 1];
      match Emit(rs[..|rs| - 1])
        case Err(e) => Err(e)
        case Ok(bs) => if last.Err? then Err(last.error) else Ok(bs + VarintBytes(U32(last.value.paletteId)))
  }

  /** The encoder succeeds exactly when every answer does, and then its bytes are the varint
      stream of the answered palette ids. */
  lemma {:induction false} EmitMeaning(rs: seq<Result<VolBlockState>>)
    ensures Emit(rs).Ok? <==> forall k :: 0 <= k < |rs| ==> rs[k].Ok?
    ensures Emit(rs).Ok? ==> Emit(rs).value == VarintStream(seq(|rs|, k requires 0 <= k < |rs| && rs[k].Ok? => rs[k].value.paletteId))
  {
    if rs != [] {
      var init := rs[..|rs| - 1];
      EmitMeaning(init);
      if Emit(rs).Ok? {
        var ids := seq(|rs|, k requires 0 <= k < |rs| && rs[k].Ok? => rs[k].value.paletteId);
        assert ids[..|ids| - 1] == seq(|init|, k requires 0 <= k < |init| && init[k].Ok? => init[k].value.paletteId);
      } else if Emit(init).Err? {
        var k :| 0 <= k < |init| && !init[k].Ok?;
        assert !rs[k].Ok?;
      }
    }
  }

  /** Once a prefix of the answers fails, so does the whole encoding, with the same exception. */
  lemma {:induction false} EmitErrPrefix(rs: seq<Result<VolBlockState>>, k: nat)
    requires k <= |rs| && Emit(rs[..k]).Err?
    ensures Emit(rs) == Emit(rs[..k])
    decreases |rs| - k
  {
    if k < |rs| {
      var p := rs[..k + 1];
      assert p[..|p| - 1] == rs[..k];
      EmitErrPrefix(rs, k + 1);
    } else {
      assert rs[..k] == rs;
    }
  }

  /** `getSchemBlockStateByteArrayTag`: for every point of the build bounds in `iterYzx`
      order, `pushVarint` of the palette id `getVolBlockState` answers there. */
  method SchemBlockData<T>(vol: McVolume<T>, buildBounds: IntBoundary) returns (r: Result<seq<Byte>>)
    requires vol.Valid() && Normal(buildBounds) && buildBounds.dim.x > 0 && buildBounds.dim.z > 0
    ensures r == Emit(Lookups(vol, buildBounds))
  {
    ghost var rs := Lookups(vol, buildBounds);
    var blockDataList: seq<Byte> := [];
    var it := new YzxIter(buildBounds);
    assert rs[..0] == [];
    while it.HasNext()
      invariant it.Valid() && it.box == buildBounds && fresh(it)
      invariant it.yielded <= |rs| && Emit(rs[..it.yielded]) == Ok(blockDataList)
      decreases Volume(buildBounds) - it.yielded
    {
      PointAtBelowTop(buildBounds, it.yielded);
      ghost var k := it.yielded;
      var p := it.Next();
      var vbs := vol.GetVolBlockState(p);
      assert vbs == rs[k];
      ghost var pre := rs[..k + 1];
      assert pre[..|pre| - 1] == rs[..k] && pre[|pre| - 1] == rs[k];
      if vbs.Err? {
        EmitErrPrefix(rs, k + 1);
        return Err(vbs.error);
      }
      var id := vbs.value.paletteId;
      assert id == VolBlocks.ToShort(vol.Id(p));
      blockDataList := PushVarint(blockDataList, id);
    }
    PointAtBelowTop(buildBounds, it.yielded);
    assert rs[..it.yielded] == rs;
    return Ok(blockDataList);
  }

  // ---------------------------------------------------------------------------
  // The palettes on either side

  /** Whether one of the first n entries of the compound has value i. */
  function Named(pal: PaletteNbt, n: nat, i: int): bool
    requires n <= |pal|
  {
    n > 0 && (pal[n - 1].1 == i || Named(pal, n - 1, i))
  }

  /** What the loaders' `palette` list holds after the first n entries of the compound: every
      slot carries the volume's uuid, an unnamed slot holds the default entry, and a named one
      the entry interned for its last key. */
  ghost predicate LoaderSlots(slots: seq<VolBlockState>, pal: PaletteNbt, n: nat, uuid: int, dflt: VolBlockState)
    requires n <= |pal|
  {
    forall i :: 0 <= i < |slots| ==>
      slots[i].parentVolUuid == uuid
      && (!Named(pal, n, i) ==> slots[i] == dflt)
      && (Named(pal, n, i) ==>
            FromStr(NameOf(pal, n, i)).Ok?
            && StateStr(slots[i].state) == StateStr(FromStr(NameOf(pal, n, i)).value))
  }

  /** The first n entries of the compound parse and index the list. */
  ghost predicate EntriesFit(pal: PaletteNbt, n: nat, len: nat)
    requires n <= |pal|
  {
    forall j :: 0 <= j < n ==> FromStr(pal[j].0).Ok? && 0 <= pal[j].1 < len
  }

  lemma EntriesFitStep(pal: PaletteNbt, n: nat, len: nat)
    requires n < |pal| && EntriesFit(pal, n, len)
    requires FromStr(pal[n].0).Ok? && 0 <= pal[n].1 < len
    ensures EntriesFit(pal, n + 1, len)
  {
  }

  /** One assignment `palette[v] = getEnsuredPaletteBlock(k)` keeps LoaderSlots. */
  lemma LoaderSlotsStep(slots: seq<VolBlockState>, pal: PaletteNbt, n: nat, uuid: int, dflt: VolBlockState,
                        bs: BlockState, block: VolBlockState)
    requires n < |pal| && LoaderSlots(slots, pal, n, uuid, dflt)
    requires FromStr(pal[n].0) == Ok(bs) && StateStr(block.state) == StateStr(bs)
    requires block.parentVolUuid == uuid && 0 <= pal[n].1 < |slots|
    ensures LoaderSlots(slots[pal[n].1 := block], pal, n + 1, uuid, dflt)
  {
    var v := pal[n].1;
    var slots' := slots[v := block];
    forall i | 0 <= i < |slots'|
      ensures slots'[i].parentVolUuid == uuid
      ensures !Named(pal, n + 1, i) ==> slots'[i] == dflt
      ensures Named(pal, n + 1, i) ==>
        FromStr(NameOf(pal, n + 1, i)).Ok?
        && StateStr(slots'[i].state) == StateStr(FromStr(NameOf(pal, n + 1, i)).value)
    {
      if i == v {
        assert Named(pal, n + 1, i) && NameOf(pal, n + 1, i) == pal[n].0;
      } else {
        assert Named(pal, n + 1, i) == Named(pal, n, i) && NameOf(pal, n + 1, i) == NameOf(pal, n, i);
      }
    }
  }

  /** The loaders' `palette` list: volPaletteLength copies of the default entry, then for each
      entry of the compound in turn `palette[v] = getEnsuredPaletteBlock(k)`. A key that does not
      parse throws, and so does a value outside the list, after its state was interned. */
  method LoaderPalette<T>(vol: McVolume<T>, pal: PaletteNbt, volPaletteLength: nat)
    returns (r: Result<seq<VolBlockState>>)
    requires vol.Valid()
    modifies vol.palette
    ensures vol.Valid() && old(vol.palette.entries) <= vol.palette.entries
    ensures r.Ok? <==> EntriesFit(pal, |pal|, volPaletteLength)
    ensures r.Ok? ==> |r.value| == volPaletteLength
    ensures r.Ok? ==> LoaderSlots(r.value, pal, |pal|, vol.uuid, vol.palette.entries[0])
  {
    var defaultBlock := vol.GetDefaultBlock();
    assert defaultBlock.parentVolUuid == vol.uuid;
    var palette := seq(volPaletteLength, _ => defaultBlock);
    ghost var es0 := vol.palette.entries;
    var n := 0;
    while n < |pal|
      invariant 0 <= n <= |pal| && |palette| == volPaletteLength
      invariant vol.Valid() && es0 <= vol.palette.entries
      invariant defaultBlock == vol.palette.entries[0]
      invariant EntriesFit(pal, n, volPaletteLength)
      invariant LoaderSlots(palette, pal, n, vol.uuid, defaultBlock)
    {
      var (k, v) := pal[n];
      var bs := FromStr(k);
      if bs.Err? {
        return Err(bs.error);
      }
      ghost var before := vol.palette.entries;
      var block := vol.GetEnsuredPaletteBlock(bs.value);
      assert before <= vol.palette.entries;
      if !(0 <= v < |palette|) {
        return Err(IndexOutOfRange);
      }
      LoaderSlotsStep(palette, pal, n, vol.uuid, defaultBlock, bs.value, block);
      EntriesFitStep(pal, n, volPaletteLength);
      palette := palette[v := block];
      n := n + 1;
    }
    return Ok(palette);
  }

  /** `blockPaletteAsSchemPaletteNbt` on the mappings `toUnlinkedBlockStateMappings` gives for
      ids 0 to n - 1: `PaletteMax` is the number of mappings, and the compound sends each
      state string to its id, in id order. */
  function SchemPaletteOf(mappings: map<int, BlockState>, n: nat): (r: (int, PaletteNbt))
    requires forall i :: i in mappings <==> 0 <= i < n
  {
    (|mappings.Keys|, seq(n, i requires 0 <= i < n => (StateStr(mappings[i]), i)))
  }

  /** The ids 0 to n - 1 are n keys. */
  lemma {:induction false} KeysCount(mappings: map<int, BlockState>, n: nat)
    requires forall i :: i in mappings <==> 0 <= i < n
    ensures |mappings.Keys| == n
    decreases n
  {
    if n == 0 {
      assert mappings.Keys == {};
    } else {
      var m' := map i | i in mappings && i != n - 1 :: mappings[i];
      KeysCount(m', n - 1);
      assert mappings.Keys == m'.Keys + {n - 1};
    }
  }

  /** Palette round trip: `PaletteMax` is the palette size, and a loader reading the exported
      compound rebuilds `paletteString` as the state strings of ids 0 to n - 1; when id 0 is the
      default block, that is the id both the written and the corrected arithmetic skip. */
  lemma SchemPaletteLoads(mappings: map<int, BlockState>, n: nat)
    requires n >= 1 && forall i :: i in mappings <==> 0 <= i < n
    ensures SchemPaletteOf(mappings, n).0 == n
    ensures PaletteStrings(SchemPaletteOf(mappings, n).1) == Ok(seq(n, i requires 0 <= i < n => StateStr(mappings[i])))
    ensures StateStr(mappings[0]) == AIR ==>
      DefaultSlot(seq(n, i requires 0 <= i < n => StateStr(mappings[i]))).1 == 0
      && DefaultSlotAsWritten(seq(n, i requires 0 <= i < n => StateStr(mappings[i]))).1 == 0
  {
    KeysCount(mappings, n);
    var pal := SchemPaletteOf(mappings, n).1;
    assert pal[n - 1].1 == n - 1;
    assert PaletteMaxId(pal) == n - 1;
    forall i | 0 <= i < n
      ensures NameOf(pal, n, i) == StateStr(mappings[i])
    {
      NameOfMeaning(pal, n, i);
      assert pal[i].1 == i;
    }
    var strs := seq(n, i requires 0 <= i < n => StateStr(mappings[i]));
    assert seq(PaletteMaxId(pal) + 1, i => NameOf(pal, |pal|, i)) == strs;
    assert strs[0] == StateStr(mappings[0]);
  }
}
