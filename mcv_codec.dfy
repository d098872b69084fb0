/** The byte layout of an Mcv file (Mcv.kt), before gzip: every number little-endian, every array
    and string prefixed with its length as a 4-byte Int. Encoders give the bytes a `put*` extension
    appends; decoders read the matching `get*` from a position of the buffer's bytes and return the
    value with the position after it. */
module McvCodec {
  import opened Vec
  import opened Bytes
  import opened Wrappers
  import opened Bounds
  import opened Packing
  import opened McvRemap

  // ---------------------------------------------------------------------------
  // Encoders

  function EncShort(v: int): seq<Byte> { LeBytes(v, 2) }
  function EncInt(v: int): seq<Byte> { LeBytes(v, 4) }

  /** The values of an array, w bytes each, in order: the loop `for (e in arr) put(e)`. */
  function EncEach(vs: seq<int>, w: nat): seq<Byte>
    decreases |vs|
  {
    if |vs| == 0 then [] else LeBytes(vs[0], w) + EncEach(vs[1..], w)
  }

  /** `putShortArr`, `putIntArr`, `putLongArr`. */
  function EncShortArr(vs: seq<Short>): seq<Byte> { EncInt(|vs|) + EncEach(vs, 2) }
  function EncIntArr(vs: seq<int>): seq<Byte> { EncInt(|vs|) + EncEach(vs, 4) }
  function EncLongArr(vs: seq<int>): seq<Byte> { EncInt(|vs|) + EncEach(vs, 8) }

  /** `putString`, given the string's UTF-8 bytes. */
  function EncString(utf8: seq<Byte>): seq<Byte> { EncInt(|utf8|) + utf8 }

  function EncIVec3(v: IVec3): seq<Byte> { EncInt(v.x) + EncInt(v.y) + EncInt(v.z) }
  function EncBoundary(bd: IntBoundary): seq<Byte> { EncIVec3(bd.a) + EncIVec3(bd.b) }

  datatype MiscData = MiscData(chunkGridBound: IntBoundary, loadedBound: IntBoundary, wantedBound: IntBoundary)

  function EncMiscData(m: MiscData): seq<Byte> {
    EncBoundary(m.chunkGridBound) + EncBoundary(m.loadedBound) + EncBoundary(m.wantedBound)
  }

  /** A serialized palette entry: its id and the UTF-8 bytes of its state string. */
  datatype Entry = Entry(paletteId: Short, state: seq<Byte>)

  function EncVolBlockState(e: Entry): seq<Byte> { EncShort(e.paletteId) + EncString(e.state) }

  function EncEntries(es: seq<Entry>): seq<Byte>
    decreases |es|
  {
    if |es| == 0 then [] else EncVolBlockState(es[0]) + EncEntries(es[1..])
  }

  function EncVolBlockStateArr(es: seq<Entry>): seq<Byte> { EncInt(|es|) + EncEntries(es) }

  datatype PaletteKind = ListPalette | HashedPalette

  /** The palette type byte: 0 for a list palette, 1 for a hashed one. */
  function PaletteTypeId(k: PaletteKind): Byte { if k == ListPalette then 0 else 1 }

  function EncBlockPalette(k: PaletteKind, es: seq<Entry>): seq<Byte> {
    [PaletteTypeId(k)] + EncVolBlockStateArr(es)
  }

  /** `ShortPackedLongArr`: the packed longs, their bit length and the number of values. */
  datatype Packed = Packed(longs: seq<int>, bitLength: int, valueCount: int)

  /** `toByte()` of an Int: its low 8 bits. */
  function ToByte(v: int): Byte { v % 256 }

  /** `getByte().toInt()`: the byte read as a signed value. */
  function SignedByte(b: Byte): int { if b < 128 then b else b - 256 }

  function EncPacked(p: Packed): seq<Byte> {
    EncInt(p.valueCount) + [ToByte(p.bitLength)] + EncLongArr(p.longs)
  }

  /** What `putMcvChunk` computes before writing: the chunk's distinct ids, and its local ids packed
      at the bit width of the largest local id (Mcv.kt:262-265). */
  function ChunkPacking(blocks: seq<Short>): (r: (seq<Short>, Packed))
    ensures r.0 == Distinct(blocks) && |r.0| <= TWO_16 && r.1.valueCount == |blocks|
    ensures r.1.bitLength == ChunkBitLength(|Distinct(blocks)| - 1)
  {
    var l2g := Distinct(blocks);
    DistinctShortsBound(l2g);
    var remapped := LocalIds(blocks);
    var bl := ChunkBitLength(|l2g| - 1);
    var longs := if |remapped| == 0 then [] else PackLF(Fields(remapped, bl), PerLong(bl), bl);
    (l2g, Packed(longs, bl, |remapped|))
  }

  /** A chunk record: position, local-to-global id list, packed local ids. */
  function EncChunkParts(pos: IVec3, l2g: seq<Short>, pk: Packed): seq<Byte> {
    EncIVec3(pos) + EncShortArr(l2g) + EncPacked(pk)
  }

  /** `putMcvChunk`. */
  function EncChunk(pos: IVec3, blocks: seq<Short>): seq<Byte> {
    var packing := ChunkPacking(blocks);
    EncChunkParts(pos, packing.0, packing.1)
  }

  // ---------------------------------------------------------------------------
  // Decoders

  function ToShorts(raw: seq<nat>): (r: seq<Short>)
    ensures |r| == |raw|
  {
    seq(|raw|, i requires 0 <= i < |raw| => ToShort(raw[i]))
  }

  function ToInts(raw: seq<nat>): (r: seq<int>)
    ensures |r| == |raw|
  {
    seq(|raw|, i requires 0 <= i < |raw| => ToInt(raw[i]))
  }

  function IntAt(bs: seq<Byte>, p: int): int
    requires 0 <= p && p + 4 <= |bs|
  {
    ToInt(FromLe(bs[p..p + 4]))
  }

  function DecByte(bs: seq<Byte>, p: int): Result<(Byte, int)>
    requires 0 <= p
  {
    if p + 1 > |bs| then Err(BufferUnderflow) else Ok((bs[p], p + 1))
  }

  function DecInt(bs: seq<Byte>, p: int): Result<(int, int)>
    requires 0 <= p
  {
    if p + 4 > |bs| then Err(BufferUnderflow) else Ok((IntAt(bs, p), p + 4))
  }

  /** n unsigned values of w bytes each, read one after the other. */
  function DecEach(bs: seq<Byte>, p: int, n: nat, w: nat): (r: Result<(seq<nat>, int)>)
    requires 0 <= p
    ensures r.Ok? ==> |r.value.0| == n && p <= r.value.1 <= |bs|
    decreases n
  {
    if n == 0 then (if p <= |bs| then Ok(([], p)) else Err(BufferUnderflow))
    else if p + w > |bs| then Err(BufferUnderflow)
    else match DecEach(bs, p + w, n - 1, w)
      case Err(e) => Err(e)
      case Ok(rest) => Ok(([FromLe(bs[p..p + w])] + rest.0, rest.1))
  }

  /** The length prefix of an array; a negative one is a negative array size. */
  function DecLength(bs: seq<Byte>, p: int): (r: Result<(nat, int)>)
    requires 0 <= p
    ensures r.Ok? ==> r.value.1 == p + 4 <= |bs|
  {
    match DecInt(bs, p)
    case Err(e) => Err(e)
    case Ok(n) => if n.0 < 0 then Err(NegativeArraySize) else Ok((n.0, n.1))
  }

  function DecShortArr(bs: seq<Byte>, p: int): Result<(seq<Short>, int)>
    requires 0 <= p
  {
    match DecLength(bs, p)
    case Err(e) => Err(e)
    case Ok(n) =>
      match DecEach(bs, n.1, n.0, 2)
      case Err(e) => Err(e)
      case Ok(raw) => Ok((ToShorts(raw.0), raw.1))
  }

  function DecIntArr(bs: seq<Byte>, p: int): Result<(seq<int>, int)>
    requires 0 <= p
  {
    match DecLength(bs, p)
    case Err(e) => Err(e)
    case Ok(n) =>
      match DecEach(bs, n.1, n.0, 4)
      case Err(e) => Err(e)
      case Ok(raw) => Ok((ToInts(raw.0), raw.1))
  }

  /** `getLongArr`, each Long kept as its unsigned bit pattern. */
  function DecLongArr(bs: seq<Byte>, p: int): Result<(seq<int>, int)>
    requires 0 <= p
  {
    match DecLength(bs, p)
    case Err(e) => Err(e)
    case Ok(n) =>
      match DecEach(bs, n.1, n.0, 8)
      case Err(e) => Err(e)
      case Ok(raw) => Ok((raw.0, raw.1))
  }

  /** `getString`, returning the UTF-8 bytes. */
  function DecString(bs: seq<Byte>, p: int): (r: Result<(seq<Byte>, int)>)
    requires 0 <= p
    ensures r.Ok? ==> p <= r.value.1 <= |bs|
  {
    match DecLength(bs, p)
    case Err(e) => Err(e)
    case Ok(n) => if n.1 + n.0 > |bs| then Err(BufferUnderflow) else Ok((bs[n.1..n.1 + n.0], n.1 + n.0))
  }

  /** `getIVec3`: three Ints; reading past the end fails on the first Int that does not fit. */
  function DecIVec3(bs: seq<Byte>, p: int): Result<(IVec3, int)>
    requires 0 <= p
  {
    if p + 12 > |bs| then Err(BufferUnderflow)
    else Ok((IVec3(IntAt(bs, p), IntAt(bs, p + 4), IntAt(bs, p + 8)), p + 12))
  }

  /** `getIntBoundary`: two corners, normalised by `IntBoundary.new`. */
  function DecBoundary(bs: seq<Byte>, p: int): Result<(IntBoundary, int)>
    requires 0 <= p
  {
    match DecIVec3(bs, p)
    case Err(e) => Err(e)
    case Ok(a) =>
      match DecIVec3(bs, a.1)
      case Err(e) => Err(e)
      case Ok(b) => Ok((New(a.0, b.0), b.1))
  }

  function DecMiscData(bs: seq<Byte>, p: int): Result<(MiscData, int)>
    requires 0 <= p
  {
    match DecBoundary(bs, p)
    case Err(e) => Err(e)
    case Ok(c) =>
      match DecBoundary(bs, c.1)
      case Err(e) => Err(e)
      case Ok(l) =>
        match DecBoundary(bs, l.1)
        case Err(e) => Err(e)
        case Ok(w) => Ok((MiscData(c.0, l.0, w.0), w.1))
  }

  function DecVolBlockState(bs: seq<Byte>, p: int): (r: Result<(Entry, int)>)
    requires 0 <= p
    ensures r.Ok? ==> p < r.value.1 <= |bs|
  {
    if p + 2 > |bs| then Err(BufferUnderflow)
    else
      match DecString(bs, p + 2)
      case Err(e) => Err(e)
      case Ok(s) => Ok((Entry(ToShort(FromLe(bs[p..p + 2])), s.0), s.1))
  }

  function DecEntries(bs: seq<Byte>, p: int, n: nat): (r: Result<(seq<Entry>, int)>)
    requires 0 <= p
    ensures r.Ok? ==> |r.value.0| == n && p <= r.value.1
    decreases n
  {
    if n == 0 then Ok(([], p))
    else match DecVolBlockState(bs, p)
      case Err(e) => Err(e)
      case Ok(e) =>
        match DecEntries(bs, e.1, n - 1)
        case Err(err) => Err(err)
        case Ok(rest) => Ok(([e.0] + rest.0, rest.1))
  }

  /** `getVolBlockStateArray`: `List(size)` rejects a negative size. */
  function DecVolBlockStateArr(bs: seq<Byte>, p: int): Result<(seq<Entry>, int)>
    requires 0 <= p
  {
    match DecLength(bs, p)
    case Err(e) => Err(e)
    case Ok(n) => DecEntries(bs, n.1, n.0)
  }

  /** `getBlockPalette`: the type byte, then the entries, then the check of the type byte. */
  function DecBlockPalette(bs: seq<Byte>, p: int): (r: Result<((PaletteKind, seq<Entry>), int)>)
    requires 0 <= p
    ensures r.Ok? ==> p < |bs| && bs[p] <= 1 && r.value.0.0 == (if bs[p] == 0 then ListPalette else HashedPalette)
    ensures p < |bs| && bs[p] > 1 ==> r.Err?
  {
    match DecByte(bs, p)
    case Err(e) => Err(e)
    case Ok(t) =>
      match DecVolBlockStateArr(bs, t.1)
      case Err(e) => Err(e)
      case Ok(es) =>
        if SignedByte(t.0) == 0 then Ok(((ListPalette, es.0), es.1))
        else if SignedByte(t.0) == 1 then Ok(((HashedPalette, es.0), es.1))
        else Err(UnknownPaletteType)
  }

  function DecPacked(bs: seq<Byte>, p: int): Result<(Packed, int)>
    requires 0 <= p
  {
    match DecInt(bs, p)
    case Err(e) => Err(e)
    case Ok(c) =>
      match DecByte(bs, c.1)
      case Err(e) => Err(e)
      case Ok(b) =>
        match DecLongArr(bs, b.1)
        case Err(e) => Err(e)
        case Ok(ls) => Ok((Packed(ls.0, SignedByte(b.0), c.0), ls.1))
  }

  /** `ShortArray(n) { l2g[remapped[it].toInt()] }`: fails when a local id is not an index. */
  function Rebuild(l2g: seq<Short>, remapped: seq<Short>): (r: Result<seq<Short>>)
    ensures r.Ok? <==> forall i :: 0 <= i < |remapped| ==> 0 <= remapped[i] < |l2g|
  {
    if forall i :: 0 <= i < |remapped| ==> 0 <= remapped[i] < |l2g| then
      Ok(seq(|remapped|, i requires 0 <= i < |remapped| => l2g[remapped[i]]))
    else Err(IndexOutOfRange)
  }

  /** The chunk's global ids from its id list and packed local ids; `unsigned` selects the corrected
      rebuild. */
  function Unpacked(l2g: seq<Short>, pk: Packed, unsigned: bool): Result<seq<Short>> {
    match UnpackLF(pk.longs, pk.bitLength, pk.valueCount)
    case Err(e) => Err(e)
    case Ok(remapped) => if unsigned then RebuildUnsigned(l2g, remapped) else Rebuild(l2g, remapped)
  }

  /** `getMcvChunk`: the chunk's position and its rebuilt global ids (tile data is not stored). */
  function DecChunk(bs: seq<Byte>, p: int): Result<((IVec3, seq<Short>), int)>
    requires 0 <= p
  {
    match DecIVec3(bs, p)
    case Err(e) => Err(e)
    case Ok(pos) =>
      match DecShortArr(bs, pos.1)
      case Err(e) => Err(e)
      case Ok(l2g) =>
        match DecPacked(bs, l2g.1)
        case Err(e) => Err(e)
        case Ok(pk) =>
          match Unpacked(l2g.0, pk.0, false)
          case Err(e) => Err(e)
          case Ok(blocks) => Ok(((pos.0, blocks), pk.1))
  }

  /** The corrected rebuild: a local id is read back as the unsigned 16-bit value it was written as,
      so local ids from 32768 up index the id list again. */
  function RebuildUnsigned(l2g: seq<Short>, remapped: seq<Short>): (r: Result<seq<Short>>)
    ensures r.Ok? <==> forall i :: 0 <= i < |remapped| ==> remapped[i] % TWO_16 < |l2g|
  {
    if forall i :: 0 <= i < |remapped| ==> remapped[i] % TWO_16 < |l2g| then
      Ok(seq(|remapped|, i requires 0 <= i < |remapped| => l2g[remapped[i] % TWO_16]))
    else Err(IndexOutOfRange)
  }

  /** `getMcvChunk` with the corrected rebuild. */
  function DecChunkUnsigned(bs: seq<Byte>, p: int): Result<((IVec3, seq<Short>), int)>
    requires 0 <= p
  {
    match DecIVec3(bs, p)
    case Err(e) => Err(e)
    case Ok(pos) =>
      match DecShortArr(bs, pos.1)
      case Err(e) => Err(e)
      case Ok(l2g) =>
        match DecPacked(bs, l2g.1)
        case Err(e) => Err(e)
        case Ok(pk) =>
          match Unpacked(l2g.0, pk.0, true)
          case Err(e) => Err(e)
          case Ok(blocks) => Ok(((pos.0, blocks), pk.1))
  }
}
