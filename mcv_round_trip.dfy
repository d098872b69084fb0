/** Reading back what was written: for every value the Mcv writer can produce, the matching reader
    at the position where the bytes start returns that value and the position just after them. */
module McvRoundTrip {
  import opened Vec
  import opened Bytes
  import opened Wrappers
  import opened Bounds
  import opened Packing
  import opened McvRemap
  import opened McvCodec

  /** The bytes e sit at position p of bs, byte by byte. */
  predicate At(bs: seq<Byte>, p: int, e: seq<Byte>)
    decreases |e|
  {
    0 <= p && if |e| == 0 then p <= |bs| else p < |bs| && bs[p] == e[0] && At(bs, p + 1, e[1..])
  }

  lemma {:induction false} AtSlice(bs: seq<Byte>, p: int, e: seq<Byte>)
    ensures At(bs, p, e) <==> 0 <= p && p + |e| <= |bs| && bs[p..p + |e|] == e
    decreases |e|
  {
    if |e| > 0 {
      AtSlice(bs, p + 1, e[1..]);
      if 0 <= p && p + |e| <= |bs| {
        assert bs[p..p + |e|] == [bs[p]] + bs[p + 1..p + |e|];
        assert e == [e[0]] + e[1..];
      }
    }
  }

  lemma AtSplit(bs: seq<Byte>, p: int, a: seq<Byte>, b: seq<Byte>)
    requires At(bs, p, a + b)
    ensures At(bs, p, a) && At(bs, p + |a|, b)
  {
    AtSlice(bs, p, a + b);
    AtSlice(bs, p, a);
    AtSlice(bs, p + |a|, b);
    assert bs[p..p + |a|] == (a + b)[..|a|];
    assert bs[p + |a|..p + |a| + |b|] == (a + b)[|a|..];
  }

  /** The w-byte unsigned pattern of v. */
  function Residue(v: int, w: nat): nat { v % Pow2(8 * w) }

  /** The values of vs as their w-byte unsigned patterns. */
  function Residues(vs: seq<int>, w: nat): (r: seq<nat>)
    ensures |r| == |vs|
  {
    seq(|vs|, i requires 0 <= i < |vs| => Residue(vs[i], w))
  }

  predicate IntVec(v: IVec3) { IsInt(v.x) && IsInt(v.y) && IsInt(v.z) }

  /** A boundary the writer can produce: normalised, with Int corners. */
  predicate IntBound(bd: IntBoundary) { Normal(bd) && IntVec(bd.a) && IntVec(bd.b) }

  lemma IntAtEnc(bs: seq<Byte>, p: int, v: int)
    requires IsInt(v) && At(bs, p, EncInt(v))
    ensures 0 <= p && p + 4 <= |bs| && IntAt(bs, p) == v
  {
    AtSlice(bs, p, EncInt(v));
    IntBytesRoundTrip(v);
  }

  lemma {:induction false} DecEachAt(bs: seq<Byte>, p: int, vs: seq<int>, w: nat)
    requires At(bs, p, EncEach(vs, w))
    ensures DecEach(bs, p, |vs|, w) == Ok((Residues(vs, w), p + |EncEach(vs, w)|))
    decreases |vs|
  {
    if |vs| > 0 {
      AtSplit(bs, p, LeBytes(vs[0], w), EncEach(vs[1..], w));
      AtSlice(bs, p, LeBytes(vs[0], w));
      DecEachAt(bs, p + w, vs[1..], w);
      LeBytesRoundTrip(vs[0], w);
      assert [Residue(vs[0], w)] + Residues(vs[1..], w) == Residues(vs, w);
    }
  }

  lemma DecLengthAt(bs: seq<Byte>, p: int, n: nat)
    requires n <= INT_MAX && At(bs, p, EncInt(n))
    ensures DecLength(bs, p) == Ok((n, p + 4))
  {
    IntAtEnc(bs, p, n);
  }

  lemma ShortResidues(vs: seq<Short>)
    ensures ToShorts(Residues(vs, 2)) == vs
  {
    forall i | 0 <= i < |vs| ensures ToShorts(Residues(vs, 2))[i] == vs[i] {
      ShortBytesRoundTrip(vs[i]);
      LeBytesRoundTrip(vs[i], 2);
    }
  }

  lemma IntResidues(vs: seq<int>)
    requires forall i :: 0 <= i < |vs| ==> IsInt(vs[i])
    ensures ToInts(Residues(vs, 4)) == vs
  {
    forall i | 0 <= i < |vs| ensures ToInts(Residues(vs, 4))[i] == vs[i] {
      IntBytesRoundTrip(vs[i]);
      LeBytesRoundTrip(vs[i], 4);
    }
  }

  lemma LongResidues(vs: seq<int>)
    requires forall i :: 0 <= i < |vs| ==> IsLongBits(vs[i])
    ensures Residues(vs, 8) == vs
  {
    forall i | 0 <= i < |vs| ensures Residues(vs, 8)[i] == vs[i] {
      LongBytesRoundTrip(vs[i]);
      LeBytesRoundTrip(vs[i], 8);
    }
  }

  lemma DecShortArrAt(bs: seq<Byte>, p: int, vs: seq<Short>)
    requires |vs| <= INT_MAX && At(bs, p, EncShortArr(vs))
    ensures DecShortArr(bs, p).Ok? && DecShortArr(bs, p).value.0 == vs
    ensures DecShortArr(bs, p).value.1 == p + |EncShortArr(vs)|
  {
    AtSplit(bs, p, EncInt(|vs|), EncEach(vs, 2));
    DecLengthAt(bs, p, |vs|);
    DecEachAt(bs, p + 4, vs, 2);
    ShortResidues(vs);
  }

  lemma DecIntArrAt(bs: seq<Byte>, p: int, vs: seq<int>)
    requires |vs| <= INT_MAX && (forall i :: 0 <= i < |vs| ==> IsInt(vs[i]))
    requires At(bs, p, EncIntArr(vs))
    ensures DecIntArr(bs, p) == Ok((vs, p + |EncIntArr(vs)|))
  {
    var hd, tl := EncInt(|vs|), EncEach(vs, 4);
    assert At(bs, p, hd) && At(bs, p + 4, tl) by {
      AtSplit(bs, p, hd, tl);
    }
    assert DecLength(bs, p) == Ok((|vs|, p + 4)) by {
      DecLengthAt(bs, p, |vs|);
    }
    var raw := DecEach(bs, p + 4, |vs|, 4);
    assert raw.Ok? && raw.value.0 == Residues(vs, 4) && raw.value.1 == p + |EncIntArr(vs)| by {
      DecEachAt(bs, p + 4, vs, 4);
    }
    IntResidues(vs);
  }

  lemma DecLongArrAt(bs: seq<Byte>, p: int, vs: seq<int>)
    requires |vs| <= INT_MAX && (forall i :: 0 <= i < |vs| ==> IsLongBits(vs[i]))
    requires At(bs, p, EncLongArr(vs))
    ensures DecLongArr(bs, p) == Ok((vs, p + |EncLongArr(vs)|))
  {
    AtSplit(bs, p, EncInt(|vs|), EncEach(vs, 8));
    DecLengthAt(bs, p, |vs|);
    DecEachAt(bs, p + 4, vs, 8);
    LongResidues(vs);
  }

  lemma DecStringAt(bs: seq<Byte>, p: int, s: seq<Byte>)
    requires |s| <= INT_MAX && At(bs, p, EncString(s))
    ensures DecString(bs, p) == Ok((s, p + |EncString(s)|))
  {
    AtSplit(bs, p, EncInt(|s|), s);
    AtSlice(bs, p + 4, s);
    DecLengthAt(bs, p, |s|);
  }

  lemma DecIVec3At(bs: seq<Byte>, p: int, v: IVec3)
    requires IntVec(v) && At(bs, p, EncIVec3(v))
    ensures DecIVec3(bs, p) == Ok((v, p + 12))
  {
    AtSplit(bs, p, EncInt(v.x) + EncInt(v.y), EncInt(v.z));
    AtSplit(bs, p, EncInt(v.x), EncInt(v.y));
    IntAtEnc(bs, p, v.x);
    IntAtEnc(bs, p + 4, v.y);
    IntAtEnc(bs, p + 8, v.z);
  }

  lemma DecBoundaryAt(bs: seq<Byte>, p: int, bd: IntBoundary)
    requires IntBound(bd) && At(bs, p, EncBoundary(bd))
    ensures DecBoundary(bs, p) == Ok((bd, p + 24))
  {
    AtSplit(bs, p, EncIVec3(bd.a), EncIVec3(bd.b));
    DecIVec3At(bs, p, bd.a);
    DecIVec3At(bs, p + 12, bd.b);
    NewOfNormal(bd);
  }

  lemma DecMiscDataAt(bs: seq<Byte>, p: int, m: MiscData)
    requires IntBound(m.chunkGridBound) && IntBound(m.loadedBound) && IntBound(m.wantedBound)
    requires At(bs, p, EncMiscData(m))
    ensures DecMiscData(bs, p) == Ok((m, p + 72))
  {
    AtSplit(bs, p, EncBoundary(m.chunkGridBound) + EncBoundary(m.loadedBound), EncBoundary(m.wantedBound));
    AtSplit(bs, p, EncBoundary(m.chunkGridBound), EncBoundary(m.loadedBound));
    DecBoundaryAt(bs, p, m.chunkGridBound);
    DecBoundaryAt(bs, p + 24, m.loadedBound);
    DecBoundaryAt(bs, p + 48, m.wantedBound);
  }

  predicate EntriesFit(es: seq<Entry>) {
    forall i :: 0 <= i < |es| ==> |es[i].state| <= INT_MAX
  }

  lemma DecVolBlockStateAt(bs: seq<Byte>, p: int, e: Entry)
    requires |e.state| <= INT_MAX && At(bs, p, EncVolBlockState(e))
    ensures DecVolBlockState(bs, p).Ok? && DecVolBlockState(bs, p).value.0 == e
    ensures DecVolBlockState(bs, p).value.1 == p + |EncVolBlockState(e)|
  {
    AtSplit(bs, p, EncShort(e.paletteId), EncString(e.state));
    AtSlice(bs, p, EncShort(e.paletteId));
    ShortBytesRoundTrip(e.paletteId);
    DecStringAt(bs, p + 2, e.state);
  }

  /** One entry decoded, then the rest. */
  lemma DecEntriesStep(bs: seq<Byte>, p: int, n: nat, e0: Entry, q: int, tail: seq<Entry>, r: int)
    requires 0 <= p && n > 0 && DecVolBlockState(bs, p).Ok?
    requires DecVolBlockState(bs, p).value.0 == e0 && DecVolBlockState(bs, p).value.1 == q
    requires DecEntries(bs, q, n - 1).Ok? && DecEntries(bs, q, n - 1).value.0 == tail
    requires DecEntries(bs, q, n - 1).value.1 == r
    ensures DecEntries(bs, p, n).Ok? && DecEntries(bs, p, n).value.0 == [e0] + tail
    ensures DecEntries(bs, p, n).value.1 == r
  {
  }

  lemma {:induction false} DecEntriesAt(bs: seq<Byte>, p: int, es: seq<Entry>)
    requires EntriesFit(es) && At(bs, p, EncEntries(es))
    ensures DecEntries(bs, p, |es|).Ok? && DecEntries(bs, p, |es|).value.0 == es
    ensures DecEntries(bs, p, |es|).value.1 == p + |EncEntries(es)|
    decreases |es|
  {
    if |es| > 0 {
      var h, t := EncVolBlockState(es[0]), EncEntries(es[1..]);
      var q := p + |h|;
      assert At(bs, p, h) && At(bs, q, t) by {
        AtSplit(bs, p, h, t);
      }
      assert DecVolBlockState(bs, p).Ok? && DecVolBlockState(bs, p).value.0 == es[0]
        && DecVolBlockState(bs, p).value.1 == q by {
        DecVolBlockStateAt(bs, p, es[0]);
      }
      DecEntriesAt(bs, q, es[1..]);
      DecEntriesStep(bs, p, |es|, es[0], q, es[1..], q + |EncEntries(es[1..])|);
      assert [es[0]] + es[1..] == es;
    }
  }

  lemma DecBlockPaletteAt(bs: seq<Byte>, p: int, k: PaletteKind, es: seq<Entry>)
    requires |es| <= INT_MAX && EntriesFit(es) && At(bs, p, EncBlockPalette(k, es))
    ensures DecBlockPalette(bs, p) == Ok(((k, es), p + |EncBlockPalette(k, es)|))
  {
    AtSplit(bs, p, [PaletteTypeId(k)], EncVolBlockStateArr(es));
    AtSplit(bs, p + 1, EncInt(|es|), EncEntries(es));
    DecLengthAt(bs, p + 1, |es|);
    DecEntriesAt(bs, p + 5, es);
  }

  /** A packed array the writer can produce. */
  predicate PackedFits(pk: Packed) {
    IsInt(pk.valueCount) && 0 <= pk.bitLength < 128 && |pk.longs| <= INT_MAX
    && forall i :: 0 <= i < |pk.longs| ==> IsLongBits(pk.longs[i])
  }

  lemma DecPackedAt(bs: seq<Byte>, p: int, pk: Packed)
    requires PackedFits(pk) && At(bs, p, EncPacked(pk))
    ensures DecPacked(bs, p).Ok? && DecPacked(bs, p).value.0 == pk
    ensures DecPacked(bs, p).value.1 == p + |EncPacked(pk)|
  {
    var hd, bl, tl := EncInt(pk.valueCount), [ToByte(pk.bitLength)], EncLongArr(pk.longs);
    assert At(bs, p, hd) && At(bs, p + 4, bl) && At(bs, p + 5, tl) by {
      AtSplit(bs, p, hd + bl, tl);
      AtSplit(bs, p, hd, bl);
    }
    assert DecInt(bs, p) == Ok((pk.valueCount, p + 4)) by {
      IntAtEnc(bs, p, pk.valueCount);
    }
    assert DecByte(bs, p + 4) == Ok((ToByte(pk.bitLength), p + 5)) && SignedByte(ToByte(pk.bitLength)) == pk.bitLength;
    assert DecLongArr(bs, p + 5) == Ok((pk.longs, p + |EncPacked(pk)|)) by {
      DecLongArrAt(bs, p + 5, pk.longs);
    }
  }

  // ---------------------------------------------------------------------------
  // Chunks

  lemma CeilDivAtMost(n: nat, g: nat)
    requires g >= 1
    ensures CeilDiv(n, g) <= n
  {
    if n > 0 {
      MulLe(1, g, n - 1);
      MulSucc(n, g);
      DivLe(n + g - 1, n * g, g);
      ModAddMul(0, n, g);
    }
  }

  /** What `putMcvChunk` writes is within what the reader accepts: at most `Int.MAX_VALUE` longs,
      every one a 64-bit pattern, and a bit length of 1 to 32. */
  lemma ChunkPackingFits(blocks: seq<Short>)
    requires |blocks| <= INT_MAX
    ensures PackedFits(ChunkPacking(blocks).1)
    ensures 1 <= ChunkPacking(blocks).1.bitLength <= 32
  {
    var pk := ChunkPacking(blocks).1;
    var bl := pk.bitLength;
    if |blocks| > 0 {
      var fs := Fields(LocalIds(blocks), bl);
      CeilDivAtMost(|fs|, PerLong(bl));
      forall k | 0 <= k < |pk.longs| ensures IsLongBits(pk.longs[k]) {
        PackedLongsFit(fs, bl, k);
      }
    }
  }

  /** A local id k of a chunk with n distinct ids fits the mask of the chunk's bit length: one id is
      written at bit length 32, whose mask keeps no bits and the only local id is 0; more ids than
      32768 need 16 bits, whose mask keeps a whole Short; otherwise the ids are below 2 to the bit
      length. */
  lemma LocalIdFits(n: nat, k: nat)
    requires 1 <= n <= TWO_16 && k < n
    ensures var bl := ChunkBitLength(n - 1);
      bl % 32 >= 16 || 0 <= ToShort(k) < Pow2(bl % 32)
  {
    var bl := ChunkBitLength(n - 1);
    ToShortOfLocal(k);
    if n > 0x8000 && bl < 16 {
      Pow2Monotone(bl, 15);
      Pow2Widths();
      assert false;
    }
  }

  lemma LocalIdsFit(blocks: seq<Short>)
    ensures MaskFits(LocalIds(blocks), ChunkPacking(blocks).1.bitLength)
  {
    var l2g := Distinct(blocks);
    var ids := LocalIds(blocks);
    var bl := ChunkPacking(blocks).1.bitLength;
    assert bl == ChunkBitLength(|l2g| - 1);
    forall t | 0 <= t < |ids| ensures bl % 32 >= 16 || 0 <= ids[t] < Pow2(bl % 32) {
      LocalIdAt(blocks, t);
      LocalIdFits(|l2g|, IndexOf(l2g, blocks[t]));
    }
  }

  /** The unpacked local ids are the ones that were packed. */
  lemma UnpackChunkIds(blocks: seq<Short>)
    ensures var pk := ChunkPacking(blocks).1;
      UnpackLF(pk.longs, pk.bitLength, pk.valueCount) == Ok(LocalIds(blocks))
  {
    if |blocks| > 0 {
      LocalIdsFit(blocks);
      PackUnpackRoundTrip(LocalIds(blocks), ChunkPacking(blocks).1.bitLength);
    }
  }

  /** A block's local id is its index in the id list, as a Short. */
  lemma LocalIdAt(blocks: seq<Short>, t: int)
    requires 0 <= t < |blocks|
    ensures var l2g := Distinct(blocks);
      blocks[t] in l2g && LocalIds(blocks)[t] == ToShort(IndexOf(l2g, blocks[t]))
      && IndexOf(l2g, blocks[t]) < TWO_16
  {
    DistinctShortsBound(Distinct(blocks));
  }

  lemma RebuildLocalIds(blocks: seq<Short>)
    requires |Distinct(blocks)| <= 0x8000
    ensures Rebuild(Distinct(blocks), LocalIds(blocks)) == Ok(blocks)
  {
    var l2g := Distinct(blocks);
    var ids := LocalIds(blocks);
    forall t | 0 <= t < |ids| ensures 0 <= ids[t] < |l2g| && l2g[ids[t]] == blocks[t] {
      LocalIdAt(blocks, t);
      ToShortOfLocal(IndexOf(l2g, blocks[t]));
    }
    assert seq(|ids|, i requires 0 <= i < |ids| => l2g[ids[i]]) == blocks;
  }

  /** With more than 32768 distinct ids, the id at local index 32768 is written as the Short -32768,
      and the rebuild indexes the id list with it. */
  lemma RebuildLocalIdsWraps(blocks: seq<Short>)
    requires |Distinct(blocks)| > 0x8000
    ensures Rebuild(Distinct(blocks), LocalIds(blocks)) == Err(IndexOutOfRange)
  {
    var l2g := Distinct(blocks);
    var v := l2g[0x8000];
    assert v in blocks;
    var t :| 0 <= t < |blocks| && blocks[t] == v;
    IndexOfNoDup(l2g, 0x8000);
    ToShortOfLocal(0x8000);
    assert LocalIds(blocks)[t] < 0;
  }

  lemma RebuildUnsignedLocalIds(blocks: seq<Short>)
    ensures RebuildUnsigned(Distinct(blocks), LocalIds(blocks)) == Ok(blocks)
  {
    var l2g := Distinct(blocks);
    var ids := LocalIds(blocks);
    forall t | 0 <= t < |ids| ensures ids[t] % TWO_16 < |l2g| && l2g[ids[t] % TWO_16] == blocks[t] {
      LocalIdAt(blocks, t);
      ToShortOfLocal(IndexOf(l2g, blocks[t]));
    }
    assert seq(|ids|, i requires 0 <= i < |ids| => l2g[ids[i] % TWO_16]) == blocks;
  }

  /** The three parts of a chunk record at position p of bs: position, id list and packed ids. */
  predicate ChunkParts(bs: seq<Byte>, p: int, pos: IVec3, l2g: seq<Short>, pk: Packed, e: int) {
    0 <= p && DecIVec3(bs, p) == Ok((pos, p + 12))
    && DecShortArr(bs, p + 12).Ok? && DecShortArr(bs, p + 12).value.0 == l2g
    && DecShortArr(bs, p + 12).value.1 == p + 12 + |EncShortArr(l2g)|
    && DecPacked(bs, p + 12 + |EncShortArr(l2g)|).Ok? && DecPacked(bs, p + 12 + |EncShortArr(l2g)|).value.0 == pk
    && DecPacked(bs, p + 12 + |EncShortArr(l2g)|).value.1 == e
  }

  /** The parts of a written chunk record read back. */
  lemma ChunkPartsAt(bs: seq<Byte>, p: int, pos: IVec3, l2g: seq<Short>, pk: Packed, e: int)
    requires IntVec(pos) && |l2g| <= INT_MAX && PackedFits(pk) && At(bs, p, EncChunkParts(pos, l2g, pk))
    requires e == p + |EncChunkParts(pos, l2g, pk)|
    ensures ChunkParts(bs, p, pos, l2g, pk, e)
  {
    var a, b, c := EncIVec3(pos), EncShortArr(l2g), EncPacked(pk);
    assert At(bs, p, a) && At(bs, p + 12, b) && At(bs, p + 12 + |b|, c) by {
      AtSplit(bs, p, a + b, c);
      AtSplit(bs, p, a, b);
    }
    assert e == p + 12 + |b| + |c|;
    DecIVec3At(bs, p, pos);
    DecShortArrAt(bs, p + 12, l2g);
    DecPackedAt(bs, p + 12 + |b|, pk);
  }

  /** From its parts, a chunk reads as the ids they rebuild to. */
  lemma DecChunkFromParts(bs: seq<Byte>, p: int, pos: IVec3, l2g: seq<Short>, pk: Packed, e: int,
                          blocks: seq<Short>)
    requires ChunkParts(bs, p, pos, l2g, pk, e) && Unpacked(l2g, pk, false) == Ok(blocks)
    ensures DecChunk(bs, p) == Ok(((pos, blocks), e))
  {
  }

  lemma DecChunkFromPartsFails(bs: seq<Byte>, p: int, pos: IVec3, l2g: seq<Short>, pk: Packed, e: int,
                               err: Error)
    requires ChunkParts(bs, p, pos, l2g, pk, e) && Unpacked(l2g, pk, false) == Err(err)
    ensures DecChunk(bs, p) == Err(err)
  {
  }

  lemma DecChunkUnsignedFromParts(bs: seq<Byte>, p: int, pos: IVec3, l2g: seq<Short>, pk: Packed, e: int,
                                  blocks: seq<Short>)
    requires ChunkParts(bs, p, pos, l2g, pk, e) && Unpacked(l2g, pk, true) == Ok(blocks)
    ensures DecChunkUnsigned(bs, p) == Ok(((pos, blocks), e))
  {
  }

  lemma UnpackedChunk(blocks: seq<Short>)
    ensures var packing := ChunkPacking(blocks);
      (|packing.0| <= 0x8000 ==> Unpacked(packing.0, packing.1, false) == Ok(blocks))
      && (|packing.0| > 0x8000 ==> Unpacked(packing.0, packing.1, false) == Err(IndexOutOfRange))
      && Unpacked(packing.0, packing.1, true) == Ok(blocks)
  {
    UnpackChunkIds(blocks);
    if |Distinct(blocks)| <= 0x8000 {
      RebuildLocalIds(blocks);
    } else {
      RebuildLocalIdsWraps(blocks);
    }
    RebuildUnsignedLocalIds(blocks);
  }

  /** A chunk record is its three parts. */
  lemma EncChunkIsParts(pos: IVec3, blocks: seq<Short>)
    ensures var packing := ChunkPacking(blocks);
      EncChunk(pos, blocks) == EncChunkParts(pos, packing.0, packing.1)
  {
  }

  /** A written chunk record whose parts rebuild to blocks reads back as blocks, by the reader
      as written or by the unsigned one. */
  lemma DecChunkOfParts(bs: seq<Byte>, p: int, pos: IVec3, l2g: seq<Short>, pk: Packed, e: int,
                        blocks: seq<Short>, unsigned: bool)
    requires IntVec(pos) && |l2g| <= INT_MAX && PackedFits(pk) && At(bs, p, EncChunkParts(pos, l2g, pk))
    requires e == p + |EncChunkParts(pos, l2g, pk)| && Unpacked(l2g, pk, unsigned) == Ok(blocks)
    ensures !unsigned ==> DecChunk(bs, p) == Ok(((pos, blocks), e))
    ensures unsigned ==> DecChunkUnsigned(bs, p) == Ok(((pos, blocks), e))
  {
    ChunkPartsAt(bs, p, pos, l2g, pk, e);
    if unsigned {
      DecChunkUnsignedFromParts(bs, p, pos, l2g, pk, e, blocks);
    } else {
      DecChunkFromParts(bs, p, pos, l2g, pk, e, blocks);
    }
  }

  /** A written chunk record whose parts fail to rebuild fails to read, with the same error. */
  lemma DecChunkOfPartsFails(bs: seq<Byte>, p: int, pos: IVec3, l2g: seq<Short>, pk: Packed, e: int,
                             err: Error)
    requires IntVec(pos) && |l2g| <= INT_MAX && PackedFits(pk) && At(bs, p, EncChunkParts(pos, l2g, pk))
    requires e == p + |EncChunkParts(pos, l2g, pk)| && Unpacked(l2g, pk, false) == Err(err)
    ensures DecChunk(bs, p) == Err(err)
  {
    ChunkPartsAt(bs, p, pos, l2g, pk, e);
    DecChunkFromPartsFails(bs, p, pos, l2g, pk, e, err);
  }

  /** `getMcvChunk` reads back what `putMcvChunk` wrote, when the chunk holds at most 32768
      distinct ids. */
  lemma DecChunkAt(bs: seq<Byte>, p: int, pos: IVec3, blocks: seq<Short>)
    requires IntVec(pos) && |blocks| <= INT_MAX && |Distinct(blocks)| <= 0x8000
    requires At(bs, p, EncChunk(pos, blocks))
    ensures DecChunk(bs, p).Ok? && DecChunk(bs, p).value.0 == (pos, blocks)
    ensures DecChunk(bs, p).value.1 == p + |EncChunk(pos, blocks)|
  {
    var packing := ChunkPacking(blocks);
    EncChunkIsParts(pos, blocks);
    ChunkPackingFits(blocks);
    UnpackedChunk(blocks);
    DecChunkOfParts(bs, p, pos, packing.0, packing.1, p + |EncChunk(pos, blocks)|, blocks, false);
  }

  /** With more than 32768 distinct ids, `getMcvChunk` fails on what `putMcvChunk` wrote. */
  lemma DecChunkTooManyIds(bs: seq<Byte>, p: int, pos: IVec3, blocks: seq<Short>)
    requires IntVec(pos) && |blocks| <= INT_MAX && |Distinct(blocks)| > 0x8000
    requires At(bs, p, EncChunk(pos, blocks))
    ensures DecChunk(bs, p) == Err(IndexOutOfRange)
  {
    var packing := ChunkPacking(blocks);
    EncChunkIsParts(pos, blocks);
    ChunkPackingFits(blocks);
    UnpackedChunk(blocks);
    DecChunkOfPartsFails(bs, p, pos, packing.0, packing.1, p + |EncChunk(pos, blocks)|, IndexOutOfRange);
  }

  /** The corrected reader gives back every chunk. */
  lemma DecChunkUnsignedAt(bs: seq<Byte>, p: int, pos: IVec3, blocks: seq<Short>)
    requires IntVec(pos) && |blocks| <= INT_MAX
    requires At(bs, p, EncChunk(pos, blocks))
    ensures DecChunkUnsigned(bs, p).Ok? && DecChunkUnsigned(bs, p).value.0 == (pos, blocks)
    ensures DecChunkUnsigned(bs, p).value.1 == p + |EncChunk(pos, blocks)|
  {
    var packing := ChunkPacking(blocks);
    EncChunkIsParts(pos, blocks);
    ChunkPackingFits(blocks);
    UnpackedChunk(blocks);
    DecChunkOfParts(bs, p, pos, packing.0, packing.1, p + |EncChunk(pos, blocks)|, blocks, true);
  }

  /** 32769 distinct ids, one block each: possible once a chunk has 64 blocks a side (chunk bit
      size 6, of the 1 to 8 a volume accepts). */
  function WideChunk(): (blocks: seq<Short>)
    ensures |blocks| == 0x8001
  {
    seq(0x8001, i requires 0 <= i < 0x8001 => i - 0x8000)
  }

  lemma WideChunkIds()
    ensures |Distinct(WideChunk())| == 0x8001
  {
    var blocks := WideChunk();
    var d := Distinct(blocks);
    assert NoDup(blocks);
    NoDupCard(blocks);
    NoDupCard(d);
    assert Elems(d) == Elems(blocks);
  }
}
