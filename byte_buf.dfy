/** `GrowableByteBuf` of McvUtils.kt: a JVM `ByteBuffer` whose capacity doubles on demand, with a
    byte order chosen at construction and a high-water mark `size` of the bytes written.

    A `ByteBuffer` allocated by `allocate` has its limit at its capacity and the buffer never
    changes that limit, so every relative `get` fails past the capacity (not past `size`), and
    `position(i)` fails for i outside `[0, capacity]`. */
module ByteBufs {
  import opened Vec
  import opened Bytes
  import opened Wrappers

  /** The capacity taken when doubling wraps around (McvUtils.kt:271-272). */
  const FALLBACK_CAPACITY: int := 2_000_000_000

  function MaxOf(a: int, b: int): int { if a >= b then a else b }

  /** One pass of the growth loop: `capacity() * 2` as an Int, or when that wraps to a
      non-positive value, the larger of 2_000_000_000 and the needed size. */
  function NextCapacity(cap: int, need: int): (c: int)
    requires 1 <= cap < need <= INT_MAX
    ensures cap < c <= INT_MAX
    ensures c == 2 * cap || c == MaxOf(FALLBACK_CAPACITY, need)
  {
    var attempt := ToInt(cap * 2);
    assert cap * 2 <= INT_MAX ==> attempt == cap * 2;
    assert cap * 2 > INT_MAX ==> attempt == cap * 2 - TWO_32;
    if attempt > 0 then attempt else MaxOf(FALLBACK_CAPACITY, need)
  }

  /** The capacity once the growth loop of `writeAndEnsureCap` has stopped. */
  function GrownCapacity(cap: int, need: int): (c: int)
    requires 1 <= cap <= INT_MAX && need <= INT_MAX
    ensures cap <= c <= INT_MAX && need <= c
    ensures need <= cap ==> c == cap
    decreases INT_MAX - cap
  {
    if need <= cap then cap else GrownCapacity(NextCapacity(cap, need), need)
  }

  /** Growth overshoots by less than a factor of two, unless it fell back to the fixed capacity. */
  lemma {:induction false} GrownCapacityTight(cap: int, need: int)
    requires 1 <= cap < need <= INT_MAX
    ensures GrownCapacity(cap, need) < 2 * need || GrownCapacity(cap, need) == MaxOf(FALLBACK_CAPACITY, need)
    decreases INT_MAX - cap
  {
    var next := NextCapacity(cap, need);
    if next < need {
      GrownCapacityTight(next, need);
    }
  }

  // ---------------------------------------------------------------------------
  // The buffer as a value

  /** The whole backing array (its length is the capacity), the position and the size. */
  datatype BufState = BufState(bytes: seq<Byte>, pos: int, size: int)

  predicate Good(s: BufState) {
    1 <= |s.bytes| <= INT_MAX && 0 <= s.pos <= |s.bytes| && 0 <= s.size <= |s.bytes|
  }

  /** What `toByteArray` returns: the first `size` bytes. */
  function Contents(s: BufState): seq<Byte>
    requires Good(s)
  {
    s.bytes[..s.size]
  }

  function Zeros(n: nat): (z: seq<Byte>)
    ensures |z| == n && forall i :: 0 <= i < n ==> z[i] == 0
  {
    seq(n, _ => 0)
  }

  /** The backing bytes after the growth loop reached capacity cap: each new buffer is zeroed and
      `flip` then `put` copies only the bytes below the position. */
  function Regrown(bytes: seq<Byte>, pos: int, cap: int): (r: seq<Byte>)
    requires 0 <= pos <= |bytes| <= cap
    ensures |r| == cap && r[..pos] == bytes[..pos]
  {
    if cap == |bytes| then bytes else bytes[..pos] + Zeros(cap - pos)
  }

  function Splice(bytes: seq<Byte>, pos: int, bs: seq<Byte>): (r: seq<Byte>)
    requires 0 <= pos && pos + |bs| <= |bytes|
    ensures |r| == |bytes|
  {
    bytes[..pos] + bs + bytes[pos + |bs|..]
  }

  /** A `put` of the bytes bs that does not overflow an Int position: `writeAndEnsureCap`, then the
      relative write (McvUtils.kt:263-281, 306-313). */
  function Put(s: BufState, bs: seq<Byte>): (r: BufState)
    requires Good(s) && s.pos + |bs| <= INT_MAX
    ensures Good(r) && r.pos == s.pos + |bs| && r.size == MaxOf(s.size, s.pos + |bs|)
    ensures r.bytes[s.pos..r.pos] == bs && r.bytes[..s.pos] == s.bytes[..s.pos]
    ensures |r.bytes| == GrownCapacity(|s.bytes|, r.size)
  {
    var size := MaxOf(s.size, s.pos + |bs|);
    var cap := GrownCapacity(|s.bytes|, size);
    var r := BufState(Splice(Regrown(s.bytes, s.pos, cap), s.pos, bs), s.pos + |bs|, size);
    assert r.bytes[s.pos..r.pos] == bs;
    r
  }

  /** One more pass of the growth loop keeps the bytes below the position and zeroes the rest. */
  lemma RegrownStep(bytes: seq<Byte>, pos: int, cap: int, cap1: int)
    requires 0 <= pos <= |bytes| <= cap < cap1
    ensures Regrown(bytes, pos, cap)[..pos] + Zeros(cap1 - pos) == Regrown(bytes, pos, cap1)
  {
  }

  /** A relative read of n bytes; fails, moving nothing, when fewer than n remain before the
      capacity. */
  function Read(s: BufState, n: nat): (r: Result<(seq<Byte>, BufState)>)
    requires Good(s)
    ensures r.Ok? <==> s.pos + n <= |s.bytes|
    ensures r.Ok? ==> |r.value.0| == n && Good(r.value.1) && r.value.1.pos == s.pos + n
  {
    if n > |s.bytes| - s.pos then Err(BufferUnderflow)
    else Ok((s.bytes[s.pos..s.pos + n], s.(pos := s.pos + n)))
  }

  /** `seek`: `position(i)` accepts `0 <= i <= capacity` and moves only the position. */
  function Seek(s: BufState, i: int): (r: Result<BufState>)
    requires Good(s)
    ensures r.Ok? <==> 0 <= i <= |s.bytes|
    ensures r.Ok? ==> Good(r.value) && r.value == s.(pos := i)
  {
    if i < 0 || i > |s.bytes| then Err(IndexOutOfRange) else Ok(s.(pos := i))
  }

  /** The n bytes of v in the buffer's byte order. */
  function Encode(v: int, n: nat, littleEndian: bool): (bs: seq<Byte>)
    ensures |bs| == n
  {
    if littleEndian then LeBytes(v, n) else BeBytes(v, n)
  }

  /** The unsigned value of bytes in the buffer's byte order. */
  function Decode(bs: seq<Byte>, littleEndian: bool): nat {
    if littleEndian then FromLe(bs) else FromBe(bs)
  }

  // ---------------------------------------------------------------------------
  // Properties of the value model

  /** After a put at p, the first `size` bytes are the old ones below p, then the written bytes,
      then whatever old bytes lay beyond them. */
  lemma PutContents(s: BufState, bs: seq<Byte>)
    requires Good(s) && s.pos + |bs| <= INT_MAX
    ensures var p, e := s.pos, s.pos + |bs|;
      Contents(Put(s, bs)) == s.bytes[..p] + bs + (if e < s.size then s.bytes[e..s.size] else [])
  {
    var p, e := s.pos, s.pos + |bs|;
    var r := Put(s, bs);
    if e < s.size {
      assert |r.bytes| == |s.bytes|;
      assert r.bytes == Splice(s.bytes, p, bs);
      assert r.bytes[..s.size] == s.bytes[..p] + bs + s.bytes[e..s.size];
    } else {
      assert r.bytes[..r.size] == r.bytes[..p] + r.bytes[p..e];
    }
  }

  /** Writing at the end appends: `toByteArray` after the put is the old one followed by bs, and
      the position stays at the end. */
  lemma PutAppends(s: BufState, bs: seq<Byte>)
    requires Good(s) && s.pos == s.size && s.pos + |bs| <= INT_MAX
    ensures Contents(Put(s, bs)) == Contents(s) + bs
    ensures Put(s, bs).pos == Put(s, bs).size
  {
    PutContents(s, bs);
  }

  /** Seeking back to where a put started and reading as many bytes returns what was put. */
  lemma PutThenRead(s: BufState, bs: seq<Byte>)
    requires Good(s) && s.pos + |bs| <= INT_MAX
    ensures var back := Seek(Put(s, bs), s.pos);
      back.Ok? && Read(back.value, |bs|) == Ok((bs, Put(s, bs)))
  {
  }

  /** A Short, an Int or a Long bit pattern written in either byte order reads back unchanged. */
  lemma EncodeDecode(v: int, le: bool)
    ensures IsShort(v) ==> ToShort(Decode(Encode(v, 2, le), le)) == v
    ensures IsInt(v) ==> ToInt(Decode(Encode(v, 4, le), le)) == v
    ensures IsLongBits(v) ==> Decode(Encode(v, 8, le), le) == v
  {
    if IsShort(v) { ShortBytesRoundTrip(v); }
    if IsInt(v) { IntBytesRoundTrip(v); }
    if IsLongBits(v) { LongBytesRoundTrip(v); }
  }

  // ---------------------------------------------------------------------------
  // The buffer object

  /** A zeroed buffer of capacity cap holding the bytes of src below pos: `allocate`, `flip`, `put`. */
  method CopyBelow(src: array<Byte>, pos: int, cap: int) returns (dst: array<Byte>)
    requires 0 <= pos <= src.Length && pos <= cap
    ensures fresh(dst) && dst[..] == src[..pos] + Zeros(cap - pos)
  {
    dst := new Byte[cap](_ => 0);
    forall i | 0 <= i < pos {
      dst[i] := src[i];
    }
    assert dst[..] == src[..pos] + Zeros(cap - pos);
  }

  class GrowableByteBuf {
    var buffer: array<Byte>
    var position: int
    var size: int
    const littleEndian: bool

    ghost function State(): BufState
      reads this, buffer
    {
      BufState(buffer[..], position, size)
    }

    ghost predicate Valid()
      reads this, buffer
    {
      Good(State())
    }

    /** The constructor after its `require(initialCapacity > 0)` has passed. */
    constructor (initialCapacity: int, littleEndian: bool)
      requires 0 < initialCapacity <= INT_MAX
      ensures Valid() && State() == BufState(Zeros(initialCapacity), 0, 0)
      ensures this.littleEndian == littleEndian
    {
      buffer := new Byte[initialCapacity](_ => 0);
      position := 0;
      size := 0;
      this.littleEndian := littleEndian;
      new;
      assert buffer[..] == Zeros(initialCapacity);
    }

    /** `writeAndEnsureCap`: raise the size to cover the write and double the capacity until the
        size fits, keeping the bytes below the position. */
    method EnsureCapacity(needed: nat)
      requires Valid() && position + needed <= INT_MAX
      modifies this
      ensures Valid() && position == old(position)
      ensures size == MaxOf(old(size), old(position) + needed)
      ensures buffer.Length == GrownCapacity(old(buffer.Length), size)
      ensures buffer[..] == Regrown(old(buffer[..]), position, buffer.Length)
      ensures buffer == old(buffer) || fresh(buffer)
    {
      var endPos := position + needed;
      size := MaxOf(size, endPos);
      ghost var cap0 := buffer.Length;
      ghost var bytes0 := buffer[..];
      ghost var need, pos0 := size, position;
      while size > buffer.Length
        invariant size == need && position == pos0
        invariant 1 <= cap0 <= buffer.Length <= INT_MAX && 0 <= position <= cap0 && size <= INT_MAX
        invariant |bytes0| == cap0
        invariant GrownCapacity(buffer.Length, size) == GrownCapacity(cap0, size)
        invariant buffer[..] == Regrown(bytes0, position, buffer.Length)
        invariant buffer == old(buffer) || fresh(buffer)
        decreases INT_MAX - buffer.Length
      {
        var pos := position;
        var newCap := NextCapacity(buffer.Length, size);
        var newBuffer := CopyBelow(buffer, pos, newCap);
        RegrownStep(bytes0, pos, buffer.Length, newCap);
        buffer := newBuffer;
        position := pos;
      }
    }

    /** `putBytes`, and the write behind every other `put`: the write fails with nothing changed
        when the end position would not fit an Int. */
    method PutBytes(bs: seq<Byte>) returns (o: Outcome)
      requires Valid()
      modifies this, buffer
      ensures Valid()
      ensures old(position) + |bs| > INT_MAX ==> o == Fail(BufferOverflow) && State() == old(State())
      ensures old(position) + |bs| <= INT_MAX ==> o == Pass && State() == Put(old(State()), bs)
    {
      if position + |bs| > INT_MAX {
        return Fail(BufferOverflow);
      }
      EnsureCapacity(|bs|);
      WriteAt(bs);
      position := position + |bs|;
      o := Pass;
    }

    /** The relative write itself, once the capacity covers it. */
    method WriteAt(bs: seq<Byte>)
      requires position + |bs| <= buffer.Length && 0 <= position
      modifies buffer
      ensures buffer[..] == Splice(old(buffer[..]), position, bs)
    {
      forall i | 0 <= i < |bs| {
        buffer[position + i] := bs[i];
      }
      assert buffer[..] == Splice(old(buffer[..]), position, bs);
    }

    method PutByte(b: Byte) returns (o: Outcome)
      requires Valid()
      modifies this, buffer
      ensures Valid()
      ensures old(position) + 1 > INT_MAX ==> o == Fail(BufferOverflow) && State() == old(State())
      ensures old(position) + 1 <= INT_MAX ==> o == Pass && State() == Put(old(State()), [b])
    {
      o := PutBytes([b]);
    }

    method PutShort(v: Short) returns (o: Outcome)
      requires Valid()
      modifies this, buffer
      ensures Valid()
      ensures old(position) + 2 > INT_MAX ==> o == Fail(BufferOverflow) && State() == old(State())
      ensures old(position) + 2 <= INT_MAX ==> o == Pass && State() == Put(old(State()), Encode(v, 2, littleEndian))
    {
      o := PutBytes(Encode(v, 2, littleEndian));
    }

    method PutInt(v: int) returns (o: Outcome)
      requires Valid()
      modifies this, buffer
      ensures Valid()
      ensures old(position) + 4 > INT_MAX ==> o == Fail(BufferOverflow) && State() == old(State())
      ensures old(position) + 4 <= INT_MAX ==> o == Pass && State() == Put(old(State()), Encode(v, 4, littleEndian))
    {
      o := PutBytes(Encode(v, 4, littleEndian));
    }

    method PutLong(v: int) returns (o: Outcome)
      requires Valid()
      modifies this, buffer
      ensures Valid()
      ensures old(position) + 8 > INT_MAX ==> o == Fail(BufferOverflow) && State() == old(State())
      ensures old(position) + 8 <= INT_MAX ==> o == Pass && State() == Put(old(State()), Encode(v, 8, littleEndian))
    {
      o := PutBytes(Encode(v, 8, littleEndian));
    }

    /** A relative read of n bytes: fails, moving nothing, when fewer than n remain. */
    method ReadExact(n: nat) returns (r: Result<seq<Byte>>)
      requires Valid()
      modifies this
      ensures Valid() && buffer == old(buffer)
      ensures Read(old(State()), n).Err? ==> r == Err(BufferUnderflow) && State() == old(State())
      ensures Read(old(State()), n).Ok? ==>
        r == Ok(Read(old(State()), n).value.0) && State() == Read(old(State()), n).value.1
    {
      if n > buffer.Length - position {
        return Err(BufferUnderflow);
      }
      r := Ok(buffer[position..position + n]);
      position := position + n;
    }

    /** `getByte`, returning the byte's unsigned bit pattern. */
    method GetByte() returns (r: Result<Byte>)
      requires Valid()
      modifies this
      ensures Valid() && buffer == old(buffer)
      ensures old(position) + 1 > buffer.Length ==> r == Err(BufferUnderflow) && State() == old(State())
      ensures old(position) + 1 <= buffer.Length ==>
        r == Ok(buffer[old(position)]) && State() == old(State()).(pos := old(position) + 1)
    {
      var bs := ReadExact(1);
      if bs.Err? {
        return Err(bs.error);
      }
      r := Ok(bs.value[0]);
    }

    method GetShort() returns (r: Result<Short>)
      requires Valid()
      modifies this
      ensures Valid() && buffer == old(buffer)
      ensures old(position) + 2 > buffer.Length ==> r == Err(BufferUnderflow) && State() == old(State())
      ensures old(position) + 2 <= buffer.Length ==>
        r == Ok(ToShort(Decode(buffer[old(position)..old(position) + 2], littleEndian)))
        && State() == old(State()).(pos := old(position) + 2)
    {
      var bs := ReadExact(2);
      if bs.Err? {
        return Err(bs.error);
      }
      r := Ok(ToShort(Decode(bs.value, littleEndian)));
    }

    method GetInt() returns (r: Result<int>)
      requires Valid()
      modifies this
      ensures Valid() && buffer == old(buffer)
      ensures old(position) + 4 > buffer.Length ==> r == Err(BufferUnderflow) && State() == old(State())
      ensures old(position) + 4 <= buffer.Length ==>
        r == Ok(ToInt(Decode(buffer[old(position)..old(position) + 4], littleEndian)))
        && State() == old(State()).(pos := old(position) + 4)
    {
      var bs := ReadExact(4);
      if bs.Err? {
        return Err(bs.error);
      }
      r := Ok(ToInt(Decode(bs.value, littleEndian)));
    }

    /** `getLong`, returning the Long's unsigned bit pattern. */
    method GetLong() returns (r: Result<int>)
      requires Valid()
      modifies this
      ensures Valid() && buffer == old(buffer)
      ensures old(position) + 8 > buffer.Length ==> r == Err(BufferUnderflow) && State() == old(State())
      ensures old(position) + 8 <= buffer.Length ==>
        r == Ok(Decode(buffer[old(position)..old(position) + 8], littleEndian))
        && State() == old(State()).(pos := old(position) + 8)
    {
      var bs := ReadExact(8);
      if bs.Err? {
        return Err(bs.error);
      }
      r := Ok(Decode(bs.value, littleEndian));
    }

    /** `getBytes(amount)`: a negative amount fails before reading; otherwise `getByte` runs amount
        times, so a read past the capacity fails after consuming the remaining bytes. */
    method GetBytes(amount: int) returns (r: Result<seq<Byte>>)
      requires Valid()
      modifies this
      ensures Valid() && buffer == old(buffer)
      ensures buffer[..] == old(buffer[..]) && size == old(size)
      ensures amount < 0 ==> r == Err(NegativeArraySize) && position == old(position)
      ensures 0 <= amount && old(position) + amount <= buffer.Length ==>
        r == Ok(buffer[old(position)..old(position) + amount]) && position == old(position) + amount
      ensures 0 <= amount && old(position) + amount > buffer.Length ==>
        r == Err(BufferUnderflow) && position == buffer.Length
    {
      if amount < 0 {
        return Err(NegativeArraySize);
      }
      var out: seq<Byte> := [];
      ghost var start := position;
      while |out| < amount
        invariant Valid() && buffer == old(buffer) && size == old(size)
        invariant position == start + |out| && |out| <= amount && out == buffer[start..position]
        decreases amount - |out|
      {
        var b := GetByte();
        if b.Err? {
          return Err(b.error);
        }
        out := out + [b.value];
      }
      r := Ok(out);
    }

    /** `seek`: moves only the position, within `[0, capacity]`. */
    method SeekTo(index: int) returns (o: Outcome)
      requires Valid()
      modifies this
      ensures Valid() && buffer == old(buffer)
      ensures Seek(old(State()), index).Err? ==> o == Fail(IndexOutOfRange) && State() == old(State())
      ensures Seek(old(State()), index).Ok? ==> o == Pass && State() == Seek(old(State()), index).value
    {
      if index < 0 || index > buffer.Length {
        return Fail(IndexOutOfRange);
      }
      position := index;
      o := Pass;
    }

    /** `toByteArray`: the first `size` bytes. */
    method ToByteArray() returns (out: seq<Byte>)
      requires Valid()
      ensures out == Contents(State())
    {
      out := buffer[..size];
    }
  }
}
