/** The byte-list writers and the thread-job splitter of McvUtils.kt. A `MutableList<Byte>` that
    a writer appends to is passed in and returned with the new bytes at its end. */
module McvUtils {
  import opened Vec
  import opened Bytes
  import opened Wrappers

  // ---------------------------------------------------------------------------
  // Byte-list writers

  /** `writeIntToByteListLE`: appends the four bytes of an Int, least significant first. */
  method WriteIntLe(buf: seq<Byte>, v: int) returns (out: seq<Byte>)
    ensures out == buf + LeBytes(v, 4)
  {
    out := buf;
    for i := 0 to 4
      invariant out == buf + LeBytes(v, i)
    {
      out := out + [ByteOf(v, i)];
    }
  }

  /** `writeIntToByteListBE`: appends the four bytes of an Int, most significant first. */
  method WriteIntBe(buf: seq<Byte>, v: int) returns (out: seq<Byte>)
    ensures out == buf + BeBytes(v, 4)
  {
    out := buf;
    for i := 4 downto 0
      invariant out == buf + BeBytes(v, 4)[..4 - i]
    {
      out := out + [ByteOf(v, i)];
      assert BeBytes(v, 4)[..4 - i] == BeBytes(v, 4)[..4 - (i + 1)] + [ByteOf(v, i)];
    }
  }

  /** `intToBEBytes`: the four big-endian bytes of an Int. */
  method IntToBeBytes(v: int) returns (bs: seq<Byte>)
    ensures bs == BeBytes(v, 4)
    ensures IsInt(v) ==> ToInt(FromBe(bs)) == v
  {
    bs := WriteIntBe([], v);
    if IsInt(v) {
      IntBytesRoundTrip(v);
    }
  }

  /** `writeLongToByteListLE`: appends the eight bytes of a Long, least significant first. */
  method WriteLongLe(buf: seq<Byte>, v: int) returns (out: seq<Byte>)
    ensures out == buf + LeBytes(v, 8)
  {
    out := buf;
    for i := 0 to 8
      invariant out == buf + LeBytes(v, i)
    {
      out := out + [ByteOf(v, i)];
    }
  }

  /** `writeIVec3ToByteListLE`: the three coordinates, each as a little-endian Int. */
  method WriteIVec3Le(buf: seq<Byte>, v: IVec3) returns (out: seq<Byte>)
    ensures out == buf + LeBytes(v.x, 4) + LeBytes(v.y, 4) + LeBytes(v.z, 4)
  {
    out := WriteIntLe(buf, v.x);
    out := WriteIntLe(out, v.y);
    out := WriteIntLe(out, v.z);
  }

  /** The concatenated little-endian encodings of a list of Longs. */
  function LongsLe(ls: seq<int>): (bs: seq<Byte>)
    ensures |bs| == 8 * |ls|
  {
    if |ls| == 0 then [] else LongsLe(ls[..|ls| - 1]) + LeBytes(ls[|ls| - 1], 8)
  }

  /** `writeLongBufToByteListLE`: every Long of the list, in order, each little-endian. */
  method WriteLongBufLe(buf: seq<Byte>, longs: seq<int>) returns (out: seq<Byte>)
    ensures out == buf + LongsLe(longs)
    ensures forall k, j :: 0 <= k < |longs| && 0 <= j < 8 ==> out[|buf| + 8 * k + j] == ByteOf(longs[k], j)
  {
    out := buf;
    for k := 0 to |longs|
      invariant out == buf + LongsLe(longs[..k])
    {
      out := WriteLongLe(out, longs[k]);
      assert longs[..k + 1][..k] == longs[..k];
    }
    assert longs[..|longs|] == longs;
    LongsLeAt(longs);
  }

  /** Byte j of the k-th Long sits at offset 8k + j. */
  lemma {:induction false} LongsLeAt(ls: seq<int>)
    ensures forall k, j :: 0 <= k < |ls| && 0 <= j < 8 ==> LongsLe(ls)[8 * k + j] == ByteOf(ls[k], j)
  {
    if |ls| > 0 {
      var init := ls[..|ls| - 1];
      LongsLeAt(init);
      forall k, j | 0 <= k < |ls| && 0 <= j < 8 ensures LongsLe(ls)[8 * k + j] == ByteOf(ls[k], j) {
        if k < |ls| - 1 {
          assert LongsLe(ls)[8 * k + j] == LongsLe(init)[8 * k + j];
          assert ls[k] == init[k];
        }
      }
    }
  }

  /** `writeByteArrToByteList`: appends every byte of the array, in order. */
  method WriteByteArr(buf: seq<Byte>, bytes: seq<Byte>) returns (out: seq<Byte>)
    ensures out == buf + bytes
  {
    out := buf;
    for i := 0 to |bytes|
      invariant out == buf + bytes[..i]
    {
      out := out + [bytes[i]];
      assert bytes[..i + 1] == bytes[..i] + [bytes[i]];
    }
    assert bytes[..|bytes|] == bytes;
  }

  /** `byteVecToByteArray`: a fresh array holding the list's bytes. */
  method ByteVecToByteArray(byteVec: seq<Byte>) returns (arr: array<Byte>)
    ensures fresh(arr) && arr[..] == byteVec
  {
    arr := new Byte[|byteVec|](_ => 0);
    for i := 0 to |byteVec|
      invariant arr[..i] == byteVec[..i]
    {
      arr[i] := byteVec[i];
      assert arr[..i + 1] == arr[..i] + [arr[i]];
      assert byteVec[..i + 1] == byteVec[..i] + [byteVec[i]];
    }
  }

  // ---------------------------------------------------------------------------
  // distributeRange

  /** Kotlin's Int `/`, which truncates toward zero. */
  function TruncDiv(a: int, b: int): int
    requires b != 0
  {
    var q := Abs(a) / Abs(b);
    if (a < 0) != (b < 0) then -q else q
  }

  /** Kotlin's Int `%`, whose sign follows the dividend. */
  function TruncRem(a: int, b: int): int
    requires b != 0
  {
    a - b * TruncDiv(a, b)
  }

  function Abs(a: int): nat { if a < 0 then -a else a }

  /** On a non-negative dividend and a positive divisor truncation agrees with floor division. */
  lemma TruncAgrees(a: int, b: int)
    requires a >= 0 && b > 0
    ensures TruncDiv(a, b) == a / b && TruncRem(a, b) == a % b
    ensures 0 <= a / b && 0 <= a % b < b
  {
    assert Abs(a) == a && Abs(b) == b;
    assert TruncDiv(a, b) == a / b;
    assert a == b * (a / b) + a % b;
    if a / b < 0 {
      MulLe(a / b, -1, b);
      assert false;
    }
  }

  function Size(r: (int, int)): int { r.1 - r.0 }

  /** rs covers [s, e) with non-empty ranges, each starting where the previous one ends. */
  predicate Covers(rs: seq<(int, int)>, s: int, e: int) {
    (|rs| == 0 ==> s == e)
    && (|rs| > 0 ==> rs[0].0 == s && rs[|rs| - 1].1 == e)
    && (forall k :: 0 <= k < |rs| - 1 ==> rs[k].1 == rs[k + 1].0)
    && (forall k :: 0 <= k < |rs| ==> rs[k].0 < rs[k].1)
  }

  /** Sizes differ by at most one and never grow along the list. */
  predicate Balanced(rs: seq<(int, int)>) {
    forall k, l :: 0 <= k < l < |rs| ==> Size(rs[l]) <= Size(rs[k]) <= Size(rs[l]) + 1
  }

  function MinInt(a: int, b: int): int { if a <= b then a else b }

  /** The jobs handed out to the first t threads: the start has moved by t base shares plus one
      for each of them below rem, and the job of thread k has the base share, one more below rem. */
  ghost predicate JobsSoFar(out: seq<(int, int)>, s: int, cur: int, t: int, base: int, rem: int) {
    0 <= t && 0 <= base && 0 <= rem
    && cur == s + t * base + MinInt(t, rem)
    && Covers(out, s, cur)
    && |out| == (if base > 0 then t else MinInt(t, rem))
    && (forall k :: 0 <= k < |out| ==> Size(out[k]) == base + (if k < rem then 1 else 0))
  }

  lemma JobsStep(out: seq<(int, int)>, s: int, cur: int, t: int, base: int, rem: int, size: int, next: seq<(int, int)>)
    requires JobsSoFar(out, s, cur, t, base, rem)
    requires size == base + (if t < rem then 1 else 0)
    requires next == if size != 0 then out + [(cur, cur + size)] else out
    ensures JobsSoFar(next, s, cur + size, t + 1, base, rem)
  {
    assert cur + size == s + (t + 1) * base + MinInt(t + 1, rem) by {
      assert (t + 1) * base == t * base + base;
    }
    if size != 0 {
      assert |next| == (if base > 0 then t + 1 else MinInt(t + 1, rem));
      assert Covers(next, s, cur + size) by {
        assert next[|out|] == (cur, cur + size);
        forall k | 0 <= k < |out| ensures next[k] == out[k] { }
      }
      forall k | 0 <= k < |next| ensures Size(next[k]) == base + (if k < rem then 1 else 0) {
        if k < |out| { assert next[k] == out[k]; }
      }
    }
  }

  lemma JobsDone(out: seq<(int, int)>, s: int, cur: int, n: int, base: int, rem: int, total: int)
    requires JobsSoFar(out, s, cur, n, base, rem)
    requires rem < n && total == n * base + rem
    ensures Covers(out, s, s + total) && Balanced(out)
    ensures |out| == MinInt(n, total)
  {
    if base > 0 {
      MulLe(1, base, n);
    }
  }

  /** `distributeRange`: splits [rStart, rEnd) into per-thread jobs. Each of the threadCount
      slots gets the base share, the first `total % threadCount` one more, and empty shares are
      skipped. A thread count of zero is a division by zero. */
  method DistributeRange(rStart: int, rEnd: int, threadCount: int) returns (r: Result<seq<(int, int)>>)
    ensures r.Err? <==> threadCount == 0
    ensures threadCount < 0 ==> r == Ok([])
    ensures threadCount > 0 && rStart <= rEnd ==>
      r.Ok? && Covers(r.value, rStart, rEnd) && Balanced(r.value)
      && |r.value| == MinInt(threadCount, rEnd - rStart)
  {
    if threadCount == 0 {
      return Err(DivisionByZero);
    }
    var totalElements := rEnd - rStart;
    var baseChunkSize := TruncDiv(totalElements, threadCount);
    var remainingElements := TruncRem(totalElements, threadCount);
    var out: seq<(int, int)> := [];
    var currentStart := rStart;
    if threadCount < 0 {
      return Ok(out);
    }
    ghost var wellOrdered := rStart <= rEnd;
    if wellOrdered {
      TruncAgrees(totalElements, threadCount);
    }
    for threadIdx := 0 to threadCount
      invariant wellOrdered ==> JobsSoFar(out, rStart, currentStart, threadIdx, baseChunkSize, remainingElements)
    {
      var extra := if threadIdx < remainingElements then 1 else 0;
      var currChunkSize := baseChunkSize + extra;
      ghost var prevOut := out;
      if currChunkSize != 0 {
        out := out + [(currentStart, currentStart + currChunkSize)];
      }
      if wellOrdered {
        JobsStep(prevOut, rStart, currentStart, threadIdx, baseChunkSize, remainingElements, currChunkSize, out);
      }
      currentStart := currentStart + currChunkSize;
    }
    if wellOrdered {
      JobsDone(out, rStart, currentStart, threadCount, baseChunkSize, remainingElements, totalElements);
    }
    return Ok(out);
  }
}
