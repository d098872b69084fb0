/** The LEB128-style varints of McvUtils.kt: seven value bits per byte, least significant group
    first, the high bit set on every byte but the last, at most five bytes for an Int. */
module Varints {
  import opened Vec
  import opened Bytes
  import opened Wrappers

  const INT_BIT_MASK: int := 0x7F
  const CONTINUE_BIT_MASK: int := 0x80

  /** An Int's unsigned 32-bit pattern, the value `ushr` works on. */
  function U32(i: int): (u: nat)
    ensures u < TWO_32
  {
    i % TWO_32
  }

  /** The bytes `pushVarint` emits for the unsigned pattern u. */
  function VarintBytes(u: nat): (bs: seq<Byte>)
    ensures |bs| >= 1
    decreases u
  {
    if u < 128 then [u] else [u % 128 + CONTINUE_BIT_MASK] + VarintBytes(u / 128)
  }

  /** `pushVarint`: appends the varint of i; a negative Int is written as its 32-bit pattern. */
  method PushVarint(buf: seq<Byte>, i: int) returns (out: seq<Byte>)
    requires IsInt(i)
    ensures out == buf + VarintBytes(U32(i))
  {
    out := buf;
    var rest: nat := U32(i);
    while rest >= 128
      invariant out + VarintBytes(rest) == buf + VarintBytes(U32(i))
      decreases rest
    {
      out := out + [rest % 128 + CONTINUE_BIT_MASK];
      rest := rest / 128;
    }
    out := out + [rest];
  }

  /** The decoding loop of `readVarint` from index idx, after len bytes have given value. An index
      outside the array throws, and so does reading a sixth byte. The `or` of the shifted group is
      a sum because the groups occupy disjoint bits; bits shifted past bit 31 are lost, which
      ToInt expresses. */
  function Group(value: int, data: Byte, len: nat): int {
    ToInt(value + (data % 128) * Pow2(7 * len))
  }

  function ReadFrom(buf: seq<Byte>, idx: int, len: nat, value: int): Result<(int, int)>
    requires len <= 5
    decreases 5 - len
  {
    if !(0 <= idx < |buf|) then Err(IndexOutOfRange)
    else if len + 1 > 5 then Err(VarintTooLong)
    else
      var data := buf[idx];
      var v := Group(value, data, len);
      if data < CONTINUE_BIT_MASK then Ok((v, idx + 1))
      else ReadFrom(buf, idx + 1, len + 1, v)
  }

  /** `readVarint`: the Int at cursorIdx and the index just past it. */
  method ReadVarint(buf: seq<Byte>, cursorIdx: int) returns (r: Result<(int, int)>)
    ensures r == ReadFrom(buf, cursorIdx, 0, 0)
  {
    var value := 0;
    var varintLength := 0;
    var idx := cursorIdx;
    while true
      invariant 0 <= varintLength <= 4
      invariant ReadFrom(buf, idx, varintLength, value) == ReadFrom(buf, cursorIdx, 0, 0)
      decreases 4 - varintLength
    {
      if !(0 <= idx < |buf|) {
        return Err(IndexOutOfRange);
      }
      var data := buf[idx];
      value := Group(value, data, varintLength);
      varintLength := varintLength + 1;
      if varintLength > 5 {
        return Err(VarintTooLong);
      }
      if data < CONTINUE_BIT_MASK {
        idx := idx + 1;
        return Ok((value, idx));
      }
      idx := idx + 1;
      if varintLength == 5 {
        if !(0 <= idx < |buf|) {
          return Err(IndexOutOfRange);
        }
        return Err(VarintTooLong);
      }
    }
  }

  // ---------------------------------------------------------------------------
  // Properties

  /** A varint of u has at most k bytes exactly when u fits in 7k bits. */
  lemma {:induction false} VarintLength(u: nat, k: nat)
    requires k >= 1
    ensures |VarintBytes(u)| <= k <==> u < Pow2(7 * k)
    decreases k
  {
    assert Pow2(7) == 128 by { assert Pow2(4) == 16; Pow2Add(4, 3); }
    Pow2Add(7, 7 * (k - 1));
    if k == 1 {
      assert Pow2(7 * k) == 128;
    } else {
      if u >= 128 {
        VarintLength(u / 128, k - 1);
        DivLt(u, 128, Pow2(7 * (k - 1)));
      } else {
        Pow2Positive(7 * (k - 1));
      }
    }
  }

  lemma Pow2Positive(n: nat)
    ensures Pow2(n) >= 1
  {
  }

  /** u / s < p exactly when u < s * p. */
  lemma DivLt(u: nat, s: nat, p: nat)
    requires s > 0
    ensures u / s < p <==> u < s * p
  {
    var q := u / s;
    if q < p {
      MulLe(q + 1, p, s);
    } else {
      MulLe(p, q, s);
    }
  }

  /** Every byte but the last carries the continuation bit; the last does not. */
  lemma {:induction false} VarintContinuation(u: nat)
    ensures var bs := VarintBytes(u);
      bs[|bs| - 1] < CONTINUE_BIT_MASK
      && forall j :: 0 <= j < |bs| - 1 ==> bs[j] >= CONTINUE_BIT_MASK
    decreases u
  {
    if u >= 128 {
      VarintContinuation(u / 128);
    }
  }

  /** An Int's varint has between one and five bytes. */
  lemma IntVarintLength(i: int)
    requires IsInt(i)
    ensures 1 <= |VarintBytes(U32(i))| <= 5
  {
    VarintLength(U32(i), 5);
    Pow2Widths();
    Pow2Add(32, 3);
    Pow2Positive(3);
    MulLe(1, Pow2(3), TWO_32);
  }

  /** Keeping the low 32 bits before an addition changes nothing after it. */
  lemma ToIntAdd(a: int, b: int)
    ensures ToInt(ToInt(a) + b) == ToInt(a + b)
  {
    var k := (ToInt(a) - a) / TWO_32;
    assert ToInt(a) == a + k * TWO_32;
    ModShift(a + b, k);
  }

  lemma ModShift(x: int, k: int)
    ensures (x + k * TWO_32) % TWO_32 == x % TWO_32
  {
    var q, r := x / TWO_32, x % TWO_32;
    assert x + k * TWO_32 == (q + k) * TWO_32 + r;
    DivModUnique(q + k, r, TWO_32);
  }

  /** Adding the low group of u at bit 7*len and the rest of u seven bits higher adds u there. */
  lemma GroupsCombine(value: int, d: Byte, u: nat, len: nat, v: int)
    requires d % 128 == u % 128 && v == Group(value, d, len)
    ensures ToInt(v + (u / 128) * Pow2(7 * (len + 1))) == ToInt(value + u * Pow2(7 * len))
  {
    var p := Pow2(7 * len);
    var a, b := u % 128, u / 128;
    assert Pow2(7 * (len + 1)) == 128 * p by {
      assert Pow2(7) == 128 by { assert Pow2(4) == 16; Pow2Add(4, 3); }
      Pow2Add(7, 7 * len);
    }
    assert v == ToInt(value + a * p);
    ToIntAdd(value + a * p, b * (128 * p));
    assert a * p + b * (128 * p) == u * p by {
      Distrib(a, b, p);
      assert b * 128 + a == u;
    }
  }

  lemma Distrib(a: int, b: int, p: int)
    ensures a * p + b * (128 * p) == (b * 128 + a) * p
  {
  }

  /** An Int's 32-bit pattern read back as a signed value is the Int. */
  lemma U32RoundTrip(i: int)
    requires IsInt(i)
    ensures ToInt(U32(i)) == i
  {
    if i >= 0 {
      DivModUnique(0, i, TWO_32);
    } else {
      DivModUnique(-1, i + TWO_32, TWO_32);
    }
    DivModUnique(0, U32(i), TWO_32);
  }

  /** Reading the varint of u from the middle of a decode continues the value with u's groups. */
  lemma {:induction false} ReadFromVarint(buf: seq<Byte>, idx: int, len: nat, value: int, u: nat)
    requires 0 <= idx && idx + |VarintBytes(u)| <= |buf|
    requires buf[idx..idx + |VarintBytes(u)|] == VarintBytes(u)
    requires len + |VarintBytes(u)| <= 5
    ensures ReadFrom(buf, idx, len, value) == Ok((ToInt(value + u * Pow2(7 * len)), idx + |VarintBytes(u)|))
    decreases u
  {
    var bs := VarintBytes(u);
    assert buf[idx] == bs[0];
    if u < 128 {
      assert ReadFrom(buf, idx, len, value) == Ok((Group(value, u, len), idx + 1));
    } else {
      var rest := VarintBytes(u / 128);
      var v := Group(value, buf[idx], len);
      assert buf[idx] % 128 == u % 128;
      assert ReadFrom(buf, idx, len, value) == ReadFrom(buf, idx + 1, len + 1, v);
      assert buf[idx + 1..idx + 1 + |rest|] == rest by {
        assert buf[idx + 1..idx + 1 + |rest|] == buf[idx..idx + |bs|][1..];
      }
      ReadFromVarint(buf, idx + 1, len + 1, v, u / 128);
      GroupsCombine(value, buf[idx], u, len, v);
    }
  }

  /** Round trip: the Int written by `pushVarint` is what `readVarint` reads back, wherever it
      sits in the array, and the cursor ends just past it. */
  lemma VarintRoundTrip(pre: seq<Byte>, i: int, post: seq<Byte>)
    requires IsInt(i)
    ensures var bs := VarintBytes(U32(i));
      ReadFrom(pre + bs + post, |pre|, 0, 0) == Ok((i, |pre| + |bs|))
  {
    var bs := VarintBytes(U32(i));
    var buf := pre + bs + post;
    IntVarintLength(i);
    assert buf[|pre|..|pre| + |bs|] == bs;
    ReadFromVarint(buf, |pre|, 0, 0, U32(i));
    assert Pow2(0) == 1;
    U32RoundTrip(i);
  }

  /** Five continuation bytes followed by any sixth byte make `readVarint` throw. */
  lemma {:induction false} TooLongThrows(buf: seq<Byte>, idx: int, len: nat, value: int)
    requires len <= 5 && 0 <= idx && idx + (5 - len) < |buf|
    requires forall j :: idx <= j < idx + (5 - len) ==> buf[j] >= CONTINUE_BIT_MASK
    ensures ReadFrom(buf, idx, len, value) == Err(VarintTooLong)
    decreases 5 - len
  {
    if len < 5 {
      TooLongThrows(buf, idx + 1, len + 1, Group(value, buf[idx], len));
    }
  }

  /** A successful read ends on the first byte without the continuation bit, within five bytes,
      and every byte before it carries the bit. */
  lemma {:induction false} ReadFromEnds(buf: seq<Byte>, idx: int, len: nat, value: int)
    requires len <= 5
    ensures ReadFrom(buf, idx, len, value).Ok? ==>
      var next := ReadFrom(buf, idx, len, value).value.1;
      idx < next <= idx + (5 - len) && next <= |buf| && buf[next - 1] < CONTINUE_BIT_MASK
      && forall j :: idx <= j < next - 1 ==> buf[j] >= CONTINUE_BIT_MASK
    decreases 5 - len
  {
    if 0 <= idx < |buf| && len + 1 <= 5 && buf[idx] >= CONTINUE_BIT_MASK {
      ReadFromEnds(buf, idx + 1, len + 1, Group(value, buf[idx], len));
    }
  }
}
