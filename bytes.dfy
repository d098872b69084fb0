/** JVM integer widths and their byte encodings: the arithmetic under `writeInt*`, `intToBEBytes`,
    the varint coders, the long packers and the byte buffer of McvUtils.kt. */
module Bytes {
  import opened Vec

  /** A JVM `Byte`, held as its unsigned bit pattern. */
  type Byte = b: int | 0 <= b < 256

  const TWO_8: int := 0x100
  const TWO_16: int := 0x1_0000
  const TWO_32: int := 0x1_0000_0000
  const TWO_64: int := 0x1_0000_0000_0000_0000

  predicate IsShort(v: int) { -0x8000 <= v < 0x8000 }

  /** A JVM `Short`. */
  type Short = s: int | -0x8000 <= s < 0x8000
  predicate IsInt(v: int) { INT_MIN <= v <= INT_MAX }

  /** A JVM `Long` held as its unsigned 64-bit pattern. */
  predicate IsLongBits(v: int) { 0 <= v < TWO_64 }

  /** `toShort()`: the low 16 bits of v read as a signed value. */
  function ToShort(v: int): (s: int)
    ensures IsShort(s) && (s - v) % TWO_16 == 0
  {
    var u := v % TWO_16;
    if u < 0x8000 then u else u - TWO_16
  }

  /** `toInt()` of a wider value: the low 32 bits read as a signed value. */
  function ToInt(v: int): (s: int)
    ensures IsInt(s) && (s - v) % TWO_32 == 0
  {
    var u := v % TWO_32;
    if u <= INT_MAX then u else u - TWO_32
  }

  /** `(v shr (8 * i)).toByte()`: byte i of v, counting from the least significant one. An
      arithmetic right shift is floor division, so this holds for negative v as well. */
  function ByteOf(v: int, i: nat): Byte {
    (v / Pow2(8 * i)) % 256
  }

  /** The n low bytes of v, least significant first. */
  function LeBytes(v: int, n: nat): (bs: seq<Byte>)
    ensures |bs| == n
  {
    seq(n, i requires 0 <= i < n => ByteOf(v, i))
  }

  /** The n low bytes of v, most significant first. */
  function BeBytes(v: int, n: nat): (bs: seq<Byte>)
    ensures |bs| == n
  {
    seq(n, i requires 0 <= i < n => ByteOf(v, n - 1 - i))
  }

  /** The unsigned value of a little-endian byte sequence. */
  function FromLe(bs: seq<Byte>): nat {
    if |bs| == 0 then 0 else bs[0] + 256 * FromLe(bs[1..])
  }

  function Reverse<X>(s: seq<X>): (r: seq<X>)
    ensures |r| == |s|
  {
    seq(|s|, i requires 0 <= i < |s| => s[|s| - 1 - i])
  }

  /** The unsigned value of a big-endian byte sequence. */
  function FromBe(bs: seq<Byte>): nat {
    FromLe(Reverse(bs))
  }

  // ---------------------------------------------------------------------------
  // Arithmetic

  lemma Pow2Eight()
    ensures Pow2(8) == TWO_8
  {
    assert Pow2(4) == 16;
    Pow2Add(4, 4);
  }

  lemma Pow2Widths()
    ensures Pow2(8) == TWO_8 && Pow2(16) == TWO_16 && Pow2(32) == TWO_32 && Pow2(64) == TWO_64
  {
    assert Pow2(4) == 16;
    assert Pow2(8) == 256 by { Pow2Add(4, 4); }
    Pow2Add(8, 8);
    Pow2Add(16, 16);
    Pow2Add(32, 32);
  }

  /** Adding a multiple of s does not change a remainder modulo s. */
  lemma ModAddMul(x: int, k: int, s: int)
    requires s > 0
    ensures (x + k * s) % s == x % s
    ensures (x + k * s) / s == x / s + k
  {
    var q, r := x / s, x % s;
    assert x + k * s == (q + k) * s + r;
    DivModUnique(q + k, r, s);
  }

  /** Splitting a remainder modulo a*b into a digit modulo a and the rest. */
  lemma DivModSplit(v: int, a: int, b: int)
    requires a > 0 && b > 0
    ensures v % (a * b) == v % a + a * ((v / a) % b)
    ensures v / (a * b) == (v / a) / b
  {
    var q, r := v / a, v % a;
    var q2, r2 := q / b, q % b;
    assert v == (a * b) * q2 + (a * r2 + r) by {
      assert q == b * q2 + r2;
      assert v == a * q + r;
      assert a * q == a * (b * q2) + a * r2;
    }
    assert 0 <= a * r2 + r < a * b by {
      MulLe(r2, b - 1, a);
      assert r2 * a <= (b - 1) * a;
    }
    DivModUnique(q2, a * r2 + r, a * b);
  }

  /** Byte i+1 of v is byte i of v shifted down by one byte. */
  lemma ByteOfShift(v: int, i: nat)
    ensures ByteOf(v, i + 1) == ByteOf(v / 256, i)
  {
    calc {
      Pow2(8 * (i + 1));
      { Pow2Add(8, 8 * i); Pow2Eight(); }
      256 * Pow2(8 * i);
    }
    DivModSplit(v, 256, Pow2(8 * i));
  }

  /** Dropping the first little-endian byte leaves the bytes of v shifted down by one byte. */
  lemma LeBytesTail(v: int, n: nat)
    requires n > 0
    ensures LeBytes(v, n)[0] == v % 256
    ensures LeBytes(v, n)[1..] == LeBytes(v / 256, n - 1)
  {
    var bs := LeBytes(v, n);
    forall i | 0 <= i < n - 1 ensures bs[1..][i] == LeBytes(v / 256, n - 1)[i] {
      ByteOfShift(v, i);
    }
  }

  /** The remainder modulo 2^(8n) splits into the low byte and the rest. */
  lemma ResidueSplit(v: int, n: nat)
    requires n > 0
    ensures v % Pow2(8 * n) == v % 256 + 256 * ((v / 256) % Pow2(8 * (n - 1)))
  {
    Pow2Eight();
    Pow2Add(8, 8 * (n - 1));
    DivModSplit(v, 256, Pow2(8 * (n - 1)));
  }

  /** Decoding the n low bytes of v gives back v modulo 2^(8n). */
  lemma {:induction false} LeBytesRoundTrip(v: int, n: nat)
    ensures FromLe(LeBytes(v, n)) == v % Pow2(8 * n)
    decreases n
  {
    if n > 0 {
      LeBytesTail(v, n);
      LeBytesRoundTrip(v / 256, n - 1);
      ResidueSplit(v, n);
    }
  }

  /** The big-endian bytes are the little-endian ones in the opposite order. */
  lemma BeIsReversedLe(v: int, n: nat)
    ensures BeBytes(v, n) == Reverse(LeBytes(v, n))
    ensures FromBe(BeBytes(v, n)) == v % Pow2(8 * n)
  {
    assert BeBytes(v, n) == Reverse(LeBytes(v, n));
    LeBytesRoundTrip(v, n);
    assert Reverse(Reverse(LeBytes(v, n))) == LeBytes(v, n);
  }

  /** The low `8 * n` bits of v, read back from either byte order, at width w = 8 * n. */
  lemma {:induction false} BytesAtWidth(v: int, n: nat, w: nat)
    requires w == 8 * n
    ensures FromLe(LeBytes(v, n)) == v % Pow2(w)
    ensures FromBe(BeBytes(v, n)) == v % Pow2(w)
  {
    LeBytesRoundTrip(v, n);
    BeIsReversedLe(v, n);
  }

  /** A value already in Int range is its own low 32 bits read as signed. */
  lemma ToIntOfResidue(i: int, m: int)
    requires IsInt(i) && m == i % TWO_32
    ensures ToInt(m) == i
  {
    if i < 0 { ModAddMul(i, 1, TWO_32); assert m == i + TWO_32; }
  }

  /** A value already in Short range is its own low 16 bits read as signed. */
  lemma ToShortOfResidue(s: int, m: int)
    requires IsShort(s) && m == s % TWO_16
    ensures ToShort(m) == s
  {
    if s < 0 { ModAddMul(s, 1, TWO_16); assert m == s + TWO_16; }
  }

  /** Reading back four bytes written for a 32-bit Int, as a signed value, gives the Int. */
  lemma IntBytesRoundTrip(i: int)
    requires IsInt(i)
    ensures ToInt(FromLe(LeBytes(i, 4))) == i
    ensures ToInt(FromBe(BeBytes(i, 4))) == i
  {
    Pow2Widths();
    BytesAtWidth(i, 4, 32);
    ToIntOfResidue(i, i % TWO_32);
  }

  /** Reading back two bytes written for a Short, as a signed value, gives the Short. */
  lemma ShortBytesRoundTrip(s: int)
    requires IsShort(s)
    ensures ToShort(FromLe(LeBytes(s, 2))) == s
    ensures ToShort(FromBe(BeBytes(s, 2))) == s
  {
    Pow2Widths();
    BytesAtWidth(s, 2, 16);
    ToShortOfResidue(s, s % TWO_16);
  }

  /** Reading back eight bytes written for a Long's bit pattern gives the pattern. */
  lemma LongBytesRoundTrip(l: int)
    requires IsLongBits(l)
    ensures FromLe(LeBytes(l, 8)) == l
    ensures FromBe(BeBytes(l, 8)) == l
  {
    BytesAtWidth(l, 8, 64);
    LongResidue(l);
  }

  lemma LongResidue(l: int)
    requires IsLongBits(l)
    ensures l % Pow2(64) == l
  {
    Pow2Widths();
  }
}
