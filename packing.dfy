/** The long bit-packers of McvUtils.kt. A JVM `Long` is held as its unsigned 64-bit pattern, so
    `ushr` is floor division by a power of two. Where the source `or`s a field into a long, the
    field's bits are disjoint from the bits already set (each proof below shows it), and the `or`
    is written as the sum it equals. */
module Packing {
  import opened Vec
  import opened Bytes
  import opened Wrappers

  function MinI(a: int, b: int): int { if a <= b then a else b }

  function CeilDiv(n: nat, g: nat): nat
    requires g >= 1
  {
    (n + g - 1) / g
  }

  /** `v and ((1 shl n) - 1)` on Int: an Int shift uses the low five bits of n, so the mask keeps
      the low `n % 32` bits (for `n % 32 == 31` the wrap of `INT_MIN - 1` gives `INT_MAX`). */
  function LowBits(v: int, n: int): (f: nat)
    ensures f < Pow2(n % 32)
  {
    v % Pow2(n % 32)
  }

  /** `v shl n` on a Long: the shift amount is taken modulo 64 and bits past bit 63 are lost. */
  function ShlLong(v: int, n: int): int {
    (v * Pow2(n % 64)) % TWO_64
  }

  /** `v ushr n` on a Long's unsigned pattern. */
  function UshrLong(v: int, n: int): int {
    v / Pow2(n % 64)
  }

  // ---------------------------------------------------------------------------
  // Arithmetic on words

  /** Fields laid out from the least significant end, field j at bit `j * w`. */
  function WordLF(fs: seq<nat>, w: nat): nat {
    if |fs| == 0 then 0 else fs[0] + Pow2(w) * WordLF(fs[1..], w)
  }

  /** Fields laid out Horner-style, the earliest field in the highest bits. */
  function WordHF(vs: seq<nat>, w: nat): nat {
    if |vs| == 0 then 0 else WordHF(vs[..|vs| - 1], w) * Pow2(w) + vs[|vs| - 1]
  }

  predicate FieldsBelow(fs: seq<nat>, bound: nat) {
    forall j :: 0 <= j < |fs| ==> fs[j] < bound
  }

  /** One more factor w: `w + (n - 1) * w == n * w`. */
  lemma MulSucc(n: int, w: int)
    ensures w + (n - 1) * w == n * w
  {
  }

  /** Appending a field puts it at bit `|fs| * w`. */
  lemma {:induction false} WordLFAppend(fs: seq<nat>, f: nat, w: nat)
    ensures WordLF(fs + [f], w) == WordLF(fs, w) + f * Pow2(|fs| * w)
    decreases |fs|
  {
    if |fs| == 0 {
      assert Pow2(0) == 1;
    } else {
      var n := |fs|;
      assert (fs + [f])[1..] == fs[1..] + [f];
      WordLFAppend(fs[1..], f, w);
      Pow2Add(w, (n - 1) * w);
      MulSucc(n, w);
      ShiftArith(fs[0], Pow2(w), WordLF(fs[1..], w), f, Pow2((n - 1) * w), Pow2(n * w));
    }
  }

  lemma ShiftArith(a: int, p: int, t: int, f: int, q: int, r: int)
    requires r == p * q
    ensures a + p * (t + f * q) == (a + p * t) + f * r
  {
  }

  /** A digit below p plus p times a number below q stays below p * q. */
  lemma BoundArith(a: int, p: int, t: int, q: int, r: int)
    requires 0 <= a < p && 0 <= t < q && r == p * q
    ensures a + p * t < r && t * p + a < r
  {
    MulLe(t, q - 1, p);
  }

  lemma MulRegroup(p: int, a: int, c: int, b: int)
    requires p == a * c
    ensures p * b == (c * b) * a
  {
  }

  /** Fields of w bits give a word below 2^(n*w). */
  lemma {:induction false} WordLFBound(fs: seq<nat>, w: nat)
    requires FieldsBelow(fs, Pow2(w))
    ensures WordLF(fs, w) < Pow2(|fs| * w)
    decreases |fs|
  {
    if |fs| == 0 {
      assert Pow2(0) == 1;
    } else {
      var n := |fs|;
      WordLFBound(fs[1..], w);
      Pow2Add(w, (n - 1) * w);
      MulSucc(n, w);
      BoundArith(fs[0], Pow2(w), WordLF(fs[1..], w), Pow2((n - 1) * w), Pow2(n * w));
    }
  }

  /** A remainder modulo 2^m ignores multiples of 2^w when m <= w. */
  lemma ModLowBits(a: int, b: int, m: nat, w: nat)
    requires m <= w
    ensures (a + Pow2(w) * b) % Pow2(m) == a % Pow2(m)
  {
    var d := w - m;
    Pow2Add(m, d);
    assert m + d == w;
    MulRegroup(Pow2(w), Pow2(m), Pow2(d), b);
    ModAddMul(a, Pow2(d) * b, Pow2(m));
  }

  /** Dividing by p then by q is dividing by r = p * q. */
  lemma DivDivArith(x: int, p: int, q: int, r: int)
    requires p > 0 && q > 0 && r == p * q
    ensures x / r == (x / p) / q
  {
    DivModSplit(x, p, q);
  }

  /** Field j of an LF word is read back by shifting down `j * w` bits and keeping m bits. */
  lemma {:induction false} WordLFField(fs: seq<nat>, w: nat, m: nat, j: nat)
    requires m <= w && FieldsBelow(fs, Pow2(m)) && j < |fs|
    ensures (WordLF(fs, w) / Pow2(j * w)) % Pow2(m) == fs[j]
    decreases j
  {
    Pow2Monotone(m, w);
    var rest := WordLF(fs[1..], w);
    var word := WordLF(fs, w);
    if j == 0 {
      assert Pow2(0) == 1;
      ModLowBits(fs[0], rest, m, w);
      DivModUnique(0, fs[0], Pow2(m));
    } else {
      assert word / Pow2(w) == rest by {
        ModAddMul(fs[0], rest, Pow2(w));
        DivModUnique(0, fs[0], Pow2(w));
      }
      WordLFField(fs[1..], w, m, j - 1);
      assert word / Pow2(j * w) == rest / Pow2((j - 1) * w) by {
        Pow2Add(w, (j - 1) * w);
        MulSucc(j, w);
        DivDivArith(word, Pow2(w), Pow2((j - 1) * w), Pow2(j * w));
      }
      assert fs[1..][j - 1] == fs[j];
    }
  }

  /** Appending a field shifts the word up by w bits. */
  lemma WordHFAppend(vs: seq<nat>, v: nat, w: nat)
    ensures WordHF(vs + [v], w) == WordHF(vs, w) * Pow2(w) + v
  {
    assert (vs + [v])[..|vs|] == vs;
  }

  lemma {:induction false} WordHFBound(vs: seq<nat>, w: nat)
    requires FieldsBelow(vs, Pow2(w))
    ensures WordHF(vs, w) < Pow2(|vs| * w)
    decreases |vs|
  {
    if |vs| == 0 {
      assert Pow2(0) == 1;
    } else {
      var n := |vs|;
      var init := vs[..n - 1];
      WordHFBound(init, w);
      Pow2Add(w, (n - 1) * w);
      MulSucc(n, w);
      BoundArith(vs[n - 1], Pow2(w), WordHF(init, w), Pow2((n - 1) * w), Pow2(n * w));
    }
  }

  /** Field j of an HF word sits `(n - 1 - j) * w` bits up: the earliest field is the highest. */
  lemma {:induction false} WordHFField(vs: seq<nat>, w: nat, j: nat)
    requires FieldsBelow(vs, Pow2(w)) && j < |vs|
    ensures (WordHF(vs, w) / Pow2((|vs| - 1 - j) * w)) % Pow2(w) == vs[j]
    decreases |vs|
  {
    var n := |vs|;
    var init := vs[..n - 1];
    var last := vs[n - 1];
    var word := WordHF(vs, w);
    var high := WordHF(init, w);
    assert word % Pow2(w) == last && word / Pow2(w) == high by {
      ModAddMul(last, high, Pow2(w));
      DivModUnique(0, last, Pow2(w));
    }
    if j == n - 1 {
      assert Pow2(0) == 1;
    } else {
      assert FieldsBelow(init, Pow2(w));
      WordHFField(init, w, j);
      assert word / Pow2((n - 1 - j) * w) == high / Pow2((n - 2 - j) * w) by {
        assert (n - 2 - j) * w >= 0 by { MulLe(0, n - 2 - j, w); }
        Pow2Add(w, (n - 2 - j) * w);
        MulSucc(n - 1 - j, w);
        DivDivArith(word, Pow2(w), Pow2((n - 2 - j) * w), Pow2((n - 1 - j) * w));
      }
      assert init[j] == vs[j];
    }
  }

  // ---------------------------------------------------------------------------
  // makePackedLongArrLF

  /** The values per long: `64 / bitLength`, or one when that is zero, since the flush test
      `idxInLong >= valuesPerLong` then passes after every value. */
  function PerLong(bl: int): (g: nat)
    requires bl > 0
    ensures g >= 1
  {
    if bl <= 64 then 64 / bl else 1
  }

  /** The masked fields the packer writes. */
  function Fields(data: seq<Short>, bl: int): (fs: seq<nat>)
    ensures |fs| == |data| && FieldsBelow(fs, Pow2(bl % 32))
  {
    seq(|data|, i requires 0 <= i < |data| => LowBits(data[i], bl))
  }

  /** The k-th run of g consecutive fields, shorter at the end. */
  function Run(fs: seq<nat>, g: nat, k: nat): seq<nat> {
    fs[MinI(|fs|, k * g)..MinI(|fs|, k * g + g)]
  }

  /** The longs of the LF packing: run k of the fields in long k, least significant first. */
  function PackLF(fs: seq<nat>, g: nat, bl: nat): (longs: seq<nat>)
    requires g >= 1
    ensures |longs| == CeilDiv(|fs|, g)
  {
    seq(CeilDiv(|fs|, g), k requires 0 <= k < CeilDiv(|fs|, g) => WordLF(Run(fs, g, k), bl))
  }

  /** The packer's state after i values: the finished longs hold whole runs, the current long holds
      the last idx fields. */
  ghost predicate LfState(fs: seq<nat>, g: nat, bl: nat, i: int, longs: seq<int>, idx: int, cur: int) {
    g >= 1 && 0 <= idx < g && 0 <= i - idx && i <= |fs| && i == |longs| * g + idx
    && (forall k :: 0 <= k < |longs| ==> longs[k] == WordLF(Run(fs, g, k), bl))
    && cur == WordLF(fs[i - idx..i], bl)
  }

  lemma LfStart(fs: seq<nat>, bl: int)
    requires bl > 0
    ensures LfState(fs, PerLong(bl), bl, 0, [], 0, 0)
  {
  }

  /** Fields of a run fit their slots: the run's width never exceeds 64 bits. */
  lemma RunFits(bl: int, idx: int)
    requires bl > 0 && 0 <= idx < PerLong(bl)
    ensures 0 <= idx * bl
    ensures bl <= 64 ==> idx * bl + bl <= 64
    ensures bl > 64 ==> idx == 0
  {
    MulLe(0, idx, bl);
    if bl <= 64 {
      MulLe(idx + 1, 64 / bl, bl);
    }
  }

  lemma MulMod(k: int, s: int)
    requires s > 0
    ensures (k * s) % s == 0
  {
    ModAddMul(0, k, s);
  }

  lemma SmallMod(x: int, y: int)
    requires 0 <= x < y
    ensures x % y == x
  {
    DivModUnique(0, x, y);
  }

  /** A digit below a times b stays below any c >= a * b. */
  lemma ProdBound(f: int, a: int, b: int, c: int)
    requires 0 <= f < a && b > 0 && a * b <= c
    ensures 0 <= f * b < c
  {
    MulLe(f, a - 1, b);
    MulLe(0, f, b);
  }

  /** A field shifted into its slot of a run loses no bits to the 64-bit wrap. */
  lemma ShlFits(f: nat, bl: int, idx: int, sh: int)
    requires bl > 0 && 0 <= idx < PerLong(bl) && f < Pow2(bl % 32) && sh == idx * bl
    ensures sh >= 0 && ShlLong(f, sh) == f * Pow2(sh)
  {
    RunFits(bl, idx);
    ShlNoWrap(f, bl % 32, sh);
  }

  /** One value of the packer loop: the field goes in at bit `idx * bl`, above the bits already
      set, and a full long is flushed. */
  lemma LfStep(fs: seq<nat>, bl: int, i: int, longs: seq<int>, idx: int, cur: int, sh: int)
    requires bl > 0 && LfState(fs, PerLong(bl), bl, i, longs, idx, cur) && i < |fs|
    requires FieldsBelow(fs, Pow2(bl % 32)) && sh == idx * bl
    ensures sh >= 0
    ensures var g := PerLong(bl);
      var cur1 := cur + ShlLong(fs[i], sh);
      cur < Pow2(sh) && ShlLong(fs[i], sh) % Pow2(sh) == 0
      && (if idx + 1 >= g then LfState(fs, g, bl, i + 1, longs + [cur1], 0, 0)
          else LfState(fs, g, bl, i + 1, longs, idx + 1, cur1))
  {
    var g := PerLong(bl);
    var f := fs[i];
    var run := fs[i - idx..i];
    Pow2Monotone(bl % 32, bl);
    assert FieldsBelow(run, Pow2(bl));
    WordLFBound(run, bl);
    assert |run| == idx;
    assert cur < Pow2(sh);
    ShlFits(f, bl, idx, sh);
    MulMod(f, Pow2(sh));
    assert ShlLong(f, sh) % Pow2(sh) == 0;
    assert fs[i - idx..i + 1] == run + [f];
    WordLFAppend(run, f, bl);
    if idx + 1 >= g {
      MulSucc(|longs| + 1, g);
      assert Run(fs, g, |longs|) == fs[i - idx..i + 1];
    }
  }

  /** The final flush makes the longs exactly the packing of all the fields. */
  lemma LfDone(fs: seq<nat>, bl: int, longs: seq<int>, idx: int, cur: int)
    requires bl > 0 && LfState(fs, PerLong(bl), bl, |fs|, longs, idx, cur)
    ensures var out := if idx != 0 then longs + [cur] else longs;
      out == PackLF(fs, PerLong(bl), bl)
  {
    var g := PerLong(bl);
    var n := |fs|;
    var out := if idx != 0 then longs + [cur] else longs;
    ModAddMul(idx + g - 1, |longs|, g);
    assert n + g - 1 == (idx + g - 1) + |longs| * g;
    if idx == 0 {
      DivModUnique(0, g - 1, g);
    } else {
      DivModUnique(1, idx - 1, g);
      assert idx + g - 1 == 1 * g + (idx - 1);
      assert Run(fs, g, |longs|) == fs[n - idx..n];
    }
    assert |out| == CeilDiv(n, g);
  }

  /** `makePackedLongArrLF`: an empty array for no data; otherwise a positive bit length is
      required, and the masked values are packed `PerLong(bl)` to a long, least significant
      first. */
  method MakePackedLongArrLF(data: seq<Short>, bitLength: int) returns (r: Result<seq<int>>)
    ensures |data| == 0 ==> r == Ok([])
    ensures |data| > 0 && bitLength <= 0 ==> r == Err(InvalidConfiguration)
    ensures |data| > 0 && bitLength > 0 ==> r == Ok(PackLF(Fields(data, bitLength), PerLong(bitLength), bitLength))
  {
    if |data| == 0 {
      return Ok([]);
    }
    if bitLength <= 0 {
      return Err(InvalidConfiguration);
    }
    var longs: seq<int> := [];
    var valuesPerLong := PerLong(bitLength);
    var currentLong := 0;
    var idxInLong := 0;
    ghost var fs := Fields(data, bitLength);
    LfStart(fs, bitLength);
    for i := 0 to |data|
      invariant LfState(fs, valuesPerLong, bitLength, i, longs, idxInLong, currentLong)
    {
      LfStep(fs, bitLength, i, longs, idxInLong, currentLong, idxInLong * bitLength);
      currentLong := currentLong + ShlLong(LowBits(data[i], bitLength), idxInLong * bitLength);
      idxInLong := idxInLong + 1;
      if idxInLong >= valuesPerLong {
        idxInLong := 0;
        longs := longs + [currentLong];
        currentLong := 0;
      }
    }
    LfDone(fs, bitLength, longs, idxInLong, currentLong);
    if idxInLong != 0 {
      longs := longs + [currentLong];
    }
    return Ok(longs);
  }

  /** Value j of long k in the LF packing is field `k * g + j`: values are never split. */
  lemma PackLFField(fs: seq<nat>, bl: int, k: nat, j: nat)
    requires bl > 0 && FieldsBelow(fs, Pow2(bl % 32))
    requires j < PerLong(bl) && k * PerLong(bl) + j < |fs|
    ensures var longs := PackLF(fs, PerLong(bl), bl);
      k < |longs| && (longs[k] / Pow2(j * bl)) % Pow2(bl % 32) == fs[k * PerLong(bl) + j]
  {
    var g := PerLong(bl);
    CeilAbove(|fs|, g, k);
    var run := Run(fs, g, k);
    assert run[j] == fs[k * g + j];
    assert FieldsBelow(run, Pow2(bl % 32));
    WordLFField(run, bl, bl % 32, j);
  }

  /** A run that starts before n lies below the ceiling of n / g. */
  lemma CeilAbove(n: nat, g: nat, k: nat)
    requires g >= 1 && k * g < n
    ensures k < CeilDiv(n, g)
  {
    MulSucc(k + 1, g);
    DivLe((k + 1) * g, n + g - 1, g);
    ModAddMul(0, k + 1, g);
  }

  lemma DivLe(a: int, b: int, s: int)
    requires a <= b && s > 0
    ensures a / s <= b / s
  {
    var qa, qb := a / s, b / s;
    if qa > qb {
      MulLe(qb + 1, qa, s);
    }
  }

  // ---------------------------------------------------------------------------
  // unpackLongArrLFIntoShortArray

  /** The unpacker's position: the bit pointer in the current long, the index of that long, and
      the long itself. */
  datatype Cursor = Cursor(ptr: int, li: int, cur: int)

  /** The value at the cursor: bl bits from the pointer up, read as a Short. */
  function ReadAt(bl: int, c: Cursor): Short {
    ToShort(UshrLong(c.cur, c.ptr) % Pow2(bl % 32))
  }

  /** The pointer advances by the bit length and moves to the next long once the next value would
      not fit; past the last long, the current one keeps being read. */
  function Advance(longs: seq<int>, bl: int, c: Cursor): Cursor {
    if c.ptr + bl > 64 - bl then
      var li1 := c.li + 1;
      Cursor(0, li1, if 0 <= li1 < |longs| then longs[li1] else c.cur)
    else
      Cursor(c.ptr + bl, c.li, c.cur)
  }

  /** The unpacking loop from cursor c with count values still to read. */
  function UnpackFrom(longs: seq<int>, bl: int, c: Cursor, count: nat): (out: seq<Short>)
    ensures |out| == count
    decreases count
  {
    if count == 0 then [] else [ReadAt(bl, c)] + UnpackFrom(longs, bl, Advance(longs, bl, c), count - 1)
  }

  /** What `unpackLongArrLFIntoShortArray` returns: no longs or no values give an empty array; a
      negative count is a negative array size; otherwise valueCount values read from long 0. */
  function UnpackLF(longs: seq<int>, bitLength: int, valueCount: int): Result<seq<Short>> {
    if |longs| == 0 || valueCount == 0 then Ok([])
    else if valueCount < 0 then Err(NegativeArraySize)
    else Ok(UnpackFrom(longs, bitLength, Cursor(0, 0, longs[0]), valueCount))
  }

  /** `unpackLongArrLFIntoShortArray`, walking the pointer through the longs. */
  method UnpackLongArrLF(longs: seq<int>, bitLength: int, valueCount: int) returns (r: Result<seq<Short>>)
    ensures |longs| == 0 || valueCount == 0 ==> r == Ok([])
    ensures |longs| > 0 && valueCount < 0 ==> r == Err(NegativeArraySize)
    ensures |longs| > 0 && valueCount > 0 ==> r == Ok(UnpackFrom(longs, bitLength, Cursor(0, 0, longs[0]), valueCount))
    ensures r == UnpackLF(longs, bitLength, valueCount)
  {
    if |longs| == 0 || valueCount == 0 {
      return Ok([]);
    }
    if valueCount < 0 {
      return Err(NegativeArraySize);
    }
    var outArr := new Short[valueCount](_ => 0);
    var ptrInLong := 0;
    var currLongIdx := 0;
    var currLong := longs[currLongIdx];
    ghost var target := UnpackFrom(longs, bitLength, Cursor(0, 0, longs[0]), valueCount);
    ghost var done: seq<Short> := [];
    for valIdx := 0 to valueCount
      invariant outArr[..valIdx] == done
      invariant done + UnpackFrom(longs, bitLength, Cursor(ptrInLong, currLongIdx, currLong), valueCount - valIdx) == target
    {
      ghost var c0 := Cursor(ptrInLong, currLongIdx, currLong);
      var v: Short := ToShort(UshrLong(currLong, ptrInLong) % Pow2(bitLength % 32));
      outArr[valIdx] := v;
      assert outArr[..valIdx + 1] == done + [v];
      ptrInLong := ptrInLong + bitLength;
      if ptrInLong > 64 - bitLength {
        currLongIdx := currLongIdx + 1;
        if 0 <= currLongIdx < |longs| {
          currLong := longs[currLongIdx];
        }
        ptrInLong := 0;
      }
      UnpackAdvance(longs, bitLength, c0, Cursor(ptrInLong, currLongIdx, currLong), v, valueCount - valIdx, done, target);
      done := done + [v];
    }
    UnpackDone(longs, bitLength, Cursor(ptrInLong, currLongIdx, currLong), done, target);
    assert outArr[..valueCount] == outArr[..];
    return Ok(outArr[..]);
  }

  /** With no value pending, the finished part is the whole output. */
  lemma UnpackDone(longs: seq<int>, bl: int, c: Cursor, done: seq<Short>, target: seq<Short>)
    requires done + UnpackFrom(longs, bl, c, 0) == target
    ensures done == target
  {
    assert done + [] == done;
  }

  /** The unpacking loop's invariant carries over one value: it moves from the pending part of the
      output to the finished part. */
  lemma UnpackAdvance(longs: seq<int>, bl: int, c: Cursor, c1: Cursor, v: Short, count: nat,
                      done: seq<Short>, target: seq<Short>)
    requires count >= 1 && c1 == Advance(longs, bl, c) && v == ReadAt(bl, c)
    requires done + UnpackFrom(longs, bl, c, count) == target
    ensures (done + [v]) + UnpackFrom(longs, bl, c1, count - 1) == target
  {
    var todo1 := UnpackFrom(longs, bl, c1, count - 1);
    assert (done + [v]) + todo1 == done + ([v] + todo1);
  }

  // ---------------------------------------------------------------------------
  // Round trip

  /** A Short read back as a Short is itself. */
  lemma ToShortOfShort(d: Short)
    ensures ToShort(d) == d
  {
    if d < 0 {
      DivModUnique(-1, d + TWO_16, TWO_16);
    } else {
      SmallMod(d, TWO_16);
    }
  }

  /** A Short survives being masked to m bits and read back as a Short when m >= 16 or its value is
      a non-negative m-bit number. */
  lemma MaskedShort(d: Short, m: nat)
    requires m < 32 && (m >= 16 || 0 <= d < Pow2(m))
    ensures ToShort(d % Pow2(m)) == d
  {
    var x := d % Pow2(m);
    assert x % TWO_16 == d % TWO_16 by {
      if 0 <= d < Pow2(m) {
        SmallMod(d, Pow2(m));
      } else {
        var e: nat := m - 16;
        Pow2Sixteen();
        Pow2Add(16, e);
        assert Pow2(m) == Pow2(16) * Pow2(e) by { assert 16 + e == m; }
        LowModOfWider(d, Pow2(m), Pow2(16), Pow2(e));
      }
    }
    ToShortMod(x, d);
    ToShortOfShort(d);
  }

  /** ToShort keeps only the low 16 bits. */
  lemma ToShortMod(x: int, y: int)
    requires x % TWO_16 == y % TWO_16
    ensures ToShort(x) == ToShort(y)
  {
  }

  /** Reducing modulo a multiple of s first does not change the remainder modulo s. */
  lemma LowModOfWider(d: int, p: int, s: int, e: int)
    requires s > 0 && e > 0 && p == s * e
    ensures (d % p) % s == d % s
  {
    DivModSplit(d, s, e);
    var q := (d / s) % e;
    assert d % p == d % s + q * s;
    ModAddMul(d % s, q, s);
    SmallMod(d % s, s);
  }

  lemma Pow2Sixteen()
    ensures Pow2(16) == TWO_16
  {
    Pow2Widths();
  }

  /** The pointer passes `64 - bl` exactly when the run of the current long is complete. */
  lemma FlushAt(bl: int, j: int, sh: int)
    requires 1 <= bl && 0 <= j < PerLong(bl) && sh == j * bl
    ensures sh + bl > 64 - bl <==> j + 1 == PerLong(bl)
  {
    var g := PerLong(bl);
    if bl > 64 {
      return;
    }
    MulSucc(j + 1, bl);
    MulSucc(j + 2, bl);
    if j + 1 < g {
      MulLe(j + 2, g, bl);
      DivModUnique(g, 64 % bl, bl);
      MulLe(0, g, bl);
    } else {
      DivLt(64, bl, j + 2);
    }
  }

  /** Every value fits the mask of bl bits as a Short: the mask keeps at least 16 bits, or the
      value is a non-negative number below it. */
  predicate MaskFits(data: seq<Short>, bl: int) {
    forall t :: 0 <= t < |data| ==> bl % 32 >= 16 || 0 <= data[t] < Pow2(bl % 32)
  }

  /** The unpacker's cursor at value `i = k * g + j`: long k is current, the pointer is at `j * bl`. */
  predicate AtValue(data: seq<Short>, longs: seq<int>, bl: int, g: nat, i: nat, k: nat, j: nat, c: Cursor) {
    j < g && c.ptr == j * bl && c.li == k && i == k * g + j && i <= |data|
    && (i < |data| ==> k < |longs| && c.cur == longs[k])
  }

  /** At that cursor the unpacker reads value i back. */
  lemma UnpackReadsValue(data: seq<Short>, fs: seq<nat>, longs: seq<int>, bl: int, g: nat,
                         i: nat, k: nat, j: nat, c: Cursor)
    requires 1 <= bl <= 64 && g == PerLong(bl) && MaskFits(data, bl)
    requires fs == Fields(data, bl) && longs == PackLF(fs, g, bl)
    requires AtValue(data, longs, bl, g, i, k, j, c) && i < |data|
    ensures ReadAt(bl, c) == data[i]
  {
    RunFits(bl, j);
    PackLFField(fs, bl, k, j);
    SmallMod(c.ptr, 64);
    assert UshrLong(c.cur, c.ptr) % Pow2(bl % 32) == fs[i];
    MaskedShort(data[i], bl % 32);
  }

  /** The advanced cursor is the cursor at value i + 1. */
  lemma UnpackMoves(data: seq<Short>, fs: seq<nat>, longs: seq<int>, bl: int, g: nat,
                    i: nat, k: nat, j: nat, c: Cursor)
    requires 1 <= bl <= 64 && g == PerLong(bl)
    requires fs == Fields(data, bl) && longs == PackLF(fs, g, bl)
    requires AtValue(data, longs, bl, g, i, k, j, c) && i < |data|
    ensures j + 1 == g ==> AtValue(data, longs, bl, g, i + 1, k + 1, 0, Advance(longs, bl, c))
    ensures j + 1 < g ==> AtValue(data, longs, bl, g, i + 1, k, j + 1, Advance(longs, bl, c))
  {
    FlushAt(bl, j, c.ptr);
    if j + 1 == g {
      MulSucc(k + 1, g);
      if i + 1 < |data| {
        CeilAbove(|fs|, g, k + 1);
      }
    } else {
      MulSucc(j + 1, bl);
    }
  }

  /** Reading from value `i = k * g + j` on, at the cursor the unpacker has there, gives the
      remaining data. */
  lemma {:induction false} UnpackPacked(data: seq<Short>, fs: seq<nat>, longs: seq<int>, bl: int, g: nat,
                                        i: nat, k: nat, j: nat, c: Cursor)
    requires 1 <= bl <= 64 && g == PerLong(bl) && MaskFits(data, bl)
    requires fs == Fields(data, bl) && longs == PackLF(fs, g, bl)
    requires AtValue(data, longs, bl, g, i, k, j, c)
    ensures UnpackFrom(longs, bl, c, |data| - i) == data[i..]
    decreases |data| - i
  {
    if i < |data| {
      UnpackReadsValue(data, fs, longs, bl, g, i, k, j, c);
      UnpackMoves(data, fs, longs, bl, g, i, k, j, c);
      if j + 1 == g {
        UnpackPacked(data, fs, longs, bl, g, i + 1, k + 1, 0, Advance(longs, bl, c));
      } else {
        UnpackPacked(data, fs, longs, bl, g, i + 1, k, j + 1, Advance(longs, bl, c));
      }
      SliceCons(data, i);
    }
  }

  lemma SliceCons<T>(s: seq<T>, i: nat)
    requires i < |s|
    ensures s[i..] == [s[i]] + s[i + 1..]
  {
  }

  lemma DivLt(u: nat, s: nat, p: nat)
    requires s > 0
    ensures u / s < p <==> u < p * s
  {
    var q := u / s;
    if q < p {
      MulLe(q + 1, p, s);
    } else {
      MulLe(p, q, s);
    }
  }

  /** Round trip: unpacking the LF packing of Shorts, with as many values as were packed, gives
      the Shorts back, for bit lengths 1 to 64 and values that fit the mask. */
  lemma PackUnpackRoundTrip(data: seq<Short>, bl: int)
    requires 1 <= bl <= 64 && |data| > 0 && MaskFits(data, bl)
    ensures var longs := PackLF(Fields(data, bl), PerLong(bl), bl);
      |longs| > 0 && UnpackFrom(longs, bl, Cursor(0, 0, longs[0]), |data|) == data
  {
    var g := PerLong(bl);
    var fs := Fields(data, bl);
    var longs := PackLF(fs, g, bl);
    CeilAbove(|data|, g, 0);
    assert AtValue(data, longs, bl, g, 0, 0, 0, Cursor(0, 0, longs[0]));
    UnpackPacked(data, fs, longs, bl, g, 0, 0, 0, Cursor(0, 0, longs[0]));
    assert data[0..] == data;
  }

  /** Every packed long is a 64-bit pattern: a run holds at most `64 / bl` fields of bl bits. */
  lemma PackedLongsFit(fs: seq<nat>, bl: int, k: nat)
    requires 1 <= bl <= 64 && FieldsBelow(fs, Pow2(bl % 32))
    requires k < |PackLF(fs, PerLong(bl), bl)|
    ensures PackLF(fs, PerLong(bl), bl)[k] < TWO_64
  {
    var g := PerLong(bl);
    var run := Run(fs, g, k);
    assert PackLF(fs, g, bl)[k] == WordLF(run, bl);
    assert FieldsBelow(run, Pow2(bl)) by {
      FieldsBelowRun(fs, Pow2(bl % 32), g, k);
      Pow2Monotone(bl % 32, bl);
    }
    var n := |run| * bl;
    assert n <= 64 by {
      RunWidth(|run|, bl);
    }
    assert WordLF(run, bl) < TWO_64 by {
      WordLFBound(run, bl);
      Pow2AtMost64(n);
    }
  }

  /** A run of at most `64 / bl` fields spans at most 64 bits. */
  lemma RunWidth(n: nat, bl: int)
    requires 1 <= bl <= 64 && n <= PerLong(bl)
    ensures n * bl <= 64
  {
    var g := PerLong(bl);
    RunFits(bl, g - 1);
    MulSucc(g, bl);
    MulLe(n, g, bl);
  }

  // ---------------------------------------------------------------------------
  // makePackedLongArrHF

  /** The values per long of the HF packer: a long is flushed once another value would pass bit
      64, which happens after `64 / bitCount` values, or after every value past 64 bits. */
  function PerLongHF(bc: int): (g: nat)
    requires bc > 0
    ensures g >= 1
  {
    PerLong(bc)
  }

  lemma FieldsBelowRun(fs: seq<nat>, bound: nat, g: nat, k: nat)
    requires FieldsBelow(fs, bound)
    ensures FieldsBelow(Run(fs, g, k), bound)
  {
    var run := Run(fs, g, k);
    forall t | 0 <= t < |run|
      ensures run[t] < bound
    {
      assert run[t] == fs[MinI(|fs|, k * g) + t];
    }
  }

  /** A long of the HF packing: a full run Horner-packed, a short last run shifted up once more. */
  function HfLong(run: seq<nat>, bc: nat, g: nat): nat {
    if |run| == g then WordHF(run, bc) else WordHF(run, bc) * Pow2(bc)
  }

  /** The longs of the HF packing. A zero bit count never flushes and gives no longs. */
  function PackHF(vs: seq<nat>, bc: nat): seq<nat> {
    if bc == 0 then []
    else
      var g := PerLongHF(bc);
      seq(CeilDiv(|vs|, g), k requires 0 <= k < CeilDiv(|vs|, g) => HfLong(Run(vs, g, k), bc, g))
  }

  function IntFields(ints: seq<int>, bc: int): (vs: seq<nat>)
    ensures |vs| == |ints| && FieldsBelow(vs, Pow2(bc % 32))
  {
    seq(|ints|, i requires 0 <= i < |ints| => LowBits(ints[i], bc))
  }

  /** The HF packer's state after i values: the flushed longs hold whole runs, the current long holds
      the last idx values shifted up once, and bitsTaken counts their bits. */
  ghost predicate HfState(vs: seq<nat>, bc: nat, i: int, longs: seq<int>, idx: int, bitsTaken: int, l: int) {
    bc >= 1 && var g := PerLongHF(bc);
    0 <= idx < g && 0 <= bitsTaken == idx * bc && 0 <= i - idx && i <= |vs| && i - idx == |longs| * g
    && (forall k :: 0 <= k < |longs| ==> longs[k] == HfLong(Run(vs, g, k), bc, g))
    && l == WordHF(vs[i - idx..i], bc) * Pow2(bc)
  }

  /** Shifting a word of m bits up by bc bits does not wrap when the result fits 64 bits. */
  lemma ShlNoWrap(w: nat, m: nat, bc: nat)
    requires w < Pow2(m) && m + bc <= 64 && bc < 64
    ensures ShlLong(w, bc) == w * Pow2(bc)
  {
    var q, p, r := Pow2(m), Pow2(bc), Pow2(m + bc);
    Pow2Add(m, bc);
    Pow2AtMost64(m + bc);
    ProdBound(w, q, p, TWO_64);
    SmallMod(bc, 64);
    SmallMod(w * Pow2(bc), TWO_64);
  }

  lemma Pow2AtMost64(n: nat)
    requires n <= 64
    ensures Pow2(n) <= TWO_64
  {
    Pow2Monotone(n, 64);
    Pow2Widths();
  }

  /** The current long has its low bc bits clear, so `or`-ing the next value in is an addition. */
  lemma HfOrIsSum(vs: seq<nat>, bc: nat, i: int, longs: seq<int>, idx: int, bitsTaken: int, l: int)
    requires HfState(vs, bc, i, longs, idx, bitsTaken, l)
    ensures l % Pow2(bc) == 0
  {
    MulMod(WordHF(vs[i - idx..i], bc), Pow2(bc));
  }

  /** A value that completes the run flushes the long and starts an empty one. */
  lemma HfFlush(vs: seq<nat>, bc: nat, i: int, longs: seq<int>, idx: int, bitsTaken: int, l: int, v: nat)
    requires HfState(vs, bc, i, longs, idx, bitsTaken, l) && i < |vs| && v == vs[i]
    requires bitsTaken + bc + bc > 64
    ensures HfState(vs, bc, i + 1, longs + [l + v], 0, 0, 0)
  {
    var g := PerLongHF(bc);
    var nl := |longs|;
    assert idx + 1 == g by {
      FlushAt(bc, idx, bitsTaken);
    }
    assert i + 1 == (nl + 1) * g by {
      MulSucc(nl + 1, g);
    }
    assert l + v == HfLong(Run(vs, g, nl), bc, g) by {
      var run := vs[i - idx..i];
      assert vs[i - idx..i + 1] == run + [v];
      WordHFAppend(run, v, bc);
      assert Run(vs, g, nl) == vs[i - idx..i + 1];
    }
    assert vs[i + 1..i + 1] == [];
  }

  /** Appending a value below `2^bc` to a run of HF fields gives a word of `|run| * bc + bc` bits. */
  lemma HfAppendBound(run: seq<nat>, v: nat, bc: nat, m: nat)
    requires v < Pow2(bc) && FieldsBelow(run, Pow2(bc)) && m == |run| * bc + bc
    ensures WordHF(run + [v], bc) == WordHF(run, bc) * Pow2(bc) + v
    ensures WordHF(run + [v], bc) < Pow2(m)
  {
    var run1: seq<nat> := run + [v];
    WordHFAppend(run, v, bc);
    assert FieldsBelow(run1, Pow2(bc));
    WordHFBound(run1, bc);
    MulSucc(|run| + 1, bc);
  }

  /** Adding the next value to the current long and shifting it up does not wrap. */
  lemma HfShiftedWord(run: seq<nat>, v: nat, bc: nat, l: int, m: nat)
    requires 1 <= bc && v < Pow2(bc) && FieldsBelow(run, Pow2(bc))
    requires l == WordHF(run, bc) * Pow2(bc)
    requires m == |run| * bc + bc && bc <= m && m + bc <= 64
    ensures ShlLong(l + v, bc) == WordHF(run + [v], bc) * Pow2(bc)
  {
    var w := WordHF(run + [v], bc);
    assert l + v == w && w < Pow2(m) by {
      HfAppendBound(run, v, bc, m);
    }
    assert bc < 64;
    ShlNoWrap(l + v, m, bc);
  }

  /** A value that leaves room for another is added and the long shifted up. */
  lemma HfShift(vs: seq<nat>, bc: nat, i: int, longs: seq<int>, idx: int, bitsTaken: int, l: int, v: nat)
    requires HfState(vs, bc, i, longs, idx, bitsTaken, l) && i < |vs| && v == vs[i] && FieldsBelow(vs, Pow2(bc))
    requires bitsTaken + bc + bc <= 64
    ensures HfState(vs, bc, i + 1, longs, idx + 1, bitsTaken + bc, ShlLong(l + v, bc))
  {
    var g := PerLongHF(bc);
    assert idx + 1 < g && bitsTaken + bc == (idx + 1) * bc by {
      FlushAt(bc, idx, bitsTaken);
      MulSucc(idx + 1, bc);
    }
    var run := vs[i - idx..i];
    HfShiftedWord(run, v, bc, l, bitsTaken + bc);
    assert vs[(i + 1) - (idx + 1)..i + 1] == run + [v];
  }

  /** n values in runs of g fill nl longs and a partial one of idx values. */
  lemma CeilRuns(n: nat, g: nat, nl: nat, idx: nat)
    requires g >= 1 && idx < g && n == nl * g + idx
    ensures CeilDiv(n, g) == if idx == 0 then nl else nl + 1
  {
    if idx == 0 {
      DivModUnique(nl, g - 1, g);
    } else {
      MulSucc(nl + 1, g);
      DivModUnique(nl + 1, idx - 1, g);
    }
  }

  /** Long k of the flushed output is long k of the HF packing. */
  lemma HfDoneAt(vs: seq<nat>, bc: nat, longs: seq<int>, idx: int, bitsTaken: int, l: int, k: nat)
    requires HfState(vs, bc, |vs|, longs, idx, bitsTaken, l)
    requires k < |longs| || (k == |longs| && idx > 0)
    ensures var g := PerLongHF(bc);
      k < CeilDiv(|vs|, g) && (if k < |longs| then longs[k] else l) == HfLong(Run(vs, g, k), bc, g)
  {
    var g := PerLongHF(bc);
    CeilRuns(|vs|, g, |longs|, idx);
    if k == |longs| {
      assert Run(vs, g, k) == vs[|vs| - idx..|vs|];
    }
  }

  /** At the end, flushing a partly filled long gives the HF packing. */
  lemma HfDone(vs: seq<nat>, bc: nat, longs: seq<int>, idx: int, bitsTaken: int, l: int)
    requires HfState(vs, bc, |vs|, longs, idx, bitsTaken, l)
    ensures var out := if bitsTaken > 0 then longs + [l] else longs;
      out == PackHF(vs, bc)
  {
    var g := PerLongHF(bc);
    var n := |vs|;
    var nl := |longs|;
    var out := if bitsTaken > 0 then longs + [l] else longs;
    var packed := PackHF(vs, bc);
    assert bitsTaken > 0 <==> idx > 0 by {
      if idx > 0 {
        MulLe(1, idx, bc);
      }
    }
    assert |out| == |packed| by {
      CeilRuns(n, g, nl, idx);
    }
    forall k | 0 <= k < |out|
      ensures out[k] == packed[k]
    {
      HfDoneAt(vs, bc, longs, idx, bitsTaken, l, k);
    }
  }

  /** `makePackedLongArrHF`: each Int masked to bitCount bits, packed `PerLongHF(bitCount)` to a
      long with the earliest value highest; a partly filled last long is flushed too. Bit counts
      come from the non-negative `getBitCount`. */
  method MakePackedLongArrHF(ints: seq<int>, bitCount: int) returns (longs: seq<int>)
    requires bitCount >= 0
    ensures longs == PackHF(IntFields(ints, bitCount), bitCount)
  {
    longs := [];
    var l := 0;
    var bitsTaken := 0;
    if bitCount == 0 {
      // A zero-width value never fills a long, so nothing is ever flushed.
      return;
    }
    ghost var vs := IntFields(ints, bitCount);
    ghost var idx := 0;
    Pow2Monotone(bitCount % 32, bitCount);
    assert FieldsBelow(vs, Pow2(bitCount));
    assert vs[0..0] == [];
    for i := 0 to |ints|
      invariant HfState(vs, bitCount, i, longs, idx, bitsTaken, l)
    {
      HfOrIsSum(vs, bitCount, i, longs, idx, bitsTaken, l);
      ghost var longs0, idx0, bitsTaken0, l0 := longs, idx, bitsTaken, l;
      var v := LowBits(ints[i], bitCount);
      assert v == vs[i];
      l := l + v;
      bitsTaken := bitsTaken + bitCount;
      if bitsTaken + bitCount > 64 {
        longs := longs + [l];
        l := 0;
        bitsTaken := 0;
        idx := 0;
        HfFlush(vs, bitCount, i, longs0, idx0, bitsTaken0, l0, v);
      } else {
        l := ShlLong(l, bitCount);
        idx := idx + 1;
        HfShift(vs, bitCount, i, longs0, idx0, bitsTaken0, l0, v);
      }
    }
    HfDone(vs, bitCount, longs, idx, bitsTaken, l);
    if bitsTaken > 0 {
      longs := longs + [l];
    }
  }

  /** In a full HF long, value j of the run is found `(g - 1 - j) * bitCount` bits up. */
  lemma PackHFField(vs: seq<nat>, bc: nat, k: nat, j: nat)
    requires bc >= 1 && FieldsBelow(vs, Pow2(bc))
    requires j < PerLongHF(bc) && (k + 1) * PerLongHF(bc) <= |vs|
    ensures var g := PerLongHF(bc); var longs := PackHF(vs, bc);
      k < |longs| && (longs[k] / Pow2((g - 1 - j) * bc)) % Pow2(bc) == vs[k * g + j]
  {
    var g := PerLongHF(bc);
    var longs := PackHF(vs, bc);
    var run := Run(vs, g, k);
    var start := k * g;
    assert start + g <= |vs| by {
      MulSucc(k + 1, g);
    }
    assert k < |longs| by {
      CeilAbove(|vs|, g, k);
    }
    assert run == vs[start..start + g];
    assert longs[k] == WordHF(run, bc);
    assert run[j] == vs[k * g + j];
    FieldsBelowRun(vs, Pow2(bc), g, k);
    WordHFField(run, bc, j);
  }
}
