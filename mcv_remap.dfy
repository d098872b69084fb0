/** The per-chunk palette of the Mcv format (`mcvRemapChunkBlockIds` and the bit length written by
    `putMcvChunk` in Mcv.kt): the distinct global ids of a chunk in first-occurrence order, and each
    block's position in that list. */
module McvRemap {
  import opened Vec
  import opened Bytes

  predicate NoDup<T(==)>(s: seq<T>) {
    forall i, j :: 0 <= i < j < |s| ==> s[i] != s[j]
  }

  /** The distinct values of s, each kept at its first occurrence. */
  function Distinct(s: seq<Short>): (d: seq<Short>)
    ensures NoDup(d)
    ensures forall x :: x in d <==> x in s
    ensures |d| <= |s|
    decreases |s|
  {
    if |s| == 0 then []
    else
      var init := s[..|s| - 1];
      assert forall x :: x in s <==> x in init || x == s[|s| - 1];
      var d := Distinct(init);
      if s[|s| - 1] in d then d else d + [s[|s| - 1]]
  }

  /** The first position of v in s. */
  function IndexOf(s: seq<Short>, v: Short): (k: nat)
    requires v in s
    ensures k < |s| && s[k] == v
    ensures forall j :: 0 <= j < k ==> s[j] != v
  {
    if s[0] == v then 0 else 1 + IndexOf(s[1..], v)
  }

  /** In a list without duplicates, the value at k is found at k. */
  lemma IndexOfNoDup(s: seq<Short>, k: nat)
    requires NoDup(s) && k < |s|
    ensures IndexOf(s, s[k]) == k
  {
  }

  /** Appending a new value leaves the positions of the old ones alone. */
  lemma IndexOfAppend(s: seq<Short>, x: Short, v: Short)
    requires v in s || v == x
    ensures v in s ==> IndexOf(s + [x], v) == IndexOf(s, v)
    ensures v !in s ==> IndexOf(s + [x], v) == |s|
  {
    var k := IndexOf(s + [x], v);
    if v in s {
      var k0 := IndexOf(s, v);
      assert (s + [x])[k0] == v;
    }
  }

  /** Each block's local id: its position in the chunk's list of distinct ids, as a Short. */
  function LocalIds(blocks: seq<Short>): (r: seq<Short>)
    ensures |r| == |blocks|
  {
    var l2g := Distinct(blocks);
    seq(|blocks|, i requires 0 <= i < |blocks| => ToShort(IndexOf(l2g, blocks[i])))
  }

  /** The two maps agree: the keys are the listed ids and each maps to its position. */
  ghost predicate MapMatches(l2g: seq<Short>, g2l: map<Short, Short>) {
    (forall v :: v in g2l <==> v in l2g)
    && (forall v :: v in g2l ==> v in l2g && g2l[v] == ToShort(IndexOf(l2g, v)))
  }

  /** The first idx blocks are listed and were given their positions. */
  ghost predicate DoneMatches(blocks: seq<Short>, idx: int, l2g: seq<Short>, done: seq<Short>) {
    0 <= idx <= |blocks| && |done| == idx
    && (forall j :: 0 <= j < idx ==> blocks[j] in l2g && done[j] == ToShort(IndexOf(l2g, blocks[j])))
  }

  /** The state of the remap loop after idx blocks. */
  ghost predicate RemapInv(blocks: seq<Short>, idx: int, l2g: seq<Short>, g2l: map<Short, Short>, done: seq<Short>) {
    DoneMatches(blocks, idx, l2g, done) && l2g == Distinct(blocks[..idx]) && MapMatches(l2g, g2l)
  }

  /** The distinct ids of one more block. */
  lemma DistinctStep(blocks: seq<Short>, idx: int)
    requires 0 <= idx < |blocks|
    ensures var d := Distinct(blocks[..idx]);
      Distinct(blocks[..idx + 1]) == if blocks[idx] in d then d else d + [blocks[idx]]
  {
    assert blocks[..idx + 1][..idx] == blocks[..idx];
  }

  lemma MapMatchesNew(l2g: seq<Short>, g2l: map<Short, Short>, value: Short)
    requires MapMatches(l2g, g2l) && value !in l2g
    ensures MapMatches(l2g + [value], g2l[value := ToShort(|l2g|)])
  {
    forall w | w in l2g || w == value {
      IndexOfAppend(l2g, value, w);
    }
  }

  lemma DoneMatchesNew(blocks: seq<Short>, idx: int, l2g: seq<Short>, done: seq<Short>)
    requires DoneMatches(blocks, idx, l2g, done) && idx < |blocks| && blocks[idx] !in l2g
    ensures DoneMatches(blocks, idx + 1, l2g + [blocks[idx]], done + [ToShort(|l2g|)])
  {
    var value := blocks[idx];
    var l2g1, done1 := l2g + [value], done + [ToShort(|l2g|)];
    forall j | 0 <= j < idx + 1
      ensures blocks[j] in l2g1 && done1[j] == ToShort(IndexOf(l2g1, blocks[j]))
    {
      if j < idx {
        assert done1[j] == done[j] && blocks[j] in l2g;
        IndexOfAppend(l2g, value, blocks[j]);
      } else {
        IndexOfAppend(l2g, value, value);
      }
    }
  }

  lemma DoneMatchesSeen(blocks: seq<Short>, idx: int, l2g: seq<Short>, m: Short, done: seq<Short>)
    requires DoneMatches(blocks, idx, l2g, done) && idx < |blocks| && blocks[idx] in l2g
    requires m == ToShort(IndexOf(l2g, blocks[idx]))
    ensures DoneMatches(blocks, idx + 1, l2g, done + [m])
  {
  }

  /** A block already mapped reuses its local id. */
  lemma RemapSeen(blocks: seq<Short>, idx: int, l2g: seq<Short>, g2l: map<Short, Short>, done: seq<Short>)
    requires RemapInv(blocks, idx, l2g, g2l, done) && idx < |blocks| && blocks[idx] in g2l
    ensures RemapInv(blocks, idx + 1, l2g, g2l, done + [g2l[blocks[idx]]])
  {
    DistinctStep(blocks, idx);
    DoneMatchesSeen(blocks, idx, l2g, g2l[blocks[idx]], done);
  }

  /** A block not yet mapped gets the next local id and joins the list. */
  lemma RemapNew(blocks: seq<Short>, idx: int, l2g: seq<Short>, g2l: map<Short, Short>, done: seq<Short>)
    requires RemapInv(blocks, idx, l2g, g2l, done) && idx < |blocks| && blocks[idx] !in g2l
    ensures var v := ToShort(|l2g|);
      RemapInv(blocks, idx + 1, l2g + [blocks[idx]], g2l[blocks[idx] := v], done + [v])
  {
    DistinctStep(blocks, idx);
    MapMatchesNew(l2g, g2l, blocks[idx]);
    DoneMatchesNew(blocks, idx, l2g, done);
  }

  /** After the last block the loop state is the specification. */
  lemma RemapEnd(blocks: seq<Short>, l2g: seq<Short>, g2l: map<Short, Short>, done: seq<Short>)
    requires RemapInv(blocks, |blocks|, l2g, g2l, done)
    ensures l2g == Distinct(blocks) && done == LocalIds(blocks)
  {
    assert blocks[..|blocks|] == blocks;
  }

  /** The lookup of one block: its existing local id, or (the `?: run` branch) the next free one,
      recorded in both directions. */
  method LocalMapping(blocks: seq<Short>, idx: int, l2g: seq<Short>, g2l: map<Short, Short>, ghost done: seq<Short>)
    returns (l2g1: seq<Short>, g2l1: map<Short, Short>, m: Short)
    requires RemapInv(blocks, idx, l2g, g2l, done) && idx < |blocks|
    ensures RemapInv(blocks, idx + 1, l2g1, g2l1, done + [m])
  {
    var value := blocks[idx];
    if value in g2l {
      RemapSeen(blocks, idx, l2g, g2l, done);
      return l2g, g2l, g2l[value];
    }
    m := ToShort(|l2g|);
    RemapNew(blocks, idx, l2g, g2l, done);
    l2g1 := l2g + [value];
    g2l1 := g2l[value := m];
  }

  /** `mcvRemapChunkBlockIds`: a first-seen map from global to local ids and the list back. */
  method RemapChunkBlockIds(blocks: seq<Short>) returns (l2g: seq<Short>, remapped: seq<Short>)
    ensures l2g == Distinct(blocks) && remapped == LocalIds(blocks)
  {
    var globalToLocal: map<Short, Short> := map[];
    l2g := [];
    var out := new Short[|blocks|](_ => 0);
    ghost var done: seq<Short> := [];
    var idx := 0;
    while idx < |blocks|
      invariant RemapInv(blocks, idx, l2g, globalToLocal, done) && out[..idx] == done
    {
      var localMapping;
      l2g, globalToLocal, localMapping := LocalMapping(blocks, idx, l2g, globalToLocal, done);
      out[idx] := localMapping;
      done := done + [localMapping];
      idx := idx + 1;
    }
    RemapEnd(blocks, l2g, globalToLocal, done);
    remapped := out[..];
  }

  /** A local id below 2^15 is kept as is; one below 2^16 is kept in its low 16 bits. */
  lemma ToShortOfLocal(k: nat)
    requires k < TWO_16
    ensures k < 0x8000 ==> ToShort(k) == k
    ensures ToShort(k) % TWO_16 == k
  {
    if k >= 0x8000 {
      ModAddMul(k, -1, TWO_16);
    }
  }

  // ---------------------------------------------------------------------------
  // The bit length of a chunk's local ids

  /** The number of bits of v's binary representation. */
  function BitWidth(v: nat): (w: nat)
    ensures v < Pow2(w)
    ensures v > 0 ==> w >= 1 && Pow2(w - 1) <= v
  {
    if v == 0 then 0 else 1 + BitWidth(v / 2)
  }

  /** `(maxVal.takeHighestOneBit() shl 1).countTrailingZeroBits()` on an Int: for a positive value
      the highest one bit moved up one place has as many trailing zeros as the value has bits (at
      31 bits the shifted bit is the sign bit, still 31 trailing zeros); for zero or a negative value
      the shifted word is 0, which has 32. */
  function ChunkBitLength(maxVal: int): (bl: int)
    requires maxVal <= INT_MAX
    ensures maxVal <= 0 ==> bl == 32
    ensures maxVal > 0 ==> 1 <= bl <= 31 && maxVal < Pow2(bl) && Pow2(bl - 1) <= maxVal
  {
    if maxVal <= 0 then 32 else BitWidthBelow(maxVal); BitWidth(maxVal)
  }

  lemma BitWidthBelow(v: nat)
    requires 0 < v <= INT_MAX
    ensures BitWidth(v) <= 31
  {
    var w := BitWidth(v);
    if w > 31 {
      Pow2Monotone(31, w - 1);
      Pow2Widths();
      assert false;
    }
  }

  // ---------------------------------------------------------------------------
  // How many distinct Shorts there are

  /** A subset has at most as many elements. */
  lemma {:induction false} SubsetCard<T>(a: set<T>, b: set<T>)
    requires a <= b
    ensures |a| <= |b|
    decreases |a|
  {
    if a != {} {
      var e :| e in a;
      SubsetCard(a - {e}, b - {e});
    }
  }

  function Elems<T>(s: seq<T>): set<T> {
    set x | x in s
  }

  /** A list without duplicates has as many elements as its set. */
  lemma {:induction false} NoDupCard<T>(s: seq<T>)
    requires NoDup(s)
    ensures |Elems(s)| == |s|
    decreases |s|
  {
    if |s| > 0 {
      var init := s[..|s| - 1];
      assert NoDup(init);
      NoDupCard(init);
      assert s[|s| - 1] !in Elems(init);
      assert Elems(s) == Elems(init) + {s[|s| - 1]};
    } else {
      assert Elems(s) == {};
    }
  }

  /** A list without duplicate Shorts has at most 2^16 entries, so a chunk has at most 2^16 local ids. */
  lemma DistinctShortsBound(s: seq<Short>)
    requires NoDup(s)
    ensures |s| <= TWO_16
  {
    var all: seq<Short> := seq(TWO_16, i requires 0 <= i < TWO_16 => i - 0x8000);
    assert NoDup(all);
    NoDupCard(s);
    NoDupCard(all);
    forall x | x in Elems(s) ensures x in Elems(all) {
      assert all[x + 0x8000] == x;
    }
    SubsetCard(Elems(s), Elems(all));
  }
}
