/** `VolBlockState`: a palette entry (owner stamp, 16-bit palette id, block state), and what the
    two palette implementations share: the Short conversion of ids, the unlinked-mappings
    format and the table `populateFromUnlinkedMappings` builds from it. */
module VolBlocks {
  import opened Wrappers
  import opened BlockStates

  /** `parentVolUuid` is the uuid of the volume the entry belongs to. */
  datatype VolBlockState = VolBlockState(parentVolUuid: int, paletteId: int, state: BlockState)

  const DEFAULT_BLOCK_ID: int := 0

  /** The stamp of an entry built from unlinked mappings, before `link` restamps it. Volume
      uuids come from a counter starting at 0, so no volume carries it. */
  const UNLINKED_UUID: int := -1

  predicate IsShort(n: int) { -0x8000 <= n < 0x8000 }

  /** `Int.toShort()`: the low 16 bits, read as two's complement. */
  function ToShort(n: int): (s: int)
    ensures IsShort(s)
    ensures (s - n) % 0x1_0000 == 0
  {
    (n + 0x8000) % 0x1_0000 - 0x8000
  }

  lemma ToShortOfShort(n: int)
    requires IsShort(n)
    ensures ToShort(n) == n
  {
  }

  function NewUnlinked(id: int, state: BlockState): VolBlockState {
    VolBlockState(UNLINKED_UUID, id, state)
  }

  function Stamp(e: VolBlockState, uuid: int): VolBlockState {
    e.(parentVolUuid := uuid)
  }

  /** `HashMap<BlockPaletteId, BlockState>`: the mappings format; its keys are Shorts. */
  predicate ShortKeys(m: map<int, BlockState>) {
    forall k | k in m :: IsShort(k)
  }

  /** Some entry's state has the state string of bs (the `==` of `BlockState`). */
  predicate HasState(es: seq<VolBlockState>, bs: BlockState) {
    exists i :: 0 <= i < |es| && StateStr(es[i].state) == StateStr(bs)
  }

  /** Entry i carries id i, truncated to a Short as `size.toShort()` does. */
  predicate DenseIds(es: seq<VolBlockState>) {
    forall i :: 0 <= i < |es| ==> es[i].paletteId == ToShort(i)
  }

  predicate StampedWith(es: seq<VolBlockState>, uuid: int) {
    forall i :: 0 <= i < |es| ==> es[i].parentVolUuid == uuid
  }

  /** While the palette has at most 2^15 entries, the truncation changes nothing. */
  lemma DenseIdsExact(es: seq<VolBlockState>, i: int)
    requires DenseIds(es) && 0 <= i < |es| <= 0x8000
    ensures es[i].paletteId == i
  {
  }

  /** The largest key of non-empty mappings (`maxOf { it.key }`). */
  ghost function MaxKey(m: map<int, BlockState>): (k: int)
    requires |m| > 0
    ensures k in m && forall j | j in m :: j <= k
  {
    MaxKeyExists(m);
    var k :| k in m && forall j | j in m :: j <= k; k
  }

  lemma MaxKeyExists(m: map<int, BlockState>)
    requires |m| > 0
    ensures exists k :: k in m && forall j | j in m :: j <= k
    decreases |m|
  {
    if forall k :: k !in m {
      assert false;
    }
    var k :| k in m;
    var rest := m - {k};
    assert |rest| == |m| - 1;
    if |m| > 1 {
      MaxKeyExists(rest);
      var k' :| k' in rest && forall j | j in rest :: j <= k';
      var top := if k <= k' then k' else k;
      forall j | j in m ensures j <= top {
        if j != k {
          assert j in rest;
        }
      }
      assert top in m;
    } else {
      assert rest == map[];
      assert forall j | j in m :: j in rest || j == k;
    }
  }

  /** `populateFromUnlinkedMappings`, as a table: empty mappings are rejected, an id in
      `0..max` without a mapping is an invalid palette, and otherwise entry i is the unlinked
      entry for mapping i (no entries at all when every key is negative). */
  ghost function Populated(m: map<int, BlockState>): (r: Result<seq<VolBlockState>>)
    requires ShortKeys(m)
    ensures r.Ok? ==> DenseIds(r.value) && StampedWith(r.value, UNLINKED_UUID)
    ensures r.Ok? ==> forall i :: 0 <= i < |r.value| ==> i in m && r.value[i].state == m[i]
  {
    if |m| == 0 then Err(InvalidConfiguration)
    else
      var maxId := MaxKey(m);
      if forall i | 0 <= i <= maxId :: i in m then
        if maxId < 0 then Ok([])
        else Ok(seq(maxId + 1, i requires 0 <= i <= maxId => NewUnlinked(i, m[i])))
      else Err(InvalidPalette)
  }

  /** A table with the unlinked entry for every id 0..max of the mappings is what population
      builds. */
  lemma PopulatedComplete(m: map<int, BlockState>, maxId: int, es: seq<VolBlockState>)
    requires ShortKeys(m) && |m| > 0 && maxId == MaxKey(m)
    requires |es| == if maxId < 0 then 0 else maxId + 1
    requires forall j :: 0 <= j < |es| ==> j in m && es[j] == NewUnlinked(j, m[j])
    ensures Populated(m) == Ok(es) && DenseIds(es)
  {
    forall j | 0 <= j < |es| ensures es[j].paletteId == ToShort(j) {
      ToShortOfShort(j);
    }
    assert forall i | 0 <= i <= maxId :: i in m;
    if maxId >= 0 {
      var t := seq(maxId + 1, i requires 0 <= i <= maxId => NewUnlinked(i, m[i]));
      assert t == es;
    }
  }

  /** An id in 0..max without a mapping makes population fail. */
  lemma PopulatedMissing(m: map<int, BlockState>, id: int)
    requires ShortKeys(m) && |m| > 0 && 0 <= id <= MaxKey(m) && id !in m
    ensures Populated(m) == Err(InvalidPalette)
  {
  }

  /** `toUnlinkedBlockStateMappings`: each entry's id mapped to its state; a later entry
      overwrites an earlier one with the same id. */
  function MappingsOf(es: seq<VolBlockState>): map<int, BlockState> {
    if |es| == 0 then map[]
    else
      var last := es[|es| - 1];
      MappingsOf(es[..|es| - 1])[last.paletteId := last.state]
  }

  /** On a dense palette of at most 2^15 entries the mappings are exactly ids 0..size-1 with
      their states. */
  lemma {:induction false} MappingsOfDense(es: seq<VolBlockState>)
    requires DenseIds(es) && |es| <= 0x8000
    ensures forall k :: k in MappingsOf(es) <==> 0 <= k < |es|
    ensures forall i :: 0 <= i < |es| ==> MappingsOf(es)[i] == es[i].state
  {
    if |es| > 0 {
      var n := |es| - 1;
      var init := es[..n];
      assert DenseIds(init) by {
        forall i | 0 <= i < |init| ensures init[i].paletteId == ToShort(i) {
          assert init[i] == es[i];
        }
      }
      MappingsOfDense(init);
      var m0 := MappingsOf(init);
      assert es[n].paletteId == n by {
        ToShortOfShort(n);
      }
      assert MappingsOf(es) == m0[n := es[n].state];
      forall i | 0 <= i < n ensures MappingsOf(es)[i] == es[i].state {
        assert init[i] == es[i];
      }
    }
  }

  /** Round trip: populating from a dense palette's mappings rebuilds the same id→state table,
      with every entry unlinked again. */
  lemma PopulateOfMappings(es: seq<VolBlockState>)
    requires DenseIds(es) && 0 < |es| <= 0x8000
    ensures ShortKeys(MappingsOf(es)) && Populated(MappingsOf(es)).Ok?
    ensures Populated(MappingsOf(es)).value == seq(|es|, i requires 0 <= i < |es| => NewUnlinked(i, es[i].state))
  {
    var m := MappingsOf(es);
    MappingsOfDense(es);
    assert |es| - 1 in m;
    var maxId := MaxKey(m);
    assert maxId == |es| - 1;
    assert forall i | 0 <= i <= maxId :: i in m;
  }

  /** And the other way: the mappings of a populated table are the mappings it came from,
      less any negative ids, which population skips. */
  lemma MappingsOfPopulated(m: map<int, BlockState>)
    requires ShortKeys(m) && Populated(m).Ok?
    ensures MappingsOf(Populated(m).value) == map k | k in m && 0 <= k :: m[k]
  {
    var es := Populated(m).value;
    MappingsOfDense(es);
    var maxId := MaxKey(m);
    forall k ensures k in MappingsOf(es) <==> k in m && 0 <= k {
      if k in m && 0 <= k {
        assert k <= maxId;
      }
    }
  }
}
