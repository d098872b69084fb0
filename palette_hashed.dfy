/** `HashedBlockPalette`: palette entries in id order, plus a hash index from block state to
    entry, and the link to the volume that owns the entries. */
module HashedPalettes {
  import opened Wrappers
  import opened BlockStates
  import opened VolBlocks

  /** `hashPalette` with each value held as its position in the entry list (the map and the list
      share the entry objects). A key is a state string, since `BlockState` hashes and compares
      by it; a later entry with the same string overwrites an earlier one, as `putAll` does. */
  function HashIndex(es: seq<VolBlockState>): map<string, int> {
    if |es| == 0 then map[]
    else HashIndex(es[..|es| - 1])[StateStr(es[|es| - 1].state) := |es| - 1]
  }

  /** The index holds exactly the state strings of the entries, each at its last entry. */
  lemma HashIndexMeaning(es: seq<VolBlockState>, k: string)
    ensures k in HashIndex(es) <==> exists i :: 0 <= i < |es| && StateStr(es[i].state) == k
    ensures k in HashIndex(es) ==>
      0 <= HashIndex(es)[k] < |es| && StateStr(es[HashIndex(es)[k]].state) == k
      && forall j :: HashIndex(es)[k] < j < |es| ==> StateStr(es[j].state) != k
  {
    HashIndexKeys(es, k);
    if k in HashIndex(es) {
      HashIndexLast(es, k);
    }
  }

  /** Appending an entry indexes its state string at the new position and moves no other key. */
  lemma HashIndexAppend(es: seq<VolBlockState>, e: VolBlockState)
    ensures HashIndex(es + [e]) == HashIndex(es)[StateStr(e.state) := |es|]
  {
    assert (es + [e])[..|es|] == es;
  }

  lemma {:induction false} HashIndexKeys(es: seq<VolBlockState>, k: string)
    ensures k in HashIndex(es) <==> exists i :: 0 <= i < |es| && StateStr(es[i].state) == k
  {
    if |es| > 0 {
      var n := |es| - 1;
      var init := es[..n];
      HashIndexKeys(init, k);
      assert HashIndex(es) == HashIndex(init)[StateStr(es[n].state) := n];
      if k != StateStr(es[n].state) && exists i :: 0 <= i < |es| && StateStr(es[i].state) == k {
        var i :| 0 <= i < |es| && StateStr(es[i].state) == k;
        assert init[i] == es[i];
      }
    }
  }

  lemma {:induction false} HashIndexLast(es: seq<VolBlockState>, k: string)
    requires k in HashIndex(es)
    ensures 0 <= HashIndex(es)[k] < |es| && StateStr(es[HashIndex(es)[k]].state) == k
    ensures forall j :: HashIndex(es)[k] < j < |es| ==> StateStr(es[j].state) != k
  {
    var n := |es| - 1;
    var init := es[..n];
    assert HashIndex(es) == HashIndex(init)[StateStr(es[n].state) := n];
    if k != StateStr(es[n].state) {
      HashIndexLast(init, k);
      var h := HashIndex(init)[k];
      assert init[h] == es[h];
      forall j | h < j < |es| ensures StateStr(es[j].state) != k {
        if j < n {
          assert init[j] == es[j];
        }
      }
    }
  }

  /** The index depends only on the states, not on the stamps `link` rewrites. */
  lemma {:induction false} HashIndexOfStates(es: seq<VolBlockState>, fs: seq<VolBlockState>)
    requires |es| == |fs| && forall i :: 0 <= i < |es| ==> es[i].state == fs[i].state
    ensures HashIndex(es) == HashIndex(fs)
  {
    if |es| > 0 {
      var n := |es| - 1;
      HashIndexOfStates(es[..n], fs[..n]);
    }
  }

  /** No two entries share a state string. */
  predicate DistinctStates(es: seq<VolBlockState>) {
    forall i, j :: 0 <= i < j < |es| ==> StateStr(es[i].state) != StateStr(es[j].state)
  }

  /** For distinct states, the index sends each entry's state to that entry: the
      `hashPalette[idToVolBlockState[i].state] == idToVolBlockState[i]` invariant. */
  lemma HashIndexOfDistinct(es: seq<VolBlockState>, i: int)
    requires DistinctStates(es) && 0 <= i < |es|
    ensures StateStr(es[i].state) in HashIndex(es) && HashIndex(es)[StateStr(es[i].state)] == i
  {
    HashIndexMeaning(es, StateStr(es[i].state));
  }

  class HashedBlockPalette {
    /** `linkedVolume`, by the uuid of the linked volume. */
    var linked: Option<int>
    /** `idToVolBlockState`. */
    var entries: seq<VolBlockState>
    var hashPalette: map<string, int>

    /** Ids are dense, the hash index matches the list, and a linked palette's entries all
        carry the linked volume's uuid. */
    ghost predicate Valid()
      reads this
    {
      DenseIds(entries) && hashPalette == HashIndex(entries)
      && (linked.Some? ==> StampedWith(entries, linked.value))
    }

    constructor ()
      ensures linked == None && entries == [] && Valid()
    {
      linked := None;
      entries := [];
      hashPalette := map[];
    }

    function Size(): nat
      reads this
    {
      |entries|
    }

    /** Entry 0; only a linked palette answers. */
    method GetDefaultBlock() returns (r: Result<VolBlockState>)
      ensures linked.None? ==> r == Err(NotLinked)
      ensures linked.Some? && |entries| == 0 ==> r == Err(IndexOutOfRange)
      ensures linked.Some? && |entries| > 0 ==> r == Ok(entries[0])
    {
      if linked.None? {
        return Err(NotLinked);
      }
      if |entries| == 0 {
        return Err(IndexOutOfRange);
      }
      r := Ok(entries[0]);
    }

    /** Looks a state up without inserting it: found iff some entry has an equal state. */
    method GetBlock(bs: BlockState) returns (r: Result<Option<VolBlockState>>)
      requires Valid()
      ensures r.Err? <==> linked.None?
      ensures r.Err? ==> r.error == NotLinked
      ensures r.Ok? ==> (r.value.Some? <==> HasState(entries, bs))
      ensures r.Ok? && r.value.Some? ==>
        r.value.value in entries && StateStr(r.value.value.state) == StateStr(bs)
    {
      if linked.None? {
        return Err(NotLinked);
      }
      var k := StateStr(bs);
      HashIndexMeaning(entries, k);
      if k in hashPalette {
        r := Ok(Some(entries[hashPalette[k]]));
      } else {
        r := Ok(None);
      }
    }

    /** Returns the entry for an equal state if there is one; otherwise appends a new entry
        whose id is the old size (as a Short), stamped with the linked volume's uuid. */
    method GetOrAddBlock(bs: BlockState) returns (r: Result<VolBlockState>)
      requires Valid()
      modifies this
      ensures Valid() && linked == old(linked)
      ensures r.Err? <==> linked.None?
      ensures r.Err? ==> r.error == NotLinked && entries == old(entries)
      ensures r.Ok? ==> StateStr(r.value.state) == StateStr(bs) && r.value.parentVolUuid == linked.value
      ensures r.Ok? && old(HasState(entries, bs)) ==> entries == old(entries) && r.value in entries
      ensures r.Ok? && !old(HasState(entries, bs)) ==>
        r.value == VolBlockState(linked.value, ToShort(old(|entries|)), bs)
        && entries == old(entries) + [r.value]
      ensures DistinctStates(old(entries)) ==> DistinctStates(entries)
      ensures r.Ok? ==> (StateStr(bs) in hashPalette && 0 <= hashPalette[StateStr(bs)] < |entries|
        && r.value == entries[hashPalette[StateStr(bs)]])
    {
      if linked.None? {
        return Err(NotLinked);
      }
      var k := StateStr(bs);
      HashIndexMeaning(entries, k);
      if k in hashPalette {
        return Ok(entries[hashPalette[k]]);
      }
      r := AddBlock(bs);
    }

    /** `addBlock`: appends an entry for bs under the next id and indexes it. */
    method AddBlock(bs: BlockState) returns (r: Result<VolBlockState>)
      requires Valid()
      modifies this
      ensures Valid() && linked == old(linked)
      ensures linked.None? ==> r == Err(NotLinked) && entries == old(entries)
      ensures linked.Some? ==>
        r == Ok(VolBlockState(linked.value, ToShort(old(|entries|)), bs))
        && entries == old(entries) + [r.value]
      ensures DistinctStates(old(entries)) && !old(HasState(entries, bs)) ==> DistinctStates(entries)
    {
      if linked.None? {
        return Err(NotLinked);
      }
      var e := VolBlockState(linked.value, ToShort(|entries|), bs);
      entries := entries + [e];
      hashPalette := hashPalette[StateStr(bs) := |entries| - 1];
      assert entries[..|entries| - 1] == old(entries);
      r := Ok(e);
    }

    /** Indexes the list by id; a negative id or one past the end is out of range. A Short id
        finds the entry that carries it. */
    method GetFromId(id: int) returns (r: Result<VolBlockState>)
      requires Valid()
      ensures linked.None? ==> r == Err(NotLinked)
      ensures linked.Some? && !(0 <= id < |entries|) ==> r == Err(IndexOutOfRange)
      ensures linked.Some? && 0 <= id < |entries| ==> r == Ok(entries[id])
      ensures r.Ok? && IsShort(id) ==> r.value.paletteId == id
    {
      if linked.None? {
        return Err(NotLinked);
      }
      if !(0 <= id < |entries|) {
        return Err(IndexOutOfRange);
      }
      r := Ok(entries[id]);
      if IsShort(id) {
        ToShortOfShort(id);
      }
    }

    /** `link`: refused if already linked; otherwise every entry is stamped with the volume's
        uuid and the palette remembers the volume. */
    method Link(uuid: int) returns (r: Outcome)
      requires Valid()
      modifies this
      ensures Valid()
      ensures old(linked).Some? ==> r == Fail(AlreadyLinked) && entries == old(entries) && linked == old(linked)
      ensures old(linked).None? ==>
        r == Pass && linked == Some(uuid) && |entries| == old(|entries|)
        && forall i :: 0 <= i < |entries| ==> entries[i] == Stamp(old(entries[i]), uuid)
    {
      if linked.Some? {
        return Fail(AlreadyLinked);
      }
      var i := 0;
      while i < |entries|
        invariant 0 <= i <= |entries| == old(|entries|) && linked == old(linked)
        invariant hashPalette == old(hashPalette)
        invariant forall j :: 0 <= j < i ==> entries[j] == Stamp(old(entries[j]), uuid)
        invariant forall j :: i <= j < |entries| ==> entries[j] == old(entries[j])
      {
        entries := entries[i := Stamp(entries[i], uuid)];
        i := i + 1;
      }
      HashIndexOfStates(old(entries), entries);
      linked := Some(uuid);
      r := Pass;
    }

    /** `populateFromUnlinkedMappings`: refused on a linked palette and on empty mappings;
        otherwise the list is rebuilt for ids 0..max. A missing id throws after the list has
        been partly rebuilt, with the hash index left as it was. */
    method Populate(m: map<int, BlockState>) returns (r: Outcome)
      requires ShortKeys(m)
      modifies this
      ensures linked == old(linked)
      ensures old(linked).Some? ==> r == Fail(AlreadyLinked) && entries == old(entries)
      ensures old(linked).None? ==> (r.Pass? <==> Populated(m).Ok?)
      ensures old(linked).None? && r.Fail? ==> r.error == Populated(m).error
      ensures r.Pass? ==> entries == Populated(m).value && Valid()
      ensures r == Fail(InvalidPalette) ==>
        hashPalette == old(hashPalette) && |entries| !in m
        && forall i :: 0 <= i < |entries| ==> i in m && entries[i] == NewUnlinked(i, m[i])
      ensures r == Fail(InvalidConfiguration) ==> entries == old(entries)
    {
      if linked.Some? {
        return Fail(AlreadyLinked);
      }
      if |m| == 0 {
        return Fail(InvalidConfiguration);
      }
      entries := [];
      MaxKeyExists(m);
      var maxId :| maxId in m && forall j | j in m :: j <= maxId;
      assert maxId == MaxKey(m);
      var idi := 0;
      while idi <= maxId
        invariant 0 <= idi && (maxId >= 0 ==> idi <= maxId + 1) && |entries| == idi
        invariant forall j :: 0 <= j < idi ==> j in m && entries[j] == NewUnlinked(j, m[j])
        invariant hashPalette == old(hashPalette) && linked == old(linked)
      {
        if idi !in m {
          PopulatedMissing(m, idi);
          return Fail(InvalidPalette);
        }
        entries := entries + [NewUnlinked(idi, m[idi])];
        idi := idi + 1;
      }
      PopulatedComplete(m, maxId, entries);
      hashPalette := HashIndex(entries);
      r := Pass;
    }

    /** `toUnlinkedBlockStateMappings`: each entry's id mapped to its state. For a palette with
        dense ids and at most 2^15 entries these are exactly ids 0..size-1. */
    function ToUnlinked(): (m: map<int, BlockState>)
      reads this
      ensures DenseIds(entries) && |entries| <= 0x8000 ==>
        (forall k :: k in m <==> 0 <= k < |entries|)
        && forall i :: 0 <= i < |entries| ==> m[i] == entries[i].state
    {
      if DenseIds(entries) && |entries| <= 0x8000 then MappingsOfDense(entries); MappingsOf(entries)
      else MappingsOf(entries)
    }
  }
}
