/** `ListBlockPalette`: palette entries in id order in a single list, searched linearly. */
module ListPalettes {
  import opened Wrappers
  import opened BlockStates
  import opened VolBlocks

  /** `idOf`: the first entry whose state equals bs (by state string), or -1. */
  function IdOf(es: seq<VolBlockState>, bs: BlockState): (i: int)
    ensures -1 <= i < |es|
    ensures i == -1 <==> !HasState(es, bs)
    ensures 0 <= i ==> (StateStr(es[i].state) == StateStr(bs)
      && forall j :: 0 <= j < i ==> StateStr(es[j].state) != StateStr(bs))
  {
    if |es| == 0 then -1
    else if StateStr(es[0].state) == StateStr(bs) then 0
    else
      var i := IdOf(es[1..], bs);
      assert forall j :: 1 <= j < |es| ==> es[j] == es[1..][j - 1];
      if i == -1 then -1 else i + 1
  }

  class ListBlockPalette {
    /** `linkedVolume`, by the uuid of the linked volume. */
    var linked: Option<int>
    /** `palette`. */
    var entries: seq<VolBlockState>

    ghost predicate Valid()
      reads this
    {
      DenseIds(entries) && (linked.Some? ==> StampedWith(entries, linked.value))
    }

    constructor ()
      ensures linked == None && entries == [] && Valid()
    {
      linked := None;
      entries := [];
    }

    function Size(): nat
      reads this
    {
      |entries|
    }

    /** The first entry with an equal state, without inserting: absent iff no entry matches. */
    method GetBlock(bs: BlockState) returns (r: Result<Option<VolBlockState>>)
      ensures r.Err? <==> linked.None?
      ensures r.Err? ==> r.error == NotLinked
      ensures r.Ok? ==> (r.value.None? <==> !HasState(entries, bs))
      ensures r.Ok? && r.value.Some? ==>
        exists i :: (0 <= i < |entries| && r.value.value == entries[i] && StateStr(entries[i].state) == StateStr(bs)
          && forall j :: 0 <= j < i ==> StateStr(entries[j].state) != StateStr(bs))
    {
      if linked.None? {
        return Err(NotLinked);
      }
      var id := IdOf(entries, bs);
      if id == -1 {
        r := Ok(None);
      } else {
        r := Ok(Some(entries[id]));
      }
    }

    /** `addBlock`: appends an entry for bs under the next id, as a Short. */
    method AddBlock(bs: BlockState) returns (r: Result<VolBlockState>)
      requires Valid()
      modifies this
      ensures Valid() && linked == old(linked)
      ensures linked.None? ==> r == Err(NotLinked) && entries == old(entries)
      ensures linked.Some? ==>
        r == Ok(VolBlockState(linked.value, ToShort(old(|entries|)), bs))
        && entries == old(entries) + [r.value]
    {
      if linked.None? {
        return Err(NotLinked);
      }
      var e := VolBlockState(linked.value, ToShort(|entries|), bs);
      entries := entries + [e];
      r := Ok(e);
    }

    method GetDefaultBlock() returns (r: Result<VolBlockState>)
      ensures linked.None? ==> r == Err(NotLinked)
      ensures linked.Some? && |entries| == 0 ==> r == Err(IndexOutOfRange)
      ensures linked.Some? && |entries| > 0 ==> r == Ok(entries[0])
    {
      if linked.None? {
        return Err(NotLinked);
      }
      if |entries| == 0 {
        return Err(IndexOutOfRange);
      }
      r := Ok(entries[0]);
    }

    /** The first entry with an equal state, or a new entry appended under the next id. */
    method GetOrAddBlock(bs: BlockState) returns (r: Result<VolBlockState>)
      requires Valid()
      modifies this
      ensures Valid() && linked == old(linked)
      ensures r.Err? <==> linked.None?
      ensures r.Err? ==> r.error == NotLinked && entries == old(entries)
      ensures r.Ok? && old(HasState(entries, bs)) ==>
        entries == old(entries) && r.value == entries[IdOf(entries, bs)]
      ensures r.Ok? && !old(HasState(entries, bs)) ==>
        r.value == VolBlockState(linked.value, ToShort(old(|entries|)), bs)
        && entries == old(entries) + [r.value] && IdOf(entries, bs) == |entries| - 1
    {
      if linked.None? {
        return Err(NotLinked);
      }
      var id := IdOf(entries, bs);
      if id == -1 {
        r := AddBlock(bs);
        IdOfAppended(old(entries), r.value, bs);
      } else {
        r := Ok(entries[id]);
      }
    }

    method GetFromId(id: int) returns (r: Result<VolBlockState>)
      requires Valid() && IsShort(id)
      ensures linked.None? ==> r == Err(NotLinked)
      ensures linked.Some? && !(0 <= id < |entries|) ==> r == Err(IndexOutOfRange)
      ensures linked.Some? && 0 <= id < |entries| ==> r == Ok(entries[id]) && r.value.paletteId == id
    {
      if linked.None? {
        return Err(NotLinked);
      }
      if !(0 <= id < |entries|) {
        return Err(IndexOutOfRange);
      }
      r := Ok(entries[id]);
      ToShortOfShort(id);
    }

    /** Same rebuild as the hashed palette's, over the single list. */
    method Populate(m: map<int, BlockState>) returns (r: Outcome)
      requires ShortKeys(m)
      modifies this
      ensures linked == old(linked)
      ensures old(linked).Some? ==> r == Fail(AlreadyLinked) && entries == old(entries)
      ensures old(linked).None? ==> (r.Pass? <==> Populated(m).Ok?)
      ensures old(linked).None? && r.Fail? ==> r.error == Populated(m).error
      ensures r.Pass? ==> entries == Populated(m).value && Valid()
      ensures r == Fail(InvalidPalette) ==>
        |entries| !in m && forall i :: 0 <= i < |entries| ==> i in m && entries[i] == NewUnlinked(i, m[i])
      ensures r == Fail(InvalidConfiguration) ==> entries == old(entries)
    {
      if linked.Some? {
        return Fail(AlreadyLinked);
      }
      if |m| == 0 {
        return Fail(InvalidConfiguration);
      }
      entries := [];
      MaxKeyExists(m);
      var maxId :| maxId in m && forall j | j in m :: j <= maxId;
      assert maxId == MaxKey(m);
      var idi := 0;
      while idi <= maxId
        invariant 0 <= idi && (maxId >= 0 ==> idi <= maxId + 1) && |entries| == idi
        invariant forall j :: 0 <= j < idi ==> j in m && entries[j] == NewUnlinked(j, m[j])
        invariant linked == old(linked)
      {
        if idi !in m {
          PopulatedMissing(m, idi);
          return Fail(InvalidPalette);
        }
        entries := entries + [NewUnlinked(idi, m[idi])];
        idi := idi + 1;
      }
      PopulatedComplete(m, maxId, entries);
      r := Pass;
    }

    function ToUnlinked(): (m: map<int, BlockState>)
      reads this
      ensures DenseIds(entries) && |entries| <= 0x8000 ==>
        (forall k :: k in m <==> 0 <= k < |entries|)
        && forall i :: 0 <= i < |entries| ==> m[i] == entries[i].state
    {
      if DenseIds(entries) && |entries| <= 0x8000 then MappingsOfDense(entries); MappingsOf(entries)
      else MappingsOf(entries)
    }

    method Link(uuid: int) returns (r: Outcome)
      requires Valid()
      modifies this
      ensures Valid()
      ensures old(linked).Some? ==> r == Fail(AlreadyLinked) && entries == old(entries) && linked == old(linked)
      ensures old(linked).None? ==>
        r == Pass && linked == Some(uuid) && |entries| == old(|entries|)
        && forall i :: 0 <= i < |entries| ==> entries[i] == Stamp(old(entries[i]), uuid)
    {
      if linked.Some? {
        return Fail(AlreadyLinked);
      }
      var i := 0;
      while i < |entries|
        invariant 0 <= i <= |entries| == old(|entries|) && linked == old(linked)
        invariant forall j :: 0 <= j < i ==> entries[j] == Stamp(old(entries[j]), uuid)
        invariant forall j :: i <= j < |entries| ==> entries[j] == old(entries[j])
      {
        entries := entries[i := Stamp(entries[i], uuid)];
        i := i + 1;
      }
      linked := Some(uuid);
      r := Pass;
    }
  }

  /** Appending an entry for a state not yet present makes the new entry its first match. */
  lemma IdOfAppended(es: seq<VolBlockState>, e: VolBlockState, bs: BlockState)
    requires !HasState(es, bs) && StateStr(e.state) == StateStr(bs)
    ensures IdOf(es + [e], bs) == |es|
  {
    var es' := es + [e];
    assert es'[|es|] == e;
    forall j | 0 <= j < |es| ensures StateStr(es'[j].state) != StateStr(bs) {
      assert es'[j] == es[j];
    }
  }

  /** In a palette built only by `getOrAddBlock` each state occurs once, and looking up an
      entry's state finds that entry. */
  lemma IdOfDistinct(es: seq<VolBlockState>, i: int)
    requires 0 <= i < |es|
    requires forall a, b :: 0 <= a < b < |es| ==> StateStr(es[a].state) != StateStr(es[b].state)
    ensures IdOf(es, es[i].state) == i
  {
  }
}
