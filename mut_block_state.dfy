/** `MutBlockState`: a block state whose properties can be set in place, with a cached state
    string guarded by a dirty flag. */
module MutBlockStates {
  import opened Wrappers
  import opened BlockStates
  import opened Strs

  /** Index of the first property named n, or -1. */
  function FindProp(ps: seq<Prop>, n: string): (i: int)
    ensures -1 <= i < |ps|
    ensures i == -1 <==> forall j :: 0 <= j < |ps| ==> ps[j].name != n
    ensures 0 <= i ==> ps[i].name == n && forall j :: 0 <= j < i ==> ps[j].name != n
  {
    if |ps| == 0 then -1
    else if ps[0].name == n then 0
    else
      var i := FindProp(ps[1..], n);
      assert forall j :: 1 <= j < |ps| ==> ps[j] == ps[1..][j - 1];
      if i == -1 then -1 else i + 1
  }

  /** `computeStateStr` reading a stored `hasProps` flag: the brackets follow the flag, which
      `BlockState` computes once, when the object is built, and not the current properties. */
  function StateStrWith(bs: BlockState, hasProps: bool): (s: string)
    ensures hasProps == HasProps(bs) ==> s == StateStr(bs)
    ensures !hasProps ==> s == FullName(bs)
  {
    FullName(bs) + if hasProps then "[" + Join(PropStrs(SortByName(bs.props)), ',') + "]" else ""
  }

  class MutBlockState {
    const resLoc: string
    const name: string
    /** `hasProps`, fixed by the constructor from the properties it is given. */
    const hasProps: bool
    var props: seq<Prop>
    /** `stateStrDirty` and `stateStrPriv`. */
    var dirty: bool
    var cache: string

    /** The block state the object currently describes. */
    function Snapshot(): BlockState
      reads this
    {
      BlockState(resLoc, name, props)
    }

    /** The cache tells the truth: when it is not dirty, it holds what `computeStateStr` gives
        for the current properties and the stored flag. */
    predicate CacheCoherent()
      reads this
    {
      !dirty ==> cache == StateStrWith(Snapshot(), hasProps)
    }

    /** The internal constructor used by `toMutable`: the cache starts dirty. */
    constructor (resLoc: string, name: string, props: seq<Prop>)
      ensures this.resLoc == resLoc && this.name == name && this.props == props
      ensures hasProps == (|props| > 0)
      ensures dirty && cache == ""
      ensures CacheCoherent()
    {
      this.resLoc := resLoc;
      this.name := name;
      hasProps := |props| > 0;
      this.props := props;
      dirty := true;
      cache := "";
    }

    /** The `stateStr` getter: recomputes only when dirty, otherwise returns the cache. The
        brackets follow the flag fixed at construction. */
    method GetStateStr() returns (s: string)
      modifies this
      ensures s == if old(dirty) then StateStrWith(old(Snapshot()), hasProps) else old(cache)
      ensures props == old(props) && !dirty && cache == s
      ensures old(CacheCoherent()) ==> s == StateStrWith(Snapshot(), hasProps) && CacheCoherent()
      ensures old(CacheCoherent()) && hasProps == HasProps(Snapshot()) ==> s == StateStr(Snapshot())
    {
      if dirty {
        cache := StateStrWith(Snapshot(), hasProps);
        dirty := false;
      }
      s := cache;
    }

    /** The getter as the flag evidently intends, with `hasProps` read from the current
        properties: a fresh string always prints the brackets exactly when properties exist. */
    method GetStateStrLive() returns (s: string)
      modifies this
      ensures s == if old(dirty) then StateStr(old(Snapshot())) else old(cache)
      ensures props == old(props) && !dirty && cache == s
    {
      if dirty {
        cache := StateStrWith(Snapshot(), |props| > 0);
        dirty := false;
      }
      s := cache;
    }

    /** `setProp` as written: an existing property is overwritten in place WITHOUT marking the
        cache dirty; a new one is appended and marks it dirty. */
    method SetProp(n: string, v: string)
      modifies this
      ensures props == SetPropOn(old(props), n, v)
      ensures dirty == (old(dirty) || FindProp(old(props), n) == -1)
      ensures cache == old(cache)
    {
      var i := 0;
      while i < |props|
        invariant 0 <= i <= |props| && props == old(props) && dirty == old(dirty)
        invariant forall j :: 0 <= j < i ==> props[j].name != n
      {
        if props[i].name == n {
          props := props[i := Prop(n, v)];
          return;
        }
        i := i + 1;
      }
      dirty := true;
      props := props + [Prop(n, v)];
    }

    /** `setProp` with the cache invalidated on every change: it keeps the cache coherent. */
    method SetPropCoherent(n: string, v: string)
      modifies this
      ensures props == SetPropOn(old(props), n, v)
      ensures dirty && CacheCoherent()
    {
      var i := 0;
      while i < |props|
        invariant 0 <= i <= |props| && props == old(props)
        invariant forall j :: 0 <= j < i ==> props[j].name != n
      {
        if props[i].name == n {
          props := props[i := Prop(n, v)];
          dirty := true;
          return;
        }
        i := i + 1;
      }
      dirty := true;
      props := props + [Prop(n, v)];
    }

    /** `toImmutable`: the current properties, in their current order (not re-sorted). */
    method ToImmutable() returns (bs: BlockState)
      ensures bs == Snapshot()
    {
      bs := BlockState(resLoc, name, props);
    }
  }

  /** `BlockState.toMutable`. */
  method ToMutable(bs: BlockState) returns (m: MutBlockState)
    ensures fresh(m) && m.Snapshot() == bs && m.dirty && m.hasProps == HasProps(bs)
  {
    m := new MutBlockState(bs.resLoc, bs.name, bs.props);
  }

  /** The properties after a `setProp` of n to v. */
  function SetPropOn(ps: seq<Prop>, n: string, v: string): seq<Prop> {
    var i := FindProp(ps, n);
    if i == -1 then ps + [Prop(n, v)] else ps[i := Prop(n, v)]
  }

  /** `setProp` keeps property names unique. */
  lemma SetPropUnique(ps: seq<Prop>, n: string, v: string)
    requires UniqueNames(ps)
    ensures UniqueNames(SetPropOn(ps, n, v))
  {
    var ps' := SetPropOn(ps, n, v);
    var i := FindProp(ps, n);
    forall j | 0 <= j < |ps'| ensures ps'[j].name == if j < |ps| then ps[j].name else n {
    }
  }

  /** What a `setProp` does, read through `getProp`: n now has value v and every other name
      keeps its value. */
  lemma SetPropEffect(ps: seq<Prop>, n: string, v: string, m: string)
    requires UniqueNames(ps)
    ensures GetPropIn(SetPropOn(ps, n, v), n) == Some(v)
    ensures m != n ==> GetPropIn(SetPropOn(ps, n, v), m) == GetPropIn(ps, m)
  {
    var ps' := SetPropOn(ps, n, v);
    SetPropUnique(ps, n, v);
    assert Prop(n, v) in ps' by {
      var i := FindProp(ps, n);
      assert ps'[if i == -1 then |ps| else i] == Prop(n, v);
    }
    GetPropUnique(BlockState("", "", ps'), n, v);
    if m != n {
      forall w ensures Prop(m, w) in ps' <==> Prop(m, w) in ps {
        var i := FindProp(ps, n);
        if Prop(m, w) in ps {
          var j :| 0 <= j < |ps| && ps[j] == Prop(m, w);
          assert ps'[j] == Prop(m, w);
        }
        if Prop(m, w) in ps' {
          var j :| 0 <= j < |ps'| && ps'[j] == Prop(m, w);
          assert ps[j] == Prop(m, w);
        }
      }
      var a := GetPropIn(ps, m);
      if a.Some? {
        GetPropUnique(BlockState("", "", ps), m, a.value);
        GetPropUnique(BlockState("", "", ps'), m, a.value);
      } else {
        var a' := GetPropIn(ps', m);
        if a'.Some? {
          GetPropUnique(BlockState("", "", ps'), m, a'.value);
          GetPropUnique(BlockState("", "", ps), m, a'.value);
        }
      }
    }
  }

  /** The stale cache of the as-written `setProp`: once the state string has been read,
      overwriting a property's value (say `minecraft:lever[facing=north]` to `facing=south`)
      leaves the next read returning the old string. */
  method StaleStateStrExample(resLoc: string, name: string, n: string, v1: string, v2: string)
    returns (before: string, after: string, current: BlockState)
    requires WellFormed(BlockState(resLoc, name, [Prop(n, v1)]))
    requires WellFormed(BlockState(resLoc, name, [Prop(n, v2)]))
    requires v1 != v2
    ensures current == BlockState(resLoc, name, [Prop(n, v2)])
    ensures before == StateStr(BlockState(resLoc, name, [Prop(n, v1)]))
    ensures after == before && after != StateStr(current)
  {
    var m := new MutBlockState(resLoc, name, [Prop(n, v1)]);
    before := m.GetStateStr();
    m.SetProp(n, v2);
    after := m.GetStateStr();
    current := m.ToImmutable();
    ValueChangesStateStr(resLoc, name, n, v1, v2);
  }

  /** Two well-formed states that differ only in one property's value print differently. */
  lemma ValueChangesStateStr(resLoc: string, name: string, n: string, v1: string, v2: string)
    requires WellFormed(BlockState(resLoc, name, [Prop(n, v1)]))
    requires WellFormed(BlockState(resLoc, name, [Prop(n, v2)]))
    requires v1 != v2
    ensures StateStr(BlockState(resLoc, name, [Prop(n, v1)])) != StateStr(BlockState(resLoc, name, [Prop(n, v2)]))
  {
    EqualIffSame(BlockState(resLoc, name, [Prop(n, v1)]), BlockState(resLoc, name, [Prop(n, v2)]));
  }

  /** With the coherent `setProp`, the same calls read the new string. */
  method FreshStateStrExample(resLoc: string, name: string, n: string, v1: string, v2: string)
    returns (before: string, after: string, current: BlockState)
    requires WellFormed(BlockState(resLoc, name, [Prop(n, v1)]))
    requires WellFormed(BlockState(resLoc, name, [Prop(n, v2)]))
    requires v1 != v2
    ensures current == BlockState(resLoc, name, [Prop(n, v2)])
    ensures before == StateStr(BlockState(resLoc, name, [Prop(n, v1)]))
    ensures after == StateStr(current) && after != before
  {
    var m := new MutBlockState(resLoc, name, [Prop(n, v1)]);
    before := m.GetStateStr();
    m.SetPropCoherent(n, v2);
    after := m.GetStateStr();
    current := m.ToImmutable();
    ValueChangesStateStr(resLoc, name, n, v1, v2);
  }

  /** The frozen flag: a state made mutable without properties, then given one by `setProp`,
      prints its full name alone, though its properties are no longer empty. */
  method AddedPropUnprintedExample(resLoc: string, name: string, n: string, v: string)
    returns (s: string, current: BlockState)
    ensures current == BlockState(resLoc, name, [Prop(n, v)])
    ensures s == FullName(current) && s != StateStr(current)
  {
    var m := ToMutable(BlockState(resLoc, name, []));
    m.SetProp(n, v);
    s := m.GetStateStr();
    current := m.ToImmutable();
  }

  /** With the flag read from the current properties, the same calls print the property. */
  method AddedPropPrintedExample(resLoc: string, name: string, n: string, v: string)
    returns (s: string, current: BlockState)
    ensures current == BlockState(resLoc, name, [Prop(n, v)])
    ensures s == StateStr(current) && s != FullName(current)
  {
    var m := ToMutable(BlockState(resLoc, name, []));
    m.SetProp(n, v);
    s := m.GetStateStrLive();
    current := m.ToImmutable();
  }
}
