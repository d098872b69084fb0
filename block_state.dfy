/** `BlockState`: a namespaced block name with a list of string properties. Its printed form
    `stateStr` is its identity: Kotlin equality and hashing go through it. */
module BlockStates {
  import opened Wrappers
  import opened Strs

  /** `PropEntry(name, value)`. */
  datatype Prop = Prop(name: string, value: string)

  datatype BlockState = BlockState(resLoc: string, name: string, props: seq<Prop>)

  function FullName(bs: BlockState): string { bs.resLoc + ":" + bs.name }

  predicate HasProps(bs: BlockState) { |bs.props| > 0 }

  predicate SortedByName(ps: seq<Prop>) {
    forall i, j :: 0 <= i < j < |ps| ==> LexLe(ps[i].name, ps[j].name)
  }

  predicate UniqueNames(ps: seq<Prop>) {
    forall i, j :: 0 <= i < j < |ps| ==> ps[i].name != ps[j].name
  }

  // ---------------------------------------------------------------------------
  // Sorting by name (`sortedBy { it.name }`, a stable sort)

  function InsertByName(p: Prop, ps: seq<Prop>): (r: seq<Prop>)
    requires SortedByName(ps)
    ensures SortedByName(r)
    ensures multiset(r) == multiset{p} + multiset(ps)
  {
    if |ps| == 0 then [p]
    else if LexLe(p.name, ps[0].name) then
      InsertFront(p, ps);
      [p] + ps
    else
      SortedTail(ps);
      var rest := InsertByName(p, ps[1..]);
      InsertBehind(p, ps, rest);
      [ps[0]] + rest
  }

  /** An entry whose name is at most the first name goes in front. */
  lemma InsertFront(p: Prop, ps: seq<Prop>)
    requires SortedByName(ps) && |ps| > 0 && LexLe(p.name, ps[0].name)
    ensures SortedByName([p] + ps)
  {
    forall j | 0 <= j < |ps| ensures LexLe(p.name, ps[j].name) {
      if j > 0 { LexLeTransitive(p.name, ps[0].name, ps[j].name); }
    }
    SortedCons(p, ps);
  }

  /** An entry whose name is above the first name is inserted behind it: the first entry stays
      in front of the insertion into the rest. */
  lemma InsertBehind(p: Prop, ps: seq<Prop>, rest: seq<Prop>)
    requires SortedByName(ps) && |ps| > 0 && !LexLe(p.name, ps[0].name)
    requires SortedByName(rest) && multiset(rest) == multiset{p} + multiset(ps[1..])
    ensures SortedByName([ps[0]] + rest)
    ensures multiset([ps[0]] + rest) == multiset{p} + multiset(ps)
  {
    MultisetTail(ps);
    forall j | 0 <= j < |rest| ensures LexLe(ps[0].name, rest[j].name) {
      HeadBelowMember(p, ps, rest[j], multiset(rest));
    }
    SortedCons(ps[0], rest);
  }

  /** A member of the insertion into the tail has a name at least the head's. */
  lemma HeadBelowMember(p: Prop, ps: seq<Prop>, x: Prop, m: multiset<Prop>)
    requires SortedByName(ps) && |ps| > 0 && !LexLe(p.name, ps[0].name)
    requires m == multiset{p} + multiset(ps[1..]) && x in m
    ensures LexLe(ps[0].name, x.name)
  {
    LexLeTotal(p.name, ps[0].name);
    if x != p {
      assert x in multiset(ps[1..]);
      var k :| 0 <= k < |ps[1..]| && ps[1..][k] == x;
      assert ps[k + 1] == x;
    }
  }

  /** A name at most every name of a sorted list can go in front of it. */
  lemma SortedCons(h: Prop, rest: seq<Prop>)
    requires SortedByName(rest)
    requires forall j :: 0 <= j < |rest| ==> LexLe(h.name, rest[j].name)
    ensures SortedByName([h] + rest)
  {
    var r := [h] + rest;
    forall i, j | 0 <= i < j < |r| ensures LexLe(r[i].name, r[j].name) {
      assert r[j] == rest[j - 1];
      if i > 0 {
        assert r[i] == rest[i - 1];
      }
    }
  }

  /** The props sorted by name: a sorted permutation of the input. */
  function SortByName(ps: seq<Prop>): (r: seq<Prop>)
    ensures SortedByName(r)
    ensures multiset(r) == multiset(ps)
  {
    if |ps| == 0 then []
    else
      assert ps == [ps[0]] + ps[1..];
      InsertByName(ps[0], SortByName(ps[1..]))
  }

  /** Two name-sorted lists with unique names and the same entries are the same list: the
      order `new` stores is determined by the set of properties alone. */
  lemma {:induction false} SortedUnique(s: seq<Prop>, t: seq<Prop>)
    requires SortedByName(s) && SortedByName(t) && UniqueNames(s) && UniqueNames(t)
    requires multiset(s) == multiset(t)
    ensures s == t
  {
    if |s| == 0 {
      EmptyMultiset(t);
    } else {
      SameHead(s, t);
      MultisetTail(s);
      MultisetTail(t);
      SortedTail(s);
      SortedTail(t);
      UniqueNamesTail(s);
      UniqueNamesTail(t);
      SortedUnique(s[1..], t[1..]);
      assert s == [s[0]] + s[1..] && t == [t[0]] + t[1..];
    }
  }

  lemma EmptyMultiset(t: seq<Prop>)
    requires multiset(t) == multiset{}
    ensures t == []
  {
    assert |t| == |multiset(t)|;
  }

  lemma MultisetTail(s: seq<Prop>)
    requires |s| > 0
    ensures multiset(s[1..]) == multiset(s) - multiset{s[0]}
  {
    assert s == [s[0]] + s[1..];
  }

  lemma SortedTail(s: seq<Prop>)
    requires |s| > 0 && SortedByName(s)
    ensures SortedByName(s[1..])
  {
    forall i, j | 0 <= i < j < |s[1..]| ensures LexLe(s[1..][i].name, s[1..][j].name) {
      assert s[1..][i] == s[i + 1] && s[1..][j] == s[j + 1];
    }
  }

  /** The first entries of two such lists agree: each is the entry with the least name. */
  lemma SameHead(s: seq<Prop>, t: seq<Prop>)
    requires SortedByName(s) && SortedByName(t) && UniqueNames(t)
    requires multiset(s) == multiset(t) && |s| > 0
    ensures |t| > 0 && s[0] == t[0]
  {
    assert s[0] in multiset(t);
    var j :| 0 <= j < |t| && t[j] == s[0];
    assert t[0] in multiset(s);
    var i :| 0 <= i < |s| && s[i] == t[0];
    if j > 0 {
      assert LexLe(t[0].name, s[0].name);
      assert LexLe(s[0].name, t[0].name);
      LexLeAntisymmetric(t[0].name, s[0].name);
    }
  }

  /** Removing one entry keeps the remaining names unique. */
  lemma UniqueNamesRemove(ps: seq<Prop>, k: int)
    requires 0 <= k < |ps| && UniqueNames(ps)
    ensures UniqueNames(ps[..k] + ps[k + 1..])
  {
    var r := ps[..k] + ps[k + 1..];
    forall i, j | 0 <= i < j < |r| ensures r[i].name != r[j].name {
      var i' := if i < k then i else i + 1;
      var j' := if j < k then j else j + 1;
      assert r[i] == ps[i'] && r[j] == ps[j'];
    }
  }

  lemma UniqueNamesTail(ps: seq<Prop>)
    requires |ps| > 0 && UniqueNames(ps)
    ensures UniqueNames(ps[1..])
  {
    forall i, j | 0 <= i < j < |ps[1..]| ensures ps[1..][i].name != ps[1..][j].name {
      assert ps[1..][i] == ps[i + 1] && ps[1..][j] == ps[j + 1];
    }
  }

  lemma MultisetRemoveAt(qs: seq<Prop>, k: int)
    requires 0 <= k < |qs|
    ensures multiset(qs[..k] + qs[k + 1..]) == multiset(qs) - multiset{qs[k]}
  {
    assert qs == qs[..k] + [qs[k]] + qs[k + 1..];
    assert multiset(qs) == multiset(qs[..k]) + multiset{qs[k]} + multiset(qs[k + 1..]);
  }

  /** Putting back an entry whose name no remaining entry has keeps names unique. */
  lemma UniqueNamesInsertAt(qs: seq<Prop>, k: int)
    requires 0 <= k < |qs| && UniqueNames(qs[..k] + qs[k + 1..])
    requires forall x :: x in multiset(qs[..k] + qs[k + 1..]) ==> x.name != qs[k].name
    ensures UniqueNames(qs)
  {
    var rest := qs[..k] + qs[k + 1..];
    forall i, j | 0 <= i < j < |qs| ensures qs[i].name != qs[j].name {
      if i == k {
        assert qs[j] == rest[j - 1] && qs[j] in multiset(rest);
      } else if j == k {
        assert qs[i] == rest[i] && qs[i] in multiset(rest);
      } else {
        var i' := if i < k then i else i - 1;
        var j' := if j < k then j else j - 1;
        assert qs[i] == rest[i'] && qs[j] == rest[j'];
      }
    }
  }

  /** Uniqueness of names depends only on the multiset of entries. */
  lemma {:induction false} UniqueNamesPermutation(ps: seq<Prop>, qs: seq<Prop>)
    requires multiset(ps) == multiset(qs) && UniqueNames(ps)
    ensures UniqueNames(qs)
  {
    if |ps| > 0 {
      assert ps[0] in multiset(qs);
      var k :| 0 <= k < |qs| && qs[k] == ps[0];
      var rest := qs[..k] + qs[k + 1..];
      MultisetRemoveAt(qs, k);
      MultisetTail(ps);
      UniqueNamesTail(ps);
      UniqueNamesPermutation(ps[1..], rest);
      forall x: Prop | x in multiset(rest) ensures x.name != qs[k].name {
        assert x in multiset(ps[1..]);
        var i :| 0 <= i < |ps[1..]| && ps[1..][i] == x;
        assert ps[i + 1] == x;
      }
      UniqueNamesInsertAt(qs, k);
    }
  }

  /** Sorting a list that is already sorted, with unique names, changes nothing. */
  lemma SortSortedIsIdentity(ps: seq<Prop>)
    requires SortedByName(ps) && UniqueNames(ps)
    ensures SortByName(ps) == ps
  {
    UniqueNamesPermutation(ps, SortByName(ps));
    SortedUnique(SortByName(ps), ps);
  }

  // ---------------------------------------------------------------------------
  // Construction

  /** The duplicate check of `new`: walks the list with the names seen so far. */
  function HasDuplicate(ps: seq<Prop>, seen: seq<string>): (dup: bool)
    ensures !dup <==> UniqueNames(ps) && forall i :: 0 <= i < |ps| ==> ps[i].name !in seen
  {
    if |ps| == 0 then false
    else if ps[0].name in seen then true
    else
      var dup := HasDuplicate(ps[1..], seen + [ps[0].name]);
      assert !dup ==> UniqueNames(ps) by {
        if !dup {
          forall i, j | 0 <= i < j < |ps| ensures ps[i].name != ps[j].name {
            if i > 0 { assert ps[i] == ps[1..][i - 1] && ps[j] == ps[1..][j - 1]; }
            else { assert ps[j] == ps[1..][j - 1]; }
          }
        }
      }
      assert UniqueNames(ps) && (forall i :: 0 <= i < |ps| ==> ps[i].name !in seen) ==> !dup by {
        if UniqueNames(ps) && (forall i :: 0 <= i < |ps| ==> ps[i].name !in seen) {
          forall i | 0 <= i < |ps[1..]| ensures ps[1..][i].name !in seen + [ps[0].name] {
            assert ps[1..][i] == ps[i + 1];
          }
          assert UniqueNames(ps[1..]) by {
            forall i, j | 0 <= i < j < |ps[1..]| ensures ps[1..][i].name != ps[1..][j].name {
              assert ps[1..][i] == ps[i + 1] && ps[1..][j] == ps[j + 1];
            }
          }
        }
      }
      dup
  }

  /** `BlockState.new`: fails on a repeated property name, otherwise stores the properties
      sorted by name. */
  function New(resLoc: string, name: string, props: seq<Prop>): (r: Result<BlockState>)
    ensures r.Ok? <==> UniqueNames(props)
    ensures r.Err? ==> r.error == InvalidConfiguration
    ensures r.Ok? ==> r.value.resLoc == resLoc && r.value.name == name
                      && SortedByName(r.value.props) && UniqueNames(r.value.props)
                      && multiset(r.value.props) == multiset(props)
  {
    if HasDuplicate(props, []) then Err(InvalidConfiguration)
    else
      UniqueNamesPermutation(props, SortByName(props));
      Ok(BlockState(resLoc, name, SortByName(props)))
  }

  /** The order in which properties are given to `new` does not matter. */
  lemma NewPermutationInvariant(resLoc: string, name: string, ps: seq<Prop>, qs: seq<Prop>)
    requires multiset(ps) == multiset(qs)
    ensures New(resLoc, name, ps) == New(resLoc, name, qs)
  {
    if UniqueNames(ps) {
      UniqueNamesPermutation(ps, qs);
      SortedUnique(New(resLoc, name, ps).value.props, New(resLoc, name, qs).value.props);
    } else if UniqueNames(qs) {
      UniqueNamesPermutation(qs, ps);
    }
  }

  // ---------------------------------------------------------------------------
  // Printing and parsing

  function PropStr(p: Prop): string { p.name + "=" + p.value }

  function PropStrs(ps: seq<Prop>): (r: seq<string>)
    ensures |r| == |ps| && forall i :: 0 <= i < |ps| ==> r[i] == PropStr(ps[i])
  {
    if |ps| == 0 then [] else [PropStr(ps[0])] + PropStrs(ps[1..])
  }

  /** `computeStateStr`: the full name, then the properties sorted by name between brackets. */
  function StateStr(bs: BlockState): string {
    FullName(bs) + if HasProps(bs) then "[" + Join(PropStrs(SortByName(bs.props)), ',') + "]" else ""
  }

  /** `equals`: two block states are equal when their state strings are. */
  predicate Equal(a: BlockState, b: BlockState) { StateStr(a) == StateStr(b) }

  /** One `k=v` piece of the property list: trimmed, split on `=` into exactly two parts,
      each trimmed again. */
  function ParseProp(piece: string): Result<Prop> {
    var kv := Split(Trim(piece), '=');
    if |kv| != 2 then Err(InvalidConfiguration) else Ok(Prop(Trim(kv[0]), Trim(kv[1])))
  }

  /** The results of parsing the pieces, in order; the first failure fails the whole parse. */
  function CollectProps(rs: seq<Result<Prop>>): (r: Result<seq<Prop>>)
    ensures r.Ok? <==> forall i :: 0 <= i < |rs| ==> rs[i].Ok?
    ensures r.Ok? ==> (|r.value| == |rs| && forall i :: 0 <= i < |rs| ==> r.value[i] == rs[i].value)
  {
    if |rs| == 0 then Ok([])
    else
      var tail := CollectProps(rs[1..]);
      assert forall i :: 1 <= i < |rs| ==> rs[1..][i - 1] == rs[i];
      if rs[0].Err? then Err(rs[0].error)
      else if tail.Err? then Err(tail.error)
      else Ok([rs[0].value] + tail.value)
  }

  function ParseProps(pieces: seq<string>): Result<seq<Prop>> {
    CollectProps(seq(|pieces|, i requires 0 <= i < |pieces| => ParseProp(pieces[i])))
  }

  /** Namespace and name of a full name: split at the first `:`, namespace `minecraft` when
      there is none. */
  function SplitFullName(fullName: string): (string, string) {
    var colon := IndexOf(fullName, ':');
    if colon == -1 then ("minecraft", fullName) else (fullName[..colon], fullName[colon + 1..])
  }

  /** The property text: from after the bracket at `brack` to before the last character
      (empty when that range is empty). */
  function PropsText(str: string, brack: nat): string {
    if brack + 1 <= |str| - 1 then str[brack + 1..|str| - 1] else ""
  }

  /** `BlockState.fromStr`. The name ends at the first `[`; the namespace is what precedes the
      first `:` in the name; the property text runs from after the first `[` to before the last
      character, whatever that character is. */
  function FromStr(str: string): Result<BlockState> {
    var brack := IndexOf(str, '[');
    var (resLoc, name) := SplitFullName(if brack == -1 then str else str[..brack]);
    if brack == -1 then New(resLoc, name, [])
    else
      match ParseProps(Split(PropsText(str, brack), ','))
      case Err(e) => Err(e)
      case Ok(ps) => New(resLoc, name, ps)
  }

  /** The block states whose printed form parses back to themselves: as built by `new` (sorted,
      unique names), no `:` or `[` in the namespace, no `[` in the name, and property names and
      values without `,` or `=` and without surrounding whitespace. */
  predicate WellFormed(bs: BlockState) {
    ':' !in bs.resLoc && '[' !in bs.resLoc && '[' !in bs.name
    && SortedByName(bs.props) && UniqueNames(bs.props)
    && forall i :: 0 <= i < |bs.props| ==>
         ',' !in bs.props[i].name && '=' !in bs.props[i].name && Trimmed(bs.props[i].name)
         && ',' !in bs.props[i].value && '=' !in bs.props[i].value && Trimmed(bs.props[i].value)
  }

  lemma ParsePropOf(s: string, n: string, v: string)
    requires Trim(s) == s && Split(s, '=') == [n, v] && Trim(n) == n && Trim(v) == v
    ensures ParseProp(s) == Ok(Prop(n, v))
  {
  }

  lemma SplitPropStr(p: Prop)
    requires '=' !in p.name && '=' !in p.value
    ensures Split(PropStr(p), '=') == [p.name, p.value]
  {
    SplitJoin([p.name, p.value], '=');
    assert Join([p.name, p.value], '=') == PropStr(p);
  }

  lemma TrimPropStr(p: Prop)
    requires Trimmed(p.name) && Trimmed(p.value)
    ensures Trim(PropStr(p)) == PropStr(p)
  {
    assert Trimmed(PropStr(p));
    TrimProperties(PropStr(p));
  }

  lemma ParsePropStr(p: Prop)
    requires ',' !in p.name && '=' !in p.name && Trimmed(p.name)
    requires '=' !in p.value && Trimmed(p.value)
    ensures ParseProp(PropStr(p)) == Ok(p)
  {
    TrimPropStr(p);
    SplitPropStr(p);
    TrimProperties(p.name);
    TrimProperties(p.value);
    ParsePropOf(PropStr(p), p.name, p.value);
  }

  lemma SplitFullNameOf(bs: BlockState)
    requires ':' !in bs.resLoc
    ensures SplitFullName(FullName(bs)) == (bs.resLoc, bs.name)
  {
    var fn := FullName(bs);
    IndexOfAfterPrefix(bs.resLoc, bs.name, ':');
    assert fn == bs.resLoc + [':'] + bs.name;
    assert fn[..|bs.resLoc|] == bs.resLoc && fn[|bs.resLoc| + 1..] == bs.name;
  }

  lemma PropStrsNoComma(ps: seq<Prop>)
    requires forall i :: 0 <= i < |ps| ==> ',' !in ps[i].name && ',' !in ps[i].value
    ensures forall i :: 0 <= i < |PropStrs(ps)| ==> ',' !in PropStrs(ps)[i]
  {
    forall i | 0 <= i < |PropStrs(ps)| ensures ',' !in PropStrs(ps)[i] {
      assert PropStrs(ps)[i] == ps[i].name + "=" + ps[i].value;
    }
  }

  lemma ParsePropsAllOk(pieces: seq<string>, ps: seq<Prop>)
    requires |pieces| == |ps| && forall i :: 0 <= i < |ps| ==> ParseProp(pieces[i]) == Ok(ps[i])
    ensures ParseProps(pieces) == Ok(ps)
  {
    var rs := seq(|pieces|, i requires 0 <= i < |pieces| => ParseProp(pieces[i]));
    assert forall i :: 0 <= i < |rs| ==> rs[i] == Ok(ps[i]);
    assert CollectProps(rs).value == ps;
  }

  /** The printed property list of a well-formed state parses back to its properties. */
  lemma ParsePropList(ps: seq<Prop>)
    requires forall i :: 0 <= i < |ps| ==>
         ',' !in ps[i].name && '=' !in ps[i].name && Trimmed(ps[i].name)
         && ',' !in ps[i].value && '=' !in ps[i].value && Trimmed(ps[i].value)
    requires |ps| > 0
    ensures ParseProps(Split(Join(PropStrs(ps), ','), ',')) == Ok(ps)
  {
    PropStrsNoComma(ps);
    SplitJoin(PropStrs(ps), ',');
    forall i | 0 <= i < |ps| ensures ParseProp(PropStrs(ps)[i]) == Ok(ps[i]) {
      ParsePropStr(ps[i]);
    }
    ParsePropsAllOk(PropStrs(ps), ps);
  }

  /** Where the bracket, the name and the property text sit in a string made of a name without
      `[`, a `[`, a property text and one more character. */
  lemma BracketLayout(fn: string, body: string, last: char)
    requires '[' !in fn
    ensures IndexOf(fn + "[" + body + [last], '[') == |fn|
    ensures (fn + "[" + body + [last])[..|fn|] == fn
    ensures PropsText(fn + "[" + body + [last], |fn|) == body
  {
    var str := fn + "[" + body + [last];
    assert str == fn + ['['] + (body + [last]);
    IndexOfAfterPrefix(fn, body + [last], '[');
    assert str[|fn| + 1..|str| - 1] == body;
    assert str[..|fn|] == fn;
  }

  /** How `fromStr` reads such a string: the last character is dropped unread. */
  lemma FromStrLayout(fn: string, body: string, last: char)
    requires '[' !in fn
    ensures FromStr(fn + "[" + body + [last]) ==
      match ParseProps(Split(body, ','))
      case Err(e) => Err(e)
      case Ok(ps) => New(SplitFullName(fn).0, SplitFullName(fn).1, ps)
  {
    BracketLayout(fn, body, last);
  }

  /** Where the printed form of a state with properties puts its bracket and property text. */
  lemma StateStrLayout(bs: BlockState)
    requires '[' !in bs.resLoc && '[' !in bs.name && HasProps(bs)
    ensures IndexOf(StateStr(bs), '[') == |FullName(bs)|
    ensures StateStr(bs)[..|FullName(bs)|] == FullName(bs)
    ensures PropsText(StateStr(bs), |FullName(bs)|) == Join(PropStrs(SortByName(bs.props)), ',')
  {
    var fn, body := FullName(bs), Join(PropStrs(SortByName(bs.props)), ',');
    NoBracketInFullName(bs);
    StateStrOfProps(bs, body);
    BracketLayout(fn, body, ']');
  }

  lemma NoBracketInFullName(bs: BlockState)
    requires '[' !in bs.resLoc && '[' !in bs.name
    ensures '[' !in FullName(bs)
  {
    assert FullName(bs) == bs.resLoc + [':'] + bs.name;
  }

  lemma StateStrOfProps(bs: BlockState, body: string)
    requires HasProps(bs) && body == Join(PropStrs(SortByName(bs.props)), ',')
    ensures StateStr(bs) == FullName(bs) + "[" + body + [']']
  {
  }

  /** Round trip: parsing the printed form of a well-formed block state gives it back. */
  lemma FromStrStateStr(bs: BlockState)
    requires WellFormed(bs)
    ensures FromStr(StateStr(bs)) == Ok(bs)
  {
    SplitFullNameOf(bs);
    SortSortedIsIdentity(bs.props);
    if HasProps(bs) {
      StateStrLayout(bs);
      ParsePropList(bs.props);
    } else {
      assert '[' !in FullName(bs);
      assert StateStr(bs) == FullName(bs);
      assert bs.props == [];
    }
  }

  /** On well-formed block states, equality by state string is structural equality. */
  lemma EqualIffSame(a: BlockState, b: BlockState)
    requires WellFormed(a) && WellFormed(b)
    ensures Equal(a, b) <==> a == b
  {
    if Equal(a, b) {
      FromStrStateStr(a);
      FromStrStateStr(b);
    }
  }

  /** The state string does not depend on the order of the properties. */
  lemma StateStrPermutationInvariant(resLoc: string, name: string, ps: seq<Prop>, qs: seq<Prop>)
    requires multiset(ps) == multiset(qs) && UniqueNames(ps)
    ensures StateStr(BlockState(resLoc, name, ps)) == StateStr(BlockState(resLoc, name, qs))
  {
    UniqueNamesPermutation(ps, SortByName(ps));
    UniqueNamesPermutation(ps, SortByName(qs));
    SortedUnique(SortByName(ps), SortByName(qs));
  }

  /** Without `:` before `[`, the namespace defaults to `minecraft`. */
  lemma FromStrDefaultNamespace(str: string)
    requires '[' !in str && ':' !in str
    ensures FromStr(str) == Ok(BlockState("minecraft", str, []))
  {
  }

  /** The closing bracket is never checked: whatever the last character is, it is dropped
      unread (so `a:b[x=1` parses as `a:b[x=]`). */
  lemma FromStrIgnoresLastChar(resLoc: string, name: string, p: Prop, last: char)
    requires WellFormed(BlockState(resLoc, name, [p]))
    ensures FromStr(resLoc + ":" + name + "[" + PropStr(p) + [last]) == Ok(BlockState(resLoc, name, [p]))
  {
    var bs := BlockState(resLoc, name, [p]);
    assert '[' !in FullName(bs);
    FromStrLayout(FullName(bs), PropStr(p), last);
    SplitFullNameOf(bs);
    assert PropStr(p) == Join(PropStrs([p]), ',');
    ParsePropList([p]);
    assert SortByName([p]) == [p];
  }

  /** An empty property list between the brackets is malformed. */
  lemma FromStrEmptyPropsFails(fullName: string, body: string, last: char)
    requires '[' !in fullName && |body| == 0
    ensures FromStr(fullName + "[" + body + [last]).Err?
  {
    FromStrLayout(fullName, body, last);
    EmptyPropsFail(body);
  }

  /** An empty property text is one empty piece, which has no `=`. */
  lemma EmptyPropsFail(body: string)
    requires |body| == 0
    ensures ParseProps(Split(body, ',')).Err?
  {
    assert Split(body, ',') == [body];
    var t := Trim(body);
    assert |t| == 0;
    assert Split(t, '=') == [t];
    assert ParseProp(body).Err?;
  }

  // ---------------------------------------------------------------------------
  // Queries

  /** `getProp`: the value of the first property with that name. */
  function GetPropIn(ps: seq<Prop>, n: string): (r: Option<string>)
    ensures r.None? <==> forall i :: 0 <= i < |ps| ==> ps[i].name != n
    ensures r.Some? ==> exists i :: 0 <= i < |ps| && ps[i] == Prop(n, r.value)
                                    && forall j :: 0 <= j < i ==> ps[j].name != n
  {
    if |ps| == 0 then None
    else if ps[0].name == n then Some(ps[0].value)
    else
      var r := GetPropIn(ps[1..], n);
      assert forall i :: 1 <= i < |ps| ==> ps[i] == ps[1..][i - 1];
      if r.Some? then
        var i :| 0 <= i < |ps[1..]| && ps[1..][i] == Prop(n, r.value)
                 && forall j :: 0 <= j < i ==> ps[1..][j].name != n;
        assert ps[i + 1] == Prop(n, r.value);
        r
      else r
  }

  function GetProp(bs: BlockState, n: string): Option<string> { GetPropIn(bs.props, n) }

  /** With unique names, `getProp` finds exactly the properties the state has. */
  lemma GetPropUnique(bs: BlockState, n: string, v: string)
    requires UniqueNames(bs.props)
    ensures GetProp(bs, n) == Some(v) <==> Prop(n, v) in bs.props
  {
    if Prop(n, v) in bs.props {
      var i :| 0 <= i < |bs.props| && bs.props[i] == Prop(n, v);
      var r := GetProp(bs, n);
      var k :| 0 <= k < |bs.props| && bs.props[k] == Prop(n, r.value);
      assert k == i;
    }
  }

  /** The loop of `looselyMatches` over this state's properties. */
  function CommonPropsAgree(ps: seq<Prop>, other: BlockState): (r: bool)
    ensures r <==> forall i :: 0 <= i < |ps| ==>
                     GetProp(other, ps[i].name).None? || GetProp(other, ps[i].name).value == ps[i].value
  {
    if |ps| == 0 then true
    else
      var v := GetProp(other, ps[0].name);
      if v.Some? && v.value != ps[0].value then false
      else
        assert forall i :: 1 <= i < |ps| ==> ps[i] == ps[1..][i - 1];
        CommonPropsAgree(ps[1..], other)
  }

  /** `looselyMatches`: same full name, and no property they share has different values. */
  function LooselyMatches(a: BlockState, b: BlockState): bool {
    FullName(a) == FullName(b) && CommonPropsAgree(a.props, b)
  }

  /** For states with unique property names, loose matching is symmetric: it says that no name
      carries two different values across the two states. */
  lemma LooselyMatchesSymmetric(a: BlockState, b: BlockState)
    requires UniqueNames(a.props) && UniqueNames(b.props)
    ensures LooselyMatches(a, b) <==> LooselyMatches(b, a)
    ensures LooselyMatches(a, b) <==> (FullName(a) == FullName(b)
      && forall n, v, w :: Prop(n, v) in a.props && Prop(n, w) in b.props ==> v == w)
  {
    forall n, v | Prop(n, v) in a.props ensures GetProp(a, n) == Some(v) { GetPropUnique(a, n, v); }
    forall n, w | Prop(n, w) in b.props ensures GetProp(b, n) == Some(w) { GetPropUnique(b, n, w); }
  }
}
