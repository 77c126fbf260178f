/** Navigation from a resolved property node: `hasChild`, `getChild`,
    `getChildren` and `getLen`. A node is read through its value; `getChild`
    works on the document and the node's key-path, because it may append a
    member and returns a handle. */
module Nodes {
  import opened Options
  import opened Text
  import opened Decimal
  import opened Json
  import opened Resolver

  /** `hasChild(name)`: the node is an object with a member called `name`. */
  function HasChild(node: Value, name: CName): (r: bool)
    ensures r <==> node.Obj? && exists j :: 0 <= j < |node.members| && node.members[j].key == name
    ensures r <==> Lookup(node, name).Some?
  {
    node.Obj? && HasMember(node.members, name)
  }

  /** `getChild(name, create)` on the node at `at`. On a non-object it gives an
      empty handle and leaves the node alone. On an object it appends an empty
      object under a missing `name` when `create` is set; a missing `name`
      without `create` reaches the library's `operator[]`, which asserts. */
  function GetChild(doc: Value, at: Path, name: CName, create: bool): Resolution
    requires At(doc, at).Some?
  {
    var node := At(doc, at).value;
    if !node.Obj? then Done(doc, NoNode)
    else if HasMember(node.members, name) then Done(doc, Node(at + [name]))
    else if create then Done(Replace(doc, at, Obj(node.members + [Member(name, EmptyObject)])), Node(at + [name]))
    else AssertFails
  }

  /** `getChild` on an object is one step of the path resolver: the same
      document and the same handle as resolving the single segment `name`
      from this node, whenever the member exists or `create` is set. On a
      missing member without `create` the two part: `getChild` asserts in
      `operator[]`, while the resolver gives the empty handle
      (`GetChildPartsFromResolver`). */
  lemma GetChildIsResolverStep(doc: Value, at: Path, name: CName, create: bool)
    requires At(doc, at).Some? && At(doc, at).value.Obj?
    requires create || HasMember(At(doc, at).value.members, name)
    ensures GetChild(doc, at, name, create) == Lift(doc, at, [name], create)
  {
    var ms := At(doc, at).value.members;
    assert [name] + [] == [name];
    if HasMember(ms, name) {
      LiftExisting(doc, at, name, [], create);
      LiftEnd(doc, at + [name], create);
    } else {
      var d1 := Replace(doc, at, Obj(ms + [Member(name, EmptyObject)]));
      LiftCreate(doc, at, name, []);
      LiftEnd(d1, at + [name], true);
    }
  }

  /** The one case where `getChild` and the resolver step differ: an object
      lacking `name`, without `create`. */
  lemma GetChildPartsFromResolver(doc: Value, at: Path, name: CName)
    requires At(doc, at).Some? && At(doc, at).value.Obj?
    requires !HasMember(At(doc, at).value.members, name)
    ensures GetChild(doc, at, name, false) == AssertFails
    ensures Lift(doc, at, [name], false) == Done(doc, NoNode)
  {
  }

  /** What `getChild` leaves behind: an empty handle and no change on a
      non-object; on an object a handle to member `name`, which is the member
      already there or a new empty object appended after the node's other
      members, with every node neither above nor below this one untouched; an
      assertion only for a missing member without `create`. */
  lemma GetChildContract(doc: Value, at: Path, name: CName, create: bool)
    requires At(doc, at).Some?
    ensures var node := At(doc, at).value;
            var r := GetChild(doc, at, name, create);
            && (!node.Obj? ==> r == Done(doc, NoNode))
            && (node.Obj? && !HasChild(node, name) && !create ==> r.AssertFails?)
            && (node.Obj? && (HasChild(node, name) || create) ==>
                  && r.Done? && r.handle == Node(at + [name])
                  && At(r.doc, at + [name]) ==
                       (if HasChild(node, name) then Lookup(node, name) else Some(EmptyObject))
                  && (HasChild(node, name) ==> r.doc == doc)
                  && (!HasChild(node, name) ==>
                        At(r.doc, at) == Some(Obj(node.members + [Member(name, EmptyObject)])))
                  && (forall q :: !(at <= q) && !(q <= at) ==> At(r.doc, q) == At(doc, q)))
  {
    var node := At(doc, at).value;
    if node.Obj? && (HasChild(node, name) || create) {
      GetChildIsResolverStep(doc, at, name, create);
      AtAppend(doc, at, [name]);
      if !HasChild(node, name) {
        var grown := Obj(node.members + [Member(name, EmptyObject)]);
        LiftCreate(doc, at, name, []);
        CreatedChildAt(doc, at, name);
        AtReplace(doc, at, grown);
        forall q | !(at <= q) && !(q <= at)
          ensures At(Replace(doc, at, grown), q) == At(doc, q)
        {
          AtReplaceOther(doc, at, q, grown);
        }
      }
    }
  }

  // ---------------------------------------------------------------------
  // getChildren

  /** `name[i]`, the name `getChildren(true)` gives element `i` of an array member. */
  function Indexed(name: string, i: nat): string {
    name + "[" + NatToString(i) + "]"
  }

  /** The names one member contributes to the listing. */
  function Entries(m: Member, expand: bool): (r: seq<string>)
    ensures !(expand && m.value.Arr?) ==> r == [m.key]
    ensures expand && m.value.Arr? ==>
              |r| == |m.value.elems| && forall i :: 0 <= i < |r| ==> r[i] == Indexed(m.key, i)
  {
    if expand && m.value.Arr? then seq(|m.value.elems|, i requires 0 <= i => Indexed(m.key, i))
    else [m.key]
  }

  function ListNames(ms: seq<Member>, expand: bool): seq<string> {
    if |ms| == 0 then [] else Entries(ms[0], expand) + ListNames(ms[1..], expand)
  }

  /** `getChildren(expand)`: member names in member order, an array member
      spelled out element by element when `expand` is set; nothing for a
      non-object. */
  function GetChildren(node: Value, expand: bool): (r: seq<string>)
    ensures !node.Obj? ==> r == []
  {
    if node.Obj? then ListNames(node.members, expand) else []
  }

  /** Without expansion the listing is exactly the key list. */
  lemma {:induction false} ChildrenPlain(node: Value)
    ensures GetChildren(node, false) == (if node.Obj? then Keys(node.members) else [])
  {
    if node.Obj? {
      ListNamesPlain(node.members);
    }
  }

  lemma {:induction false} ListNamesPlain(ms: seq<Member>)
    ensures ListNames(ms, false) == Keys(ms)
  {
    if |ms| > 0 {
      ListNamesPlain(ms[1..]);
      assert Keys(ms) == [ms[0].key] + Keys(ms[1..]);
    }
  }

  /** With expansion, a name is listed exactly when some member contributes it:
      its key for a non-array, `key[i]` with `i` below the size for an array. */
  lemma {:induction false} ChildrenExpanded(node: Value, x: string)
    requires node.Obj?
    ensures x in GetChildren(node, true) <==>
              exists j :: 0 <= j < |node.members| && Contributes(node.members[j], x)
  {
    ListNamesMembers(node.members, x);
  }

  /** The listing is built member by member, in member order: the names of a
      concatenation are the names of its parts, one after the other, and a
      name is listed as often as members contribute it. */
  lemma ChildrenAppend(ms: seq<Member>, ns: seq<Member>, expand: bool)
    ensures GetChildren(Obj(ms + ns), expand) == GetChildren(Obj(ms), expand) + GetChildren(Obj(ns), expand)
  {
    ListNamesAppend(ms, ns, expand);
  }

  lemma {:induction false} ListNamesAppend(ms: seq<Member>, ns: seq<Member>, expand: bool)
    ensures ListNames(ms + ns, expand) == ListNames(ms, expand) + ListNames(ns, expand)
  {
    if |ms| > 0 {
      assert (ms + ns)[0] == ms[0] && (ms + ns)[1..] == ms[1..] + ns;
      ListNamesAppend(ms[1..], ns, expand);
    } else {
      assert ms + ns == ns;
    }
  }

  /** Names are not deduplicated: a member called "x[0]" beside a one-element
      array "x" makes the expanded listing give "x[0]" twice. */
  lemma ChildrenRepeatName()
    ensures GetChildren(Obj([Member("x[0]", Null), Member("x", Arr([Null]))]), true) == ["x[0]", "x[0]"]
  {
    var a := Member("x[0]", Null);
    var b := Member("x", Arr([Null]));
    ChildrenAppend([a], [b], true);
    assert [a] + [b] == [a, b];
    assert NatToString(0) == "0";
    assert Indexed("x", 0) == "x[0]";
    assert GetChildren(Obj([a]), true) == ["x[0]"];
    assert GetChildren(Obj([b]), true) == Entries(b, true) == ["x[0]"];
  }

  ghost predicate Contributes(m: Member, x: string) {
    if m.value.Arr? then exists i :: 0 <= i < |m.value.elems| && x == Indexed(m.key, i)
    else x == m.key
  }

  lemma {:induction false} ListNamesMembers(ms: seq<Member>, x: string)
    ensures x in ListNames(ms, true) <==> exists j :: 0 <= j < |ms| && Contributes(ms[j], x)
  {
    if |ms| > 0 {
      ListNamesMembers(ms[1..], x);
      var e := Entries(ms[0], true);
      assert x in e <==> Contributes(ms[0], x) by {
        if ms[0].value.Arr? && Contributes(ms[0], x) {
          var i :| 0 <= i < |ms[0].value.elems| && x == Indexed(ms[0].key, i);
          assert e[i] == x;
        }
      }
      if exists j :: 0 <= j < |ms| && Contributes(ms[j], x) {
        var j :| 0 <= j < |ms| && Contributes(ms[j], x);
        if j > 0 {
          assert ms[1..][j - 1] == ms[j];
        }
      }
      if exists j :: 0 <= j < |ms| - 1 && Contributes(ms[1..][j], x) {
        var j :| 0 <= j < |ms| - 1 && Contributes(ms[1..][j], x);
        assert ms[j + 1] == ms[1..][j];
      }
    }
  }

  // ---------------------------------------------------------------------
  // getLen

  /** `getLen(name)` as written: it asks for a node that is an object and an
      array at once, which no value is, so the answer is always 0. */
  function GetLen(node: Value, name: CName): (r: int)
    ensures r == 0
  {
    if node.Obj? && node.Arr? then ArraySize(node) else 0
  }

  /** `Size()` of an array; the library defines it for arrays only. */
  function ArraySize(v: Value): nat {
    if v.Arr? then |v.elems| else 0
  }

  /** `getLen(name)` as evidently intended: the size of the array member `name`,
      and 0 when there is no such array. */
  function GetLenFixed(node: Value, name: CName): (r: nat)
    ensures r > 0 ==> Lookup(node, name).Some? && Lookup(node, name).value.Arr?
  {
    match Lookup(node, name)
    case Some(Arr(es)) => |es|
    case _ => 0
  }

  /** The corrected length agrees with the expanded listing: each index below
      it is listed as `name[i]`. */
  lemma GetLenFixedMatchesChildren(node: Value, name: CName)
    requires Lookup(node, name).Some? && Lookup(node, name).value.Arr?
    ensures GetLenFixed(node, name) == |Lookup(node, name).value.elems|
    ensures forall i :: 0 <= i < GetLenFixed(node, name) ==> Indexed(name, i) in GetChildren(node, true)
  {
    var j := FindKey(node.members, name).value;
    forall i | 0 <= i < GetLenFixed(node, name)
      ensures Indexed(name, i) in GetChildren(node, true)
    {
      assert Contributes(node.members[j], Indexed(name, i));
      ChildrenExpanded(node, Indexed(name, i));
    }
  }

  /** A node whose member "x" is a three-element array: `getLen("x")` gives 0
      although `getChildren(true)` lists x[0], x[1] and x[2]. */
  lemma GetLenIgnoresArrays()
    ensures var node := Obj([Member("x", Arr([Null, Null, Null]))]);
            && GetLen(node, "x") == 0
            && GetLenFixed(node, "x") == 3
            && Indexed("x", 2) in GetChildren(node, true)
  {
    var node := Obj([Member("x", Arr([Null, Null, Null]))]);
    GetLenFixedMatchesChildren(node, "x");
  }
}
