/** Typed accessors on a resolved node (`getBool`, `getInt`, `getString`,
    `setInt`, `setString`) and the coercions they read through
    (`getValueAsBool`, `getValueAsInt`, `getValueAsString`).

    The integer and string coercions yield `None` only where this model does
    not describe the conversion: a floating-point value, and `std::stoi` of a
    string. */
module Accessors {
  import opened Options
  import opened Text
  import opened Decimal
  import opened Json
  import opened Nodes

  /** The only strings that read as `true`. */
  const TrueSpellings: set<string> := {"true", "True", "TRUE"}

  /** The reference meaning of a bool or number read as bool: a bool as
      itself, an integer when it is non-zero, and a float or double when its
      `== 0.0` test (taken after a double in float range is narrowed to
      float) fails. A double that underflows to 0.0f therefore counts as
      zero here. */
  predicate NonZero(v: Value)
    requires v.Bool? || v.Int? || v.Float?
  {
    match v
    case Bool(b) => b
    case Int(i) => i != 0
    case Float(z) => !z
  }

  /** `getValueAsBool` as written: a bool as itself, an integer as "non-zero",
      a float or double as "equals 0.0", a string as one of three spellings of
      "true", anything else as false. */
  function ValueAsBoolAsWritten(v: Value): (r: bool)
    ensures v.Float? ==> r == v.zero
    ensures v.Int? ==> r == (v.i != 0)
  {
    match v
    case Bool(b) => b
    case Int(i) => i != 0
    case Float(z) => z
    case Str(s) => CStr(s) == "true" || CStr(s) == "True" || CStr(s) == "TRUE"
    case _ => false
  }

  /** `getValueAsBool` with the float and double branches' `== 0.0` test
      inverted, so that they read "not equal to zero" like the integer ones;
      `GetBoolFixed` reads through this one. */
  function ValueAsBool(v: Value): (r: bool)
    ensures v.Bool? || v.Int? || v.Float? ==> (r <==> NonZero(v))
    ensures v.Str? ==> (r <==> CStr(v.s) in TrueSpellings)
    ensures v.Null? || v.Obj? || v.Arr? ==> !r
  {
    match v
    case Float(z) => !z
    case _ => ValueAsBoolAsWritten(v)
  }

  /** As written, a float or double reads the other way round from every other
      number: 0.0 is true and 1.5 false, while the integer 0 is false. */
  lemma FloatTruthInverted(z: bool)
    ensures ValueAsBoolAsWritten(Float(z)) == !NonZero(Float(z))
    ensures ValueAsBoolAsWritten(Float(z)) != ValueAsBool(Float(z))
    ensures ValueAsBoolAsWritten(Float(true)) && !ValueAsBoolAsWritten(Int(0))
  {
  }

  /** `getValueAsInt`: a bool as 0 or 1, an integer narrowed to `int`,
      anything that is not a number, bool or string as 0. */
  function ValueAsInt(v: Value): (r: Option<Int32>)
    ensures r.None? <==> v.Float? || v.Str?
    ensures v.Int? && -0x8000_0000 <= v.i < 0x8000_0000 ==> r == Some(v.i)
    ensures v.Int? ==> (v.i - r.value) % 0x1_0000_0000 == 0
    ensures v.Bool? ==> r == Some(if v.b then 1 else 0)
    ensures v.Null? || v.Obj? || v.Arr? ==> r == Some(0)
  {
    match v
    case Bool(b) => Some(if b then 1 else 0)
    case Int(i) => Some(Wrap32(i))
    case Float(_) => None
    case Str(_) => None
    case _ => Some(0)
  }

  /** `getValueAsString`: "true"/"false" for a bool, decimal text for an
      integer, the C string of a string, and a fixed message otherwise. */
  function ValueAsString(v: Value): (r: Option<string>)
    ensures r.None? <==> v.Float?
    ensures v.Str? ==> r == Some(CStr(v.s))
    ensures v.Bool? ==> r == Some(if v.b then "true" else "false")
    ensures v.Int? ==> ParseInt(r.value) == Some(v.i)
    ensures v.Null? || v.Obj? || v.Arr? ==> r == Some("unhandled value type")
  {
    match v
    case Bool(b) => Some(if b then "true" else "false")
    case Int(i) =>
      IntToStringRoundTrip(i);
      Some(IntToString(i))
    case Float(_) => None
    case Str(s) => Some(CStr(s))
    case _ => Some("unhandled value type")
  }

  /** The member `name` of the node, for the getters. */
  function Child(node: Value, name: CName): Value
    requires HasChild(node, name)
  {
    Lookup(node, name).value
  }

  /** `getBool(name)` as written: false unless the node is an object with that
      member, which is then read by `getValueAsBool` as written. */
  function GetBool(node: Value, name: CName): (r: bool)
    ensures !HasChild(node, name) ==> !r
    ensures HasChild(node, name) ==> r == ValueAsBoolAsWritten(Lookup(node, name).value)
  {
    if HasChild(node, name) then ValueAsBoolAsWritten(Child(node, name)) else false
  }

  /** `getBool(name)` reading the member through the corrected `ValueAsBool`. */
  function GetBoolFixed(node: Value, name: CName): (r: bool)
    ensures !HasChild(node, name) ==> !r
    ensures HasChild(node, name) ==> r == ValueAsBool(Lookup(node, name).value)
  {
    if HasChild(node, name) then ValueAsBool(Child(node, name)) else false
  }

  /** The two readings of `getBool` part exactly on a float or double member,
      and there they are opposite. */
  lemma GetBoolFixedDiffersOnFloats(node: Value, name: CName)
    ensures GetBool(node, name) != GetBoolFixed(node, name) <==>
              HasChild(node, name) && Lookup(node, name).value.Float?
  {
    if HasChild(node, name) {
      var v := Lookup(node, name).value;
      if !v.Float? {
        assert ValueAsBool(v) == ValueAsBoolAsWritten(v);
      }
    }
  }

  /** `getInt(name)`: 0 unless the node is an object with that member. */
  function GetInt(node: Value, name: CName): (r: Option<Int32>)
    ensures !HasChild(node, name) ==> r == Some(0)
    ensures HasChild(node, name) ==> r == ValueAsInt(Lookup(node, name).value)
  {
    if HasChild(node, name) then ValueAsInt(Child(node, name)) else Some(0)
  }

  /** `getString(name)`: a message naming the member when the node is not an
      object or has no such member. */
  function GetString(node: Value, name: CName): (r: Option<string>)
    ensures !node.Obj? ==> r == Some(name + ": not an object")
    ensures node.Obj? && !HasChild(node, name) ==> r == Some(name + ": not a member")
    ensures HasChild(node, name) ==> r == ValueAsString(Lookup(node, name).value)
  {
    if !node.Obj? then Some(name + ": not an object")
    else if !HasMember(node.members, name) then Some(name + ": not a member")
    else ValueAsString(Child(node, name))
  }

  /** The members a setter starts from: those of the node, or none once a
      non-object has been turned into an empty object. */
  function MembersOf(node: Value): seq<Member> {
    if node.Obj? then node.members else []
  }

  /** The common shape of the setters: turn a non-object into an empty object,
      append `name` with a placeholder value when it is missing, then overwrite
      the member `name` with `v`. */
  function Store(node: Value, name: CName, placeholder: Value, v: Value): (r: Value)
    ensures r.Obj?
    ensures Lookup(r, name) == Some(v)
    ensures forall k :: k != name ==> Lookup(r, k) == Lookup(Obj(MembersOf(node)), k)
    ensures Keys(r.members) ==
              Keys(MembersOf(node)) + (if HasMember(MembersOf(node), name) then [] else [name])
  {
    var prev := MembersOf(node);
    var ms := if HasMember(prev, name) then prev else prev + [Member(name, placeholder)];
    FindKeyAppend(prev, [Member(name, placeholder)], name);
    var j := FindKey(ms, name).value;
    var ms' := ms[j := Member(name, v)];
    KeysUpdate(ms, j, v);
    FindKeySameKeys(ms, ms', name);
    StoreOthers(prev, ms, ms', j, name, placeholder, v);
    assert Keys(ms) == Keys(prev) + (if HasMember(prev, name) then [] else [name]);
    Obj(ms')
  }

  lemma StoreOthers(prev: seq<Member>, ms: seq<Member>, ms': seq<Member>, j: nat, name: string, placeholder: Value, v: Value)
    requires ms == if HasMember(prev, name) then prev else prev + [Member(name, placeholder)]
    requires j < |ms| && ms[j].key == name && ms' == ms[j := Member(name, v)]
    ensures forall k :: k != name ==> Lookup(Obj(ms'), k) == Lookup(Obj(prev), k)
  {
    forall k | k != name
      ensures Lookup(Obj(ms'), k) == Lookup(Obj(prev), k)
    {
      KeysUpdate(ms, j, v);
      FindKeySameKeys(ms, ms', k);
      FindKeyAppend(prev, [Member(name, placeholder)], k);
    }
  }

  /** `setInt(name, n)`: afterwards the node is an object whose member `name`
      holds exactly the integer `n`; every other member is as before, a key is
      appended only when it was missing, and the call reports success. */
  function SetInt(node: Value, name: CName, n: Int32): (r: (Value, bool))
    ensures r.1
    ensures r.0.Obj? && Lookup(r.0, name) == Some(Int(n))
    ensures forall k :: k != name ==> Lookup(r.0, k) == Lookup(Obj(MembersOf(node)), k)
    ensures Keys(r.0.members) ==
              Keys(MembersOf(node)) + (if HasMember(MembersOf(node), name) then [] else [name])
  {
    (Store(node, name, Int(n), Int(n)), true)
  }

  /** `setString(name, s)`: as `SetInt`, with the member holding the string `s`
      (all of it: the length is passed along, NUL characters included). */
  function SetString(node: Value, name: CName, s: string): (r: (Value, bool))
    ensures r.1
    ensures r.0.Obj? && Lookup(r.0, name) == Some(Str(s))
    ensures forall k :: k != name ==> Lookup(r.0, k) == Lookup(Obj(MembersOf(node)), k)
    ensures Keys(r.0.members) ==
              Keys(MembersOf(node)) + (if HasMember(MembersOf(node), name) then [] else [name])
  {
    (Store(node, name, Str(""), Str(s)), true)
  }

  /** `setInt` through a handle: the node at `at` in the document is
      rewritten in place, and every node neither above nor below it stays. */
  function SetIntAt(doc: Value, at: Path, name: CName, n: Int32): (r: (Value, bool))
    requires At(doc, at).Some?
    ensures r.1
    ensures At(r.0, at) == Some(SetInt(At(doc, at).value, name, n).0)
    ensures forall q :: !(at <= q) && !(q <= at) ==> At(r.0, q) == At(doc, q)
  {
    var node := SetInt(At(doc, at).value, name, n).0;
    AtReplace(doc, at, node);
    forall q | !(at <= q) && !(q <= at)
      ensures At(Replace(doc, at, node), q) == At(doc, q)
    {
      AtReplaceOther(doc, at, q, node);
    }
    (Replace(doc, at, node), true)
  }

  /** `setString` through a handle, as `SetIntAt`. */
  function SetStringAt(doc: Value, at: Path, name: CName, s: string): (r: (Value, bool))
    requires At(doc, at).Some?
    ensures r.1
    ensures At(r.0, at) == Some(SetString(At(doc, at).value, name, s).0)
    ensures forall q :: !(at <= q) && !(q <= at) ==> At(r.0, q) == At(doc, q)
  {
    var node := SetString(At(doc, at).value, name, s).0;
    AtReplace(doc, at, node);
    forall q | !(at <= q) && !(q <= at)
      ensures At(Replace(doc, at, node), q) == At(doc, q)
    {
      AtReplaceOther(doc, at, q, node);
    }
    (Replace(doc, at, node), true)
  }

  // ---------------------------------------------------------------------
  // Round trips and agreement between the coercions

  /** After `setInt(name, n)`: `getInt` gives `n`, `getBool` gives `n != 0`,
      and `getString` gives decimal text that reads back as `n`. */
  lemma SetIntRoundTrip(node: Value, name: CName, n: Int32)
    ensures var d := SetInt(node, name, n).0;
            && GetInt(d, name) == Some(n)
            && GetBool(d, name) == (n != 0)
            && GetBoolFixed(d, name) == (n != 0)
            && GetString(d, name) == Some(IntToString(n))
            && ParseInt(GetString(d, name).value) == Some(n)
  {
    IntToStringRoundTrip(n);
  }

  /** After `setString(name, s)`, `getString` gives `s` up to its first NUL,
      so all of `s` when it has none; and `getBool` is true for "true". */
  lemma SetStringRoundTrip(node: Value, name: CName, s: string)
    ensures var d := SetString(node, name, s).0;
            && GetString(d, name) == Some(CStr(s))
            && ('\0' !in s ==> GetString(d, name) == Some(s))
            && (s == "true" ==> GetBool(d, name))
  {
    if '\0' !in s {
      CStrOfCName(s);
    }
    if s == "true" {
      CStrOfCName(s);
    }
  }

  /** The member list `Store` leaves: the first `name` overwritten in place,
      or `name` appended at the end. */
  lemma StoreShape(node: Value, name: CName, p: Value, v: Value)
    ensures var prev := MembersOf(node);
            Store(node, name, p, v).members ==
              if HasMember(prev, name) then prev[FindKey(prev, name).value := Member(name, v)]
              else prev + [Member(name, v)]
  {
    var prev := MembersOf(node);
    FindKeyAppend(prev, [Member(name, p)], name);
    if !HasMember(prev, name) {
      assert (prev + [Member(name, p)])[|prev| := Member(name, v)] == prev + [Member(name, v)];
    }
  }

  /** Storing twice under the same name is storing the second value once. */
  lemma StoreTwice(node: Value, name: CName, p1: Value, v1: Value, p2: Value, v2: Value)
    ensures Store(Store(node, name, p1, v1), name, p2, v2) == Store(node, name, p2, v2)
  {
    var r1 := Store(node, name, p1, v1);
    var r2 := Store(r1, name, p2, v2);
    var r := Store(node, name, p2, v2);
    StoreTwiceMembers(node, name, p1, v1, p2, v2);
    assert r2 == Obj(r2.members) && r == Obj(r.members);
  }

  lemma StoreTwiceMembers(node: Value, name: CName, p1: Value, v1: Value, p2: Value, v2: Value)
    ensures Store(Store(node, name, p1, v1), name, p2, v2).members == Store(node, name, p2, v2).members
  {
    var prev := MembersOf(node);
    var r1 := Store(node, name, p1, v1);
    StoreShape(node, name, p1, v1);
    StoreShape(r1, name, p2, v2);
    StoreShape(node, name, p2, v2);
    assert MembersOf(r1) == r1.members;
    if HasMember(prev, name) {
      StoreTwicePresent(prev, name, v1, v2);
    } else {
      StoreTwiceAbsent(prev, name, v1, v2);
    }
  }

  lemma StoreTwicePresent(prev: seq<Member>, name: string, v1: Value, v2: Value)
    requires HasMember(prev, name)
    ensures var j := FindKey(prev, name).value;
            var ms1 := prev[j := Member(name, v1)];
            && HasMember(ms1, name)
            && ms1[FindKey(ms1, name).value := Member(name, v2)] == prev[j := Member(name, v2)]
  {
    var j := FindKey(prev, name).value;
    KeysUpdate(prev, j, v1);
    FindKeySameKeys(prev, prev[j := Member(name, v1)], name);
  }

  lemma StoreTwiceAbsent(prev: seq<Member>, name: string, v1: Value, v2: Value)
    requires !HasMember(prev, name)
    ensures var ms1 := prev + [Member(name, v1)];
            && HasMember(ms1, name)
            && ms1[FindKey(ms1, name).value := Member(name, v2)] == prev + [Member(name, v2)]
  {
    FindKeyAppend(prev, [Member(name, v1)], name);
    assert (prev + [Member(name, v1)])[|prev| := Member(name, v2)] == prev + [Member(name, v2)];
  }

  /** Setting the same value twice is the same as setting it once. */
  lemma SetIntIdempotent(node: Value, name: CName, n: Int32)
    ensures SetInt(SetInt(node, name, n).0, name, n) == SetInt(node, name, n)
  {
    StoreTwice(node, name, Int(n), Int(n), Int(n), Int(n));
  }

  /** A later `setInt` of the same member wins, and leaves the same member
      list as setting the last value alone. */
  lemma SetIntLastWins(node: Value, name: CName, a: Int32, b: Int32)
    ensures SetInt(SetInt(node, name, a).0, name, b) == SetInt(node, name, b)
  {
    StoreTwice(node, name, Int(a), Int(a), Int(b), Int(b));
  }

  /** The setters never give an object two members with the same key,
      whatever placeholder they append: `setInt` and `setString` alike. */
  lemma SetKeepsKeysUnique(node: Value, name: CName, p: Value, v: Value)
    requires UniqueKeys(node) && UniqueKeys(v)
    ensures UniqueKeys(Store(node, name, p, v))
    ensures forall n: Int32 :: UniqueKeys(SetInt(node, name, n).0)
    ensures forall s :: UniqueKeys(SetString(node, name, s).0)
  {
    forall n: Int32 ensures UniqueKeys(SetInt(node, name, n).0) {
      StoreKeepsKeysUnique(node, name, Int(n), Int(n));
    }
    forall s ensures UniqueKeys(SetString(node, name, s).0) {
      StoreKeepsKeysUnique(node, name, Str(""), Str(s));
    }
    StoreKeepsKeysUnique(node, name, p, v);
  }

  lemma StoreKeepsKeysUnique(node: Value, name: CName, p: Value, v: Value)
    requires UniqueKeys(node) && UniqueKeys(v)
    ensures UniqueKeys(Store(node, name, p, v))
  {
    var prev := MembersOf(node);
    var r := Store(node, name, p, v);
    var ks := Keys(r.members);
    forall a, b | 0 <= a < b < |r.members|
      ensures r.members[a].key != r.members[b].key
    {
      assert ks[a] == r.members[a].key && ks[b] == r.members[b].key;
      if b >= |prev| {
        assert ks[b] == name && !HasMember(prev, name);
      }
    }
    forall a | 0 <= a < |r.members|
      ensures UniqueKeys(r.members[a].value)
    {
      if r.members[a].key == name {
        assert FindKey(r.members, name).Some?;
        var j := FindKey(r.members, name).value;
        assert a == j;
        assert Lookup(r, name) == Some(r.members[a].value);
      } else {
        var k := r.members[a].key;
        assert FindKey(r.members, k).Some?;
        assert FindKey(r.members, k).value == a;
        assert Lookup(r, k) == Lookup(Obj(prev), k);
      }
    }
  }

  /** A bool and an `int`-sized integer read the same as bool and as integer. */
  lemma BoolAgreesWithInt(v: Value)
    requires v.Bool? || (v.Int? && -0x8000_0000 <= v.i < 0x8000_0000)
    ensures ValueAsBool(v) == (ValueAsInt(v).value != 0)
  {
  }

  /** A member holding an integer too wide for `int` still reads through
      `getString` as its exact decimal text, while `getInt` wraps it modulo
      2^32 and `getBool` tests the full value: 2^32 reads as "4294967296", as
      0 and as true. */
  lemma WideIntegerReads(node: Value, name: CName)
    requires HasChild(node, name) && Lookup(node, name).value.Int?
    ensures var i := Lookup(node, name).value.i;
            && ParseInt(GetString(node, name).value) == Some(i)
            && (i - GetInt(node, name).value) % 0x1_0000_0000 == 0
            && (GetBool(node, name) <==> i != 0)
  {
  }

  /** Two out-of-range examples: 2^32 narrows to 0 yet reads as true, and
      2^31 narrows to the most negative `int`. */
  lemma NarrowingExamples()
    ensures ValueAsInt(Int(0x1_0000_0000)) == Some(0)
    ensures ValueAsBool(Int(0x1_0000_0000))
    ensures ValueAsInt(Int(0x8000_0000)) == Some(-0x8000_0000)
  {
    assert 0x1_0000_0000 % 0x1_0000_0000 == 0;
    assert 0x8000_0000 % 0x1_0000_0000 == 0x8000_0000;
  }

  /** A bool written as text reads back as the same bool. */
  lemma BoolTextRoundTrip(b: bool)
    ensures ValueAsBool(Str(ValueAsString(Bool(b)).value)) == b
  {
    CStrOfCName("true");
    CStrOfCName("false");
  }

  /** Only the three listed spellings read as true: no other capitalisation,
      and no "1". */
  lemma StringTruthIsExact()
    ensures ValueAsBool(Str("True"))
    ensures !ValueAsBool(Str("tRUE"))
    ensures !ValueAsBool(Str("1"))
  {
    CStrOfCName("True");
    CStrOfCName("tRUE");
    CStrOfCName("1");
  }

  /** Text after a NUL is not part of the string as read: "true" followed by a
      NUL and more text reads as true. */
  lemma StringTruthStopsAtNul(rest: string)
    ensures ValueAsBool(Str("true" + ['\0'] + rest))
  {
    CStrStopsAtNul("true", rest);
  }
}
