/** The document tree: a JSON-like tagged value whose objects are ordered
    association lists, navigated by key-paths. */
module Json {
  import opened Options

  /** One object member. Keys are owned strings. */
  datatype Member = Member(key: string, value: Value)

  /** A tagged value. `Int` stands for every integer kind (signed/unsigned,
      32/64-bit); `Float` stands for float and double, of which only one bit is
      kept: `zero` is the outcome of the `== 0.0` test `getValueAsBool` makes.
      A double within float range is narrowed to float before that test, so a
      tiny double such as 1e-50 has `zero` set. */
  datatype Value =
    | Null
    | Bool(b: bool)
    | Int(i: int)
    | Float(zero: bool)
    | Str(s: string)
    | Obj(members: seq<Member>)
    | Arr(elems: seq<Value>)

  /** The value `SetObject()` leaves behind. */
  const EmptyObject: Value := Obj([])

  /** A key-path from some node: the object keys to follow, outermost first. */
  type Path = seq<string>

  /** The index of the FIRST member called `k`, as a member lookup finds it. */
  function FindKey(ms: seq<Member>, k: string): (r: Option<nat>)
    ensures r.Some? ==> r.value < |ms| && ms[r.value].key == k
    ensures r.Some? ==> forall j :: 0 <= j < r.value ==> ms[j].key != k
    ensures r.None? <==> forall j :: 0 <= j < |ms| ==> ms[j].key != k
  {
    if |ms| == 0 then None
    else if ms[0].key == k then Some(0)
    else match FindKey(ms[1..], k)
      case None => None
      case Some(j) => Some(j + 1)
  }

  /** Membership test of an object: some member is called `k`. */
  predicate HasMember(ms: seq<Member>, k: string) {
    FindKey(ms, k).Some?
  }

  /** The keys of `ms`, in member order. */
  function Keys(ms: seq<Member>): (r: seq<string>)
    ensures |r| == |ms|
    ensures forall j :: 0 <= j < |ms| ==> r[j] == ms[j].key
  {
    seq(|ms|, j requires 0 <= j < |ms| => ms[j].key)
  }

  /** The value of member `k` of an object; `None` for a non-object or a
      missing key. */
  function Lookup(v: Value, k: string): (r: Option<Value>)
    ensures r.Some? <==> v.Obj? && HasMember(v.members, k)
  {
    if !v.Obj? then None
    else match FindKey(v.members, k)
      case None => None
      case Some(j) => Some(v.members[j].value)
  }

  /** The node a key-path leads to from `v`, if every step is an object
      holding the next key. */
  function At(v: Value, p: Path): Option<Value>
    decreases |p|
  {
    if |p| == 0 then Some(v)
    else match Lookup(v, p[0])
      case None => None
      case Some(c) => At(c, p[1..])
  }

  /** `v` with the node at `p` replaced by `x`. */
  function Replace(v: Value, p: Path, x: Value): Value
    requires At(v, p).Some?
    decreases |p|
  {
    if |p| == 0 then x
    else
      var j := FindKey(v.members, p[0]).value;
      Obj(v.members[j := Member(p[0], Replace(v.members[j].value, p[1..], x))])
  }

  /** `b` is `a` with zero or more members appended to objects, anywhere in
      the tree; nothing is removed, reordered or retagged. */
  predicate Grows(a: Value, b: Value) {
    match a
    case Obj(ms) =>
      && b.Obj?
      && |ms| <= |b.members|
      && (forall j :: 0 <= j < |ms| ==> b.members[j].key == ms[j].key)
      && (forall j :: 0 <= j < |ms| ==> Grows(ms[j].value, b.members[j].value))
    case _ => b == a
  }

  /** No object anywhere in the tree has two members with the same key. */
  predicate UniqueKeys(v: Value) {
    match v
    case Obj(ms) =>
      && (forall j, k :: 0 <= j < k < |ms| ==> ms[j].key != ms[k].key)
      && (forall j :: 0 <= j < |ms| ==> UniqueKeys(ms[j].value))
    case Arr(es) => forall j :: 0 <= j < |es| ==> UniqueKeys(es[j])
    case _ => true
  }

  // ---------------------------------------------------------------------
  // Member-list facts

  /** Lookup only looks at keys: lists with the same keys find the same index. */
  lemma {:induction false} FindKeySameKeys(ms: seq<Member>, ns: seq<Member>, k: string)
    requires Keys(ms) == Keys(ns)
    ensures FindKey(ms, k) == FindKey(ns, k)
  {
    if |ms| > 0 {
      assert Keys(ms[1..]) == Keys(ns[1..]) by {
        assert Keys(ms)[1..] == Keys(ms[1..]);
        assert Keys(ns)[1..] == Keys(ns[1..]);
      }
      FindKeySameKeys(ms[1..], ns[1..], k);
    }
  }

  /** Appending members never changes where an existing key is found, and a
      key found only among the appended ones is found there. */
  lemma {:induction false} FindKeyAppend(ms: seq<Member>, extra: seq<Member>, k: string)
    ensures FindKey(ms, k).Some? ==> FindKey(ms + extra, k) == FindKey(ms, k)
    ensures FindKey(ms, k).None? && FindKey(extra, k).Some? ==>
              FindKey(ms + extra, k) == Some(|ms| + FindKey(extra, k).value)
    ensures FindKey(ms, k).None? && FindKey(extra, k).None? ==> FindKey(ms + extra, k).None?
    decreases |ms|
  {
    if |ms| == 0 {
      assert ms + extra == extra;
    } else if ms[0].key != k {
      assert (ms + extra)[0] == ms[0];
      assert (ms + extra)[1..] == ms[1..] + extra;
      FindKeyAppend(ms[1..], extra, k);
    } else {
      assert (ms + extra)[0] == ms[0];
    }
  }

  /** Overwriting one member's value keeps the key list. */
  lemma KeysUpdate(ms: seq<Member>, j: nat, v: Value)
    requires j < |ms|
    ensures Keys(ms[j := Member(ms[j].key, v)]) == Keys(ms)
  {
  }

  // ---------------------------------------------------------------------
  // Paths

  /** Walking `p + q` is walking `p`, then `q` from where `p` ended. */
  lemma {:induction false} AtAppend(v: Value, p: Path, q: Path)
    ensures At(v, p + q) == (if At(v, p).Some? then At(At(v, p).value, q) else None)
    decreases |p|
  {
    if |p| == 0 {
      assert p + q == q;
    } else {
      assert |p + q| > 0;
      assert (p + q)[0] == p[0];
      assert (p + q)[1..] == p[1..] + q;
      match Lookup(v, p[0])
      case None =>
      case Some(c) =>
        assert At(v, p) == At(c, p[1..]);
        assert At(v, p + q) == At(c, p[1..] + q);
        AtAppend(c, p[1..], q);
    }
  }

  /** After a replacement, the replaced position holds the new node. */
  lemma {:induction false} AtReplace(v: Value, p: Path, x: Value)
    requires At(v, p).Some?
    ensures At(Replace(v, p, x), p) == Some(x)
    decreases |p|
  {
    if |p| > 0 {
      var j := FindKey(v.members, p[0]).value;
      var ms' := v.members[j := Member(p[0], Replace(v.members[j].value, p[1..], x))];
      KeysUpdate(v.members, j, Replace(v.members[j].value, p[1..], x));
      FindKeySameKeys(v.members, ms', p[0]);
      AtReplace(v.members[j].value, p[1..], x);
    }
  }

  /** Replacing the node at `p` leaves alone every node that is neither above
      nor below it. */
  lemma {:induction false} AtReplaceOther(v: Value, p: Path, q: Path, x: Value)
    requires At(v, p).Some?
    requires !(p <= q) && !(q <= p)
    ensures At(Replace(v, p, x), q) == At(v, q)
    decreases |p|
  {
    if q[0] == p[0] {
      var c := Lookup(v, p[0]).value;
      assert !(p[1..] <= q[1..]) && !(q[1..] <= p[1..]);
      AtReplaceOther(c, p[1..], q[1..], x);
      AtReplaceBelow(v, p, q, x);
    } else {
      AtReplaceBeside(v, p, q, x);
    }
  }

  /** `AtReplaceOther` when `q` leaves through the same member as `p`, given
      the claim one level down. */
  lemma AtReplaceBelow(v: Value, p: Path, q: Path, x: Value)
    requires |p| > 0 && |q| > 0 && p[0] == q[0] && At(v, p).Some?
    requires var c := Lookup(v, p[0]).value;
      At(Replace(c, p[1..], x), q[1..]) == At(c, q[1..])
    ensures At(Replace(v, p, x), q) == At(v, q)
  {
    var j := FindKey(v.members, p[0]).value;
    var c := v.members[j].value;
    var ms' := v.members[j := Member(p[0], Replace(c, p[1..], x))];
    KeysUpdate(v.members, j, Replace(c, p[1..], x));
    FindKeySameKeys(v.members, ms', p[0]);
    assert Lookup(Obj(ms'), q[0]) == Some(Replace(c, p[1..], x));
  }

  /** `AtReplaceOther` when `q` leaves through a different member than `p`. */
  lemma AtReplaceBeside(v: Value, p: Path, q: Path, x: Value)
    requires |p| > 0 && |q| > 0 && p[0] != q[0] && At(v, p).Some?
    ensures At(Replace(v, p, x), q) == At(v, q)
  {
    var j := FindKey(v.members, p[0]).value;
    var c := v.members[j].value;
    var ms' := v.members[j := Member(p[0], Replace(c, p[1..], x))];
    KeysUpdate(v.members, j, Replace(c, p[1..], x));
    FindKeySameKeys(v.members, ms', q[0]);
    var i := FindKey(v.members, q[0]);
    if i.Some? {
      assert ms'[i.value] == v.members[i.value];
      assert Lookup(Obj(ms'), q[0]) == Lookup(v, q[0]);
    }
  }

  /** Putting back what was there changes nothing. */
  lemma {:induction false} ReplaceSame(v: Value, p: Path)
    requires At(v, p).Some?
    ensures Replace(v, p, At(v, p).value) == v
    decreases |p|
  {
    if |p| > 0 {
      var j := FindKey(v.members, p[0]).value;
      ReplaceSame(v.members[j].value, p[1..]);
      assert v.members[j := Member(p[0], v.members[j].value)] == v.members;
    }
  }

  /** A second replacement at the same position overrides the first. */
  lemma {:induction false} ReplaceTwice(v: Value, p: Path, x: Value, y: Value)
    requires At(v, p).Some?
    ensures At(Replace(v, p, x), p).Some?
    ensures Replace(Replace(v, p, x), p, y) == Replace(v, p, y)
    decreases |p|
  {
    AtReplace(v, p, x);
    if |p| > 0 {
      var j := FindKey(v.members, p[0]).value;
      ReplaceTwice(v.members[j].value, p[1..], x, y);
      ReplaceTwiceStep(v, p, x, y, j);
    }
  }

  /** One level of `ReplaceTwice`, given the claim for the member on the path. */
  lemma ReplaceTwiceStep(v: Value, p: Path, x: Value, y: Value, j: nat)
    requires |p| > 0 && At(v, p).Some? && At(Replace(v, p, x), p).Some?
    requires FindKey(v.members, p[0]) == Some(j)
    requires var c := v.members[j].value;
      && At(c, p[1..]).Some?
      && At(Replace(c, p[1..], x), p[1..]).Some?
      && Replace(Replace(c, p[1..], x), p[1..], y) == Replace(c, p[1..], y)
    ensures Replace(Replace(v, p, x), p, y) == Replace(v, p, y)
  {
    var c := v.members[j].value;
    var rx := Replace(c, p[1..], x);
    var ms' := v.members[j := Member(p[0], rx)];
    assert Replace(v, p, x) == Obj(ms');
    KeysUpdate(v.members, j, rx);
    FindKeySameKeys(v.members, ms', p[0]);
    assert FindKey(ms', p[0]) == Some(j);
    assert Replace(Obj(ms'), p, y) == Obj(ms'[j := Member(p[0], Replace(rx, p[1..], y))]);
    assert ms'[j := Member(p[0], Replace(rx, p[1..], y))] == v.members[j := Member(p[0], Replace(c, p[1..], y))];
  }

  /** Replacing a child of the node at `p` is replacing that node by a copy
      whose member is updated. */
  lemma {:induction false} ReplaceChild(v: Value, p: Path, k: string, x: Value)
    requires At(v, p).Some? && At(v, p).value.Obj?
    requires HasMember(At(v, p).value.members, k)
    ensures At(v, p + [k]).Some?
    ensures var ms := At(v, p).value.members;
            var j := FindKey(ms, k).value;
            Replace(v, p + [k], x) == Replace(v, p, Obj(ms[j := Member(k, x)]))
    decreases |p|
  {
    AtAppend(v, p, [k]);
    if |p| > 0 {
      var j := FindKey(v.members, p[0]).value;
      assert (p + [k])[0] == p[0];
      assert (p + [k])[1..] == p[1..] + [k];
      ReplaceChild(v.members[j].value, p[1..], k, x);
    }
  }

  // ---------------------------------------------------------------------
  // Growth

  lemma {:induction false} GrowsRefl(v: Value)
    ensures Grows(v, v)
  {
    match v
    case Obj(ms) =>
      forall j | 0 <= j < |ms|
        ensures Grows(ms[j].value, ms[j].value)
      {
        GrowsRefl(ms[j].value);
      }
    case _ =>
  }

  /** A grown tree still has every path the original had. */
  lemma {:induction false} GrowsKeepsPaths(a: Value, b: Value, p: Path)
    requires Grows(a, b)
    requires At(a, p).Some?
    ensures At(b, p).Some? && Grows(At(a, p).value, At(b, p).value)
    decreases |p|
  {
    if |p| > 0 {
      var j := FindKey(a.members, p[0]).value;
      FindKeyAppend(b.members[..|a.members|], b.members[|a.members|..], p[0]);
      assert b.members[..|a.members|] + b.members[|a.members|..] == b.members;
      FindKeySameKeys(a.members, b.members[..|a.members|], p[0]);
      GrowsKeepsPaths(a.members[j].value, b.members[j].value, p[1..]);
    }
  }
}
