/** The absolute-path resolver: `PropertyNode(abs_path, create)`.

    A handle is the key-path from the document root to the node it designates.
    The resolver coerces a non-object root into an empty object, splits the path
    on '/', skips empty pieces, and for each remaining segment descends into the
    existing member or, when `create` is set, first appends an empty object under
    that key. Member lookup on a non-object is an assertion failure of the JSON
    library; the model reports it as `AssertFails`. */
module Resolver {
  import opened Options
  import opened Text
  import opened Json

  /** A property node: empty, or the key-path of the node it stands for. */
  datatype Handle = NoNode | Node(path: Path)

  /** The document after the call, and the handle it produced; or the
      library's assertion failure. */
  datatype Resolution = Done(doc: Value, handle: Handle) | AssertFails

  /** Outcome of walking a segment list below one node: the rewritten node, a
      missing key (only when not creating), or a lookup on a non-object. */
  datatype Step = Reached(node: Value) | Missing | Asserted

  predicate IsAbsolute(path: string) {
    |path| > 0 && path[0] == '/'
  }

  /** The keys a path names: its '/'-separated pieces, empty ones dropped. */
  function Segments(path: string): Path {
    NonEmpty(Split(path, '/'))
  }

  /** A root that is not an object becomes an empty object. */
  function CoerceRoot(doc: Value): Value {
    if doc.Obj? then doc else EmptyObject
  }

  /** Some segment other than the last is reached at an existing node that is
      not an object, so the next member lookup asserts. */
  ghost predicate Blocked(node: Value, segs: Path) {
    exists n :: 0 <= n < |segs| && At(node, segs[..n]).Some? && !At(node, segs[..n]).value.Obj?
  }

  /** Walks `segs` below `node`, creating missing members when `create` is set;
      the structural description of the resolver loop. */
  function Descend(node: Value, segs: Path, create: bool): Step
    decreases |segs|
  {
    if |segs| == 0 then Reached(node)
    else if !node.Obj? then Asserted
    else
      var k := segs[0];
      match FindKey(node.members, k)
      case Some(j) =>
        (match Descend(node.members[j].value, segs[1..], create)
         case Reached(c) => Reached(Obj(node.members[j := Member(k, c)]))
         case Missing => Missing
         case Asserted => Asserted)
      case None =>
        if !create then Missing
        else
          (match Descend(EmptyObject, segs[1..], create)
           case Reached(c) => Reached(Obj(node.members + [Member(k, c)]))
           case other => other)
  }

  /** Resolution of `segs` starting from the node at `at` of document `d`. */
  function Lift(d: Value, at: Path, segs: Path, create: bool): Resolution
    requires At(d, at).Some?
  {
    match Descend(At(d, at).value, segs, create)
    case Reached(n) => Done(Replace(d, at, n), Node(at + segs))
    case Missing => Done(d, NoNode)
    case Asserted => AssertFails
  }

  /** `PropertyNode(abs_path, create)` against document `doc`. */
  function Resolve(doc: Value, path: CName, create: bool): Resolution {
    if !IsAbsolute(path) then Done(doc, NoNode)
    else Lift(CoerceRoot(doc), [], Segments(path), create)
  }

  /** The resolver loop as written: every split token is visited, empty ones
      are skipped, and `at` plays the role of the C++ variable `node`. */
  method ResolvePath(doc: Value, path: CName, create: bool) returns (r: Resolution)
    ensures r == Resolve(doc, path, create)
  {
    if |path| == 0 || path[0] != '/' {
      return Done(doc, NoNode);
    }
    var d := CoerceRoot(doc);
    var tokens := Split(path, '/');
    var at: Path := [];
    var i := 0;
    while i < |tokens|
      invariant 0 <= i <= |tokens|
      invariant At(d, at).Some?
      invariant Lift(d, at, NonEmpty(tokens[i..]), create) == Lift(CoerceRoot(doc), [], NonEmpty(tokens), create)
    {
      var tok := tokens[i];
      assert tokens[i..][1..] == tokens[i + 1..];
      if |tok| == 0 {
        i := i + 1;
        continue;
      }
      var node := At(d, at).value;
      if !node.Obj? {
        return AssertFails;
      }
      var found := FindKey(node.members, tok);
      if found.None? && create {
        LiftCreate(d, at, tok, NonEmpty(tokens[i + 1..]));
        d := Replace(d, at, Obj(node.members + [Member(tok, EmptyObject)]));
      } else if found.None? {
        return Done(d, NoNode);
      } else {
        LiftExisting(d, at, tok, NonEmpty(tokens[i + 1..]), create);
      }
      at := at + [tok];
      i := i + 1;
    }
    LiftEnd(d, at, create);
    return Done(d, Node(at));
  }

  // ---------------------------------------------------------------------
  // One loop step equals one step of the structural walk

  lemma LiftExisting(d: Value, at: Path, k: string, rest: Path, create: bool)
    requires At(d, at).Some? && At(d, at).value.Obj?
    requires HasMember(At(d, at).value.members, k)
    ensures At(d, at + [k]).Some?
    ensures Lift(d, at + [k], rest, create) == Lift(d, at, [k] + rest, create)
  {
    var ms := At(d, at).value.members;
    var j := FindKey(ms, k).value;
    AtAppend(d, at, [k]);
    assert At(At(d, at).value, [k]) == Some(ms[j].value);
    assert ([k] + rest)[0] == k && ([k] + rest)[1..] == rest;
    assert at + ([k] + rest) == (at + [k]) + rest;
    match Descend(ms[j].value, rest, create)
    case Reached(c) => ReplaceChild(d, at, k, c);
    case Missing =>
    case Asserted =>
  }

  lemma LiftCreate(d: Value, at: Path, k: string, rest: Path)
    requires At(d, at).Some? && At(d, at).value.Obj?
    requires !HasMember(At(d, at).value.members, k)
    ensures var ms := At(d, at).value.members;
            var d1 := Replace(d, at, Obj(ms + [Member(k, EmptyObject)]));
            && At(d1, at + [k]).Some?
            && Lift(d1, at + [k], rest, true) == Lift(d, at, [k] + rest, true)
  {
    LiftBelowCreated(d, at, k, rest);
    LiftAtCreating(d, at, k, rest);
  }

  /** Resolving `[k] + rest` where `k` is missing appends the finished subtree under `k`. */
  lemma LiftAtCreating(d: Value, at: Path, k: string, rest: Path)
    requires At(d, at).Some? && At(d, at).value.Obj?
    requires !HasMember(At(d, at).value.members, k)
    ensures Descend(EmptyObject, rest, true).Reached?
    ensures var ms := At(d, at).value.members;
            var c := Descend(EmptyObject, rest, true).node;
            Lift(d, at, [k] + rest, true) == Done(Replace(d, at, Obj(ms + [Member(k, c)])), Node((at + [k]) + rest))
  {
    var ms := At(d, at).value.members;
    assert At(d, at).value == Obj(ms);
    DescendCreateStep(Obj(ms), k, rest);
    assert at + ([k] + rest) == (at + [k]) + rest;
  }

  /** Walking on from a freshly appended empty object amounts to appending
      the finished subtree in one go. */
  lemma LiftBelowCreated(d: Value, at: Path, k: string, rest: Path)
    requires At(d, at).Some? && At(d, at).value.Obj?
    requires !HasMember(At(d, at).value.members, k)
    ensures Descend(EmptyObject, rest, true).Reached?
    ensures var ms := At(d, at).value.members;
            var d1 := Replace(d, at, Obj(ms + [Member(k, EmptyObject)]));
            var c := Descend(EmptyObject, rest, true).node;
            && At(d1, at + [k]).Some?
            && Lift(d1, at + [k], rest, true) == Done(Replace(d, at, Obj(ms + [Member(k, c)])), Node((at + [k]) + rest))
  {
    var ms := At(d, at).value.members;
    var ms1 := ms + [Member(k, EmptyObject)];
    var d1 := Replace(d, at, Obj(ms1));
    CreatedChildAt(d, at, k);
    CreateFromEmpty(rest);
    var c := Descend(EmptyObject, rest, true).node;
    ReplaceChild(d1, at, k, c);
    assert ms1[|ms| := Member(k, c)] == ms + [Member(k, c)];
    ReplaceTwice(d, at, Obj(ms1), Obj(ms + [Member(k, c)]));
  }

  /** After appending an empty object under `k`, the path one level down leads to it. */
  lemma CreatedChildAt(d: Value, at: Path, k: string)
    requires At(d, at).Some? && At(d, at).value.Obj?
    requires !HasMember(At(d, at).value.members, k)
    ensures var ms := At(d, at).value.members;
            var d1 := Replace(d, at, Obj(ms + [Member(k, EmptyObject)]));
            && At(d1, at) == Some(Obj(ms + [Member(k, EmptyObject)]))
            && FindKey(ms + [Member(k, EmptyObject)], k) == Some(|ms|)
            && At(d1, at + [k]) == Some(EmptyObject)
  {
    var ms := At(d, at).value.members;
    var ms1 := ms + [Member(k, EmptyObject)];
    var d1 := Replace(d, at, Obj(ms1));
    AtReplace(d, at, Obj(ms1));
    FindKeyAppend(ms, [Member(k, EmptyObject)], k);
    AtAppend(d1, at, [k]);
  }

  /** One creating step of the walk, for a key the object lacks. */
  lemma DescendCreateStep(node: Value, k: string, rest: Path)
    requires node.Obj? && !HasMember(node.members, k)
    ensures Descend(EmptyObject, rest, true).Reached?
    ensures Descend(node, [k] + rest, true) ==
              Reached(Obj(node.members + [Member(k, Descend(EmptyObject, rest, true).node)]))
  {
    CreateFromEmpty(rest);
    assert ([k] + rest)[0] == k && ([k] + rest)[1..] == rest;
  }

  lemma LiftEnd(d: Value, at: Path, create: bool)
    requires At(d, at).Some?
    ensures Lift(d, at, [], create) == Done(d, Node(at))
  {
    ReplaceSame(d, at);
    assert at + [] == at;
  }

  // ---------------------------------------------------------------------
  // Facts about the structural walk

  /** Below a freshly created empty object every segment is created. */
  lemma {:induction false} CreateFromEmpty(segs: Path)
    ensures Descend(EmptyObject, segs, true).Reached?
    decreases |segs|
  {
    if |segs| > 0 {
      CreateFromEmpty(segs[1..]);
    }
  }

  /** `segs[..n]` taken one level down. */
  lemma AtPrefixStep(node: Value, segs: Path, n: nat)
    requires 1 <= n <= |segs|
    ensures At(node, segs[..n]) ==
              (if Lookup(node, segs[0]).Some? then At(Lookup(node, segs[0]).value, segs[1..][..n - 1]) else None)
  {
    assert segs[..n][0] == segs[0];
    assert segs[..n][1..] == segs[1..][..n - 1];
  }

  /** A path that is already there is walked without any change. */
  lemma {:induction false} DescendPresent(node: Value, segs: Path, create: bool)
    requires At(node, segs).Some?
    ensures Descend(node, segs, create) == Reached(node)
    decreases |segs|
  {
    if |segs| > 0 {
      var ms := node.members;
      var j := FindKey(ms, segs[0]).value;
      DescendPresent(ms[j].value, segs[1..], create);
      assert ms[j := Member(segs[0], ms[j].value)] == ms;
    }
  }

  /** Without `create`, reaching the end means the path was there. */
  lemma {:induction false} DescendReachedWithoutCreate(node: Value, segs: Path)
    requires Descend(node, segs, false).Reached?
    ensures At(node, segs).Some?
    decreases |segs|
  {
    if |segs| > 0 {
      var j := FindKey(node.members, segs[0]).value;
      DescendReachedWithoutCreate(node.members[j].value, segs[1..]);
    }
  }

  /** The walk asserts exactly when it has to look up a key in a non-object. */
  lemma {:induction false} DescendAssertsIff(node: Value, segs: Path, create: bool)
    ensures Descend(node, segs, create).Asserted? <==> Blocked(node, segs)
    decreases |segs|
  {
    if |segs| == 0 {
    } else if !node.Obj? {
      assert segs[..0] == [];
      assert At(node, segs[..0]) == Some(node);
    } else {
      var k := segs[0];
      var rest := segs[1..];
      assert segs[..0] == [];
      match FindKey(node.members, k)
      case Some(j) =>
        var c := node.members[j].value;
        DescendAssertsIff(c, rest, create);
        if Blocked(c, rest) {
          var n :| 0 <= n < |rest| && At(c, rest[..n]).Some? && !At(c, rest[..n]).value.Obj?;
          AtPrefixStep(node, segs, n + 1);
        }
        if Blocked(node, segs) {
          var n :| 0 <= n < |segs| && At(node, segs[..n]).Some? && !At(node, segs[..n]).value.Obj?;
          AtPrefixStep(node, segs, n);
          assert At(c, rest[..n - 1]).Some? && !At(c, rest[..n - 1]).value.Obj?;
        }
      case None =>
        if create {
          CreateFromEmpty(rest);
        }
        forall n | 1 <= n <= |segs|
          ensures At(node, segs[..n]).None?
        {
          AtPrefixStep(node, segs, n);
        }
    }
  }

  /** With `create`, the walk never stops at a missing key. */
  lemma {:induction false} DescendCreateNeverMissing(node: Value, segs: Path)
    ensures !Descend(node, segs, true).Missing?
    decreases |segs|
  {
    if |segs| > 0 && node.Obj? {
      match FindKey(node.members, segs[0])
      case Some(j) => DescendCreateNeverMissing(node.members[j].value, segs[1..]);
      case None => CreateFromEmpty(segs[1..]);
    }
  }

  /** The walk only appends members. */
  lemma {:induction false} DescendGrows(node: Value, segs: Path, create: bool)
    requires Descend(node, segs, create).Reached?
    ensures Grows(node, Descend(node, segs, create).node)
    decreases |segs|
  {
    var n := Descend(node, segs, create).node;
    if |segs| == 0 {
      GrowsRefl(node);
    } else {
      var ms := node.members;
      forall j | 0 <= j < |ms|
        ensures Grows(ms[j].value, ms[j].value)
      {
        GrowsRefl(ms[j].value);
      }
      match FindKey(ms, segs[0])
      case Some(j) =>
        DescendGrows(ms[j].value, segs[1..], create);
      case None =>
    }
  }

  /** The node at the end of the walk: the one that was there, or a new empty object. */
  lemma {:induction false} DescendTarget(node: Value, segs: Path, create: bool)
    requires Descend(node, segs, create).Reached?
    ensures At(Descend(node, segs, create).node, segs) ==
              (if At(node, segs).Some? then At(node, segs) else Some(EmptyObject))
    decreases |segs|
  {
    if |segs| > 0 {
      var k := segs[0];
      var ms := node.members;
      var n := Descend(node, segs, create).node;
      match FindKey(ms, k)
      case Some(j) =>
        var c := Descend(ms[j].value, segs[1..], create).node;
        DescendTarget(ms[j].value, segs[1..], create);
        KeysUpdate(ms, j, c);
        FindKeySameKeys(ms, n.members, k);
      case None =>
        var c := Descend(EmptyObject, segs[1..], create).node;
        DescendTarget(EmptyObject, segs[1..], create);
        FindKeyAppend(ms, [Member(k, c)], k);
        assert FindKey(n.members, k) == Some(|ms|);
        if |segs[1..]| > 0 {
          assert At(EmptyObject, segs[1..]).None?;
        }
    }
  }

  /** The paths of the result: the old ones plus the prefixes of `segs`. */
  lemma {:induction false} DescendPaths(node: Value, segs: Path, create: bool, p: Path)
    requires Descend(node, segs, create).Reached?
    ensures At(Descend(node, segs, create).node, p).Some? <==> At(node, p).Some? || p <= segs
    decreases |segs|
  {
    if |segs| > 0 && |p| > 0 {
      match FindKey(node.members, segs[0])
      case Some(j) =>
        if p[0] == segs[0] {
          DescendPaths(node.members[j].value, segs[1..], create, p[1..]);
        }
        DescendPathsPresent(node, segs, create, p, j);
      case None =>
        if p[0] == segs[0] {
          DescendPaths(EmptyObject, segs[1..], create, p[1..]);
        }
        DescendPathsAbsent(node, segs, create, p);
    }
  }

  /** `DescendPaths` when the first segment names an existing member `j`,
      given the claim for the walk below that member. */
  lemma DescendPathsPresent(node: Value, segs: Path, create: bool, p: Path, j: nat)
    requires |segs| > 0 && |p| > 0 && node.Obj?
    requires FindKey(node.members, segs[0]) == Some(j)
    requires Descend(node, segs, create).Reached?
    requires p[0] == segs[0] ==>
      var c := node.members[j].value;
      (At(Descend(c, segs[1..], create).node, p[1..]).Some? <==> At(c, p[1..]).Some? || p[1..] <= segs[1..])
    ensures At(Descend(node, segs, create).node, p).Some? <==> At(node, p).Some? || p <= segs
  {
    var ms := node.members;
    var n := Descend(node, segs, create).node;
    var c := Descend(ms[j].value, segs[1..], create).node;
    assert n == Obj(ms[j := Member(segs[0], c)]);
    assert p <= segs <==> p[0] == segs[0] && p[1..] <= segs[1..];
    KeysUpdate(ms, j, c);
    FindKeySameKeys(ms, n.members, p[0]);
    if p[0] != segs[0] {
      var i := FindKey(ms, p[0]);
      if i.Some? {
        assert n.members[i.value] == ms[i.value];
      }
    }
  }

  /** `DescendPaths` when the first segment is missing and gets created, given
      the claim for the walk below the new empty object. */
  lemma DescendPathsAbsent(node: Value, segs: Path, create: bool, p: Path)
    requires |segs| > 0 && |p| > 0 && node.Obj?
    requires FindKey(node.members, segs[0]).None?
    requires Descend(node, segs, create).Reached?
    requires p[0] == segs[0] ==>
      (At(Descend(EmptyObject, segs[1..], create).node, p[1..]).Some? <==> At(EmptyObject, p[1..]).Some? || p[1..] <= segs[1..])
    ensures At(Descend(node, segs, create).node, p).Some? <==> At(node, p).Some? || p <= segs
  {
    var ms := node.members;
    var n := Descend(node, segs, create).node;
    var c := Descend(EmptyObject, segs[1..], create).node;
    assert n == Obj(ms + [Member(segs[0], c)]);
    assert p <= segs <==> p[0] == segs[0] && p[1..] <= segs[1..];
    FindKeyAppend(ms, [Member(segs[0], c)], p[0]);
    if p[0] == segs[0] {
      assert FindKey(n.members, segs[0]) == Some(|ms|);
      if |p[1..]| > 0 {
        assert At(EmptyObject, p[1..]).None?;
      }
    } else {
      var i := FindKey(ms, p[0]);
      if i.Some? {
        assert n.members[i.value] == ms[i.value];
      }
    }
  }

  /** A member is appended only under a key the object does not have yet. */
  lemma {:induction false} DescendKeepsKeysUnique(node: Value, segs: Path, create: bool)
    requires UniqueKeys(node)
    requires Descend(node, segs, create).Reached?
    ensures UniqueKeys(Descend(node, segs, create).node)
    decreases |segs|
  {
    if |segs| > 0 {
      var k := segs[0];
      var ms := node.members;
      var n := Descend(node, segs, create).node;
      match FindKey(ms, k)
      case Some(j) =>
        DescendKeepsKeysUnique(ms[j].value, segs[1..], create);
        KeysUpdate(ms, j, Descend(ms[j].value, segs[1..], create).node);
        assert Keys(n.members) == Keys(ms);
      case None =>
        DescendKeepsKeysUnique(EmptyObject, segs[1..], create);
    }
  }

  // ---------------------------------------------------------------------
  // The resolver's contract

  /** A path that does not start with '/' (the empty one included) yields an
      empty handle and leaves the document as it was. */
  lemma ResolveRejectsRelative(doc: Value, path: CName, create: bool)
    requires !IsAbsolute(path)
    ensures Resolve(doc, path, create) == Done(doc, NoNode)
  {
  }

  /** Resolving with `create`: the root becomes an object, every segment is
      reached, missing ones are appended as empty objects, and nothing else
      changes; the only failure is a lookup in an existing non-object. */
  lemma ResolveCreating(doc: Value, path: CName)
    requires IsAbsolute(path)
    ensures var root := CoerceRoot(doc);
            var segs := Segments(path);
            var r := Resolve(doc, path, true);
            && (r.AssertFails? <==> Blocked(root, segs))
            && (r.Done? ==>
                  && r.handle == Node(segs)
                  && r.doc.Obj?
                  && Grows(root, r.doc)
                  && At(r.doc, segs) == (if At(root, segs).Some? then At(root, segs) else Some(EmptyObject))
                  && (forall p :: At(r.doc, p).Some? <==> At(root, p).Some? || p <= segs))
  {
    var root := CoerceRoot(doc);
    var segs := Segments(path);
    DescendCreateNeverMissing(root, segs);
    DescendAssertsIff(root, segs, true);
    if Descend(root, segs, true).Reached? {
      var n := Descend(root, segs, true).node;
      assert [] + segs == segs;
      assert Resolve(doc, path, true) == Done(n, Node(segs));
      DescendGrows(root, segs, true);
      DescendTarget(root, segs, true);
      forall p
        ensures At(n, p).Some? <==> At(root, p).Some? || p <= segs
      {
        DescendPaths(root, segs, true, p);
      }
    }
  }

  /** Resolving without `create` changes nothing but the root coercion: it
      reaches the node when the whole path is there, asserts when a lookup
      lands on a non-object, and otherwise gives an empty handle. */
  lemma ResolveLooking(doc: Value, path: CName)
    requires IsAbsolute(path)
    ensures var root := CoerceRoot(doc);
            var segs := Segments(path);
            Resolve(doc, path, false) ==
              if At(root, segs).Some? then Done(root, Node(segs))
              else if Blocked(root, segs) then AssertFails
              else Done(root, NoNode)
  {
    var root := CoerceRoot(doc);
    var segs := Segments(path);
    assert [] + segs == segs;
    if At(root, segs).Some? {
      DescendPresent(root, segs, false);
    } else {
      DescendAssertsIff(root, segs, false);
      if Descend(root, segs, false).Reached? {
        DescendReachedWithoutCreate(root, segs);
      }
    }
  }

  /** Resolving a path a second time, with or without `create`, reaches the
      same node and changes nothing. */
  lemma ResolveIdempotent(doc: Value, path: CName)
    requires Resolve(doc, path, true).Done?
    ensures var r := Resolve(doc, path, true);
            Resolve(r.doc, path, true) == r && Resolve(r.doc, path, false) == r
  {
    if IsAbsolute(path) {
      var r := Resolve(doc, path, true);
      var segs := Segments(path);
      ResolveCreating(doc, path);
      assert CoerceRoot(r.doc) == r.doc;
      DescendPresent(r.doc, segs, true);
      DescendPresent(r.doc, segs, false);
      assert [] + segs == segs;
    }
  }

  /** A path made only of slashes ("/", "//", ...) resolves to the root. */
  lemma ResolveSlashesOnly(doc: Value, path: CName, create: bool)
    requires IsAbsolute(path)
    requires forall i :: 0 <= i < |path| ==> path[i] == '/'
    ensures Resolve(doc, path, create) == Done(CoerceRoot(doc), Node([]))
  {
    SplitOnlySeparators(path, '/');
    assert Segments(path) == [];
    assert [] + Segments(path) == [];
  }

  /** Resolution never gives an object two members with the same key. */
  lemma ResolveKeepsKeysUnique(doc: Value, path: CName, create: bool)
    requires UniqueKeys(doc)
    requires Resolve(doc, path, create).Done?
    ensures UniqueKeys(Resolve(doc, path, create).doc)
  {
    if IsAbsolute(path) {
      var root := CoerceRoot(doc);
      var segs := Segments(path);
      if Descend(root, segs, create).Reached? {
        DescendKeepsKeysUnique(root, segs, create);
      }
    }
  }

  /** A canonical absolute path, "/" followed by keys joined with "/", names
      exactly those keys. */
  lemma SegmentsOfCanonicalPath(keys: seq<string>)
    requires |keys| >= 1
    requires forall i :: 0 <= i < |keys| ==> |keys[i]| > 0 && '/' !in keys[i]
    ensures Segments("/" + Join(keys, '/')) == keys
  {
    JoinSplit(keys, '/');
    SplitSeparator(Join(keys, '/'), '/');
    NonEmptySkip(keys);
    NonEmptyKeepsAll(keys);
  }

  /** Doubling a slash changes no segment, and neither does a trailing slash. */
  lemma SegmentsSkipEmpty(a: string, b: string)
    ensures Segments(a + "//" + b) == Segments(a + "/" + b)
    ensures Segments(a + "/") == Segments(a)
  {
    assert a + "//" + b == a + ['/'] + ("/" + b);
    assert a + "/" + b == a + ['/'] + b;
    assert a + "/" == a + ['/'] + "";
    assert "/" + b == "" + ['/'] + b;
    SplitAtSeparator(a, "/" + b, '/');
    SplitAtSeparator("", b, '/');
    SplitAtSeparator(a, b, '/');
    SplitAtSeparator(a, "", '/');
    assert Split("", '/') == [""];
    NonEmptyAppend(Split(a, '/'), Split("/" + b, '/'));
    NonEmptyAppend(Split(a, '/'), Split(b, '/'));
    NonEmptyAppend(Split(a, '/'), [""]);
    NonEmptyAppend([""], Split(b, '/'));
    assert NonEmpty([""]) == [];
    assert [""] + Split(b, '/') == Split("/" + b, '/');
    assert Split(a, '/') + [] == Split(a, '/');
    assert NonEmpty(Split(a, '/')) + [] == NonEmpty(Split(a, '/'));
  }

  /** The segments of the path in the program's own example. */
  lemma SegmentsOfExamplePath()
    ensures Segments("/a/b/c/d") == ["a", "b", "c", "d"]
  {
    var keys := ["a", "b", "c", "d"];
    assert Join(keys[3..], '/') == "d";
    assert Join(keys[2..], '/') == "c/d";
    assert Join(keys[1..], '/') == "b/c/d";
    assert Join(keys, '/') == "a/b/c/d";
    SegmentsOfCanonicalPath(keys);
  }
}
