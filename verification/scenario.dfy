/** The program's own usage example, replayed on the model: resolve
    "/a/b/c/d" twice on a fresh document, write and read "curt", then write
    "foo". The path is a parameter that names the segments a, b, c, d
    (`SegmentsOfExamplePath` shows that "/a/b/c/d" does). */
module Scenario {
  import opened Options
  import opened Text
  import opened Decimal
  import opened Json
  import opened Resolver
  import opened Accessors

  /** A fresh document holds no object; resolving the example path with
      `create` builds the chain of empty objects and hands back its innermost
      node, and resolving it a second time gives the same handle and document. */
  lemma ExampleResolve(doc: Value, path: CName)
    requires !doc.Obj?
    requires IsAbsolute(path) && Segments(path) == ["a", "b", "c", "d"]
    ensures var r := Resolve(doc, path, true);
            && r.Done?
            && r.handle == Node(["a", "b", "c", "d"])
            && At(r.doc, ["a", "b", "c", "d"]) == Some(EmptyObject)
            && Resolve(r.doc, path, true) == r
  {
    var segs := Segments(path);
    ResolveCreating(doc, path);
    assert !Blocked(EmptyObject, segs) by {
      forall n | 0 <= n < |segs|
        ensures At(EmptyObject, segs[..n]).Some? ==> At(EmptyObject, segs[..n]).value.Obj?
      {
        if n > 0 {
          assert At(EmptyObject, segs[..n]).None?;
        }
      }
    }
    assert At(EmptyObject, segs).None?;
    ResolveIdempotent(doc, path);
  }

  /** The decimal text the example prints for 55. */
  lemma FiftyFiveText()
    ensures IntToString(55) == "55"
  {
    assert NatToString(55) == NatToString(5) + [DigitChar(5)];
  }

  /** On the node the example resolves to, whatever it holds: writing 53 and
      then 55 to one member ("curt") reads back 55, as true and as "55";
      writing a text ("1.2345") to another member ("foo") reads back that text
      and leaves the first member alone. */
  lemma ExampleAccess(node: Value, curt: CName, foo: CName, text: CName)
    requires curt != foo
    ensures var n53 := SetInt(node, curt, 53).0;
            var n55 := SetInt(n53, curt, 55).0;
            var last := SetString(n55, foo, text).0;
            && GetInt(n53, curt) == Some(53)
            && n55 == SetInt(node, curt, 55).0
            && GetInt(n55, curt) == Some(55)
            && GetBool(n55, curt)
            && GetString(n55, curt) == Some("55")
            && GetString(last, foo) == Some(text)
            && GetInt(last, curt) == Some(55)
  {
    var n53 := SetInt(node, curt, 53).0;
    var n55 := SetInt(n53, curt, 55).0;
    SetIntRoundTrip(node, curt, 53);
    SetIntRoundTrip(n53, curt, 55);
    SetIntLastWins(node, curt, 53, 55);
    FiftyFiveText();
    SetStringRoundTrip(n55, foo, text);
    var last := SetString(n55, foo, text).0;
    assert Lookup(last, curt) == Lookup(n55, curt);
  }

  /** The whole example on one document: resolve the path with `create`, make
      the three writes through the handle it gives, then read them back from
      the node at that handle. Resolving the path again, without `create`,
      still reaches that node. */
  lemma ExampleMain(doc: Value, path: CName, curt: CName, foo: CName, text: CName)
    requires !doc.Obj?
    requires IsAbsolute(path) && Segments(path) == ["a", "b", "c", "d"]
    requires curt != foo
    ensures var r := Resolve(doc, path, true);
            && r.Done? && r.handle.Node?
            && var at := r.handle.path;
               && At(r.doc, at).Some?
               && var d53 := SetIntAt(r.doc, at, curt, 53).0;
                  var d55 := SetIntAt(d53, at, curt, 55).0;
                  var d := SetStringAt(d55, at, foo, text).0;
                  var node := At(d, at).value;
                  && GetInt(node, curt) == Some(55)
                  && GetBool(node, curt)
                  && GetString(node, foo) == Some(text)
                  && Resolve(d, path, false) == Done(d, Node(at))
  {
    var r := Resolve(doc, path, true);
    ExampleResolve(doc, path);
    var at := r.handle.path;
    var n0 := At(r.doc, at).value;
    var d53 := SetIntAt(r.doc, at, curt, 53).0;
    var d55 := SetIntAt(d53, at, curt, 55).0;
    var d := SetStringAt(d55, at, foo, text).0;
    var n53 := SetInt(n0, curt, 53).0;
    var n55 := SetInt(n53, curt, 55).0;
    assert At(d55, at) == Some(n55);
    assert At(d, at) == Some(SetString(n55, foo, text).0);
    ExampleAccess(n0, curt, foo, text);
    assert d.Obj? by {
      assert |at| > 0;
      assert Replace(d55, at, SetString(n55, foo, text).0).Obj?;
    }
    ResolveLooking(d, path);
  }
}
