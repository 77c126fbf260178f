# Property tree over a JSON document (props2), modelled in Dafny

The system keeps a program's properties in one JSON document. A
`PropertyNode` is a handle to a node of that tree, found by an absolute
slash-separated path such as `/sensors/imu/ax`. Through a node you can:

- test and fetch children (`hasChild`, `getChild`, `getChildren`, `getLen`);
- read a member with coercion (`getBool`, `getInt`, `getString`);
- write a member (`setInt`, `setString`).

A missing path can be created on the way, as a chain of empty objects.

This project models that core as pure functions over an immutable document
value and proves what the code promises.

- `options.dfy` (`Options`): the `Option` type used for results the model
  leaves open.
- `text.dfy` (`Text`): two pieces of string handling.
  - C-string truncation: `CStr` is what a `const char *` designates, and a
    `CName` is a string with no NUL.
  - Splitting a path on `/`, and dropping empty pieces.
- `decimal.dfy` (`Decimal`): two integer helpers.
  - The 32-bit two's-complement narrowing that `return v.GetInt64()` from an
    `int` function performs (`Wrap32`).
  - The decimal text `std::to_string` produces, with a reader proving the
    text is exact.
- `value.dfy` (`Json`): the document tree.
  - A tagged value whose objects are ordered member lists.
  - Lookup finds the first member with the key, as rapidjson's linear search
    does.
  - Navigation and replacement by key-paths, and a `Grows` relation: members
    appended, nothing removed.
- `resolver.dfy` (`Resolver`): the `PropertyNode(abs_path, create)`
  constructor.
  - `Descend` is the structural meaning of the walk, and `Resolve` runs it
    from the (coerced) root.
  - The method `ResolvePath` follows the C++ loop token by token, and is
    proved to compute `Resolve`.
- `nodes.dfy` (`Nodes`): `hasChild`, `getChild`, `getChildren` and `getLen`.
- `accessors.dfy` (`Accessors`): the coercions `getValueAsBool`,
  `getValueAsInt` and `getValueAsString`, the three getters, and the two
  setters.
- `scenario.dfy` (`Scenario`): the program's (disabled) `main` replayed on
  the model.

A handle is the key-path from the document root to its node (`Node(path)`), or
`NoNode` for the default-constructed, empty handle. An operation that may
change the document takes the document and returns the new one. There is no
global `doc`.

rapidjson's `HasMember` asserts on a non-object, and so does `operator[]` on a
missing member. Either happening is the outcome `AssertFails`. It is not
hidden behind a precondition.

## Model

| member | source | states |
|---|---|---|
| Resolver.ResolvePath | v2/props2.cpp:48-78 | The token-by-token loop (empty tokens skipped; create, stop or assert per token) computes exactly the structural resolution `Resolve`, for every document, path and `create` flag |
| Resolver.ResolveRejectsRelative | v2/props2.cpp:50-53 | A path not starting with '/' yields the empty handle and leaves the document untouched, even with `create` |
| Resolver.ResolveCreating | v2/props2.cpp:54-76 | With `create`: the call asserts exactly when some proper prefix of the path reaches a non-object. Otherwise the handle names all the path's segments, and the root has become an object. The document only gained members. The target is the old node, or a new empty object. The paths that now exist are the old ones plus the prefixes of the resolved path |
| Resolver.ResolveLooking | v2/props2.cpp:54-76 | Without `create`, only the root coercion changes the document. The handle reaches the node when the whole path exists. The call asserts when a lookup lands on a non-object, and otherwise gives the empty handle |
| Resolver.ResolveIdempotent | v2/props2.cpp:48-78 | After a successful creating resolution, resolving the same path again, with or without `create`, gives the same document and handle |
| Resolver.ResolveSlashesOnly | v2/props2.cpp:57-62 | A path made only of slashes ("/", "//") resolves to the root, which is coerced to an object |
| Resolver.ResolveKeepsKeysUnique | v2/props2.cpp:64-70 | Resolution never gives an object two members with the same key: a member is added only when `HasMember` said it was missing |
| Resolver.DescendAssertsIff | v2/props2.cpp:64-75 | The walk reaches the assertion exactly when some proper prefix of the segments exists and is not an object |
| Resolver.DescendGrows | v2/props2.cpp:64-70 | Creating missing segments only appends members; nothing is removed, reordered or retyped |
| Resolver.DescendPaths | v2/props2.cpp:64-75 | A path exists after the walk exactly when it existed before or is a prefix of the walked segments |
| Resolver.DescendTarget | v2/props2.cpp:64-77 | The node handed back is the one already at the path, or a new empty object when `create` had to build it |
| Resolver.SegmentsOfCanonicalPath | v2/props2.cpp:57-62 | "/" followed by non-empty, slash-free keys joined by "/" resolves through exactly those keys |
| Resolver.SegmentsSkipEmpty | v2/props2.cpp:57-62 | A doubled slash or a trailing slash changes no segment: empty tokens are skipped |
| Resolver.SegmentsOfExamplePath | v2/props2.cpp:417-418 | The example path "/a/b/c/d" names the segments a, b, c, d |
| Text.SplitJoin | v2/props2.cpp:57 | Splitting on '/' loses nothing: joining the pieces with '/' gives the path back |
| Text.JoinSplit | v2/props2.cpp:57 | Splitting undoes joining when no piece holds the separator |
| Text.NonEmptyMembers | v2/props2.cpp:60-62 | A string is among the kept tokens exactly when it is a non-empty token of the input |
| Text.NonEmptyAppend | v2/props2.cpp:59-62 | Skipping empty tokens works piece by piece: filtering a concatenation concatenates the filtered parts, so order is kept |
| Text.CStrStopsAtNul | v2/props2.cpp:265-266 | A string read through `GetString()` ends at its first NUL; whatever follows is invisible |
| Decimal.Wrap32 | v2/props2.cpp:165-172 | Narrowing to `int` keeps the value modulo 2^32 and is the identity on the `int` range |
| Decimal.IntToStringRoundTrip | v2/props2.cpp:241-248 | The decimal text of any integer reads back as that integer |
| Decimal.IntToStringInjective | v2/props2.cpp:241-248 | Different integers have different decimal texts |
| Json.GrowsKeepsPaths | v2/props2.cpp:64-70 | When members are only appended, every path that existed still exists |
| Nodes.HasChild | v2/props2.cpp:84-91 | True exactly when the node is an object with a member of that name; false on any non-object |
| Nodes.GetChildContract | v2/props2.cpp:93-106 | On a non-object: the empty handle, with no assertion. On an object with the member: a handle to it, document unchanged. On a missing member with `create`: a new empty object appended under that name after the node's other members, every node neither above nor below the node unchanged, and a handle to the new member. Without `create`: rapidjson's assertion |
| Nodes.GetChildIsResolverStep | v2/props2.cpp:93-102 | On an object, when the member exists or `create` is set, `getChild` is one step of the path resolver (same document and handle as resolving the single segment) |
| Nodes.GetChildPartsFromResolver | v2/props2.cpp:93-102 | The case where they differ: on an object lacking the member, without `create`, `getChild` asserts in `operator[]` while the resolver gives the empty handle |
| Nodes.Entries | v2/props2.cpp:120-128 | A member contributes its own name, or, when expanding an array, "name[i]" for each of its elements in index order |
| Nodes.GetChildren | v2/props2.cpp:116-132 | A non-object has no children |
| Nodes.ChildrenPlain | v2/props2.cpp:116-132 | Without expansion, the children are the member names of an object, in document order |
| Nodes.ChildrenExpanded | v2/props2.cpp:116-132 | With expansion, a name is listed exactly when some member contributes it |
| Nodes.ChildrenAppend | v2/props2.cpp:116-132 | The listing follows member order: the names of two member lists placed one after the other are the names of the first, then those of the second, each as often as it is contributed |
| Nodes.ChildrenRepeatName | v2/props2.cpp:120-128 | Names are not deduplicated: a member "x[0]" beside a one-element array "x" lists "x[0]" twice |
| Nodes.GetLen | v2/props2.cpp:108-114 | As written, the length is 0 for every node and name |
| Nodes.GetLenIgnoresArrays | v2/props2.cpp:108-114 | A node holding a three-element array "x" lists x[0..2] as children, yet `getLen("x")` is 0 while the corrected length is 3 |
| Nodes.GetLenFixed | v2/props2.cpp:108-114 | A non-zero length is only given for a member that is an array |
| Nodes.GetLenFixedMatchesChildren | v2/props2.cpp:108-114 | For an array member, the corrected length is its element count, and every name[i] below it is among the expanded children |
| Accessors.ValueAsBoolAsWritten | v2/props2.cpp:134-160 | As written, a float or double reads as true exactly when its `== 0.0` test holds (a double in float range is narrowed to float first, so 1e-50 reads true), while an integer reads as true when non-zero |
| Accessors.FloatTruthInverted | v2/props2.cpp:145-148 | As written, the float branches give the opposite of the corrected reading (`NonZero`, the inverted `== 0.0` test): 0.0 reads true while the integer 0 reads false |
| Accessors.ValueAsBool | v2/props2.cpp:134-160 | A bool reads as itself and an integer as true when non-zero. A float or double reads as true exactly when the `== 0.0` test of lines 146/148 fails (the comparison inverted), so a double that narrows to 0.0f reads false. A string is true only for "true", "True" or "TRUE" up to its first NUL. Null, objects and arrays read false |
| Accessors.ValueAsInt | v2/props2.cpp:162-184 | A bool reads 0/1. An in-range integer reads as itself, and any integer as its value modulo 2^32. Null, objects and arrays read 0. The result is left open only for floats and `std::stoi` |
| Accessors.ValueAsString | v2/props2.cpp:234-269 | A bool reads as "true" or "false". Any integer reads as decimal text that parses back to it. A string reads as its text up to the first NUL. Null, objects and arrays read as "unhandled value type". The result is left open only for floats |
| Accessors.GetBool | v2/props2.cpp:271-278 | As written: false unless the node is an object with that member; otherwise the member read by `getValueAsBool` as written, so a float member holding 0.0 reads true |
| Accessors.GetBoolFixed | v2/props2.cpp:271-278 | The same lookup, reading the member through the corrected coercion (a float is true when its `== 0.0` test fails) |
| Accessors.GetBoolFixedDiffersOnFloats | v2/props2.cpp:271-278 | The as-written and corrected `getBool` disagree exactly when the member exists and is a float or double |
| Accessors.GetInt | v2/props2.cpp:280-287 | 0 unless the node is an object with that member; otherwise the member read as `int` |
| Accessors.GetString | v2/props2.cpp:311-320 | "<name>: not an object" on a non-object, "<name>: not a member" for a missing member, else the member read as text |
| Accessors.Store | v2/props2.cpp:322-336 | The common setter step. The node ends up an object whose member holds the new value. Every other key looks up as before. The key list grows by the name only when it was missing |
| Accessors.SetInt | v2/props2.cpp:322-336 | `setInt` reports success; the node is an object, `name` holds exactly the integer, every other member is unchanged, and the key is appended only if it was missing |
| Accessors.SetString | v2/props2.cpp:377-391 | As `setInt`, with the member holding the whole string `s` |
| Accessors.SetIntAt | v2/props2.cpp:322-336 | `setInt` through a handle: the node at the handle's path becomes `setInt` of that node. Every node neither above nor below it is unchanged, and the call reports success |
| Accessors.SetStringAt | v2/props2.cpp:377-391 | `setString` through a handle, with the same guarantees as `SetIntAt` |
| Json.AtReplaceOther | v2/props2.cpp:322-336 | Rewriting one node in place leaves every node neither above nor below it unchanged |
| Accessors.SetIntRoundTrip | v2/props2.cpp:322-336 | After `setInt(name, n)`: `getInt` gives n, `getBool` gives n != 0, and `getString` gives decimal text that reads back as n |
| Accessors.SetStringRoundTrip | v2/props2.cpp:377-391 | After `setString(name, s)`, `getString` gives `s` up to its first NUL (all of `s` when it has none), and "true" reads back as true |
| Accessors.StoreTwice | v2/props2.cpp:322-336 | Storing twice under one name is storing once with the second value: no duplicate member, the first value gone |
| Accessors.SetIntIdempotent | v2/props2.cpp:322-336 | Writing the same integer twice leaves the node as one write does |
| Accessors.SetIntLastWins | v2/props2.cpp:322-336 | Of two integer writes to one member, only the last one is visible |
| Accessors.SetKeepsKeysUnique | v2/props2.cpp:322-391 | Neither `setInt` nor `setString` (nor the store step with any placeholder) makes two members share a key |
| Accessors.BoolAgreesWithInt | v2/props2.cpp:134-184 | For a bool or an `int`-range integer, reading as bool is reading as int and testing for non-zero |
| Accessors.WideIntegerReads | v2/props2.cpp:271-320 | For an integer member of any width, `getString` gives text that reads back as the exact value, `getInt` gives the value modulo 2^32, and `getBool` tests the full value for non-zero |
| Accessors.NarrowingExamples | v2/props2.cpp:165-172 | 2^32 narrows to 0 as `int` yet reads true; 2^31 narrows to the most negative `int` |
| Accessors.BoolTextRoundTrip | v2/props2.cpp:235-240 | A bool's text ("true"/"false") read back as bool gives the same bool |
| Accessors.StringTruthIsExact | v2/props2.cpp:149-155 | "True" is true, while "tRUE" and "1" are false |
| Accessors.StringTruthStopsAtNul | v2/props2.cpp:149-151 | "true" followed by a NUL and any text reads as true, because the string is taken up to its first NUL |
| Scenario.ExampleResolve | v2/props2.cpp:417-418 | On a fresh document, resolving /a/b/c/d with `create` builds the chain and hands back its innermost (empty) node; resolving again changes nothing |
| Scenario.ExampleAccess | v2/props2.cpp:419-429 | Writing 53 then 55 to "curt" reads back 55, as true and as "55". Writing a text to "foo" reads back that text and leaves "curt" at 55 |
| Scenario.ExampleMain | v2/props2.cpp:417-429 | On one fresh document: resolve the path with `create`, write 53, 55 and the text through the returned handle, and read them back from the node at that handle. Resolving the path again without `create` reaches the same node |

## Left out

- Printing (`printf`, `pretty_print`, `pretty_print_doc`): output only, with no effect on the document.
- `getFloat`, `getDouble`, `setFloat`, `setDouble`, `getValueAsFloat` and `getValueAsDouble` are left out. Floating-point arithmetic is not modelled. A float or double keeps only the outcome of the `== 0.0` test at lines 146 and 148, which is all `getValueAsBool` looks at. A double within float range is narrowed to float before that test, so a tiny double such as 1e-50 counts as zero.
- Accessors.ValueAsInt: the result is left open (`None`) for a float or double, where the C++ truncates toward zero. It is also left open for a string, where `std::stoi` parses a leading integer or throws.
- Accessors.ValueAsString: the result is left open (`None`) for a float or double, where `std::to_string` prints six decimals.
- `split` comes from strutils.h, which is not part of this model. `Text.Split` re-specifies it as "cut at every separator, keep empty pieces". The resolver skips those empty pieces, so leading, doubled and trailing slashes do not matter either way.
- Keys and strings are modelled as owned values. The code does not copy them:
  - The constructor adds keys through `GenericStringRef` to the token strings (line 70), which die when the constructor returns.
  - `getChild` does the same with the caller's `name` (line 96).
  - `setString` stores `SetString(s.c_str(), s.length())` without an allocator (line 389). That is a reference to the by-value parameter `s`.
  The model gives each key and string the value it had at the call; object lifetimes are not modelled.
- Calling a node operation on an empty handle dereferences a null pointer in the code. The model's node operations take the node value itself, so that case does not arise.
- Member keys are taken to be free of NUL: every key this core adds comes from a path segment or a `const char *` name. `getChildren` copies a key through `GetString()`, so a key with NUL from elsewhere would be listed truncated. That case is not modelled.
- Memory and allocators (`doc.GetAllocator()`), and the global `doc`: the document is passed in and returned.
- Member names containing NUL: a `const char *` name ends at its first NUL, so the `CName` type excludes them. Stored strings may contain NUL, and reads truncate there.
- Resolver.ResolvePath: paths containing NUL are excluded by the `CName` type, although `abs_path` is a `std::string` that can hold NUL. With such a path the code looks members up by the token cut at the NUL (lines 64, 72 and 75), yet adds the full token as key (line 70). A creating walk can then add one key and look up another, which asserts. This case is not modelled.
- Handles are modelled as key-paths from the root. In the code a handle is a raw `Value *` (lines 58, 75, 77, 101). `AddMember` on an ancestor (lines 70, 99, 330, 385) can reallocate the member array and leave child handles dangling. A setter that overwrites an ancestor member destroys the node. Key-path handles stay valid, so this pointer invalidation is not modelled.
- The Arduino build branches (`ARDUINO_BUILD`, `hal.util->snprintf`) are left out. Only the host branches are modelled.
- `main` is compiled out (`#if 0`). It appears only as the `Scenario` lemmas. Its stdin read and `doc.Parse` are left out.
- v2/props2.cpp has no numeric path segments (`/x/0/y`), no include expansion and no array extension. Its resolver follows object keys only, and so does the model.
- Accessors.ValueAsBool: the corrected float reading inverts the `== 0.0` test of lines 146/148 rather than testing the exact value, so a non-zero double that narrows to 0.0f (such as 1e-50) still reads false. The model keeps only the outcome of that test, not the number.
- `getValueAsBool` is not case-insensitive. The code accepts exactly "true", "True" and "TRUE" (lines 150-151), and the model follows the code.
- `setInt` takes an `int`, so `Accessors.SetInt` takes an `Int32`. A caller's wider value is narrowed before the call, which is `Decimal.Wrap32`.

## Findings

| source | as written | input that shows it | evidently intended | confidence | as-written member | corrected member |
|---|---|---|---|---|---|---|
| v2/props2.cpp:108-114 | `getLen` returns `Size()` only when the node is both an object and an array, which no value is, so it always returns 0 | a node holding `"x": [null, null, null]`; `getLen("x")` gives 0 although `getChildren(true)` lists x[0], x[1], x[2] | the number of elements of the array member `name` | high (not executed) | Nodes.GetLen | Nodes.GetLenFixedMatchesChildren |
| v2/props2.cpp:145-148 | `getValueAsBool` returns `GetFloat() == 0.0` (and likewise for double), so 0.0 reads true and 1.5 reads false | a member holding 0.0: `getBool` (`Accessors.GetBool`) gives true, while the integer 0 gives false | true when the `== 0.0` test fails (the comparison inverted), as the integer branches read non-zero as true (`Accessors.GetBoolFixed` reads that way) | high (not executed) | Accessors.ValueAsBoolAsWritten | Accessors.ValueAsBool |
