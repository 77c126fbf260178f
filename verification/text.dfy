/** Character-level helpers: C-string truncation and splitting on a separator. */
module Text {

  /** A string that can be passed as a `const char *`: it has no NUL character. */
  type CName = s: string | '\0' !in s

  /** The string a `const char *` designates: everything before the first NUL.
      `std::string(v.GetString())` and `StringRef(name)` both stop there. */
  function CStr(s: string): (r: string)
    ensures r <= s
    ensures '\0' !in r
    ensures |r| < |s| ==> s[|r|] == '\0'
  {
    if |s| == 0 || s[0] == '\0' then "" else [s[0]] + CStr(s[1..])
  }

  /** A string without NUL survives the C-string round trip unchanged. */
  lemma CStrOfCName(s: string)
    requires '\0' !in s
    ensures CStr(s) == s
  {
  }

  /** Whatever follows the first NUL is invisible through a `const char *`. */
  lemma {:induction false} CStrStopsAtNul(s: string, rest: string)
    requires '\0' !in s
    ensures CStr(s + ['\0'] + rest) == s
    decreases |s|
  {
    if |s| > 0 {
      assert (s + ['\0'] + rest)[1..] == s[1..] + ['\0'] + rest;
      CStrStopsAtNul(s[1..], rest);
      assert [s[0]] + s[1..] == s;
    }
  }

  /** Splits `s` at every occurrence of `sep`; `n` separators give `n + 1`
      pieces, empty ones included. */
  function Split(s: string, sep: char): (r: seq<string>)
    ensures |r| >= 1
    decreases |s|
  {
    if |s| == 0 then [""]
    else
      var rest := Split(s[1..], sep);
      if s[0] == sep then [""] + rest
      else [[s[0]] + rest[0]] + rest[1..]
  }

  /** Unfolding `Split` on a first character that is not the separator. */
  lemma SplitOther(c: char, s: string, sep: char)
    requires c != sep
    ensures Split([c] + s, sep) == [[c] + Split(s, sep)[0]] + Split(s, sep)[1..]
  {
    assert ([c] + s)[1..] == s;
  }

  /** Unfolding `Split` on a leading separator. */
  lemma SplitSeparator(s: string, sep: char)
    ensures Split([sep] + s, sep) == [""] + Split(s, sep)
  {
    assert ([sep] + s)[1..] == s;
  }

  /** A string without the separator is a single piece. */
  lemma {:induction false} SplitNoSeparator(s: string, sep: char)
    requires sep !in s
    ensures Split(s, sep) == [s]
    decreases |s|
  {
    if |s| > 0 {
      SplitNoSeparator(s[1..], sep);
      assert [s[0]] + s[1..] == s;
    }
  }

  /** Splitting at one separator splits the two sides independently. */
  lemma {:induction false} SplitAtSeparator(a: string, b: string, sep: char)
    ensures Split(a + [sep] + b, sep) == Split(a, sep) + Split(b, sep)
    decreases |a|
  {
    if |a| == 0 {
      assert a + [sep] + b == [sep] + b;
      SplitSeparator(b, sep);
    } else {
      var c, a' := a[0], a[1..];
      var whole := a' + [sep] + b;
      assert a + [sep] + b == [c] + whole;
      assert a == [c] + a';
      SplitAtSeparator(a', b, sep);
      if c == sep {
        SplitSeparator(whole, sep);
        SplitSeparator(a', sep);
      } else {
        SplitOtherAppend(c, a', Split(whole, sep), Split(b, sep), sep);
      }
    }
  }

  /** The non-separator step of `SplitAtSeparator`, kept apart so that its
      sequence algebra is checked on its own. */
  lemma SplitOtherAppend(c: char, a: string, x: seq<string>, y: seq<string>, sep: char)
    requires c != sep
    requires x == Split(a, sep) + y
    ensures [[c] + x[0]] + x[1..] == Split([c] + a, sep) + y
  {
    SplitOther(c, a, sep);
    var sa := Split(a, sep);
    assert x[0] == sa[0];
    assert x[1..] == sa[1..] + y;
  }

  /** Concatenates `parts`, putting one `sep` between neighbours. */
  function Join(parts: seq<string>, sep: char): string
    requires |parts| >= 1
    decreases |parts|
  {
    if |parts| == 1 then parts[0] else parts[0] + [sep] + Join(parts[1..], sep)
  }

  /** Splitting undoes joining, when no part holds the separator. */
  lemma {:induction false} JoinSplit(parts: seq<string>, sep: char)
    requires |parts| >= 1
    requires forall i :: 0 <= i < |parts| ==> sep !in parts[i]
    ensures Split(Join(parts, sep), sep) == parts
    decreases |parts|
  {
    SplitNoSeparator(parts[0], sep);
    if |parts| > 1 {
      JoinSplit(parts[1..], sep);
      SplitAtSeparator(parts[0], Join(parts[1..], sep), sep);
      assert [parts[0]] + parts[1..] == parts;
    }
  }

  /** Joining the pieces back with the separator gives the original string. */
  lemma {:induction false} SplitJoin(s: string, sep: char)
    ensures Join(Split(s, sep), sep) == s
    decreases |s|
  {
    if |s| > 0 {
      var rest := Split(s[1..], sep);
      SplitJoin(s[1..], sep);
      if s[0] == sep {
        assert Split(s, sep)[1..] == rest;
      } else if |rest| == 1 {
        assert Split(s, sep) == [[s[0]] + rest[0]];
      } else {
        var r := Split(s, sep);
        assert r[1..] == rest[1..];
        assert Join(rest, sep) == rest[0] + [sep] + Join(rest[1..], sep);
        assert s == [s[0]] + s[1..];
      }
    }
  }

  /** The non-empty strings of `ts`, in order. */
  function NonEmpty(ts: seq<string>): (r: seq<string>)
    ensures forall i :: 0 <= i < |r| ==> |r[i]| > 0
    ensures |r| <= |ts|
  {
    if |ts| == 0 then []
    else if |ts[0]| == 0 then NonEmpty(ts[1..])
    else [ts[0]] + NonEmpty(ts[1..])
  }

  /** Unfolding `NonEmpty` on a leading empty token. */
  lemma NonEmptySkip(ts: seq<string>)
    ensures NonEmpty([""] + ts) == NonEmpty(ts)
  {
    assert ([""] + ts)[1..] == ts;
  }

  lemma {:induction false} NonEmptyAppend(ts: seq<string>, us: seq<string>)
    ensures NonEmpty(ts + us) == NonEmpty(ts) + NonEmpty(us)
  {
    if |ts| == 0 {
      assert ts + us == us;
    } else {
      assert (ts + us)[0] == ts[0];
      assert (ts + us)[1..] == ts[1..] + us;
      NonEmptyAppend(ts[1..], us);
    }
  }

  /** Filtering a list of non-empty strings keeps all of them. */
  lemma {:induction false} NonEmptyKeepsAll(ts: seq<string>)
    requires forall i :: 0 <= i < |ts| ==> |ts[i]| > 0
    ensures NonEmpty(ts) == ts
  {
    if |ts| > 0 {
      NonEmptyKeepsAll(ts[1..]);
      assert [ts[0]] + ts[1..] == ts;
    }
  }

  /** Filtering keeps exactly the non-empty members. */
  lemma {:induction false} NonEmptyMembers(ts: seq<string>, x: string)
    ensures x in NonEmpty(ts) <==> x in ts && |x| > 0
  {
    if |ts| > 0 {
      NonEmptyMembers(ts[1..], x);
      assert ts == [ts[0]] + ts[1..];
    }
  }

  /** A string made only of separators has no non-empty piece. */
  lemma {:induction false} SplitOnlySeparators(s: string, sep: char)
    requires forall i :: 0 <= i < |s| ==> s[i] == sep
    ensures forall j :: 0 <= j < |Split(s, sep)| ==> Split(s, sep)[j] == ""
    ensures NonEmpty(Split(s, sep)) == []
    decreases |s|
  {
    if |s| > 0 {
      SplitOnlySeparators(s[1..], sep);
    }
    NonEmptyOfEmpties(Split(s, sep));
  }

  lemma {:induction false} NonEmptyOfEmpties(ts: seq<string>)
    requires forall j :: 0 <= j < |ts| ==> ts[j] == ""
    ensures NonEmpty(ts) == []
  {
    if |ts| > 0 {
      NonEmptyOfEmpties(ts[1..]);
    }
  }
}
