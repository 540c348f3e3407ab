/** The parts of Go's `path/filepath` package the core relies on, for the
    Unix separator `/`: `Base`, `Ext` and `Join`. */
module GoFilepath {
  import opened GoStrings

  const Separator: char := '/'

  /** `path` with every trailing separator removed. */
  function StripTrailingSeparators(path: string): (r: string)
    ensures r <= path
    ensures |r| > 0 ==> r[|r| - 1] != Separator
    ensures forall i :: |r| <= i < |path| ==> path[i] == Separator
    decreases |path|
  {
    if |path| > 0 && path[|path| - 1] == Separator then
      StripTrailingSeparators(path[..|path| - 1])
    else path
  }

  /** The text after the last separator of `s` (all of `s` if it has none). */
  function LastElement(s: string): (r: string)
    ensures Separator !in r
    ensures HasSuffix(s, r)
    ensures |r| < |s| ==> s[|s| - |r| - 1] == Separator
    decreases |s|
  {
    if |s| == 0 || s[|s| - 1] == Separator then ""
    else
      var t := s[..|s| - 1];
      var c := s[|s| - 1];
      var init := LastElement(t);
      var r := init + [c];
      assert t[|t| - |init|..] == init;
      assert s[|s| - |r|..] == t[|t| - |init|..] + [c];
      assert Separator !in r by {
        assert forall x :: x in r ==> x in init || x == c;
      }
      assert |r| < |s| ==> s[|s| - |r| - 1] == t[|t| - |init| - 1];
      r
  }

  /** Every separator-free suffix of `s` is a suffix of its last element. */
  lemma {:induction false} SuffixWithinLastElement(s: string, e: string)
    requires HasSuffix(s, e) && Separator !in e
    ensures HasSuffix(LastElement(s), e)
    decreases |s|
  {
    if |e| > 0 {
      var t := s[..|s| - 1];
      var e' := e[..|e| - 1];
      SuffixDropLast(s, e);
      assert Separator !in e' by {
        assert forall x :: x in e' ==> x in e;
      }
      assert e[|e| - 1] in e;
      SuffixWithinLastElement(t, e');
      assert s[|s| - 1] != Separator;
      assert LastElement(s) == LastElement(t) + [s[|s| - 1]];
      SuffixAppend(LastElement(t), e', s[|s| - 1]);
      assert e' + [s[|s| - 1]] == e;
    }
  }

  lemma SuffixDropLast(s: string, e: string)
    requires HasSuffix(s, e) && |e| > 0
    ensures HasSuffix(s[..|s| - 1], e[..|e| - 1]) && s[|s| - 1] == e[|e| - 1]
  {
    var t := s[..|s| - 1];
    var e' := e[..|e| - 1];
    assert s[|s| - |e|..] == e;
    forall i | 0 <= i < |e'| ensures t[|t| - |e'| + i] == e'[i] {
      assert t[|t| - |e'| + i] == s[|s| - |e| + i];
    }
    assert t[|t| - |e'|..] == e';
  }

  lemma SuffixAppend(l: string, e: string, c: char)
    requires HasSuffix(l, e)
    ensures HasSuffix(l + [c], e + [c])
  {
    assert (l + [c])[|l| - |e|..] == l[|l| - |e|..] + [c];
  }

  /** `filepath.Base`: the last element of `path` after trailing separators
      are dropped; `"."` for the empty path and `"/"` for a path made only
      of separators. The result is never empty and never contains a
      separator unless it is the root itself. */
  function Base(path: string): (r: string)
    ensures r != ""
    ensures r == [Separator] || Separator !in r
    ensures path == "" ==> r == "."
    ensures path != "" && Separator !in path ==> r == path
    ensures r == [Separator] <==> path != "" && forall i :: 0 <= i < |path| ==> path[i] == Separator
    ensures path != "" && r != [Separator] ==>
      var s := StripTrailingSeparators(path);
      HasSuffix(s, r) && (|r| < |s| ==> s[|s| - |r| - 1] == Separator)
  {
    if path == "" then "."
    else
      var s := StripTrailingSeparators(path);
      var last := LastElement(s);
      if last == "" then [Separator] else last
  }

  /** `filepath.Ext`: the suffix of `path` starting at the last `.` of its
      final element, or `""` when that element holds no `.`. */
  function Ext(path: string): (e: string)
    ensures HasSuffix(path, e)
    ensures e != "" ==> e[0] == '.' && '.' !in e[1..] && Separator !in e
    ensures e == "" ==> forall j :: 0 <= j < |path| && Separator !in path[j..] ==> path[j] != '.'
    decreases |path|
  {
    if |path| == 0 then ""
    else
      var c := path[|path| - 1];
      if c == Separator then ""
      else if c == '.' then "."
      else
        var init := path[..|path| - 1];
        var e := Ext(init);
        if e == "" then
          assert forall j :: 0 <= j < |path| - 1 ==> path[j..] == init[j..] + [c];
          ""
        else
          assert path[|path| - |e| - 1..] == init[|init| - |e|..] + [c];
          assert (e + [c])[1..] == e[1..] + [c];
          e + [c]
  }

  /** For an extension-shaped `e` (one `.`, at its start, no separator),
      `Ext` yields `e` exactly when the path ends in `e`. */
  lemma ExtIsSuffix(path: string, e: string)
    requires |e| >= 1 && e[0] == '.' && '.' !in e[1..] && Separator !in e
    ensures Ext(path) == e <==> HasSuffix(path, e)
  {
    if HasSuffix(path, e) {
      assert path[|path| - |e|..] == e;
    }
  }

  /** A path without any `.` has no extension. */
  lemma ExtWithoutDot(path: string)
    requires '.' !in path
    ensures Ext(path) == ""
  {
  }

  /** `filepath.Join` before its final `Clean`: `""` when every element is
      empty, else the elements from the first non-empty one onwards joined
      by the separator, later empty elements included. */
  function JoinPath(elems: seq<string>): (r: string)
    ensures (forall i :: 0 <= i < |elems| ==> elems[i] == "") <==> r == ""
    ensures forall i :: 0 <= i < |elems| && elems[i] != "" && (forall j :: 0 <= j < i ==> elems[j] == "") ==>
      r == Join(elems[i..], Separator)
    decreases |elems|
  {
    if |elems| == 0 then ""
    else if elems[0] == "" then
      assert forall i :: 1 <= i < |elems| ==> elems[i] == elems[1..][i - 1] && elems[i..] == elems[1..][i - 1..];
      JoinPath(elems[1..])
    else
      assert elems[0..] == elems;
      Join(elems, Separator)
  }

  /** The base name of a joined path is its last element when that element
      is a plain name. */
  lemma BaseOfJoin(dir: string, name: string)
    requires dir != ""
    requires name != "" && Separator !in name
    ensures JoinPath([dir, name]) == dir + [Separator] + name
    ensures Base(JoinPath([dir, name])) == name
  {
    var p := dir + [Separator] + name;
    assert [dir, name][1..] == [name];
    assert Join([dir, name], Separator) == p;
    BaseAfterSeparator(dir, name);
  }

  /** The base name of `dir/name` is `name` for a plain name. */
  lemma BaseAfterSeparator(dir: string, name: string)
    requires name != "" && Separator !in name
    ensures Base(dir + [Separator] + name) == name
  {
    var p := dir + [Separator] + name;
    assert p[|p| - 1] == name[|name| - 1];
    assert StripTrailingSeparators(p) == p;
    LastElementAfterSeparator(dir, name);
  }

  lemma {:induction false} LastElementAfterSeparator(dir: string, name: string)
    requires Separator !in name
    ensures LastElement(dir + [Separator] + name) == name
    decreases |name|
  {
    var s := dir + [Separator] + name;
    if |name| > 0 {
      assert s[..|s| - 1] == dir + [Separator] + name[..|name| - 1];
      LastElementAfterSeparator(dir, name[..|name| - 1]);
      assert name[..|name| - 1] + [name[|name| - 1]] == name;
    }
  }
}
