/** The filesystem as the installer sees it: a tree of named files and
    directories, and the handful of path and string operations it applies to
    names (`Path.name`, `Path.suffix`, `str.endswith`, `str.strip`). */
module Fs {
  import opened Types

  /** File contents. Bytes and text alike are sequences of characters. */
  type Content = string

  datatype Node = File(data: Content) | Dir(children: map<string, Node>)

  /** The entries of one directory, by name. */
  type Tree = map<string, Node>

  function Get(t: Tree, name: string): Option<Node> {
    if name in t then Some(t[name]) else None
  }

  predicate IsDirIn(t: Tree, name: string) {
    name in t && t[name].Dir?
  }

  predicate IsFileIn(t: Tree, name: string) {
    name in t && t[name].File?
  }

  /** The children of directory `name` in `t`, or nothing when it is absent or a file. */
  function ChildrenOf(t: Tree, name: string): Tree {
    if IsDirIn(t, name) then t[name].children else map[]
  }

  // ---------------------------------------------------------------------------
  // str.startswith / str.endswith

  predicate StartsWith(s: string, prefix: string) {
    |prefix| <= |s| && s[..|prefix|] == prefix
  }

  predicate EndsWith(s: string, suffix: string) {
    |suffix| <= |s| && s[|s| - |suffix|..] == suffix
  }

  /** `Path(name).suffix == ".jar"`: the last dot must not be the first
      character, so a file called just `.jar` has no suffix at all. */
  predicate HasJarSuffix(name: string) {
    |name| > 4 && EndsWith(name, ".jar")
  }

  // ---------------------------------------------------------------------------
  // str.strip(): Python's whitespace is every character for which str.isspace holds.

  predicate IsSpace(c: char) {
    var k := c as int;
    (9 <= k <= 13) || (28 <= k <= 32) || k == 0x85 || k == 0xA0 || k == 0x1680
    || (0x2000 <= k <= 0x200A) || k == 0x2028 || k == 0x2029 || k == 0x202F
    || k == 0x205F || k == 0x3000
  }

  /** No whitespace at either end. */
  predicate Trimmed(s: string) {
    s == [] || (!IsSpace(s[0]) && !IsSpace(s[|s| - 1]))
  }

  /** The text without its leading whitespace: a suffix of `s`. */
  function TrimStart(s: string): (r: string)
    ensures r == [] || !IsSpace(r[0])
    ensures |r| <= |s| && r == s[|s| - |r|..]
    ensures forall k | 0 <= k < |s| - |r| :: IsSpace(s[k])
  {
    if s != [] && IsSpace(s[0]) then
      var r := TrimStart(s[1..]);
      assert r == s[|s| - |r|..];
      r
    else
      s
  }

  /** The text without its trailing whitespace: a prefix of `s`. */
  function TrimEnd(s: string): (r: string)
    ensures r == [] || !IsSpace(r[|r| - 1])
    ensures |r| <= |s| && r == s[..|r|]
    ensures forall k | |r| <= k < |s| :: IsSpace(s[k])
  {
    if s != [] && IsSpace(s[|s| - 1]) then
      var init := s[..|s| - 1];
      var r := TrimEnd(init);
      assert r == s[..|r|];
      r
    else
      s
  }

  /** Only whitespace stands before `s[i]` and from `s[j]` on. */
  predicate SpaceAround(s: string, i: nat, j: nat)
    requires i <= j <= |s|
  {
    (forall k | 0 <= k < i :: IsSpace(s[k])) && (forall k | j <= k < |s| :: IsSpace(s[k]))
  }

  /** `str.strip()`: the text with its leading and trailing whitespace removed. */
  function Strip(s: string): (r: string)
    ensures Trimmed(r)
    ensures Trimmed(s) ==> r == s
    ensures exists i, j :: 0 <= i <= j <= |s| && r == s[i..j] && SpaceAround(s, i, j)
  {
    var t := TrimStart(s);
    var r := TrimEnd(t);
    TrimBothInfix(s);
    assert r != [] ==> r[0] == t[0];
    r
  }

  /** Trimming both ends keeps a contiguous middle part of the text, and
      cuts only whitespace around it. */
  lemma TrimBothInfix(s: string)
    ensures exists i, j :: 0 <= i <= j <= |s| && TrimEnd(TrimStart(s)) == s[i..j] && SpaceAround(s, i, j)
  {
    var t := TrimStart(s);
    var r := TrimEnd(t);
    var i, j := |s| - |t|, |r|;
    InfixOf(s, t, r, i, j);
    assert SpaceAround(s, i, i + j);
    assert 0 <= i <= i + j <= |s| && TrimEnd(TrimStart(s)) == s[i..i + j];
  }

  /** A prefix of a suffix is a middle part, with its surroundings carried over. */
  lemma InfixOf(s: string, t: string, r: string, i: nat, j: nat)
    requires i <= |s| && t == s[i..] && j <= |t| && r == t[..j]
    requires forall k | 0 <= k < i :: IsSpace(s[k])
    requires forall k | j <= k < |t| :: IsSpace(t[k])
    ensures i + j <= |s| && r == s[i..i + j]
    ensures forall k | i + j <= k < |s| :: IsSpace(s[k])
  {
    forall k | i + j <= k < |s| ensures IsSpace(s[k]) {
      assert s[k] == t[k - i];
    }
  }

  // ---------------------------------------------------------------------------
  // Path(p).name: the last component of a '/'-separated path, ignoring empty
  // and "." components as pathlib does.

  function Split(p: string): (parts: seq<string>)
    ensures |parts| >= 1
    ensures forall k | 0 <= k < |parts| :: '/' !in parts[k]
  {
    if p == [] then [""]
    else
      var rest := Split(p[1..]);
      if p[0] == '/' then [""] + rest else [[p[0]] + rest[0]] + rest[1..]
  }

  function Components(parts: seq<string>): (r: seq<string>)
    ensures forall k | 0 <= k < |r| :: r[k] in parts && r[k] != "" && r[k] != "."
  {
    if parts == [] then []
    else if parts[0] == "" || parts[0] == "." then Components(parts[1..])
    else [parts[0]] + Components(parts[1..])
  }

  /** `Path(p).name`. */
  function Name(p: string): (r: string)
    ensures '/' !in r
  {
    var cs := Components(Split(p));
    if cs == [] then "" else cs[|cs| - 1]
  }

  lemma {:induction false} SplitPlain(f: string)
    requires '/' !in f
    ensures Split(f) == [f]
  {
    if f != [] {
      SplitPlain(f[1..]);
      assert [f[0]] + f[1..] == f;
    }
  }

  lemma {:induction false} SplitAtSlash(a: string, b: string)
    requires '/' !in a
    ensures Split(a + "/" + b) == [a] + Split(b)
  {
    if a == [] {
      assert a + "/" + b == ['/'] + b;
      assert (a + "/" + b)[1..] == b;
    } else {
      SplitAtSlash(a[1..], b);
      assert (a + "/" + b)[1..] == a[1..] + "/" + b;
      assert [a[0]] + a[1..] == a;
    }
  }

  /** `Split` of a path with one more character in front. */
  lemma SplitCons(c: char, s: string)
    ensures Split([c] + s) == if c == '/' then [""] + Split(s) else [[c] + Split(s)[0]] + Split(s)[1..]
  {
    assert ([c] + s)[1..] == s;
  }

  /** Joining two paths with `/` joins their components. */
  lemma {:induction false} SplitJoin(a: string, b: string)
    ensures Split(a + "/" + b) == Split(a) + Split(b)
  {
    if a == [] {
      SplitCons('/', b);
      assert a + "/" + b == ['/'] + b;
    } else {
      var c, t := a[0], a[1..];
      SplitJoin(t, b);
      assert a == [c] + t;
      assert a + "/" + b == [c] + (t + "/" + b);
      SplitCons(c, t);
      SplitCons(c, t + "/" + b);
      if c == '/' {
        assert [""] + (Split(t) + Split(b)) == [""] + Split(t) + Split(b);
      } else {
        MergeFirst([c], Split(t), Split(b));
      }
    }
  }

  /** Gluing a prefix onto the first part commutes with appending parts. */
  lemma MergeFirst(x: string, s: seq<string>, u: seq<string>)
    requires s != []
    ensures [x + (s + u)[0]] + (s + u)[1..] == [x + s[0]] + s[1..] + u
  {
    assert (s + u)[1..] == s[1..] + u;
  }

  /** `Path(p).name` of any path ending in `/f` is `f`: a nested path such
      as `mods/sub/x.jar` names `x.jar`. */
  lemma NameOfJoin(a: string, f: string)
    requires '/' !in f && f != "" && f != "."
    ensures Name(a + "/" + f) == f
  {
    SplitJoin(a, f);
    SplitPlain(f);
    ComponentsAppend(Split(a), [f]);
    assert Components([f]) == [f] + Components([]);
  }

  lemma {:induction false} ComponentsAppend(x: seq<string>, y: seq<string>)
    ensures Components(x + y) == Components(x) + Components(y)
  {
    if x != [] {
      ComponentsAppend(x[1..], y);
      assert (x + y)[1..] == x[1..] + y;
    } else {
      assert x + y == y;
    }
  }

  /** A path that starts with "mods/" always has a non-empty name, and a path
      "mods/" + f names f when f is a plain file name. */
  lemma ModsPathName(f: string)
    ensures Name("mods/" + f) != ""
    ensures '/' !in f && f != "" && f != "." ==> Name("mods/" + f) == f
  {
    assert "mods/" + f == "mods" + "/" + f;
    SplitAtSlash("mods", f);
    ComponentsAppend(["mods"], Split(f));
    var tail := Components(Split(f));
    assert Components(Split("mods/" + f)) == ["mods"] + tail;
    if '/' !in f && f != "" && f != "." {
      SplitPlain(f);
      assert Components([f]) == [f] + Components([]);
    }
  }
}
