/** The one piece of Node's `path` module the action relies on: `path.extname`
    for POSIX paths, which picks the minifier in `minifyFile`. */
module Paths {

  /** The path without its trailing '/' separators. */
  function TrimTrailingSlashes(p: string): (r: string)
    ensures |r| <= |p| && r == p[..|r|]
    ensures |r| > 0 ==> r[|r| - 1] != '/'
    ensures forall i :: |r| <= i < |p| ==> p[i] == '/'
  {
    if |p| > 0 && p[|p| - 1] == '/' then TrimTrailingSlashes(p[..|p| - 1]) else p
  }

  /** The last path component: everything after the last '/'. */
  function Basename(p: string): (b: string)
    ensures '/' !in b
    ensures |b| <= |p| && b == p[|p| - |b|..]
    ensures |b| < |p| ==> p[|p| - |b| - 1] == '/'
  {
    if |p| == 0 || p[|p| - 1] == '/' then "" else Basename(p[..|p| - 1]) + [p[|p| - 1]]
  }

  /** The index of the last '.' in `s`, if any. */
  function LastDot(s: string): (r: nat)
    ensures r <= |s|
    ensures r < |s| ==> s[r] == '.'
    ensures forall j :: r < j < |s| ==> s[j] != '.'
    ensures r == |s| ==> '.' !in s
  {
    if |s| == 0 then 0
    else if s[|s| - 1] == '.' then |s| - 1
    else if LastDot(s[..|s| - 1]) == |s| - 1 then |s|
    else LastDot(s[..|s| - 1])
  }

  /** `path.extname`: from the last '.' of the last component to its end, or
      "" when that component has no '.', starts with its only '.', or is "..". */
  function Extname(p: string): (e: string)
    ensures e == "" || (e[0] == '.' && '.' !in e[1..] && '/' !in e)
    ensures e != "" ==> HasExtension(p, e)
  {
    var base := Basename(TrimTrailingSlashes(p));
    ComponentExtname(base)
  }

  /** The extension of one path component: a proper suffix of it that starts
      at its last '.'. */
  function ComponentExtname(base: string): (e: string)
    requires '/' !in base
    ensures e == "" || (e[0] == '.' && '.' !in e[1..] && '/' !in e)
    ensures |e| <= |base| && base[|base| - |e|..] == e && (e != "" ==> |e| < |base|)
  {
    var dot := LastDot(base);
    if dot == |base| || dot == 0 || base == ".." then "" else
      var e := base[dot..];
      assert forall j :: 0 <= j < |e| ==> e[j] == base[dot + j];
      e
  }

  /** A file name ends with the extension `ext` and has something before it. */
  predicate HasExtension(p: string, ext: string) {
    var base := Basename(TrimTrailingSlashes(p));
    |base| > |ext| && base[|base| - |ext|..] == ext
  }

  /** What an extension `ext` handed to `ExtnameIs` looks like: one leading
      '.', at least one more character, and no other '.' or '/'. */
  predicate IsExtension(ext: string) {
    |ext| >= 2 && ext[0] == '.' && forall i :: 1 <= i < |ext| ==> ext[i] != '.' && ext[i] != '/'
  }

  lemma SuffixGivesLastDot(base: string, ext: string)
    requires IsExtension(ext)
    requires |base| > |ext| && base[|base| - |ext|..] == ext
    ensures LastDot(base) == |base| - |ext|
  {
    var k := |base| - |ext|;
    assert base[k] == ext[0];
    forall j | k < j < |base| ensures base[j] != '.' {
      assert base[j] == ext[j - k];
    }
  }

  /** Within one component: a component that ends with `ext` after at least
      one other character has `ext` as its extension. */
  lemma ComponentExtnameIf(base: string, ext: string)
    requires '/' !in base
    requires IsExtension(ext)
    requires |base| > |ext| && base[|base| - |ext|..] == ext
    ensures ComponentExtname(base) == ext
  {
    SuffixGivesLastDot(base, ext);
    assert base != "..";
  }

  /** For an extension of that form, `Extname` yields it exactly when the last
      path component ends with it after at least one other character. */
  lemma ExtnameIs(p: string, ext: string)
    requires IsExtension(ext)
    ensures Extname(p) == ext <==> HasExtension(p, ext)
  {
    var base := Basename(TrimTrailingSlashes(p));
    if HasExtension(p, ext) {
      assert '/' !in base;
      ComponentExtnameIf(base, ext);
      assert Extname(p) == ComponentExtname(base);
    }
  }

  lemma ExtnameJs(p: string)
    ensures Extname(p) == ".js" <==> HasExtension(p, ".js")
  {
    ExtnameIs(p, ".js");
  }

  lemma ExtnameCss(p: string)
    ensures Extname(p) == ".css" <==> HasExtension(p, ".css")
  {
    ExtnameIs(p, ".css");
  }

  /** The last component of `dir/name` is `name`. */
  lemma {:induction false} BasenameAfterSlash(dir: string, name: string)
    requires '/' !in name
    ensures Basename(dir + "/" + name) == name
    decreases |name|
  {
    var p := dir + "/" + name;
    if |name| == 0 {
      assert p[|p| - 1] == '/';
    } else {
      var init := name[..|name| - 1];
      assert p[|p| - 1] == name[|name| - 1] != '/';
      assert p[..|p| - 1] == dir + "/" + init;
      BasenameAfterSlash(dir, init);
      assert Basename(p) == Basename(p[..|p| - 1]) + [p[|p| - 1]];
      assert name == init + [name[|name| - 1]];
    }
  }

  /** A file whose name starts with its only '.' (".js", ".css") has no extension. */
  lemma DotFileHasNoExtension(dir: string, name: string)
    requires '/' !in name && |name| >= 1 && name[0] == '.'
    requires forall i :: 1 <= i < |name| ==> name[i] != '.'
    ensures Extname(dir + "/" + name) == ""
  {
    var p := dir + "/" + name;
    assert TrimTrailingSlashes(p) == p;
    BasenameAfterSlash(dir, name);
  }
}
