/**
 * `System.IO.Path` as used by the controllers, on a platform whose only
 * directory separator is '/'.
 */
module Paths {

  import opened Wrappers

  const Separator: char := '/'

  /**
   * `Path.Combine(dir, name)`: an empty part yields the other, a rooted `name`
   * wins, otherwise one separator joins the two (none is added when `dir`
   * already ends with one).
   */
  function Combine(dir: string, name: string): (r: string)
    ensures dir == [] ==> r == name
    ensures dir != [] && name == [] ==> r == dir
    ensures dir != [] && name != [] && name[0] == Separator ==> r == name
    ensures dir != [] && name != [] && name[0] != Separator ==>
      && |dir| + |name| <= |r| <= |dir| + 1 + |name|
      && r[..|dir|] == dir && r[|r| - |name|..] == name
      && (|r| == |dir| + |name| <==> dir[|dir| - 1] == Separator)
      && (|r| == |dir| + 1 + |name| ==> r[|dir|] == Separator)
  {
    if dir == [] then name
    else if name == [] then dir
    else if name[0] == Separator then name
    else if dir[|dir| - 1] == Separator then dir + name
    else dir + [Separator] + name
  }

  /** `Path.GetFileName`: the part of the path after its last separator. */
  function GetFileName(path: string): (r: string)
    ensures |r| <= |path| && r == path[|path| - |r|..]
    ensures Separator !in r
    ensures |r| < |path| ==> path[|path| - |r| - 1] == Separator
  {
    if path == [] || path[|path| - 1] == Separator then []
    else GetFileName(path[..|path| - 1]) + [path[|path| - 1]]
  }

  /** Where `Path.GetExtension` starts: the last '.' below `i` with no separator after it. */
  function LastDot(path: string, i: nat): (r: Option<nat>)
    requires i <= |path|
    ensures r.Some? ==> r.value < i && path[r.value] == '.'
    ensures r.Some? ==> forall k :: r.value < k < i ==> path[k] != '.' && path[k] != Separator
  {
    if i == 0 then None
    else if path[i - 1] == '.' then Some(i - 1)
    else if path[i - 1] == Separator then None
    else LastDot(path, i - 1)
  }

  /**
   * `Path.GetExtension`: from the last '.' of the file name to the end, or
   * empty when the file name has no '.' or ends with it.
   */
  function GetExtension(path: string): (r: string)
    ensures r == [] || (2 <= |r| <= |path| && r[0] == '.' && r == path[|path| - |r|..])
    ensures Separator !in r
    ensures forall k :: 1 <= k < |r| ==> r[k] != '.'
  {
    match LastDot(path, |path|)
    case None => []
    case Some(k) => if k == |path| - 1 then [] else path[k..]
  }

  /** A name without separators is the file-name part of any path it is combined into. */
  lemma {:induction false} FileNameOfCombine(dir: string, name: string)
    requires name != [] && Separator !in name
    ensures GetFileName(Combine(dir, name)) == name
  {
    var prefix := if dir == [] then [] else if dir[|dir| - 1] == Separator then dir else dir + [Separator];
    assert Combine(dir, name) == prefix + name;
    FileNameAfter(prefix, name);
  }

  lemma {:induction false} FileNameAfter(prefix: string, name: string)
    requires prefix == [] || prefix[|prefix| - 1] == Separator
    requires Separator !in name
    ensures GetFileName(prefix + name) == name
  {
    if name != [] {
      var p := prefix + name;
      assert p[..|p| - 1] == prefix + name[..|name| - 1];
      assert name[|name| - 1] in name;
      FileNameAfter(prefix, name[..|name| - 1]);
    } else {
      assert prefix + name == prefix;
    }
  }

  /** Scanning down from `i` over characters that are neither '.' nor a separator reaches the dot at `lo`. */
  lemma {:induction false} LastDotFinds(path: string, i: nat, lo: nat)
    requires lo < i <= |path| && path[lo] == '.'
    requires forall k :: lo < k < i ==> path[k] != '.' && path[k] != Separator
    ensures LastDot(path, i) == Some(lo)
  {
    if i - 1 != lo {
      LastDotFinds(path, i - 1, lo);
    }
  }

  /** A file name ending in ".x" (x without dots or separators, non-empty) has extension ".x". */
  lemma ExtensionOfName(stem: string, ext: string)
    requires |ext| >= 2 && ext[0] == '.'
    requires forall k :: 1 <= k < |ext| ==> ext[k] != '.' && ext[k] != Separator
    ensures GetExtension(stem + ext) == ext
  {
    var p := stem + ext;
    LastDotFinds(p, |p|, |stem|);
    assert p[|stem|..] == ext;
  }
}
