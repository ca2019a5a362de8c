/**
 * The slash-separated path operations of Go's `path/filepath` that the
 * plugin relies on, on Unix.  Lexical cleaning (`Clean`) is not modelled:
 * `.`, `..` and repeated `/` stay in a joined path, so it is spelled
 * differently from Go's, and a `..` after a symbolic link can make it name
 * a different file.
 */
module Paths {
  import opened Wrappers

  /** `filepath.IsAbs` on Unix: the path starts at the root. */
  predicate IsAbs(p: string) {
    |p| > 0 && p[0] == '/'
  }

  /** The process's working directory, which the operating system reports as an absolute path. */
  type AbsPath = p: string | IsAbs(p) witness "/"

  /**
   * `filepath.Join(dir, name)`: empty elements are ignored, the others are
   * separated by one `/`.
   */
  function Join(dir: string, name: string): (r: string)
    ensures IsAbs(dir) ==> IsAbs(r)
    ensures dir == "" ==> r == name
    ensures name == "" ==> r == dir
    ensures dir != "" && name != "" ==>
      |r| == |dir| + 1 + |name| && r[..|dir|] == dir && r[|dir|] == '/' && r[|dir| + 1..] == name
  {
    if dir == "" then name
    else if name == "" then dir
    else dir + "/" + name
  }

  /**
   * `filepath.Abs(path)`: an absolute path is returned as is; a relative one
   * is joined onto the working directory, and the call fails (None) when the
   * working directory cannot be determined (`wd == None`).
   */
  function Abs(wd: Option<AbsPath>, path: string): (r: Option<string>)
    ensures r.Some? <==> IsAbs(path) || wd.Some?
    ensures r.Some? ==> IsAbs(r.value)
    ensures IsAbs(path) ==> r == Some(path)
    ensures !IsAbs(path) && wd.Some? ==> r == Some(Join(wd.value, path))
  {
    if IsAbs(path) then Some(path)
    else match wd
      case None => None
      case Some(dir) => Some(Join(dir, path))
  }
}
