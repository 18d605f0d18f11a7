/** Relative paths, their components and their directories. */
module Paths {
  /** The position of the last slash, or -1. */
  function LastSlash(s: string): (i: int)
    ensures -1 <= i < |s|
    ensures i >= 0 ==> s[i] == '/'
    ensures forall j :: i < j < |s| ==> s[j] != '/'
  {
    if s == "" then -1
    else if s[|s| - 1] == '/' then |s| - 1
    else LastSlash(s[..|s| - 1])
  }

  /** The directory of a path; that of a path without a slash is the root, which is the empty path. */
  function Parent(s: string): (p: string)
    ensures |p| <= |s| && (s != "" ==> |p| < |s|)
  {
    if LastSlash(s) < 0 then "" else s[..LastSlash(s)]
  }

  function Components(s: string): (parts: seq<string>)
    ensures |parts| > 0
    decreases |s|
  {
    var i := LastSlash(s);
    if i < 0 then [s] else Components(s[..i]) + [s[i + 1..]]
  }
}
