/** `Uri.getDisplayName`: the name a content provider reports for the image, or else the
    last segment of the URI's path. The content query itself is I/O and arrives here as
    its answer. */
module DisplayName {
  import opened Common

  /** `lastIndexOf(c)`: the index of the last occurrence of c in s, or -1. */
  function LastIndexOf(s: string, c: char): (r: int)
    ensures -1 <= r < |s|
    ensures r == -1 <==> c !in s
    ensures r >= 0 ==> s[r] == c && c !in s[r + 1..]
  {
    if s == [] then -1
    else if s[|s| - 1] == c then |s| - 1
    else
      var r := LastIndexOf(s[..|s| - 1], c);
      assert s == s[..|s| - 1] + [s[|s| - 1]];
      assert r >= 0 ==> s[r + 1..] == s[..|s| - 1][r + 1..] + [s[|s| - 1]];
      r
  }

  /** The fallback when no display name was found: the path after its last '/'. */
  function PathFallback(path: string): (r: string)
    ensures '/' !in r
    ensures |r| <= |path| && path[|path| - |r|..] == r
    ensures '/' !in path ==> r == path
    ensures '/' in path ==> path == path[..|path| - |r| - 1] + "/" + r
  {
    var cut := LastIndexOf(path, '/');
    if cut != -1 then
      assert path == path[..cut] + "/" + path[cut + 1..];
      path[cut + 1..]
    else path
  }

  /** getDisplayName: for a `content` URI whose query produced a display name, that name;
      otherwise (another scheme, a failed or empty query, a null column) the path
      fallback. `path` is the URI's path, which the code requires to be non-null. */
  function GetDisplayName(scheme: string, queried: Option<string>, path: string): (r: string)
    ensures scheme == "content" && queried.Some? ==> r == queried.value
    ensures scheme != "content" || queried.None? ==> r == PathFallback(path)
    ensures scheme != "content" || queried.None? ==> '/' !in r && |r| <= |path| && path[|path| - |r|..] == r
  {
    var result := if scheme == "content" then queried else None;
    if result.None? then PathFallback(path) else result.value
  }
}
