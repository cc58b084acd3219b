/** Slash-separated paths, as Go's `path` and `strings` packages treat them. */
module Paths {

  predicate HasPrefix(s: string, prefix: string) {
    |prefix| <= |s| && s[..|prefix|] == prefix
  }

  predicate HasSuffix(s: string, suffix: string) {
    |suffix| <= |s| && s[|s| - |suffix|..] == suffix
  }

  /** `path.Join` of two already clean arguments: an empty argument
      contributes nothing, otherwise the two are separated by one slash. */
  function Join(dir: string, name: string): (p: string)
    ensures HasPrefix(p, dir) && HasSuffix(p, name)
    ensures |p| == |dir| + |name| + (if dir == "" || name == "" then 0 else 1)
    ensures dir != "" && name != "" ==> p[|dir|] == '/'
  {
    if dir == "" then name
    else if name == "" then dir
    else dir + "/" + name
  }
}
