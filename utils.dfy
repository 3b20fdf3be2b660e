/** Utils.cpp: the length of a line without its terminator. */
module Utils {

  /** `getCleanStrLen`: the length of `s` without one trailing line-feed. */
  function CleanLen(s: string): (r: nat)
    ensures s == [] ==> r == 0
    ensures s != [] && s[|s| - 1] == '\n' ==> r == |s| - 1
    ensures s != [] && s[|s| - 1] != '\n' ==> r == |s|
    ensures |s| - 1 <= r <= |s|
  {
    var len := |s|;
    if len == 0 then 0
    else if s[len - 1] == '\n' then len - 1
    else len
  }

  /** What the clean length leaves out is exactly the terminator: `s` is its
      first `CleanLen(s)` characters followed by nothing or by one `'\n'`. */
  lemma CleanPrefix(s: string)
    ensures s == s[..CleanLen(s)] + (if CleanLen(s) < |s| then "\n" else "")
  {
  }
}
