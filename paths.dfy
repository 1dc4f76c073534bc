/** The `posixpath` functions the mask script uses: `dirname`, `basename` and `join`. */
module Paths {

  /** `p.rfind('/') + 1`: the length of `p` up to and including its last '/', or 0 if it has none. */
  function HeadLength(p: string): (n: nat)
    ensures n <= |p|
    ensures n > 0 ==> p[n - 1] == '/'
    ensures forall k :: n <= k < |p| ==> p[k] != '/'
  {
    if p == [] then 0 else if p[|p| - 1] == '/' then |p| else HeadLength(p[..|p| - 1])
  }

  predicate AllSlashes(s: string) {
    forall k :: 0 <= k < |s| ==> s[k] == '/'
  }

  /** `s.rstrip('/')`. */
  function RStripSlashes(s: string): (r: string)
    ensures |r| <= |s| && r == s[..|r|]
    ensures r == [] || r[|r| - 1] != '/'
    ensures AllSlashes(s[|r|..])
  {
    if s == [] || s[|s| - 1] != '/' then s else RStripSlashes(s[..|s| - 1])
  }

  /** `posixpath.dirname(p)`: `p` up to its last '/', with trailing slashes removed unless it is all slashes. */
  function Dirname(p: string): (d: string)
    ensures d == [] || AllSlashes(d) || d[|d| - 1] != '/'
  {
    var head := p[..HeadLength(p)];
    if head != [] && !AllSlashes(head) then RStripSlashes(head) else head
  }

  /** `posixpath.basename(p)`: what follows the last '/'. */
  function Basename(p: string): (b: string)
    ensures '/' !in b
  {
    p[HeadLength(p)..]
  }

  /** `posixpath.join(a, b)`: an absolute `b` replaces `a`; otherwise a '/' goes between unless `a` is empty or ends with one. */
  function Join(a: string, b: string): string {
    if |b| > 0 && b[0] == '/' then b
    else if a == [] || a[|a| - 1] == '/' then a + b
    else a + "/" + b
  }

  /** Joining a nonempty relative `name` without slashes onto a directory that does not end in '/'
      gives a path whose basename is `name` and whose dirname is that directory. */
  lemma {:induction false} JoinSplitsBack(dir: string, name: string)
    requires dir != [] && dir[|dir| - 1] != '/'
    requires name != [] && '/' !in name
    ensures Basename(Join(dir, name)) == name
    ensures Dirname(Join(dir, name)) == dir
  {
    var p := Join(dir, name);
    assert p == dir + "/" + name;
    HeadAfterLastSlash(dir + "/", name);
    assert p[..|dir| + 1] == dir + "/";
    assert !AllSlashes(dir + "/") by { assert (dir + "/")[|dir| - 1] != '/'; }
    StripOneSlash(dir);
  }

  /** The last '/' of `prefix + name` is the last character of `prefix` when `name` has none. */
  lemma HeadAfterLastSlash(prefix: string, name: string)
    requires prefix != [] && prefix[|prefix| - 1] == '/'
    requires '/' !in name
    ensures HeadLength(prefix + name) == |prefix|
  {
    var p := prefix + name;
    assert p[|prefix| - 1] == '/';
    assert forall k :: |prefix| <= k < |p| ==> p[k] == name[k - |prefix|];
  }

  lemma StripOneSlash(dir: string)
    requires dir != [] && dir[|dir| - 1] != '/'
    ensures RStripSlashes(dir + "/") == dir
  {
    assert (dir + "/")[..|dir|] == dir;
  }
}
