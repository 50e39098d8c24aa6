/** The two string operations on POSIX paths that the watchers use:
    `os.path.join` with two arguments and `os.path.commonprefix` of two paths
    (both from Python 2's posixpath module). */
module Paths {

  type Path = string
  type Name = string

  predicate IsAbsolute(p: Path) {
    |p| > 0 && p[0] == '/'
  }

  /** `os.path.join(a, b)`: an absolute `b` replaces `a`; otherwise `b` is
      appended after a separator unless `a` is empty or already ends in one. */
  function Join(a: Path, b: Name): (r: Path)
    ensures IsAbsolute(a) || IsAbsolute(b) ==> IsAbsolute(r)
  {
    if IsAbsolute(b) then b
    else if a == [] || a[|a| - 1] == '/' then a + b
    else a + "/" + b
  }

  /** A relative name is appended to the directory, after a separator when
      the directory does not already end in one; an absolute name replaces it. */
  lemma JoinShape(a: Path, b: Name)
    ensures var r := Join(a, b);
      && (IsAbsolute(b) ==> r == b)
      && (!IsAbsolute(b) ==> a <= r && |b| <= |r| && r[|r| - |b|..] == b)
      && (!IsAbsolute(b) && a != [] && a[|a| - 1] != '/' ==> |r| == |a| + 1 + |b| && r[|a|] == '/')
      && (!IsAbsolute(b) && (a == [] || a[|a| - 1] == '/') ==> r == a + b)
  {
  }

  /** `os.path.commonprefix([a, b])`: the longest common character-wise prefix.
      (Python computes it between min and max of the list; for two strings
      that is the same prefix.) */
  function CommonPrefix(a: string, b: string): (r: string)
    ensures r <= a && r <= b
    ensures |r| < |a| && |r| < |b| ==> a[|r|] != b[|r|]
  {
    if a == [] || b == [] || a[0] != b[0] then []
    else [a[0]] + CommonPrefix(a[1..], b[1..])
  }

  /** The guard `commonprefix([root, p]) == root` holds exactly when `root` is
      a character-wise prefix of `p`. */
  lemma PrefixGuardIsPrefix(root: string, p: string)
    ensures CommonPrefix(root, p) == root <==> root <= p
  {
  }

  /** The guard is character-wise, not component-wise: a sibling directory
      whose name extends the root's last component passes it. */
  lemma PrefixGuardAdmitsSibling()
    ensures CommonPrefix("/w", "/wx") == "/w"
  {
    PrefixGuardIsPrefix("/w", "/wx");
  }
}
