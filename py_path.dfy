/**
 * `os.path.splitext` as the POSIX flavour of the path module defines it:
 * `/` is the only separator, the extension starts at the last `.` of the
 * last path component, and leading dots of that component do not start an
 * extension (`.mp3` has none).
 */
module PyPath {

  /** `s.rfind(c)`: the last index holding `c`, or -1. */
  function RFind(s: string, c: char): (r: int)
    ensures -1 <= r < |s|
    ensures r >= 0 ==> s[r] == c
    ensures forall i :: r < i < |s| ==> s[i] != c
  {
    if s == [] then -1
    else if s[|s| - 1] == c then |s| - 1
    else RFind(s[..|s| - 1], c)
  }

  datatype PathParts = PathParts(root: string, ext: string)

  function SplitExt(p: string): (r: PathParts)
    ensures r.root + r.ext == p
    ensures r.ext == [] || (r.ext[0] == '.' && '.' !in r.ext[1..] && '/' !in r.ext)
  {
    var sep := RFind(p, '/');
    var dot := RFind(p, '.');
    if dot > sep && exists k :: sep + 1 <= k < dot && p[k] != '.' then
      assert forall i :: 0 <= i < |p| - dot - 1 ==> p[dot..][1..][i] == p[dot + 1 + i];
      assert forall i :: 0 <= i < |p| - dot ==> p[dot..][i] == p[dot + i];
      PathParts(p[..dot], p[dot..])
    else PathParts(p, "")
  }

  /**
   * `p[d]` is a dot in the last component of `p` that follows a character
   * `p[k]` other than a dot.
   */
  predicate DotAfterName(p: string, k: int, d: int)
  {
    && 0 <= k < d < |p|
    && p[k] != '.'
    && p[d] == '.'
    && forall i :: k <= i < |p| ==> p[i] != '/'
  }

  /** A non-empty extension comes from a dot that follows a name in the last component. */
  lemma ExtensionHasName(p: string)
    requires SplitExt(p).ext != []
    ensures exists k, d :: DotAfterName(p, k, d)
    ensures SplitExt(p).ext == p[RFind(p, '.')..]
  {
    var sep := RFind(p, '/');
    var dot := RFind(p, '.');
    var k :| sep + 1 <= k < dot && p[k] != '.';
    assert DotAfterName(p, k, dot);
  }

  /** Such a dot always yields an extension: from the last dot to the end. */
  lemma NameGivesExtension(p: string, k: int, d: int)
    requires DotAfterName(p, k, d)
    ensures SplitExt(p).ext == p[RFind(p, '.')..] != []
  {
    var sep := RFind(p, '/');
    var dot := RFind(p, '.');
    assert sep < k;
    assert d <= dot;
    assert sep + 1 <= k < dot && p[k] != '.';
  }
}
