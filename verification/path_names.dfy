/**
 * The two pieces of Node's `path` module the command uses on file-system paths:
 * `basename` (the last path segment) and `join` (root directory plus one file name).
 */
module PathNames {

  /** `path` follows the host platform: POSIX separates with `/`, Windows with `\` or `/`. */
  datatype Platform = Posix | Windows

  predicate IsSeparator(p: Platform, c: char) {
    c == '/' || (p == Windows && c == '\\')
  }

  /** The separator `join` inserts. */
  function Separator(p: Platform): (c: char)
    ensures IsSeparator(p, c)
  {
    if p == Windows then '\\' else '/'
  }

  /** No character of s is a separator: s is a single path segment. */
  predicate IsSegment(p: Platform, s: string) {
    forall i :: 0 <= i < |s| ==> !IsSeparator(p, s[i])
  }

  /** s without its trailing separators. */
  function TrimTrailing(p: Platform, s: string): (r: string)
    ensures r <= s
    ensures forall i :: |r| <= i < |s| ==> IsSeparator(p, s[i])
    ensures r == [] || !IsSeparator(p, r[|r| - 1])
  {
    if |s| > 0 && IsSeparator(p, s[|s| - 1]) then TrimTrailing(p, s[..|s| - 1]) else s
  }

  /** Where the segment ending at j begins: just after the last separator before j. */
  function SegmentStart(p: Platform, s: string, j: nat): (k: nat)
    requires j <= |s|
    ensures k <= j
    ensures forall i :: k <= i < j ==> !IsSeparator(p, s[i])
    ensures k == 0 || IsSeparator(p, s[k - 1])
    decreases j
  {
    if j == 0 || IsSeparator(p, s[j - 1]) then j else SegmentStart(p, s, j - 1)
  }

  /** The part of s after its last separator (all of s when it has none). */
  function LastSegment(p: Platform, s: string): (r: string)
    ensures |r| <= |s| && r == s[|s| - |r|..]
    ensures IsSegment(p, r)
    ensures |r| < |s| ==> IsSeparator(p, s[|s| - |r| - 1])
  {
    s[SegmentStart(p, s, |s|)..]
  }

  /** A Windows drive prefix such as `C:`: an ASCII letter then a colon. */
  predicate HasDrivePrefix(p: Platform, s: string) {
    p == Windows && |s| >= 2 && (('A' <= s[0] <= 'Z') || ('a' <= s[0] <= 'z')) && s[1] == ':'
  }

  /** s without its drive prefix; on Windows `basename` looks only past it. */
  function DriveFree(p: Platform, s: string): string {
    if HasDrivePrefix(p, s) then s[2..] else s
  }

  /**
   * `path.basename(path)`: the last segment once the drive prefix and the trailing separators
   * are set aside. The result ends the trimmed path and is preceded there by a separator unless
   * it is all of it.
   */
  function Basename(p: Platform, path: string): (r: string)
    ensures IsSegment(p, r)
    ensures var t := TrimTrailing(p, DriveFree(p, path));
      && |r| <= |t| && r == t[|t| - |r|..]
      && (|r| < |t| ==> IsSeparator(p, t[|t| - |r| - 1]))
    ensures IsSegment(p, path) && !HasDrivePrefix(p, path) ==> r == path
  {
    LastSegment(p, TrimTrailing(p, DriveFree(p, path)))
  }

  /**
   * `path.join(root, name)` for a root directory and a single file name: the root, then one
   * separator unless the root is empty or already ends in one, then the name. The name is never
   * placed in a subfolder of the root nor in place of the root's tail.
   */
  function Join(p: Platform, root: string, name: string): (r: string)
    ensures root <= r && |r| >= |name| && r[|r| - |name|..] == name
    ensures |root| + |name| <= |r| <= |root| + 1 + |name|
    ensures |r| == |root| + |name| <==> root == [] || IsSeparator(p, root[|root| - 1])
    ensures |r| == |root| + 1 + |name| ==> r[|root|] == Separator(p)
    ensures IsSegment(p, name) && name != [] && (root != [] || !HasDrivePrefix(p, name))
      ==> Basename(p, r) == name
  {
    if |root| == 0 then
      JoinedBasename(p, root, name);
      name
    else if IsSeparator(p, root[|root| - 1]) then
      JoinedBasename(p, root, name);
      root + name
    else
      JoinedBasename(p, root + [Separator(p)], name);
      root + [Separator(p)] + name
  }

  /** The joined path is the root and the name with at most one separator between them. */
  lemma JoinIsRootThenName(p: Platform, root: string, name: string)
    ensures var r := Join(p, root, name);
      r == root + name || r == root + [Separator(p)] + name
    ensures root != [] && !IsSeparator(p, root[|root| - 1])
      ==> Join(p, root, name) == root + [Separator(p)] + name
  {
    if |root| == 0 {
      assert root + name == name;
    }
  }

  /** A segment appended after a separator is what `basename` gives back. */
  lemma JoinedBasename(p: Platform, dir: string, name: string)
    requires dir == [] || IsSeparator(p, dir[|dir| - 1])
    ensures IsSegment(p, name) && name != [] && (dir != [] || !HasDrivePrefix(p, name))
      ==> Basename(p, dir + name) == name
  {
    if IsSegment(p, name) && name != [] && (dir != [] || !HasDrivePrefix(p, name)) {
      var s := dir + name;
      if HasDrivePrefix(p, s) {
        assert |dir| >= 3;
        assert s[2..] == dir[2..] + name;
        SegmentAfterSeparator(p, dir[2..], name);
      } else {
        SegmentAfterSeparator(p, dir, name);
      }
    }
  }

  /** After a separator, a non-empty segment is the last segment. */
  lemma SegmentAfterSeparator(p: Platform, dir: string, name: string)
    requires dir == [] || IsSeparator(p, dir[|dir| - 1])
    requires IsSegment(p, name) && name != []
    ensures LastSegment(p, TrimTrailing(p, dir + name)) == name
  {
    var s := dir + name;
    assert TrimTrailing(p, s) == s;
    var k := SegmentStart(p, s, |s|);
    assert dir != [] ==> IsSeparator(p, s[|dir| - 1]);
    assert forall i :: |dir| <= i < |s| ==> !IsSeparator(p, s[i]);
    assert k == |dir|;
    assert s[k..] == name;
  }
}
