/**
 * The patch file name `<basename>.<hash1>_<hash2>.patch` built at src/extension.ts:47, and the
 * reading that recovers its three parts.
 */
module PatchNames {
  import opened Wrappers

  const PatchSuffix: string := ".patch"

  /** The name the patch for `hash1..hash2` of file `base` is written under. */
  function PatchFileName(base: string, hash1: string, hash2: string): (r: string)
    ensures |r| == |base| + |hash1| + |hash2| + 8
    ensures r[..|base|] == base && r[|base|] == '.'
    ensures r[|base| + 1..|base| + 1 + |hash1|] == hash1 && r[|base| + 1 + |hash1|] == '_'
    ensures r[|r| - 6 - |hash2|..|r| - 6] == hash2
    ensures r[|r| - 6..] == PatchSuffix
  {
    base + "." + hash1 + "_" + hash2 + PatchSuffix
  }

  /** The last position of c in s. */
  function LastIndexOf(s: string, c: char): (r: Option<nat>)
    ensures r.Some? ==> r.value < |s| && s[r.value] == c
    ensures r.Some? ==> forall i :: r.value < i < |s| ==> s[i] != c
    ensures r.None? ==> forall i :: 0 <= i < |s| ==> s[i] != c
  {
    if |s| == 0 then None
    else if s[|s| - 1] == c then Some(|s| - 1)
    else LastIndexOf(s[..|s| - 1], c)
  }

  /** The first position of c in s. */
  function FirstIndexOf(s: string, c: char): (r: Option<nat>)
    ensures r.Some? ==> r.value < |s| && s[r.value] == c
    ensures r.Some? ==> forall i :: 0 <= i < r.value ==> s[i] != c
    ensures r.None? ==> forall i :: 0 <= i < |s| ==> s[i] != c
  {
    if |s| == 0 then None
    else if s[0] == c then Some(0)
    else match FirstIndexOf(s[1..], c)
      case None => None
      case Some(i) => Some(i + 1)
  }

  /**
   * Reads a patch file name back into (base, hash1, hash2): the base ends at the last `.` before
   * the `.patch` suffix and the first hash at the first `_` after it.
   */
  function SplitPatchFileName(name: string): (r: Option<(string, string, string)>)
    ensures r.Some? ==> PatchFileName(r.value.0, r.value.1, r.value.2) == name
  {
    if |name| < |PatchSuffix| || name[|name| - |PatchSuffix|..] != PatchSuffix then None
    else
      var stem := name[..|name| - |PatchSuffix|];
      match LastIndexOf(stem, '.')
      case None => None
      case Some(d) =>
        var rest := stem[d + 1..];
        match FirstIndexOf(rest, '_')
        case None => None
        case Some(u) =>
          assert stem == stem[..d] + "." + rest[..u] + "_" + rest[u + 1..];
          Some((stem[..d], rest[..u], rest[u + 1..]))
  }

  predicate Lacks(s: string, c: char) {
    forall i :: 0 <= i < |s| ==> s[i] != c
  }

  /**
   * The name determines the commits whenever neither hash holds a `.` and the first holds no
   * `_` (true of hexadecimal commit ids).
   */
  lemma {:induction false} SplitPatchFileNameRoundTrip(base: string, hash1: string, hash2: string)
    requires Lacks(hash1, '.') && Lacks(hash2, '.') && Lacks(hash1, '_')
    ensures SplitPatchFileName(PatchFileName(base, hash1, hash2)) == Some((base, hash1, hash2))
  {
    var name := PatchFileName(base, hash1, hash2);
    var rest := hash1 + "_" + hash2;
    var stem := name[..|name| - |PatchSuffix|];
    assert stem == base + "." + rest;
    JoinedLacks(hash1, hash2, '.');
    LastSeparator(base, '.', rest);
    FirstSeparator(hash1, '_', hash2);
    assert rest[..|hash1|] == hash1 && rest[|hash1| + 1..] == hash2;
    assert stem[|base| + 1..] == rest;
  }

  /** The separator c right after a prefix is the last one when none follows it. */
  lemma LastSeparator(prefix: string, c: char, rest: string)
    requires Lacks(rest, c)
    ensures LastIndexOf(prefix + [c] + rest, c) == Some(|prefix|)
  {
    var t := prefix + [c] + rest;
    assert t[|prefix|] == c;
    assert t[|prefix| + 1..] == rest;
    assert forall i :: |prefix| < i < |t| ==> t[i] != c by {
      forall i | |prefix| < i < |t| ensures t[i] != c {
        assert t[i] == t[|prefix| + 1..][i - |prefix| - 1];
      }
    }
  }

  /** The separator c right after a prefix without c is its first one. */
  lemma FirstSeparator(prefix: string, c: char, rest: string)
    requires Lacks(prefix, c)
    ensures FirstIndexOf(prefix + [c] + rest, c) == Some(|prefix|)
  {
    var t := prefix + [c] + rest;
    assert t[|prefix|] == c;
    assert forall i :: 0 <= i < |prefix| ==> t[i] == prefix[i];
  }

  lemma JoinedLacks(hash1: string, hash2: string, c: char)
    requires Lacks(hash1, c) && Lacks(hash2, c) && c != '_'
    ensures Lacks(hash1 + "_" + hash2, c)
  {
    var t := hash1 + "_" + hash2;
    assert forall i :: 0 <= i < |hash1| ==> t[i] == hash1[i];
    assert forall i :: |hash1| < i < |t| ==> t[i] == hash2[i - |hash1| - 1];
  }

  /**
   * `\w` lets `_` into a hash, and then two different commit pairs of one file share a name, so
   * the second patch overwrites the first.
   */
  lemma UnderscoreHashesCollide(base: string, h: string, k: string, j: string)
    ensures PatchFileName(base, h + "_" + k, j) == PatchFileName(base, h, k + "_" + j)
  {
    var front := base + "." + h + "_";
    assert base + "." + (h + "_" + k) + "_" + j == front + k + "_" + j;
    assert base + "." + h + "_" + (k + "_" + j) == front + k + "_" + j;
  }

  /** For instance `a.css` at commits (abcdefg_h, ijklmno) and (abcdefg, h_ijklmno). */
  lemma UnderscoreHashesCollideExample()
    ensures PatchFileName("a.css", "abcdefg_h", "ijklmno") == PatchFileName("a.css", "abcdefg", "h_ijklmno")
  {
    UnderscoreHashesCollide("a.css", "abcdefg", "h", "ijklmno");
    assert "abcdefg" + "_" + "h" == "abcdefg_h";
    assert "h" + "_" + "ijklmno" == "h_ijklmno";
  }

  /** The example from the source's comment, for the left file. */
  /** A base name's leading part stays in front of the patch file name. */
  lemma PatchFileNameAfter(a: string, b: string, hash1: string, hash2: string)
    ensures PatchFileName(a + b, hash1, hash2) == a + PatchFileName(b, hash1, hash2)
  {
  }

  lemma ExamplePatchFileName()
    ensures PatchFileName("auxiliaryBarPart.css", "24a2f307", "22d1bfc7")
         == "auxiliaryBarPart.css.24a2f307_22d1bfc7.patch"
  {
  }
}
