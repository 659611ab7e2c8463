/**
 * The parts of .NET's `System.IO.Path` that the banner upload uses:
 * `GetExtension` and `Combine`. Both depend on the operating system the
 * server runs on, which is a parameter here.
 */
module Paths {

  datatype Platform = Unix | Windows

  /** `Path.DirectorySeparatorChar`. */
  function DirectorySeparator(p: Platform): char {
    if p == Unix then '/' else '\\'
  }

  /** `PathInternal.IsDirectorySeparator`: Windows accepts both slashes. */
  predicate IsDirectorySeparator(p: Platform, c: char) {
    c == '/' || (p == Windows && c == '\\')
  }

  /** No character of `s` is a '.' or a directory separator. */
  predicate PlainSegment(p: Platform, s: string) {
    forall j :: 0 <= j < |s| ==> s[j] != '.' && !IsDirectorySeparator(p, s[j])
  }

  /**
   * `path[k..]` is an extension of `path`: a '.' that is not the last
   * character, followed only by characters that are neither '.' nor a
   * directory separator.
   */
  predicate IsExtensionAt(p: Platform, path: string, k: int) {
    0 <= k < |path| - 1 && path[k] == '.' && PlainSegment(p, path[k + 1..])
  }

  /**
   * `Path.GetExtension(path)`: the suffix that starts at the last '.' of the
   * last path segment, or "" when that segment has no '.' or ends in one.
   */
  function GetExtension(p: Platform, path: string): (ext: string)
    ensures ext != "" ==> IsExtensionAt(p, path, |path| - |ext|) && ext == path[|path| - |ext|..]
    ensures ext == "" ==> forall k :: !IsExtensionAt(p, path, k)
  {
    ScanCorrect(p, path, |path|);
    ScanForExtension(p, path, |path|)
  }

  /**
   * The backward scan of `GetExtension`, looking at `path[i - 1]` next: it
   * stops at the first '.' or directory separator it meets.
   */
  function ScanForExtension(p: Platform, path: string, i: nat): string
    requires i <= |path|
    decreases i
  {
    if i == 0 then ""
    else if path[i - 1] == '.' then (if i == |path| then "" else path[i - 1..])
    else if IsDirectorySeparator(p, path[i - 1]) then ""
    else ScanForExtension(p, path, i - 1)
  }

  /** A '.' or separator at `j` keeps every earlier '.' from starting the extension. */
  lemma BlockedBy(p: Platform, path: string, k: int, j: int)
    requires 0 <= k < j < |path|
    requires path[j] == '.' || IsDirectorySeparator(p, path[j])
    ensures !IsExtensionAt(p, path, k)
  {
  }

  lemma PlainAt(p: Platform, path: string, i: int, k: int)
    requires 0 <= i <= k < |path| && PlainSegment(p, path[i..])
    ensures path[k] != '.' && !IsDirectorySeparator(p, path[k])
  {
  }

  /** The scan, started after a plain tail, finds the extension when there is one and "" otherwise. */
  lemma {:induction false} ScanCorrect(p: Platform, path: string, i: nat)
    requires i <= |path|
    requires PlainSegment(p, path[i..])
    ensures var ext := ScanForExtension(p, path, i);
      && (ext != "" ==> IsExtensionAt(p, path, |path| - |ext|) && ext == path[|path| - |ext|..])
      && (ext == "" ==> forall k :: !IsExtensionAt(p, path, k))
    decreases i
  {
    if i == 0 {
      forall k | 0 <= k < |path| - 1
        ensures !IsExtensionAt(p, path, k)
      {
        PlainAt(p, path, 0, k);
      }
    } else if path[i - 1] == '.' && i == |path| {
      forall k | 0 <= k < |path| - 1
        ensures !IsExtensionAt(p, path, k)
      {
        BlockedBy(p, path, k, i - 1);
      }
    } else if path[i - 1] == '.' {
    } else if IsDirectorySeparator(p, path[i - 1]) {
      forall k | 0 <= k < |path| - 1
        ensures !IsExtensionAt(p, path, k)
      {
        if k < i - 1 {
          BlockedBy(p, path, k, i - 1);
        } else if k >= i {
          PlainAt(p, path, i, k);
        }
      }
    } else {
      assert path[i - 1..] == [path[i - 1]] + path[i..];
      ScanCorrect(p, path, i - 1);
    }
  }

  /** A path has at most one extension. */
  lemma ExtensionUnique(p: Platform, path: string, k: int, m: int)
    requires IsExtensionAt(p, path, k) && IsExtensionAt(p, path, m)
    ensures k == m
  {
    if k < m {
      BlockedBy(p, path, k, m);
    } else if m < k {
      BlockedBy(p, path, m, k);
    }
  }

  /** Appending an extension to a name without a '.' or separator gives that extension back. */
  lemma GetExtensionOfAppended(p: Platform, stem: string, ext: string)
    requires PlainSegment(p, stem)
    requires |ext| >= 2 && ext[0] == '.' && PlainSegment(p, ext[1..])
    ensures GetExtension(p, stem + ext) == ext
  {
    var path := stem + ext;
    assert path[|stem| + 1..] == ext[1..];
    assert IsExtensionAt(p, path, |stem|);
    var got := GetExtension(p, path);
    if got != "" {
      ExtensionUnique(p, path, |stem|, |path| - |got|);
    }
  }

  /** `Path.IsPathRooted`: a leading separator, or on Windows a drive letter and ':'. */
  predicate IsPathRooted(p: Platform, s: string) {
    (|s| > 0 && IsDirectorySeparator(p, s[0]))
    || (p == Windows && |s| >= 2 && s[1] == ':' && ('a' <= s[0] <= 'z' || 'A' <= s[0] <= 'Z'))
  }

  /**
   * `Path.Combine(a, b)`: an empty side yields the other, a rooted `b`
   * replaces `a`, and otherwise one separator is put between them unless `a`
   * already ends in one.
   */
  function Combine(p: Platform, a: string, b: string): (r: string)
    ensures b == "" ==> r == a
    ensures a == "" ==> r == b
    ensures IsPathRooted(p, b) ==> r == b
    ensures a != "" && b != "" && !IsPathRooted(p, b) ==>
              (IsDirectorySeparator(p, a[|a| - 1]) && r == a + b)
              || (!IsDirectorySeparator(p, a[|a| - 1]) && r == a + [DirectorySeparator(p)] + b)
  {
    if b == "" then a
    else if a == "" then b
    else if IsPathRooted(p, b) then b
    else if IsDirectorySeparator(p, a[|a| - 1]) then a + b
    else a + [DirectorySeparator(p)] + b
  }

  /** Combining one directory with two different relative names gives two different paths. */
  lemma CombineInjective(p: Platform, a: string, b: string, c: string)
    requires b != "" && c != "" && !IsPathRooted(p, b) && !IsPathRooted(p, c)
    requires Combine(p, a, b) == Combine(p, a, c)
    ensures b == c
  {
    var rb, rc := Combine(p, a, b), Combine(p, a, c);
    if a == "" {
    } else if IsDirectorySeparator(p, a[|a| - 1]) {
      assert rb[|a|..] == b && rc[|a|..] == c;
    } else {
      assert rb[|a| + 1..] == b && rc[|a| + 1..] == c;
    }
  }
}
