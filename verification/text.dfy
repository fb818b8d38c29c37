/** String helpers the sync pass relies on: JavaScript's first-match
    `String.prototype.replace` with a string pattern and a `$`-free
    replacement, and Node's POSIX `path.basename` without an extension
    argument. */
module Text {

  /** `s` ends with `p`. */
  predicate EndsWith(s: string, p: string) {
    |p| <= |s| && s[|s| - |p|..] == p
  }

  /** `p` occurs in `s` starting at index `i`. */
  predicate OccursAt(s: string, p: string, i: int) {
    0 <= i && i + |p| <= |s| && s[i..i + |p|] == p
  }

  /** `i` is the leftmost index at which `p` occurs in `s`. */
  predicate FirstOccurrence(s: string, p: string, i: int) {
    OccursAt(s, p, i) && forall j :: 0 <= j < i ==> !OccursAt(s, p, j)
  }

  /** `p` occurs nowhere in `s`. */
  predicate Absent(s: string, p: string) {
    forall j :: 0 <= j <= |s| ==> !OccursAt(s, p, j)
  }

  /** No character of `s` is a path separator. */
  predicate NoSlash(s: string) {
    forall k :: 0 <= k < |s| ==> s[k] != '/'
  }

  /** The leftmost occurrence of `p` in `s` at or after `from`, if any. */
  function IndexOfFrom(s: string, p: string, from: nat): (r: int)
    ensures r == -1 || from <= r
    ensures r != -1 ==> OccursAt(s, p, r)
    ensures forall j :: from <= j && (r == -1 || j < r) ==> !OccursAt(s, p, j)
    decreases |s| - from
  {
    if |s| < from + |p| then -1
    else if s[from..from + |p|] == p then from
    else IndexOfFrom(s, p, from + 1)
  }

  /** JavaScript `s.replace(p, rep)` for a string pattern `p` and a
      replacement `rep` holding no `$` pattern: only the leftmost occurrence
      is replaced; without one, `s` is returned as is. */
  function ReplaceFirst(s: string, p: string, rep: string): (r: string)
    ensures Absent(s, p) ==> r == s
    ensures forall i :: FirstOccurrence(s, p, i) ==> r == s[..i] + rep + s[i + |p|..]
  {
    var i := IndexOfFrom(s, p, 0);
    if i == -1 then s else s[..i] + rep + s[i + |p|..]
  }

  /** `s` with every trailing '/' removed. */
  function TrimTrailingSlashes(s: string): (r: string)
    ensures r <= s
    ensures |r| == 0 || r[|r| - 1] != '/'
    ensures forall k :: |r| <= k < |s| ==> s[k] == '/'
  {
    if |s| > 0 && s[|s| - 1] == '/' then TrimTrailingSlashes(s[..|s| - 1]) else s
  }

  /** The longest suffix of `s` holding no '/'. */
  function AfterLastSlash(s: string): (r: string)
    ensures EndsWith(s, r)
    ensures NoSlash(r)
    ensures |r| < |s| ==> s[|s| - |r| - 1] == '/'
  {
    if |s| == 0 || s[|s| - 1] == '/' then ""
    else AfterLastSlash(s[..|s| - 1]) + [s[|s| - 1]]
  }

  /** Node's POSIX `path.basename(s)`: trailing separators are ignored, then
      the last segment is returned ("" when `s` is all separators). */
  function Basename(s: string): (r: string)
    ensures NoSlash(r)
    ensures |s| > 0 && s[|s| - 1] != '/' ==> EndsWith(s, r) && (|r| == |s| || s[|s| - |r| - 1] == '/')
    ensures var t := TrimTrailingSlashes(s);
      && (forall k :: |t| <= k < |s| ==> s[k] == '/')
      && EndsWith(t, r) && (|r| == |t| || t[|t| - |r| - 1] == '/')
  {
    AfterLastSlash(TrimTrailingSlashes(s))
  }

  /** A suffix that holds no '/' survives in the last segment: the basename
      of a path ending in `ext` ends in `ext` too. */
  lemma {:induction false} LastSegmentKeepsSuffix(s: string, ext: string)
    requires EndsWith(s, ext) && NoSlash(ext)
    ensures EndsWith(AfterLastSlash(s), ext)
  {
    var r := AfterLastSlash(s);
    assert |ext| <= |r|;
    assert r[|r| - |ext|..] == s[|s| - |ext|..];
  }

  /** For an href ending in ".epub", the basename is exactly the segment
      after the last '/', and it still ends in ".epub". */
  lemma {:induction false} BasenameOfEpub(href: string)
    ensures EndsWith(href, ".epub") ==> Basename(href) == AfterLastSlash(href)
    ensures EndsWith(href, ".epub") ==> EndsWith(Basename(href), ".epub")
  {
    if EndsWith(href, ".epub") {
      assert href[|href| - 1] == 'b';
      LastSegmentKeepsSuffix(href, ".epub");
    }
  }

  /** The basename of a directory path joined with a non-empty, slash-free
      name is that name: the segment after the last '/'. */
  lemma {:induction false} BasenameOfSegment(dir: string, name: string)
    requires |name| > 0 && '/' !in name
    ensures Basename(dir + "/" + name) == name
  {
    assert NoSlash(name);
    var s := dir + "/" + name;
    assert s[|s| - 1] == name[|name| - 1];
    assert TrimTrailingSlashes(s) == s;
    var r := AfterLastSlash(s);
    assert s[|s| - |name| - 1] == '/';
    assert |r| == |name|;
    assert r == s[|s| - |r|..];
  }
}
