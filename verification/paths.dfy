/**
 The path-string operations the request handler relies on: Go's
 `strings.HasSuffix`, Go's `path.Base`, and the join of a directory with
 a name.
 Paths are strings of characters; `/` is the only separator.
 */
module Paths {

  /** `s` ends with `suffix` (Go's `strings.HasSuffix`). */
  predicate HasSuffix(s: string, suffix: string)
  {
    |suffix| <= |s| && s[|s| - |suffix|..] == suffix
  }

  /** `s` ends with `suffix` exactly when `s` is some string followed by
      `suffix`. */
  lemma HasSuffixIsConcatenation(s: string, suffix: string)
    ensures HasSuffix(s, suffix) <==> exists pre: string :: s == pre + suffix
  {
    if HasSuffix(s, suffix) {
      var pre := s[..|s| - |suffix|];
      assert s == pre + suffix;
    }
    forall pre: string | s == pre + suffix
      ensures HasSuffix(s, suffix)
    {
      assert s[|pre|..] == suffix;
    }
  }

  /** The path has a final character and that character is not a separator:
      the shape every path has once the handler's first two checks pass. */
  predicate IsSegmentEnded(p: string)
  {
    p != "" && p[|p| - 1] != '/'
  }

  /** `b` is the last element of `p`: a separator-free suffix of `p` that
      starts at the beginning of `p` or right after a `/`. */
  predicate IsFinalSegment(p: string, b: string)
  {
    && HasSuffix(p, b)
    && '/' !in b
    && (|b| == |p| || p[|p| - |b| - 1] == '/')
  }

  /** A path has at most one last element. */
  lemma FinalSegmentUnique(p: string, b1: string, b2: string)
    requires IsFinalSegment(p, b1) && IsFinalSegment(p, b2)
    ensures b1 == b2
  {
    // A shorter last element would end on a '/' that lies inside the longer one.
    assert forall i | |p| - |b1| <= i < |p| :: p[i] == b1[i - (|p| - |b1|)];
    assert forall i | |p| - |b2| <= i < |p| :: p[i] == b2[i - (|p| - |b2|)];
  }

  /** `p` with every trailing `/` removed: the longest prefix of `p` that
      does not end in a separator. */
  function TrimTrailingSlashes(p: string): (q: string)
    ensures q <= p
    ensures q == "" || q[|q| - 1] != '/'
    ensures forall i | |q| <= i < |p| :: p[i] == '/'
  {
    if |p| > 0 && p[|p| - 1] == '/' then TrimTrailingSlashes(p[..|p| - 1]) else p
  }

  /** Index of the last `/` in `p`, or -1 when there is none (Go's
      `strings.LastIndex(p, "/")`). */
  function LastSlash(p: string): (i: int)
    ensures -1 <= i < |p|
    ensures 0 <= i ==> p[i] == '/'
    ensures forall j | i < j < |p| :: p[j] != '/'
  {
    if |p| == 0 then -1
    else if p[|p| - 1] == '/' then |p| - 1
    else LastSlash(p[..|p| - 1])
  }

  /** Go's `path.Base`: the last element of the path after trailing slashes
      are stripped; "." for the empty path and "/" for a path of slashes. */
  function Base(p: string): (b: string)
    ensures b != ""
    ensures p == "" ==> b == "."
    ensures IsSegmentEnded(p) ==> IsFinalSegment(p, b)
  {
    if p == "" then "."
    else
      var q := TrimTrailingSlashes(p);
      var e := q[LastSlash(q) + 1..];
      if e == "" then "/" else e
  }

  /** The join of a directory and a name with exactly one separator between
      them: a name that already starts with `/` supplies it. This is what
      Go's `filepath.Join` and `path.Join` give for a non-empty, clean
      directory that does not end in `/` (so not "" and not ".") and a
      clean name, such as the URL path of a request (`/builds/x.tar.gz`)
      or an entry name from a listing. */
  function Join(dir: string, name: string): (r: string)
    ensures |dir| < |r| && r[..|dir|] == dir && r[|dir|] == '/'
    ensures name != "" && name[0] == '/' ==> r[|dir|..] == name
    ensures (name == "" || name[0] != '/') ==> r[|dir| + 1..] == name
  {
    if name != "" && name[0] == '/' then dir + name else dir + "/" + name
  }

  /** Joining a name or the same name rooted at `/` gives one path: the
      separator is never doubled. */
  lemma JoinDropsLeadingSeparator(dir: string, name: string)
    requires name == "" || name[0] != '/'
    ensures Join(dir, "/" + name) == Join(dir, name) == dir + "/" + name
  {
    var r1, r2 := Join(dir, "/" + name), Join(dir, name);
    assert r1 == r1[..|dir|] + r1[|dir|..];
    assert r2 == r2[..|dir| + 1] + r2[|dir| + 1..];
    assert r2[..|dir| + 1] == dir + "/";
  }

  /** A path that is `name` itself or ends in `/` followed by `name`. */
  predicate EndsInSegment(p: string, name: string)
  {
    p == name || HasSuffix(p, "/" + name)
  }

  /** A separator-free `name` is the last element of `p` exactly when `p`
      is `name` or ends in `/name`. */
  lemma FinalSegmentIsEnding(p: string, name: string)
    requires name != "" && '/' !in name
    ensures IsFinalSegment(p, name) <==> EndsInSegment(p, name)
  {
    var n := |name|;
    if IsFinalSegment(p, name) && n < |p| {
      SlashThenSuffix(p, name);
    }
    if HasSuffix(p, "/" + name) {
      var s := "/" + name;
      assert p[|p| - |s|..] == s;
      assert p[|p| - n - 1] == s[0];
      assert p[|p| - n..] == s[1..];
    }
  }

  /** A suffix preceded by a `/` gives a suffix that starts with the `/`. */
  lemma SlashThenSuffix(p: string, name: string)
    requires HasSuffix(p, name) && |name| < |p| && p[|p| - |name| - 1] == '/'
    ensures HasSuffix(p, "/" + name)
  {
    var n := |name|;
    assert p[|p| - n - 1..] == [p[|p| - n - 1]] + p[|p| - n..];
  }

  /** For a path that ends in a segment, the base name is exactly that final
      segment: Base(p) == name holds precisely when p is `name` or ends in
      `/name`, for any name free of separators. */
  lemma BaseIsFinalSegment(p: string, name: string)
    requires IsSegmentEnded(p)
    requires name != "" && '/' !in name
    ensures Base(p) == name <==> EndsInSegment(p, name)
  {
    FinalSegmentIsEnding(p, name);
    if IsFinalSegment(p, name) {
      FinalSegmentUnique(p, Base(p), name);
    }
  }
}
