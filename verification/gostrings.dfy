/** The handful of Go library string operations the analyser relies on:
    `strings.Split(s, "\n")`, `strings.TrimSpace`, `strings.HasPrefix`,
    `strings.HasSuffix`, `strings.TrimPrefix` and `filepath.Base` (with `/` as
    the path separator). */
module GoStrings {

  // ---------------------------------------------------------------------------
  // strings.Split(s, "\n")
  // ---------------------------------------------------------------------------

  /** The pieces of `s` between newline characters. Like Go's `strings.Split`
      with a one-character separator, the empty string splits into one empty
      piece and a trailing newline yields a trailing empty piece. */
  function SplitLines(s: string): (r: seq<string>)
    ensures |r| == NewlineCount(s) + 1
    ensures forall i :: 0 <= i < |r| ==> '\n' !in r[i]
    decreases |s|
  {
    if |s| == 0 then [""]
    else
      var rest := SplitLines(s[1..]);
      if s[0] == '\n' then [""] + rest
      else [[s[0]] + rest[0]] + rest[1..]
  }

  function NewlineCount(s: string): nat
    decreases |s|
  {
    if |s| == 0 then 0 else (if s[0] == '\n' then 1 else 0) + NewlineCount(s[1..])
  }

  /** `strings.Join(ls, "\n")`, the inverse of `SplitLines`. */
  function JoinLines(ls: seq<string>): string
    requires |ls| >= 1
    decreases |ls|
  {
    if |ls| == 1 then ls[0] else ls[0] + "\n" + JoinLines(ls[1..])
  }

  /** Splitting loses nothing: joining the pieces back gives the input. */
  lemma {:induction false} JoinSplit(s: string)
    ensures JoinLines(SplitLines(s)) == s
    decreases |s|
  {
    if |s| > 0 {
      var rest := SplitLines(s[1..]);
      JoinSplit(s[1..]);
      if s[0] == '\n' {
        assert SplitLines(s) == [""] + rest;
        assert ([""] + rest)[1..] == rest;
        assert s == "" + "\n" + s[1..];
      } else if |rest| == 1 {
        assert SplitLines(s) == [[s[0]] + rest[0]];
        assert s == [s[0]] + s[1..];
      } else {
        var r := SplitLines(s);
        assert r == [[s[0]] + rest[0]] + rest[1..];
        assert r[1..] == rest[1..];
        assert JoinLines(rest) == rest[0] + "\n" + JoinLines(rest[1..]);
        assert s == [s[0]] + s[1..];
      }
    }
  }

  lemma {:induction false} SplitNoNewline(a: string)
    requires '\n' !in a
    ensures SplitLines(a) == [a]
    decreases |a|
  {
    if |a| > 0 {
      assert '\n' !in a[1..] by {
        forall i | 0 <= i < |a[1..]| ensures a[1..][i] != '\n' { assert a[1..][i] == a[i + 1]; }
      }
      SplitNoNewline(a[1..]);
      assert [a[0]] + a[1..] == a;
    }
  }

  lemma {:induction false} SplitAcrossNewline(a: string, t: string)
    requires '\n' !in a
    ensures SplitLines(a + "\n" + t) == [a] + SplitLines(t)
    decreases |a|
  {
    var s := a + "\n" + t;
    if |a| == 0 {
      assert s == "\n" + t;
      assert s[1..] == t;
    } else {
      assert s[1..] == a[1..] + "\n" + t;
      assert '\n' !in a[1..] by {
        forall i | 0 <= i < |a[1..]| ensures a[1..][i] != '\n' { assert a[1..][i] == a[i + 1]; }
      }
      SplitAcrossNewline(a[1..], t);
      assert [a[0]] + a[1..] == a;
    }
  }

  /** Joining newline-free pieces and splitting again gives the pieces back. */
  lemma {:induction false} SplitJoin(ls: seq<string>)
    requires |ls| >= 1
    requires forall i :: 0 <= i < |ls| ==> '\n' !in ls[i]
    ensures SplitLines(JoinLines(ls)) == ls
    decreases |ls|
  {
    if |ls| == 1 {
      SplitNoNewline(ls[0]);
    } else {
      SplitJoin(ls[1..]);
      SplitAcrossNewline(ls[0], JoinLines(ls[1..]));
      assert [ls[0]] + ls[1..] == ls;
    }
  }

  // ---------------------------------------------------------------------------
  // strings.TrimSpace
  // ---------------------------------------------------------------------------

  /** `unicode.IsSpace`: the Latin-1 spaces plus the Unicode White_Space set. */
  predicate IsSpace(c: char) {
    || c == ' ' || c == '\t' || c == '\n' || c == '\r'
    || c == '\U{000B}' || c == '\U{000C}' || c == '\U{0085}' || c == '\U{00A0}'
    || c == '\U{1680}' || ('\U{2000}' <= c <= '\U{200A}')
    || c == '\U{2028}' || c == '\U{2029}' || c == '\U{202F}' || c == '\U{205F}'
    || c == '\U{3000}'
  }

  /** A line made of white space only: such lines are never tracked. */
  predicate IsBlank(s: string) {
    forall i :: 0 <= i < |s| ==> IsSpace(s[i])
  }

  function TrimLeft(s: string): (r: string)
    ensures |r| <= |s| && r == s[|s| - |r|..]
    ensures |r| == 0 || !IsSpace(r[0])
    ensures forall i :: 0 <= i < |s| - |r| ==> IsSpace(s[i])
    decreases |s|
  {
    if |s| > 0 && IsSpace(s[0]) then
      var t := TrimLeft(s[1..]);
      assert forall i :: 1 <= i < |s| - |t| ==> s[i] == s[1..][i - 1];
      t
    else s
  }

  function TrimRight(s: string): (r: string)
    ensures |r| <= |s| && r == s[..|r|]
    ensures |r| == 0 || !IsSpace(r[|r| - 1])
    ensures forall i :: |r| <= i < |s| ==> IsSpace(s[i])
    decreases |s|
  {
    if |s| > 0 && IsSpace(s[|s| - 1]) then
      var t := TrimRight(s[..|s| - 1]);
      assert forall i :: |t| <= i < |s| - 1 ==> s[i] == s[..|s| - 1][i];
      t
    else s
  }

  /** `strings.TrimSpace`: `s` without leading and trailing white space. */
  function TrimSpace(s: string): (r: string)
    ensures |r| == 0 || (!IsSpace(r[0]) && !IsSpace(r[|r| - 1]))
    ensures exists i :: TrimmedAt(s, i, r)
  {
    var left := TrimLeft(s);
    var r := TrimRight(left);
    TrimmedAtIntro(s, |s| - |left|, left, r);
    assert |r| > 0 ==> r[0] == left[0];
    r
  }

  /** `r` is `s` from index `i` on, with white space only before and after. */
  predicate TrimmedAt(s: string, i: int, r: string) {
    0 <= i <= |s| - |r| && r == s[i..i + |r|] && IsBlank(s[..i]) && IsBlank(s[i + |r|..])
  }

  lemma TrimmedAtIntro(s: string, i: int, left: string, r: string)
    requires 0 <= i <= |s| && left == s[i..]
    requires forall j :: 0 <= j < i ==> IsSpace(s[j])
    requires |r| <= |left| && r == left[..|r|]
    requires forall j :: |r| <= j < |left| ==> IsSpace(left[j])
    ensures TrimmedAt(s, i, r)
  {
    assert r == s[i..i + |r|];
    var head := s[..i];
    forall j | 0 <= j < |head| ensures IsSpace(head[j]) {
      assert head[j] == s[j];
    }
    var tail := s[i + |r|..];
    forall j | 0 <= j < |tail| ensures IsSpace(tail[j]) {
      assert tail[j] == left[|r| + j];
    }
  }

  /** The analyser's blank-line test `strings.TrimSpace(line) == ""` holds
      exactly for the lines made of white space only. */
  lemma TrimSpaceEmptyIffBlank(s: string)
    ensures TrimSpace(s) == "" <==> IsBlank(s)
  {
  }

  // ---------------------------------------------------------------------------
  // strings.HasPrefix / HasSuffix / TrimPrefix
  // ---------------------------------------------------------------------------

  predicate HasPrefix(s: string, prefix: string) {
    |prefix| <= |s| && s[..|prefix|] == prefix
  }

  predicate HasSuffix(s: string, suffix: string) {
    |suffix| <= |s| && s[|s| - |suffix|..] == suffix
  }

  /** `strings.TrimPrefix`: drops `prefix` when `s` starts with it. */
  function TrimPrefix(s: string, prefix: string): (r: string)
    ensures HasPrefix(s, prefix) ==> prefix + r == s
    ensures !HasPrefix(s, prefix) ==> r == s
  {
    if HasPrefix(s, prefix) then s[|prefix|..] else s
  }

  /** A suffix test is the same as "the string is something followed by it". */
  lemma HasSuffixIffEndsWith(s: string, suffix: string)
    ensures HasSuffix(s, suffix) <==> exists p: string :: p + suffix == s
  {
    if HasSuffix(s, suffix) {
      assert s[..|s| - |suffix|] + suffix == s;
    }
    if exists p: string :: p + suffix == s {
      var p: string :| p + suffix == s;
      assert s[|s| - |suffix|..] == suffix;
    }
  }

  /** Text in front of `s` does not change whether `s` ends in a suffix no
      longer than itself. */
  lemma HasSuffixOfLonger(front: string, s: string, suffix: string)
    requires |suffix| <= |s|
    ensures HasSuffix(front + s, suffix) == HasSuffix(s, suffix)
  {
    var whole := front + s;
    assert whole[|whole| - |suffix|..] == s[|s| - |suffix|..];
  }

  // ---------------------------------------------------------------------------
  // filepath.Base (Unix separator)
  // ---------------------------------------------------------------------------

  function StripTrailingSlashes(p: string): (r: string)
    ensures |r| <= |p| && r == p[..|r|]
    ensures |r| == 0 || r[|r| - 1] != '/'
    ensures forall i :: |r| <= i < |p| ==> p[i] == '/'
    decreases |p|
  {
    if |p| > 0 && p[|p| - 1] == '/' then StripTrailingSlashes(p[..|p| - 1]) else p
  }

  /** The index of the last `/` of `p`, or -1 when it has none. */
  function LastSeparator(p: string): (i: int)
    ensures -1 <= i < |p|
    ensures i >= 0 ==> p[i] == '/'
    ensures forall k :: i < k < |p| ==> p[k] != '/'
    decreases |p|
  {
    if |p| == 0 then -1
    else if p[|p| - 1] == '/' then |p| - 1
    else
      var i := LastSeparator(p[..|p| - 1]);
      assert forall k :: i < k < |p| - 1 ==> p[k] == p[..|p| - 1][k];
      i
  }

  /** What follows the last `/` of `p` (all of `p` when it has none). */
  function LastElement(p: string): (r: string)
    ensures '/' !in r
    ensures |r| <= |p| && r == p[|p| - |r|..]
    ensures |r| < |p| ==> p[|p| - |r| - 1] == '/'
    ensures |p| > 0 && p[|p| - 1] != '/' ==> |r| > 0
  {
    var i := LastSeparator(p);
    AfterLastSeparator(p, i);
    p[i + 1..]
  }

  /** Nothing after the last separator is a separator. */
  lemma AfterLastSeparator(p: string, i: int)
    requires -1 <= i < |p|
    requires forall k :: i < k < |p| ==> p[k] != '/'
    ensures '/' !in p[i + 1..]
  {
    var r := p[i + 1..];
    forall j | 0 <= j < |r| ensures r[j] != '/' { assert r[j] == p[i + 1 + j]; }
  }

  /** `filepath.Base`: the last element of a path, trailing slashes ignored;
      "." for the empty path and "/" for a path of slashes only. */
  function Base(path: string): (r: string)
    ensures |r| > 0
    ensures path == "" ==> r == "."
    ensures r == "/" || '/' !in r
    ensures r == "/" <==> path != "" && forall i :: 0 <= i < |path| ==> path[i] == '/'
    ensures path != "" && r != "/" ==> exists i :: ElementAt(path, i, r)
  {
    if path == "" then "."
    else
      var t := StripTrailingSlashes(path);
      if t == "" then "/"
      else
        var r := LastElement(t);
        assert ElementAt(path, |t| - |r|, r);
        assert path[|t| - 1] != '/';
        r
  }

  /** `r` is the path element starting at index `i`: it follows a separator
      (or the start) and only separators come after it. */
  predicate ElementAt(path: string, i: int, r: string) {
    && 0 <= i <= |path| - |r| && path[i..i + |r|] == r
    && (i == 0 || path[i - 1] == '/')
    && forall j :: i + |r| <= j < |path| ==> path[j] == '/'
  }

  /** A bare file name with no separator is its own base name. */
  lemma BaseOfPlainName(name: string)
    requires name != "" && '/' !in name
    ensures Base(name) == name
  {
    assert StripTrailingSlashes(name) == name;
    LastElementIs(name, |name|);
  }

  /** The base name of a path ending in a file name is that name, whatever
      the directories in front of it. */
  lemma BaseOfPath(dir: string, name: string)
    requires name != "" && '/' !in name
    ensures Base(dir + "/" + name) == name
  {
    var path := dir + "/" + name;
    assert path[|path| - 1] == name[|name| - 1];
    assert StripTrailingSlashes(path) == path;
    forall k | |path| - |name| <= k < |path| ensures path[k] != '/' {
      assert path[k] == name[k - |dir| - 1];
    }
    assert path[|path| - |name| - 1] == '/';
    LastElementIs(path, |name|);
    assert path[|path| - |name|..] == name;
  }

  /** A separator-free suffix of `p` that follows a separator (or the
      start) is the last element of `p`. */
  lemma LastElementIs(p: string, n: nat)
    requires n <= |p|
    requires forall k :: |p| - n <= k < |p| ==> p[k] != '/'
    requires n < |p| ==> p[|p| - n - 1] == '/'
    ensures LastElement(p) == p[|p| - n..]
  {
    LastSeparatorIs(p, n);
    assert LastElement(p) == p[LastSeparator(p) + 1..];
  }

  /** The last separator is the one in front of a separator-free suffix. */
  lemma LastSeparatorIs(p: string, n: nat)
    requires n <= |p|
    requires forall k :: |p| - n <= k < |p| ==> p[k] != '/'
    requires n < |p| ==> p[|p| - n - 1] == '/'
    ensures LastSeparator(p) == |p| - n - 1
  {
    var i := LastSeparator(p);
    assert n < |p| ==> i >= |p| - n - 1;
    assert i >= 0 ==> i < |p| - n;
  }

}
