/** The file filter applied to every path before its lines are tracked
    (`matchesPattern`, main.go). */
module Patterns {
  import opened GoStrings

  /** What `filepath.Match(pattern, name)` returns. Its glob language is not
      part of this model, so the filter receives it as a parameter. */
  datatype GlobOutcome = Matched(ok: bool) | ErrBadPattern

  /** Whether `filename` passes the filter `pattern`:
      "*" passes everything, "*.<rest>" is a literal suffix test on the whole
      path, and anything else is the glob applied to the base name, a
      malformed glob rejecting the file. */
  function MatchesPattern(filename: string, pattern: string, glob: (string, string) -> GlobOutcome): (r: bool)
    ensures pattern == "*" ==> r
    ensures pattern != "*" && HasPrefix(pattern, "*.") ==> (r <==> HasSuffix(filename, pattern[1..]))
    ensures pattern != "*" && !HasPrefix(pattern, "*.") ==> (r <==> glob(pattern, Base(filename)) == Matched(true))
  {
    if pattern == "*" then true
    else if HasPrefix(pattern, "*.") then HasSuffix(filename, TrimPrefix(pattern, "*"))
    else
      match glob(pattern, Base(filename))
      case ErrBadPattern => false
      case Matched(ok) => ok
  }

  /** An extension pattern "*.ext" is a suffix test for ".ext". */
  lemma ExtensionPatternIsSuffixTest(filename: string, ext: string, glob: (string, string) -> GlobOutcome)
    ensures MatchesPattern(filename, "*." + ext, glob) == HasSuffix(filename, "." + ext)
  {
    var pattern := "*." + ext;
    assert pattern[..2] == "*.";
    assert pattern[1..] == "." + ext;
  }

  /** An extension pattern "*.ext" accepts exactly the paths that end in
      ".ext", directories included, whatever the glob would say. */
  lemma ExtensionPatternIffEndsWith(filename: string, ext: string, glob: (string, string) -> GlobOutcome)
    ensures MatchesPattern(filename, "*." + ext, glob) <==> exists p: string :: p + ("." + ext) == filename
  {
    ExtensionPatternIsSuffixTest(filename, ext, glob);
    HasSuffixIffEndsWith(filename, "." + ext);
  }

  /** The extension test looks at the whole path, so for an extension
      without a separator a directory in front of a name does not change
      the verdict. */
  lemma ExtensionPatternIgnoresDirectories(dir: string, name: string, ext: string, glob: (string, string) -> GlobOutcome)
    requires '/' !in ext
    ensures MatchesPattern(dir + "/" + name, "*." + ext, glob) == MatchesPattern(name, "*." + ext, glob)
  {
    var path := dir + "/" + name;
    var suffix := "." + ext;
    ExtensionPatternIsSuffixTest(path, ext, glob);
    ExtensionPatternIsSuffixTest(name, ext, glob);
    if |name| >= |suffix| {
      HasSuffixOfLonger(dir + "/", name, suffix);
    } else if |suffix| <= |path| {
      // The separator in front of `name` falls inside the suffix.
      var j := |suffix| - |name| - 1;
      assert path[|path| - |suffix| + j] == '/';
      assert j == 0 || suffix[j] == ext[j - 1];
      assert suffix[j] != '/';
      assert !HasSuffix(path, suffix);
    }
  }

  /** After "*." the rest of the pattern is taken literally: "*.g*" does not
      accept "main.go", even though the glob "*.g*" would. */
  lemma ExtensionRestIsLiteral(glob: (string, string) -> GlobOutcome)
    ensures !MatchesPattern("main.go", "*.g*", glob)
  {
    assert "*.g*"[..2] == "*.";
    assert "*.g*"[1..] == ".g*";
    assert "main.go"[4..] == ".go";
  }
}
