/**
 * RedirectController's path filter: which first path segments are never
 * looked up as short codes (API routes, documentation, health checks and
 * static files).
 */
module RedirectController {
  import opened Text
  import opened Wrappers
  import opened ShortCodeGenerator
  import UrlService

  /** The reserved prefixes, all lower case. */
  const ReservedPaths: seq<string> := ["api", "swagger", "health", "favicon.ico", "robots.txt", "_framework"]

  /** `reservedPaths.Any(p => lowerPath.StartsWith(p))` */
  predicate HasReservedPrefix(path: string) {
    var lowerPath := ToLowerInvariant(path);
    exists i :: 0 <= i < |ReservedPaths| && StartsWith(lowerPath, ReservedPaths[i])
  }

  /**
   * `IsReservedPath`: the empty path, a path starting with a reserved prefix
   * in any letter case, and a path with a '.' (a file name) are reserved.
   */
  predicate IsReservedPath(path: string): (reserved: bool)
    ensures reserved <==>
      || |path| == 0
      || '.' in path
      || exists i :: 0 <= i < |ReservedPaths| && HeadMatchesIgnoringCase(path, ReservedPaths[i])
  {
    ReservedPrefixIsHeadMatch(path);
    if |path| == 0 then true
    else if HasReservedPrefix(path) then true
    else if '.' in path then true
    else false
  }

  /** Every reserved prefix is already lower case. */
  lemma ReservedPathsAreLowerCase(i: nat)
    requires i < |ReservedPaths|
    ensures ToLowerInvariant(ReservedPaths[i]) == ReservedPaths[i]
  {
    var p := ReservedPaths[i];
    forall j | 0 <= j < |p| ensures !IsAsciiUpper(p[j]) {
    }
  }

  /**
   * Lower-casing the path and then comparing prefixes is the same as
   * comparing the path's first characters with the prefix ignoring case.
   */
  lemma ReservedPrefixIgnoresCase(path: string, i: nat)
    requires i < |ReservedPaths|
    ensures StartsWith(ToLowerInvariant(path), ReservedPaths[i]) <==>
      |ReservedPaths[i]| <= |path| && EqualsIgnoreCase(path[..|ReservedPaths[i]|], ReservedPaths[i])
  {
    var p := ReservedPaths[i];
    if |p| <= |path| {
      var head := path[..|p|];
      assert ToLowerInvariant(path)[..|p|] == ToLowerInvariant(head);
      ReservedPathsAreLowerCase(i);
      EqualsIgnoreCaseIffSameLower(head, p);
    }
  }

  /** The path's first characters equal `prefix` ignoring letter case. */
  predicate HeadMatchesIgnoringCase(path: string, prefix: string) {
    |prefix| <= |path| && EqualsIgnoreCase(path[..|prefix|], prefix)
  }

  /** A reserved prefix of the lower-cased path is a case-insensitive match of the path's head. */
  lemma ReservedPrefixIsHeadMatch(path: string)
    ensures HasReservedPrefix(path) <==>
      exists i :: 0 <= i < |ReservedPaths| && HeadMatchesIgnoringCase(path, ReservedPaths[i])
  {
    forall i | 0 <= i < |ReservedPaths|
      ensures StartsWith(ToLowerInvariant(path), ReservedPaths[i]) <==> HeadMatchesIgnoringCase(path, ReservedPaths[i])
    {
      ReservedPrefixIgnoresCase(path, i);
    }
  }

  /** Paths equal up to letter case are reserved alike. */
  lemma ReservedPathIgnoresCase(a: string, b: string)
    requires EqualsIgnoreCase(a, b)
    ensures IsReservedPath(a) <==> IsReservedPath(b)
  {
    EqualsIgnoreCaseIffSameLower(a, b);
    if '.' in a {
      var j :| 0 <= j < |a| && a[j] == '.';
      assert SameLetterIgnoringCase(a[j], b[j]);
    }
    if '.' in b {
      var j :| 0 <= j < |b| && b[j] == '.';
      assert SameLetterIgnoringCase(a[j], b[j]);
    }
  }

  /**
   * A valid short code never contains '.', so it is reserved exactly when it
   * starts with a reserved prefix; "Api123" is one such code.
   */
  lemma ValidCodeReservedIffPrefix(code: string)
    requires IsValidShortCode(code)
    ensures IsReservedPath(code) <==> HasReservedPrefix(code)
  {
    Base62CharsAreAlphanumerics('.');
    ValidShortCodeExcludes(code, '.');
  }

  /** The code "Api123" is valid yet reserved: the redirect never looks it up. */
  lemma ApiLikeCodeIsReserved()
    ensures IsValidShortCode("Api123") && IsReservedPath("Api123")
  {
    var code := "Api123";
    forall i | 0 <= i < |code| ensures IsAsciiAlphanumeric(code[i]) {
    }
    ValidShortCodeIff(code);
    assert ToLowerInvariant(code)[..3] == ReservedPaths[0];
  }

  /** The empty path, documentation and static files are reserved. */
  lemma ReservedPathExamples()
    ensures IsReservedPath("") && IsReservedPath("swagger") && IsReservedPath("favicon.ico")
    ensures IsReservedPath("index.html")
  {
    assert "index.html"[5] == '.';
    assert "favicon.ico"[7] == '.';
    assert ToLowerInvariant("swagger")[..7] == ReservedPaths[1];
  }

  /** A code such as the generator produces is not reserved. */
  lemma OrdinaryCodeIsNotReserved()
    ensures !IsReservedPath("abc1234")
  {
    var code := "abc1234";
    forall i | 0 <= i < |code| ensures IsAsciiAlphanumeric(code[i]) {
    }
    ValidShortCodeIff(code);
    ValidCodeReservedIffPrefix(code);
    var lower := ToLowerInvariant(code);
    assert lower[0] == 'a' && lower[2] == 'c';
    forall i | 0 <= i < |ReservedPaths| ensures !StartsWith(lower, ReservedPaths[i]) {
      var p := ReservedPaths[i];
      if |p| <= |lower| {
        assert lower[..|p|][0] == lower[0];
        assert lower[..|p|][2] == lower[2];
      }
    }
  }

  /**
   * Creation does not consult the reserved prefixes: the custom code
   * "api1234" is accepted on an empty store, yet the redirect never resolves it.
   */
  lemma IssuedCodeCanBeReserved(draws: seq<seq<byte>>)
    requires UrlService.WellFormedDraws(draws)
    ensures UrlService.ChooseCode({}, "https://example.com", Some("api1234"), draws) == Ok("api1234")
    ensures IsReservedPath("api1234")
  {
    var code := "api1234";
    UrlService.AcceptedUrlExample();
    assert !IsWhiteSpace(code[0]);
    forall i | 0 <= i < |code| ensures IsAsciiAlphanumeric(code[i]) {
    }
    ValidShortCodeIff(code);
    assert ToLowerInvariant(code)[..3] == ReservedPaths[0];
  }
}
