/** The matcher itself: it walks both strings with pointers, collapses stars
    and cruises over characters that cannot start a match. */
module StringMatch {
  import opened Options
  import opened Glob

  /** The character a pointer sees. */
  function At(s: CString): int { if s == [] then NUL else s[0] }

  lemma Cruise(cs: Case, s: CString, p: CString)
    requires s != [] && p != [] && p[0] != STAR && !IsSpecial(p[0]) && cs.Of(s[0]) != cs.Of(p[0])
    ensures !Matches(cs, s, p)
  {}

  method StringCaseMatch(str0: CString, pattern0: CString, nocase: Case) returns (r: bool)
    ensures r == Matches(nocase, str0, pattern0)
    decreases |pattern0|
  {
    var str, pattern := str0, pattern0;
    while true
      invariant Matches(nocase, str, pattern) == Matches(nocase, str0, pattern0)
      invariant |pattern| <= |pattern0|
      decreases |pattern|
    {
      var p := At(pattern);
      if p == NUL { return At(str) == NUL; }
      if At(str) == NUL && p != STAR { return false; }
      if p == STAR {
        r := MatchStar(str, pattern, nocase);
        return;
      }
      if p == QUESTION {
        pattern, str := pattern[1..], str[1..];
        continue;
      }
      if p == OPEN {
        var ok, rest := MatchSet(pattern[1..], nocase.Of(str[0]), nocase);
        if !ok { return false; }
        pattern, str := rest, str[1..];
        continue;
      }
      var ch1, ch2 := str[0], pattern[0];
      if p == BACKSLASH {
        pattern := pattern[1..];
        if At(pattern) == NUL { return false; }
        ch2 := pattern[0];
      }
      pattern, str := pattern[1..], str[1..];
      if nocase.Of(ch1) != nocase.Of(ch2) { return false; }
    }
  }

  /** The pattern starts with a star: try the rest of it everywhere. */
  method MatchStar(str0: CString, pattern0: CString, nocase: Case) returns (r: bool)
    requires pattern0 != [] && pattern0[0] == STAR
    ensures r == Matches(nocase, str0, pattern0)
    decreases |pattern0|, 0
  {
    var str, pattern := str0, pattern0[1..];
    assert pattern0 == [STAR] + pattern;
    while At(pattern) == STAR
      invariant |pattern| < |pattern0|
      invariant Matches(nocase, str, [STAR] + pattern) == Matches(nocase, str0, pattern0)
      decreases |pattern|
    {
      StarStar(nocase, str, pattern[1..]);
      assert [STAR] + pattern[1..] == pattern;
      pattern := pattern[1..];
    }
    if At(pattern) == NUL {
      FinalStar(nocase, str);
      assert [STAR] + pattern == [STAR];
      return true;
    }
    var p := pattern[0];
    var ch2 := nocase.Of(p);
    while true
      invariant Matches(nocase, str, [STAR] + pattern) == Matches(nocase, str0, pattern0)
      decreases |str|
    {
      if p != OPEN && p != QUESTION && p != BACKSLASH {
        while At(str) != NUL && !(ch2 == str[0] || ch2 == nocase.Of(str[0]))
          invariant Matches(nocase, str, [STAR] + pattern) == Matches(nocase, str0, pattern0)
          decreases |str|
        {
          StarStep(nocase, str, pattern);
          Cruise(nocase, str, pattern);
          str := str[1..];
        }
      }
      StarStep(nocase, str, pattern);
      var here := StringCaseMatch(str, pattern, nocase);
      if here { return true; }
      if At(str) == NUL { return false; }
      str := str[1..];
    }
  }

  /** `ch1` against the set that `pattern0` stands in: is it there, and what
      pattern follows the set? */
  method MatchSet(pattern0: CString, ch1: CChar, nocase: Case) returns (ok: bool, pattern: CString)
    ensures SetRest(nocase, pattern0, ch1) == if ok then Some(pattern) else None
  {
    pattern := pattern0;
    while true
      invariant SetRest(nocase, pattern, ch1) == SetRest(nocase, pattern0, ch1)
      decreases |pattern|
    {
      if At(pattern) == CLOSE || At(pattern) == NUL { return false, pattern; }
      var startChar := nocase.Of(pattern[0]);
      pattern := pattern[1..];
      if At(pattern) == DASH {
        pattern := pattern[1..];
        if At(pattern) == NUL { return false, pattern; }
        var endChar := nocase.Of(pattern[0]);
        pattern := pattern[1..];
        if (startChar <= ch1 && ch1 <= endChar) || (endChar <= ch1 && ch1 <= startChar) {
          break;
        }
      } else if startChar == ch1 {
        break;
      }
    }
    ghost var behind := AfterClose(pattern);
    while At(pattern) != CLOSE && At(pattern) != NUL
      invariant AfterClose(pattern) == behind
      decreases |pattern|
    {
      pattern := pattern[1..];
    }
    // at the terminator the step back and the step forward cancel
    if At(pattern) == CLOSE { pattern := pattern[1..]; }
    ok := true;
  }
}
