/** What a glob pattern means: `*` any run, `?` any character, `[...]` one
    character of a set, `\` the next character as it is.  Strings are C strings
    without their terminator, of signed characters. */
module Glob {
  import opened Options

  type CChar = c: int | -128 <= c < 128 && c != 0 witness 1

  type CString = seq<CChar>

  const NUL: int := 0
  const STAR: CChar := '*' as int
  const QUESTION: CChar := '?' as int
  const BACKSLASH: CChar := '\\' as int
  const OPEN: CChar := '[' as int
  const CLOSE: CChar := ']' as int
  const DASH: CChar := '-' as int

  /** How characters are compared: as they are, or in lower case, which is the
      locale's and so a parameter. */
  datatype Case = Exact | Ignore(lower: CChar -> CChar) {
    function Of(c: CChar): CChar { if Ignore? then lower(c) else c }
  }

  // ----- one character against a set

  predicate Between(a: int, c: int, b: int) { a <= c <= b || b <= c <= a }

  /** The rest of a pattern behind the `]` that ends the set; a set that is
      not terminated ends with the pattern. */
  function AfterClose(p: CString): (r: CString)
    ensures |r| <= |p|
  {
    if p == [] then [] else if p[0] == CLOSE then p[1..] else AfterClose(p[1..])
  }

  /** `p` stands inside a set: the pattern behind the set when `c` is in it.
      Items are read one by one up to the first that fits; only then is the
      closing bracket looked for, so a `]` that ends a range does not close. */
  function SetRest(cs: Case, p: CString, c: CChar): (r: Option<CString>)
    ensures r.Some? ==> |r.value| < |p|
  {
    if p == [] || p[0] == CLOSE then None
    else if |p| > 1 && p[1] == DASH then
      if |p| == 2 then None
      else if Between(cs.Of(p[0]), c, cs.Of(p[2])) then Some(AfterClose(p[3..]))
      else SetRest(cs, p[3..], c)
    else if cs.Of(p[0]) == c then Some(AfterClose(p[1..]))
    else SetRest(cs, p[1..], c)
  }

  // ----- the meaning

  ghost predicate Matches(cs: Case, s: CString, p: CString)
    decreases |p|, |s|
  {
    if p == [] then s == []
    else if p[0] == STAR then exists k | 0 <= k <= |s| :: Matches(cs, s[k..], p[1..])
    else if s == [] then false
    else if p[0] == QUESTION then Matches(cs, s[1..], p[1..])
    else if p[0] == OPEN then
      var r := SetRest(cs, p[1..], cs.Of(s[0]));
      r.Some? && Matches(cs, s[1..], r.value)
    else if p[0] == BACKSLASH then
      |p| > 1 && cs.Of(s[0]) == cs.Of(p[1]) && Matches(cs, s[1..], p[2..])
    else cs.Of(s[0]) == cs.Of(p[0]) && Matches(cs, s[1..], p[1..])
  }

  // ----- stars

  lemma StarAnywhere(cs: Case, s: CString, p: CString, k: nat)
    requires k <= |s| && Matches(cs, s[k..], p)
    ensures Matches(cs, s, [STAR] + p)
  {
    assert ([STAR] + p)[1..] == p;
  }

  lemma StarSome(cs: Case, s: CString, p: CString) returns (k: nat)
    requires Matches(cs, s, [STAR] + p)
    ensures k <= |s| && Matches(cs, s[k..], p)
  {
    assert ([STAR] + p)[1..] == p;
    k :| 0 <= k <= |s| && Matches(cs, s[k..], p);
  }

  /** Stars in a row are one star. */
  lemma StarStar(cs: Case, s: CString, p: CString)
    ensures Matches(cs, s, [STAR] + ([STAR] + p)) <==> Matches(cs, s, [STAR] + p)
  {
    if Matches(cs, s, [STAR] + ([STAR] + p)) {
      var k := StarSome(cs, s, [STAR] + p);
      var j := StarSome(cs, s[k..], p);
      assert s[k..][j..] == s[k + j..];
      StarAnywhere(cs, s, p, k + j);
    }
    if Matches(cs, s, [STAR] + p) {
      assert s[0..] == s;
      StarAnywhere(cs, s, [STAR] + p, 0);
    }
  }

  /** A final star takes the rest of any string. */
  lemma FinalStar(cs: Case, s: CString)
    ensures Matches(cs, s, [STAR])
  {
    StarAnywhere(cs, s, [], |s|);
    assert [STAR] + [] == [STAR];
  }

  /** A star either takes nothing or swallows a character. */
  lemma StarStep(cs: Case, s: CString, p: CString)
    ensures Matches(cs, s, [STAR] + p) <==>
      Matches(cs, s, p) || (s != [] && Matches(cs, s[1..], [STAR] + p))
  {
    if Matches(cs, s, [STAR] + p) {
      var k := StarSome(cs, s, p);
      if k == 0 {
        assert s[0..] == s;
      } else {
        assert s[1..][k - 1..] == s[k..];
        StarAnywhere(cs, s[1..], p, k - 1);
      }
    }
    if Matches(cs, s, p) {
      assert s[0..] == s;
      StarAnywhere(cs, s, p, 0);
    }
    if s != [] && Matches(cs, s[1..], [STAR] + p) {
      var k := StarSome(cs, s[1..], p);
      assert s[1..][k..] == s[k + 1..];
      StarAnywhere(cs, s, p, k + 1);
    }
  }

  predicate IsSpecial(c: CChar) { c == STAR || c == QUESTION || c == OPEN || c == BACKSLASH }

  // ----- the string splits into one piece for each part of the pattern

  /** Does the first part of pattern `p` match the piece `x`? */
  predicate PieceOk(cs: Case, p: CString, x: CString) {
    && p != []
    && if p[0] == STAR then true
       else if |x| != 1 then false
       else if p[0] == QUESTION then true
       else if p[0] == OPEN then SetRest(cs, p[1..], cs.Of(x[0])).Some?
       else if p[0] == BACKSLASH then |p| > 1 && cs.Of(x[0]) == cs.Of(p[1])
       else cs.Of(x[0]) == cs.Of(p[0])
  }

  /** The pattern behind its first part.  Where a set ends can depend on the
      character it matched. */
  function Behind(cs: Case, p: CString, x: CString): (r: CString)
    requires PieceOk(cs, p, x)
    ensures |r| < |p|
  {
    if p[0] == OPEN then SetRest(cs, p[1..], cs.Of(x[0])).value
    else if p[0] == BACKSLASH then p[2..]
    else p[1..]
  }

  predicate Splits(cs: Case, pieces: seq<CString>, p: CString) {
    if pieces == [] then p == []
    else PieceOk(cs, p, pieces[0]) && Splits(cs, pieces[1..], Behind(cs, p, pieces[0]))
  }

  function Concat(pieces: seq<CString>): CString {
    if pieces == [] then [] else pieces[0] + Concat(pieces[1..])
  }

  lemma SplitCons(cs: Case, x: CString, rest: seq<CString>, p: CString)
    requires PieceOk(cs, p, x) && Splits(cs, rest, Behind(cs, p, x))
    ensures Splits(cs, [x] + rest, p) && Concat([x] + rest) == x + Concat(rest)
  {
    assert ([x] + rest)[1..] == rest;
  }

  lemma {:induction false} MatchHasSplit(cs: Case, s: CString, p: CString) returns (pieces: seq<CString>)
    requires Matches(cs, s, p)
    ensures Concat(pieces) == s && Splits(cs, pieces, p)
    decreases |p|
  {
    if p == [] {
      pieces := [];
    } else {
      var k: nat := 1;
      if p[0] == STAR {
        k :| 0 <= k <= |s| && Matches(cs, s[k..], p[1..]);
      }
      var x := s[..k];
      var rest := MatchHasSplit(cs, s[k..], Behind(cs, p, x));
      SplitCons(cs, x, rest, p);
      pieces := [x] + rest;
      assert x + s[k..] == s;
    }
  }

  lemma {:induction false} SplitMatches(cs: Case, pieces: seq<CString>, p: CString)
    requires Splits(cs, pieces, p)
    ensures Matches(cs, Concat(pieces), p)
    decreases |pieces|
  {
    if pieces != [] {
      var x, rest := pieces[0], Concat(pieces[1..]);
      SplitMatches(cs, pieces[1..], Behind(cs, p, x));
      assert (x + rest)[|x|..] == rest;
    }
  }

  /** A string matches exactly when it splits into pieces that the parts of the
      pattern match one after the other. */
  lemma MatchesIffSplits(cs: Case, s: CString, p: CString)
    ensures Matches(cs, s, p) <==> exists pieces :: Concat(pieces) == s && Splits(cs, pieces, p)
  {
    if Matches(cs, s, p) { var pieces := MatchHasSplit(cs, s, p); }
    forall pieces | Concat(pieces) == s && Splits(cs, pieces, p) ensures Matches(cs, s, p) {
      SplitMatches(cs, pieces, p);
    }
  }
}
