/** Laws of glob matching: folding case before or while matching, patterns
    that match one string only, and patterns read as a list of atoms. */
module GlobLaws {
  import opened Options
  import opened Glob

  // ----- case

  function Lowered(lower: CChar -> CChar, s: CString): (r: CString)
    ensures |r| == |s| && forall i :: 0 <= i < |s| ==> r[i] == lower(s[i])
  {
    if s == [] then [] else [lower(s[0])] + Lowered(lower, s[1..])
  }

  /** Lower case turns no other character into one with a meaning in patterns,
      and leaves those alone. */
  ghost predicate KeepsSpecials(lower: CChar -> CChar) {
    forall c: CChar :: SameRole(c, lower(c))
  }

  predicate SameRole(c: CChar, d: CChar) {
    && (d == STAR <==> c == STAR) && (d == QUESTION <==> c == QUESTION) && (d == BACKSLASH <==> c == BACKSLASH)
    && (d == OPEN <==> c == OPEN) && (d == CLOSE <==> c == CLOSE) && (d == DASH <==> c == DASH)
  }

  lemma LoweredSuffix(lower: CChar -> CChar, s: CString, k: nat)
    requires k <= |s|
    ensures Lowered(lower, s)[k..] == Lowered(lower, s[k..])
  {}

  lemma {:induction false} LoweredClose(lower: CChar -> CChar, p: CString)
    requires KeepsSpecials(lower)
    ensures AfterClose(Lowered(lower, p)) == Lowered(lower, AfterClose(p))
  {
    if p != [] {
      assert SameRole(p[0], lower(p[0]));
      LoweredSuffix(lower, p, 1);
      LoweredClose(lower, p[1..]);
    }
  }

  lemma {:induction false} LoweredSet(lower: CChar -> CChar, p: CString, c: CChar)
    requires KeepsSpecials(lower)
    ensures SetRest(Exact, Lowered(lower, p), c) ==
      match SetRest(Ignore(lower), p, c)
      case None => None
      case Some(rest) => Some(Lowered(lower, rest))
    decreases |p|
  {
    if p == [] { return; }
    assert SameRole(p[0], lower(p[0]));
    assert |p| > 1 ==> SameRole(p[1], lower(p[1]));
    if p[0] == CLOSE {
    } else if |p| > 1 && p[1] == DASH {
      if |p| > 2 {
        LoweredSuffix(lower, p, 3);
        LoweredClose(lower, p[3..]);
        LoweredSet(lower, p[3..], c);
      }
    } else {
      LoweredSuffix(lower, p, 1);
      LoweredClose(lower, p[1..]);
      LoweredSet(lower, p[1..], c);
    }
  }

  /** Matching without regard to case is matching the lower-case string against
      the lower-case pattern. */
  lemma {:induction false} IgnoringCase(lower: CChar -> CChar, s: CString, p: CString)
    requires KeepsSpecials(lower)
    ensures Matches(Ignore(lower), s, p) <==> Matches(Exact, Lowered(lower, s), Lowered(lower, p))
    decreases |p|, |s|
  {
    if p == [] { return; }
    assert SameRole(p[0], lower(p[0]));
    if p[0] == STAR {
      var t, q := Lowered(lower, s), Lowered(lower, p[1..]);
      LoweredSuffix(lower, p, 1);
      assert Lowered(lower, p) == [STAR] + q && p == [STAR] + p[1..];
      forall k | 0 <= k <= |s| ensures Matches(Ignore(lower), s[k..], p[1..]) <==> Matches(Exact, t[k..], q) {
        IgnoringCase(lower, s[k..], p[1..]);
        LoweredSuffix(lower, s, k);
      }
      StarAlike(Ignore(lower), s, p[1..], Exact, t, q);
    } else if s != [] {
      LoweredSuffix(lower, s, 1);
      LoweredSuffix(lower, p, 1);
      if p[0] == OPEN {
        LoweredSet(lower, p[1..], lower(s[0]));
        var r := SetRest(Ignore(lower), p[1..], lower(s[0]));
        if r.Some? { IgnoringCase(lower, s[1..], r.value); }
      } else if p[0] == BACKSLASH {
        if |p| > 1 {
          LoweredSuffix(lower, p, 2);
          IgnoringCase(lower, s[1..], p[2..]);
        }
      } else {
        IgnoringCase(lower, s[1..], p[1..]);
      }
    }
  }

  lemma StarAlike(cs1: Case, s: CString, p: CString, cs2: Case, t: CString, q: CString)
    requires |s| == |t| && forall k :: 0 <= k <= |s| ==> (Matches(cs1, s[k..], p) <==> Matches(cs2, t[k..], q))
    ensures Matches(cs1, s, [STAR] + p) <==> Matches(cs2, t, [STAR] + q)
  {
    if Matches(cs1, s, [STAR] + p) {
      var k := StarSome(cs1, s, p);
      StarAnywhere(cs2, t, q, k);
    }
    if Matches(cs2, t, [STAR] + q) {
      var k := StarSome(cs2, t, q);
      StarAnywhere(cs1, s, p, k);
    }
  }

  // ----- quoting

  function Escape(s: CString): CString {
    if s == [] then []
    else (if IsSpecial(s[0]) then [BACKSLASH, s[0]] else [s[0]]) + Escape(s[1..])
  }

  /** The same characters up to case. */
  predicate SameCase(cs: Case, s: CString, t: CString) {
    |s| == |t| && forall i :: 0 <= i < |s| ==> cs.Of(s[i]) == cs.Of(t[i])
  }

  /** The quoted string takes itself, up to case, off the front. */
  lemma {:induction false} EscapePrefix(cs: Case, t: CString, s: CString, p: CString)
    ensures Matches(cs, t, Escape(s) + p) <==>
      |s| <= |t| && SameCase(cs, t[..|s|], s) && Matches(cs, t[|s|..], p)
    decreases |s|
  {
    if s == [] {
      assert [] + p == p && t[0..] == t;
    } else {
      EscapeCons(cs, t, s, p);
      if t != [] {
        EscapePrefix(cs, t[1..], s[1..], p);
        if |s| <= |t| {
          assert t[1..][|s| - 1..] == t[|s|..] && t[1..][..|s| - 1] == t[..|s|][1..];
          SameCons(cs, t[..|s|], s);
        }
      }
    }
  }

  lemma EscapeCons(cs: Case, t: CString, s: CString, p: CString)
    requires s != []
    ensures Matches(cs, t, Escape(s) + p) <==>
      t != [] && cs.Of(t[0]) == cs.Of(s[0]) && Matches(cs, t[1..], Escape(s[1..]) + p)
  {
    var rest := Escape(s[1..]) + p;
    if IsSpecial(s[0]) {
      assert Escape(s) + p == [BACKSLASH, s[0]] + rest;
      QuotedFirst(cs, t, s[0], rest);
    } else {
      assert Escape(s) + p == [s[0]] + rest;
      PlainFirst(cs, t, s[0], rest);
    }
  }

  lemma QuotedFirst(cs: Case, t: CString, c: CChar, rest: CString)
    ensures Matches(cs, t, [BACKSLASH, c] + rest) <==> t != [] && cs.Of(t[0]) == cs.Of(c) && Matches(cs, t[1..], rest)
  {
    var q := [BACKSLASH, c] + rest;
    assert q[0] == BACKSLASH && q[1] == c && q[2..] == rest;
  }

  lemma PlainFirst(cs: Case, t: CString, c: CChar, rest: CString)
    requires !IsSpecial(c)
    ensures Matches(cs, t, [c] + rest) <==> t != [] && cs.Of(t[0]) == cs.Of(c) && Matches(cs, t[1..], rest)
  {
    var q := [c] + rest;
    assert q[0] == c && q[1..] == rest;
  }

  lemma SameCons(cs: Case, s: CString, t: CString)
    requires s != [] && t != [] && |s| == |t|
    ensures SameCase(cs, s, t) <==> cs.Of(s[0]) == cs.Of(t[0]) && SameCase(cs, s[1..], t[1..])
  {
    if cs.Of(s[0]) == cs.Of(t[0]) && SameCase(cs, s[1..], t[1..]) {
      forall i | 0 <= i < |s| ensures cs.Of(s[i]) == cs.Of(t[i]) {
        if i > 0 { assert s[i] == s[1..][i - 1] && t[i] == t[1..][i - 1]; }
      }
    }
  }

  /** An escaped string matches itself, up to case, and nothing else. */
  lemma EscapeMatchesOnly(cs: Case, t: CString, s: CString)
    ensures Matches(cs, t, Escape(s)) <==> SameCase(cs, t, s)
  {
    EscapePrefix(cs, t, s, []);
    assert Escape(s) + [] == Escape(s);
    if |s| <= |t| && t[|s|..] == [] { assert t[..|s|] == t; }
  }

  lemma EscapeMatchesExactly(t: CString, s: CString)
    ensures Matches(Exact, t, Escape(s)) <==> t == s
  {
    EscapeMatchesOnly(Exact, t, s);
  }

  predicate OccursAt(cs: Case, t: CString, s: CString, k: int) {
    0 <= k <= |t| - |s| && SameCase(cs, t[k..k + |s|], s)
  }

  /** Between stars it matches the strings that contain it. */
  lemma EscapeFinds(cs: Case, t: CString, s: CString)
    ensures Matches(cs, t, [STAR] + (Escape(s) + [STAR])) <==>
      exists k :: OccursAt(cs, t, s, k)
  {
    var p := Escape(s) + [STAR];
    if Matches(cs, t, [STAR] + p) {
      var k := StarSome(cs, t, p);
      EscapePrefix(cs, t[k..], s, [STAR]);
      assert t[k..][..|s|] == t[k..k + |s|];
      assert OccursAt(cs, t, s, k);
    }
    forall k | OccursAt(cs, t, s, k)
      ensures Matches(cs, t, [STAR] + p)
    {
      assert t[k..][..|s|] == t[k..k + |s|];
      FinalStar(cs, t[k..][|s|..]);
      EscapePrefix(cs, t[k..], s, [STAR]);
      StarAnywhere(cs, t, p, k);
    }
  }

  // ----- patterns as lists of atoms

  datatype Range = Range(first: CChar, last: CChar)

  datatype Atom = AnyRun | AnyChar | OneOf(ranges: seq<Range>) | Literal(c: CChar)

  /** The ranges of a set up to its first `]` or the end of the pattern, and the
      pattern behind it; a range without its end fits nothing.  None when a
      range ends in `]`. */
  function ReadSet(p: CString): (r: Option<(seq<Range>, CString)>)
    ensures r.Some? ==> |r.value.1| <= |p|
  {
    if p == [] then Some(([], []))
    else if p[0] == CLOSE then Some(([], p[1..]))
    else
      var wide := |p| > 1 && p[1] == DASH;
      if wide && |p| == 2 then Some(([], []))
      else if wide && p[2] == CLOSE then None
      else
        var n := if wide then 3 else 1;
        match ReadSet(p[n..])
        case None => None
        case Some((ranges, rest)) => Some(([Range(p[0], p[n - 1])] + ranges, rest))
  }

  function Consed(a: Atom, rest: Option<seq<Atom>>): Option<seq<Atom>> {
    if rest.Some? then Some([a] + rest.value) else None
  }

  /** A final backslash matches nothing, like an empty set. */
  function ReadPattern(p: CString): Option<seq<Atom>>
    decreases |p|
  {
    if p == [] then Some([])
    else if p[0] == STAR then Consed(AnyRun, ReadPattern(p[1..]))
    else if p[0] == QUESTION then Consed(AnyChar, ReadPattern(p[1..]))
    else if p[0] == OPEN then
      match ReadSet(p[1..])
      case None => None
      case Some((ranges, rest)) => Consed(OneOf(ranges), ReadPattern(rest))
    else if p[0] == BACKSLASH then
      if |p| == 1 then Some([OneOf([])]) else Consed(Literal(p[1]), ReadPattern(p[2..]))
    else Consed(Literal(p[0]), ReadPattern(p[1..]))
  }

  predicate InRanges(cs: Case, ranges: seq<Range>, c: CChar) {
    exists i | 0 <= i < |ranges| :: Between(cs.Of(ranges[i].first), cs.Of(c), cs.Of(ranges[i].last))
  }

  predicate AtomOk(cs: Case, a: Atom, x: CString) {
    match a
    case AnyRun => true
    case AnyChar => |x| == 1
    case OneOf(ranges) => |x| == 1 && InRanges(cs, ranges, x[0])
    case Literal(c) => |x| == 1 && cs.Of(x[0]) == cs.Of(c)
  }

  predicate AtomsOk(cs: Case, atoms: seq<Atom>, pieces: seq<CString>) {
    |atoms| == |pieces| && forall i :: 0 <= i < |atoms| ==> AtomOk(cs, atoms[i], pieces[i])
  }

  /** The code's early exit from a set agrees with reading it to the end. */
  lemma {:induction false} SetIsRanges(cs: Case, p: CString, c: CChar)
    requires ReadSet(p).Some?
    ensures SetRest(cs, p, cs.Of(c)) ==
      if InRanges(cs, ReadSet(p).value.0, c) then Some(ReadSet(p).value.1) else None
    ensures AfterClose(p) == ReadSet(p).value.1
    decreases |p|
  {
    if p == [] || p[0] == CLOSE {
    } else if |p| == 2 && p[1] == DASH {
      assert p[1..] == [DASH] && p[1..][1..] == [];
      assert AfterClose(p[1..]) == AfterClose(p[1..][1..]) == [];
    } else {
      var n := if |p| > 1 && p[1] == DASH then 3 else 1;
      SetIsRanges(cs, p[n..], c);
      var (ranges, rest) := ReadSet(p[n..]).value;
      InRangesCons(cs, Range(p[0], p[n - 1]), ranges, c);
      if n == 3 {
        assert p[1..][1..] == p[2..] && p[2..][1..] == p[3..];
        assert AfterClose(p[1..]) == AfterClose(p[2..]);
      }
    }
  }

  lemma InRangesCons(cs: Case, r: Range, ranges: seq<Range>, c: CChar)
    ensures InRanges(cs, [r] + ranges, c) <==>
      Between(cs.Of(r.first), cs.Of(c), cs.Of(r.last)) || InRanges(cs, ranges, c)
  {
    var all := [r] + ranges;
    if InRanges(cs, ranges, c) {
      var i :| 0 <= i < |ranges| && Between(cs.Of(ranges[i].first), cs.Of(c), cs.Of(ranges[i].last));
      assert all[i + 1] == ranges[i];
    }
    if Between(cs.Of(r.first), cs.Of(c), cs.Of(r.last)) {
      assert all[0] == r;
    }
    if InRanges(cs, all, c) {
      var i :| 0 <= i < |all| && Between(cs.Of(all[i].first), cs.Of(c), cs.Of(all[i].last));
      assert i > 0 ==> all[i] == ranges[i - 1];
    }
  }

  lemma FirstAtom(cs: Case, p: CString, x: CString)
    requires p != [] && ReadPattern(p).Some?
    ensures ReadPattern(p).value != [] && (PieceOk(cs, p, x) <==> AtomOk(cs, ReadPattern(p).value[0], x))
    ensures PieceOk(cs, p, x) ==> ReadPattern(Behind(cs, p, x)) == Some(ReadPattern(p).value[1..])
  {
    if p[0] == OPEN && |x| == 1 { SetIsRanges(cs, p[1..], x[0]); }
  }

  lemma {:induction false} SplitsAreAtoms(cs: Case, p: CString, pieces: seq<CString>)
    requires ReadPattern(p).Some?
    ensures Splits(cs, pieces, p) <==> AtomsOk(cs, ReadPattern(p).value, pieces)
    decreases |pieces|
  {
    var atoms := ReadPattern(p).value;
    if p == [] {
      assert atoms == [];
    } else if pieces == [] {
      FirstAtom(cs, p, []);
    } else {
      var x := pieces[0];
      FirstAtom(cs, p, x);
      if PieceOk(cs, p, x) { SplitsAreAtoms(cs, Behind(cs, p, x), pieces[1..]); }
      AtomsCons(cs, atoms, pieces);
    }
  }

  lemma AtomsCons(cs: Case, atoms: seq<Atom>, pieces: seq<CString>)
    requires atoms != [] && pieces != []
    ensures AtomsOk(cs, atoms, pieces) <==> AtomOk(cs, atoms[0], pieces[0]) && AtomsOk(cs, atoms[1..], pieces[1..])
  {
    if AtomOk(cs, atoms[0], pieces[0]) && AtomsOk(cs, atoms[1..], pieces[1..]) {
      forall i | 0 <= i < |atoms| ensures AtomOk(cs, atoms[i], pieces[i]) {
        if i > 0 { assert atoms[i] == atoms[1..][i - 1] && pieces[i] == pieces[1..][i - 1]; }
      }
    }
  }

  /** A pattern without a range ending in `]` matches a string exactly when its
      atoms match consecutive pieces of it. */
  lemma MatchesIffAtoms(cs: Case, s: CString, p: CString)
    requires ReadPattern(p).Some?
    ensures Matches(cs, s, p) <==>
      exists pieces :: Concat(pieces) == s && AtomsOk(cs, ReadPattern(p).value, pieces)
  {
    MatchesIffSplits(cs, s, p);
    forall pieces ensures Splits(cs, pieces, p) <==> AtomsOk(cs, ReadPattern(p).value, pieces) {
      SplitsAreAtoms(cs, p, pieces);
    }
  }

  /** Other patterns have no such reading: in `[ab-]c]` the set ends at the
      first bracket for `a` and at the second one for `b`. */
  lemma SetEndVaries(a: CChar, b: CChar, c: CChar)
    requires a == 'a' as int && b == 'b' as int && c == 'c' as int
    ensures var p := [OPEN, a, b, DASH, CLOSE, c, CLOSE];
            ReadPattern(p) == None && Matches(Exact, [a, c, CLOSE], p) && Matches(Exact, [b], p)
  {
    var p := [OPEN, a, b, DASH, CLOSE, c, CLOSE];
    assert p[1..][1..] == [b, DASH, CLOSE, c, CLOSE];
    assert AfterClose([b, DASH, CLOSE, c, CLOSE]) == [c, CLOSE] by {
      assert [b, DASH, CLOSE, c, CLOSE][1..] == [DASH, CLOSE, c, CLOSE];
      assert [DASH, CLOSE, c, CLOSE][1..] == [CLOSE, c, CLOSE];
      assert [CLOSE, c, CLOSE][1..] == [c, CLOSE];
      assert AfterClose([DASH, CLOSE, c, CLOSE]) == AfterClose([CLOSE, c, CLOSE]);
    }
    assert [b, DASH, CLOSE, c, CLOSE][3..] == [c, CLOSE];
    assert AfterClose([c, CLOSE]) == [] by { assert [c, CLOSE][1..] == [CLOSE] && [CLOSE][1..] == []; }
    assert SetRest(Exact, p[1..], a) == Some([c, CLOSE]);
    assert Between(b, b, CLOSE);
    assert SetRest(Exact, [b, DASH, CLOSE, c, CLOSE], b) == Some([]);
    assert Matches(Exact, [], []);
    assert Matches(Exact, [CLOSE], [CLOSE]);
    assert [a, c, CLOSE][1..] == [c, CLOSE] && [c, CLOSE][1..] == [CLOSE];
    assert Matches(Exact, [c, CLOSE], [c, CLOSE]);
    assert ReadSet([b, DASH, CLOSE, c, CLOSE]) == None;
  }
}
