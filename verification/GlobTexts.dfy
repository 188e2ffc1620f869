/** Glob patterns written out: what each character of a pattern takes from the
    string, with the bounds of ranges as inequalities between characters. */
module GlobTexts {
  import opened Options
  import opened Glob

  function Char(c: char): CChar
    requires 0 < c as int < 128
  {
    c as int
  }

  predicate Plain(c: CChar) { c != Char('*') && c != Char('?') && c != Char('[') && c != Char('\\') }

  // ----- one character of the pattern

  /** A pattern that is used up matches the string that is used up; a backslash
      with nothing behind it and an open set without members match nothing. */
  lemma EndOfPattern(cs: Case, s: CString)
    ensures Matches(cs, s, []) <==> s == []
    ensures !Matches(cs, s, [Char('\\')]) && !Matches(cs, s, [Char('[')])
  {
    assert [Char('[')][1..] == [];
  }

  /** `*` takes any run of characters, `?` any one. */
  lemma Wildcards(cs: Case, s: CString, p: CString)
    ensures Matches(cs, s, [Char('*')] + p) <==> exists k | 0 <= k <= |s| :: Matches(cs, s[k..], p)
    ensures Matches(cs, s, [Char('?')] + p) <==> s != [] && Matches(cs, s[1..], p)
  {
    assert ([Char('?')] + p)[1..] == p && ([Char('*')] + p)[1..] == p;
  }

  /** Any other character takes itself; behind `\` the special ones do too. */
  lemma Itself(cs: Case, s: CString, c: CChar, p: CString)
    ensures Plain(c) ==>
      (Matches(cs, s, [c] + p) <==> s != [] && cs.Of(s[0]) == cs.Of(c) && Matches(cs, s[1..], p))
    ensures Matches(cs, s, [Char('\\'), c] + p) <==> s != [] && cs.Of(s[0]) == cs.Of(c) && Matches(cs, s[1..], p)
  {
    assert ([c] + p)[1..] == p && ([Char('\\'), c] + p)[2..] == p;
  }

  // ----- sets

  datatype Member = One(c: CChar) | Range(first: CChar, last: CChar)

  function MemberText(m: Member): CString {
    match m
    case One(c) => [c]
    case Range(a, b) => [a, Char('-'), b]
  }

  function MembersText(ms: seq<Member>): CString {
    if ms == [] then [] else MemberText(ms[0]) + MembersText(ms[1..])
  }

  /** The bounds of a range may stand in any order. */
  predicate Fits(cs: Case, m: Member, c: CChar) {
    match m
    case One(d) => cs.Of(c) == cs.Of(d)
    case Range(a, b) =>
      (cs.Of(a) <= cs.Of(c) && cs.Of(c) <= cs.Of(b)) || (cs.Of(b) <= cs.Of(c) && cs.Of(c) <= cs.Of(a))
  }

  predicate MemberOk(m: Member) {
    match m
    case One(c) => c != Char(']')
    case Range(a, b) => a != Char(']') && b != Char(']')
  }

  /** No member holds a `]`, and no single one is followed by `-`, which would
      make it a range. */
  predicate Members(ms: seq<Member>) {
    && (forall i :: 0 <= i < |ms| ==> MemberOk(ms[i]))
    && (forall i :: 0 < i < |ms| && ms[i - 1].One? ==> MemberText(ms[i])[0] != Char('-'))
  }

  predicate Holds(cs: Case, ms: seq<Member>, c: CChar) { exists i | 0 <= i < |ms| :: Fits(cs, ms[i], c) }

  lemma HoldsCons(cs: Case, ms: seq<Member>, c: CChar)
    requires ms != []
    ensures Holds(cs, ms, c) <==> Fits(cs, ms[0], c) || Holds(cs, ms[1..], c)
  {
    if Holds(cs, ms[1..], c) {
      var i :| 0 <= i < |ms[1..]| && Fits(cs, ms[1..][i], c);
      assert ms[i + 1] == ms[1..][i];
    }
    if Holds(cs, ms, c) {
      var i :| 0 <= i < |ms| && Fits(cs, ms[i], c);
      assert i > 0 ==> ms[1..][i - 1] == ms[i];
    }
  }

  lemma MembersCons(ms: seq<Member>, tail: CString)
    requires ms != []
    ensures MembersText(ms) + tail == MemberText(ms[0]) + (MembersText(ms[1..]) + tail)
  {
    var a, b := MemberText(ms[0]), MembersText(ms[1..]);
    assert (a + b) + tail == a + (b + tail);
  }

  lemma {:induction false} SkipsMembers(ms: seq<Member>, p: CString)
    requires forall i :: 0 <= i < |ms| ==> MemberOk(ms[i])
    ensures AfterClose(MembersText(ms) + ([Char(']')] + p)) == p
  {
    var tail := [Char(']')] + p;
    if ms == [] {
      assert [] + tail == tail && tail[1..] == p;
    } else {
      SkipsMembers(ms[1..], p);
      SkipsMember(ms[0], MembersText(ms[1..]) + tail);
      MembersCons(ms, tail);
    }
  }

  lemma SkipsOne(c: CChar, rest: CString)
    requires c != Char(']')
    ensures AfterClose([c] + rest) == AfterClose(rest)
  {
    assert ([c] + rest)[1..] == rest;
  }

  lemma SkipsMember(m: Member, rest: CString)
    requires MemberOk(m)
    ensures AfterClose(MemberText(m) + rest) == AfterClose(rest)
  {
    if m.One? {
      SkipsOne(m.c, rest);
    } else {
      SkipsOne(m.last, rest);
      SkipsOne(Char('-'), [m.last] + rest);
      SkipsOne(m.first, [Char('-')] + ([m.last] + rest));
      assert MemberText(m) + rest == [m.first] + ([Char('-')] + ([m.last] + rest));
    }
  }

  lemma MembersTail(ms: seq<Member>)
    requires Members(ms) && ms != []
    ensures Members(ms[1..]) && MemberOk(ms[0])
    ensures |ms| > 1 && ms[0].One? ==> MembersText(ms[1..]) != [] && MembersText(ms[1..])[0] != Char('-')
  {
    var t := ms[1..];
    forall i | 0 < i < |t| && t[i - 1].One? ensures MemberText(t[i])[0] != Char('-') {
      assert t[i - 1] == ms[i] && t[i] == ms[i + 1];
    }
    assert |ms| > 1 ==> t[0] == ms[1] && MembersText(t)[0] == MemberText(t[0])[0];
  }

  lemma {:induction false} MembersRest(cs: Case, ms: seq<Member>, p: CString, c: CChar)
    requires Members(ms)
    ensures SetRest(cs, MembersText(ms) + ([Char(']')] + p), cs.Of(c)) == if Holds(cs, ms, c) then Some(p) else None
  {
    var tail := [Char(']')] + p;
    if ms == [] {
      assert [] + tail == tail;
    } else {
      MembersTail(ms);
      MembersRest(cs, ms[1..], p, c);
      SkipsMembers(ms[1..], p);
      HoldsCons(cs, ms, c);
      MembersCons(ms, tail);
      MemberRest(cs, ms[0], MembersText(ms[1..]) + tail, c);
    }
  }

  lemma MemberRest(cs: Case, m: Member, rest: CString, c: CChar)
    requires MemberOk(m) && rest != [] && (m.One? ==> rest[0] != Char('-'))
    ensures SetRest(cs, MemberText(m) + rest, cs.Of(c)) ==
      if Fits(cs, m, c) then Some(AfterClose(rest)) else SetRest(cs, rest, cs.Of(c))
  {
    var t := MemberText(m) + rest;
    assert t[0] != Char(']') && |t| > 1;
    if m.One? {
      assert t[1..] == rest;
    } else {
      assert t[1] == Char('-') && t[2] == m.last && t[3..] == rest;
    }
  }

  /** A set takes one character that is a member or lies in a range, bounds
      included. */
  lemma SetTakes(cs: Case, s: CString, ms: seq<Member>, p: CString)
    requires Members(ms)
    ensures Matches(cs, s, [Char('[')] + MembersText(ms) + [Char(']')] + p) <==>
      s != [] && Holds(cs, ms, s[0]) && Matches(cs, s[1..], p)
  {
    var q := [Char('[')] + MembersText(ms) + [Char(']')] + p;
    assert q[1..] == MembersText(ms) + ([Char(']')] + p);
    if s != [] { MembersRest(cs, ms, p, s[0]); }
  }

  lemma RangeAlone(cs: Case, c: CChar, x: CChar, y: CChar)
    requires x != Char(']') && y != Char(']')
    ensures Matches(cs, [c], [Char('['), x, Char('-'), y, Char(']')]) <==>
      (cs.Of(x) <= cs.Of(c) && cs.Of(c) <= cs.Of(y)) || (cs.Of(y) <= cs.Of(c) && cs.Of(c) <= cs.Of(x))
  {
    var ms := [Range(x, y)];
    assert MembersText(ms) == [x, Char('-'), y] by { assert ms[1..] == []; }
    assert [Char('[')] + MembersText(ms) + [Char(']')] + [] == [Char('['), x, Char('-'), y, Char(']')];
    SetTakes(cs, [c], ms, []);
    HoldsCons(cs, ms, c);
  }

  /** Characters one by one. */
  lemma SinglesAlone(cs: Case, c: CChar, members: CString)
    requires Char(']') !in members && Char('-') !in members
    ensures Matches(cs, [c], [Char('[')] + members + [Char(']')]) <==>
      exists i | 0 <= i < |members| :: cs.Of(members[i]) == cs.Of(c)
  {
    var ms := seq(|members|, i requires 0 <= i < |members| => One(members[i]));
    SinglesText(ms, members);
    SinglesHold(cs, ms, members, c);
    SetTakes(cs, [c], ms, []);
    assert [Char('[')] + members + [Char(']')] + [] == [Char('[')] + members + [Char(']')];
  }

  lemma SinglesHold(cs: Case, ms: seq<Member>, members: CString, c: CChar)
    requires |ms| == |members| && forall i :: 0 <= i < |ms| ==> ms[i] == One(members[i])
    requires Char(']') !in members && Char('-') !in members
    ensures Members(ms) && (Holds(cs, ms, c) <==> exists i | 0 <= i < |members| :: cs.Of(members[i]) == cs.Of(c))
  {
    forall i | 0 <= i < |members| ensures Fits(cs, ms[i], c) <==> cs.Of(members[i]) == cs.Of(c) {}
  }

  lemma {:induction false} SinglesText(ms: seq<Member>, members: CString)
    requires |ms| == |members| && forall i :: 0 <= i < |ms| ==> ms[i] == One(members[i])
    ensures MembersText(ms) == members
  {
    if ms != [] {
      SinglesText(ms[1..], members[1..]);
      assert members == [members[0]] + members[1..];
    }
  }

  /** A set that is not closed ends with the pattern, and one that begins with
      `]` has no members. */
  lemma OpenSet(cs: Case, s: CString, c: CChar, p: CString)
    requires c != Char(']')
    ensures Matches(cs, s, [Char('['), c]) <==> |s| == 1 && cs.Of(s[0]) == cs.Of(c)
    ensures !Matches(cs, s, [Char('['), Char(']')] + p) && !Matches(cs, s, [Char('['), c, Char('-')])
  {
    var q, r, t := [Char('['), c], [Char('['), Char(']')] + p, [Char('['), c, Char('-')];
    assert q[1..] == [c] && [c][1..] == [] && r[1..][0] == Char(']') && t[1..] == [c, Char('-')];
  }
}
