/** The reader and the writer of the header: a cursor over its characters, and
    a text that grows. */
module HeaderReader {
  import opened Options
  import opened Header

  lemma UpToLater(a: Text, s: Text, c: char)
    requires c !in a
    ensures UpTo(a + s, c) == match UpTo(s, c)
                              case None => None
                              case Some((b, rest)) => Some((a + b, rest))
  {
    UpToParts(s, c);
    UpToParts(a + s, c);
    if UpTo(s, c).Some? {
      var (b, rest) := UpTo(s, c).value;
      assert a + (b + [c] + rest) == a + b + [c] + rest;
      UpToFirst(a + b, c, rest);
    }
  }

  class BOisLoader {
    /** What the cursor has not passed yet. */
    var header_: Text
    var maxXmlStrLen_: int
    var tolSourceSearchPaths_: seq<Path>

    constructor (header: Text, max: int)
      ensures header_ == header && maxXmlStrLen_ == max && tolSourceSearchPaths_ == []
    {
      header_, maxXmlStrLen_, tolSourceSearchPaths_ := header, max, [];
    }

    method XMLGoToNextTag() returns (ok: bool)
      modifies this`header_
      ensures ok == GoToNextTag(old(header_)).Some?
      ensures ok ==> header_ == GoToNextTag(old(header_)).value
    {
      while true
        invariant GoToNextTag(header_) == GoToNextTag(old(header_))
        decreases |header_|
      {
        if header_ == [] { return false; }
        var ch := header_[0];
        header_ := header_[1..];
        if ch == '<' { return true; }
      }
    }

    /** Characters up to `end`, fewer than the longest string allowed. */
    method ReadUntil(end: char) returns (ok: bool, s: Text)
      modifies this`header_
      ensures ok == (UpTo(old(header_), end).Some? && |UpTo(old(header_), end).value.0| < maxXmlStrLen_)
      ensures ok ==> UpTo(old(header_), end) == Some((s, header_))
    {
      s := [];
      assert [] + header_ == header_;
      while true
        invariant end !in s && old(header_) == s + header_
        decreases |header_|
      {
        UpToLater(s, header_, end);
        if header_ == [] { return false, s; }
        var ch := header_[0];
        if |s| >= maxXmlStrLen_ { return false, s; }
        if ch == end {
          assert s + [] == s;
          header_ := header_[1..];
          return true, s;
        }
        assert s + header_ == s + [ch] + header_[1..];
        s, header_ := s + [ch], header_[1..];
      }
    }

    method XMLGetNextTagTitle(ensure: Text, goToNextTag: bool) returns (ok: bool, title: Text)
      modifies this`header_
      ensures var r := if goToNextTag then NextTagTitle(old(header_), ensure, maxXmlStrLen_)
                       else NextTitle(old(header_), ensure, maxXmlStrLen_);
              ok == r.Some? && (ok ==> r == Some((title, header_)))
    {
      title := "";
      if goToNextTag {
        ok := XMLGoToNextTag();
        if !ok { return; }
      }
      ok, title := ReadUntil('>');
      ok := ok && (ensure == "" || ensure == title);
    }

    method XMLEnsureEndTag(title: Text, goToNextTag: bool) returns (ok: bool)
      modifies this`header_
      ensures var r := if goToNextTag then EndTag(old(header_), title, maxXmlStrLen_)
                       else EndTitle(old(header_), title, maxXmlStrLen_);
              ok == r.Some? && (ok ==> r == Some(header_))
    {
      if goToNextTag {
        ok := XMLGoToNextTag();
        if !ok { return; }
      }
      if header_ == [] { return false; }
      var ch := header_[0];
      header_ := header_[1..];
      if ch != '/' { return false; }
      var endTag;
      ok, endTag := XMLGetNextTagTitle(title, false);
    }

    method XMLGetNextTagValue(ensure: Text) returns (ok: bool, value: Text)
      modifies this`header_
      ensures var r := TagValue(old(header_), ensure, maxXmlStrLen_);
              ok == r.Some? && (ok ==> r == Some((value, header_)))
    {
      value := "";
      var title;
      ok, title := XMLGetNextTagTitle(ensure, true);
      if !ok { return; }
      ok, value := ReadUntil('<');
      if !ok { return; }
      ok := XMLEnsureEndTag(title, false);
    }

    method ReadRootTag(k: nat) returns (ok: bool, p: Path)
      modifies this`header_
      ensures var r := ReadRoot(old(header_), k, maxXmlStrLen_);
              ok == r.Some? && (ok ==> r == Some((p, header_)))
    {
      p := Path("", "");
      var vn := RootName(k);
      var title;
      ok, title := XMLGetNextTagTitle(vn, true);
      if !ok { return; }
      var alias, value;
      ok, alias := XMLGetNextTagValue("alias");
      if !ok { return; }
      ok, value := XMLGetNextTagValue("path");
      if !ok { return; }
      p := Path(alias, value);
      ok := XMLEnsureEndTag(vn, true);
    }

    /** The section of the search paths; `before` is what the count variable
        held. */
    method ReadSearchPaths(before: int) returns (ok: bool)
      modifies this`header_, this`tolSourceSearchPaths_
      ensures var r := ReadSection(old(header_), before, maxXmlStrLen_);
              ok == r.Some? && (ok ==> r == Some((tolSourceSearchPaths_, header_)))
    {
      var title, count;
      ok, title := XMLGetNextTagTitle(SECTION, true);
      if !ok { return; }
      ok, count := XMLGetNextTagValue("entries");
      if !ok { return; }
      ok := ReadRootTags(Clamped(Scanned(count, before)));
      if !ok { return; }
      ok := XMLEnsureEndTag(SECTION, true);
    }

    method ReadRootTags(m: nat) returns (ok: bool)
      modifies this`header_, this`tolSourceSearchPaths_
      ensures var r := ReadRoots(old(header_), 1, m, maxXmlStrLen_);
              ok == r.Some? && (ok ==> r == Some((tolSourceSearchPaths_, header_)))
    {
      tolSourceSearchPaths_ := [];
      var k: nat := 1;
      ghost var s, left := header_, m;
      Progress(s, k, m, maxXmlStrLen_);
      while k <= m
        invariant k + left == m + 1
        invariant ReadSoFar(s, 1, m, maxXmlStrLen_, tolSourceSearchPaths_, header_, k, left)
      {
        ok := ReadNextRoot(s, m, k, left);
        if !ok { return; }
        k := k + 1;
        left := left - 1;
      }
      AllRead(s, 1, m, maxXmlStrLen_, tolSourceSearchPaths_, header_, k);
      ok := true;
    }

    method ReadNextRoot(ghost s: Text, ghost m: nat, k: nat, ghost left: nat) returns (ok: bool)
      requires left > 0 && ReadSoFar(s, 1, m, maxXmlStrLen_, tolSourceSearchPaths_, header_, k, left)
      modifies this`header_, this`tolSourceSearchPaths_
      ensures !ok ==> ReadRoots(s, 1, m, maxXmlStrLen_) == None
      ensures ok ==> ReadSoFar(s, 1, m, maxXmlStrLen_, tolSourceSearchPaths_, header_, k + 1, left - 1)
    {
      OneRootMore(header_, k, left, maxXmlStrLen_);
      var p;
      ok, p := ReadRootTag(k);
      if !ok { return; }
      FollowedBy(tolSourceSearchPaths_, p, ReadRoots(header_, k + 1, left - 1, maxXmlStrLen_));
      tolSourceSearchPaths_ := tolSourceSearchPaths_ + [p];
    }
  }

  /** Reading `m` roots from `s` comes down to the paths read already and
      reading `left` more from `rest`. */
  ghost predicate ReadSoFar(s: Text, first: nat, m: nat, max: int, paths: seq<Path>, rest: Text, k: nat, left: nat) {
    ReadRoots(s, first, m, max) == Followed(paths, ReadRoots(rest, k, left, max))
  }

  lemma Progress(s: Text, k: nat, m: nat, max: int)
    ensures ReadSoFar(s, k, m, max, [], s, k, m)
  {
    FollowedNone(ReadRoots(s, k, m, max));
  }

  lemma AllRead(s: Text, first: nat, m: nat, max: int, paths: seq<Path>, rest: Text, k: nat)
    requires ReadSoFar(s, first, m, max, paths, rest, k, 0)
    ensures ReadRoots(s, first, m, max) == Some((paths, rest))
  {
    assert paths + [] == paths;
  }

  /** Paths read before the rest of a reading. */
  function Followed(a: seq<Path>, r: Option<(seq<Path>, Text)>): Option<(seq<Path>, Text)> {
    match r
    case None => None
    case Some((b, end)) => Some((a + b, end))
  }

  lemma FollowedNone(r: Option<(seq<Path>, Text)>)
    ensures Followed([], r) == r
  {
    if r.Some? { assert [] + r.value.0 == r.value.0; }
  }

  lemma OneRootMore(s: Text, k: nat, n: nat, max: int)
    requires n > 0
    ensures ReadRoots(s, k, n, max) == match ReadRoot(s, k, max)
                                       case None => None
                                       case Some((p, rest)) => Followed([p], ReadRoots(rest, k + 1, n - 1, max))
  {}

  lemma FollowedBy(a: seq<Path>, p: Path, r: Option<(seq<Path>, Text)>)
    ensures Followed(a, Followed([p], r)) == Followed(a + [p], r)
  {
    if r.Some? { assert a + ([p] + r.value.0) == a + [p] + r.value.0; }
  }

  class BOisCreator {
    var header_: Text
    var tolSourceSearchPaths_: seq<Path>

    constructor (paths: seq<Path>)
      ensures header_ == "" && tolSourceSearchPaths_ == paths
    {
      header_, tolSourceSearchPaths_ := "", paths;
    }

    method Print(s: Text)
      modifies this`header_
      ensures header_ == old(header_) + s
    {
      header_ := header_ + s;
    }

    method WriteSearchPaths()
      modifies this`header_
      ensures header_ == old(header_) + (Section(tolSourceSearchPaths_) + "\n")
    {
      ghost var start, paths := header_, tolSourceSearchPaths_;
      Print(OpenTag(SECTION) + "\n");
      Print(Tag("entries", Digits(|tolSourceSearchPaths_|)) + "\n");
      var n := 0;
      while n < |tolSourceSearchPaths_|
        invariant 0 <= n <= |paths| && tolSourceSearchPaths_ == paths
        invariant header_ + Roots(paths[n..], n + 1)
               == start + (OpenTag(SECTION) + "\n") + (Tag("entries", Digits(|paths|)) + "\n") + Roots(paths, 1)
      {
        assert paths[n..][0] == paths[n] && paths[n..][1..] == paths[n + 1..];
        Regroup(header_, Root(n + 1, paths[n]), Roots(paths[n + 1..], n + 2));
        Print(Root(n + 1, tolSourceSearchPaths_[n]));
        n := n + 1;
      }
      Print(CloseTag(SECTION) + "\n");
      var o, t, r, c := OpenTag(SECTION), Tag("entries", Digits(|paths|)), Roots(paths, 1), CloseTag(SECTION);
      assert paths[n..] == [] && header_ == start + (o + "\n") + (t + "\n") + r + (c + "\n");
      SixPieces(start, o, "\n", t, r, c);
    }
  }

  lemma SixPieces<A>(start: seq<A>, o: seq<A>, nl: seq<A>, t: seq<A>, r: seq<A>, c: seq<A>)
    ensures start + (o + nl) + (t + nl) + r + (c + nl) == start + (o + (nl + (t + (nl + (r + c)))) + nl)
  {}
}
