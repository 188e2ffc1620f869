/** The section of the search paths character by character: the text written,
    and exactly which texts are read, with what between the tags. */
module HeaderTexts {
  import opened Options
  import opened Header

  // ----- what is written

  /** Decimal digits, the last one last. */
  lemma DigitsMean(n: nat, d: nat)
    requires d < 10
    ensures n > 0 ==> Digits(10 * n + d) == Digits(n) + Digits(d)
    ensures Digits(0) == "0" && Digits(1) == "1" && Digits(2) == "2" && Digits(3) == "3" && Digits(4) == "4"
    ensures Digits(5) == "5" && Digits(6) == "6" && Digits(7) == "7" && Digits(8) == "8" && Digits(9) == "9"
  {
    assert (10 * n + d) / 10 == n && (10 * n + d) % 10 == d;
  }

  lemma SmallTags(k: nat, p: Path)
    ensures OpenTag(RootName(k)) == "<root_" + Digits(k) + ">" && CloseTag(RootName(k)) == "</root_" + Digits(k) + ">"
    ensures Tag("alias", p.alias) == "<alias>" + p.alias + "</alias>"
    ensures Tag("path", p.value) == "<path>" + p.value + "</path>"
  {
    Moved("<", "root_", Digits(k), ">");
    Moved("</", "root_", Digits(k), ">");
    assert "<" + "root_" == "<root_" && "</" + "root_" == "</root_";
    assert "<" + "alias" + ">" == "<alias>" && "</" + "alias" + ">" == "</alias>";
    assert "<" + "path" + ">" == "<path>" && "</" + "path" + ">" == "</path>";
  }

  lemma Moved(a: Text, b: Text, c: Text, d: Text)
    ensures a + (b + c) + d == a + b + c + d
  {}

  lemma SectionTags(count: Text)
    ensures OpenTag(SECTION) == "<tolSourceSearchPaths>" && CloseTag(SECTION) == "</tolSourceSearchPaths>"
    ensures Tag("entries", count) == "<entries>" + count + "</entries>"
  {
    assert "<" + "entries" + ">" == "<entries>" && "</" + "entries" + ">" == "</entries>";
  }

  /** The line of one pair. */
  lemma RootText(k: nat, p: Path)
    ensures Root(k, p) == "<root_" + Digits(k) + ">" + ("<alias>" + p.alias + "</alias>")
                          + ("<path>" + p.value + "</path>") + ("</root_" + Digits(k) + ">") + "\n"
  {
    SmallTags(k, p);
    FivePieces(OpenTag(RootName(k)), Tag("alias", p.alias), Tag("path", p.value), CloseTag(RootName(k)), "\n");
  }

  lemma FivePieces(a: Text, b: Text, c: Text, d: Text, e: Text)
    ensures a + (b + (c + (d + e))) == a + b + c + d + e
  {}

  lemma {:induction false} RootsSnoc(paths: seq<Path>, p: Path, k: nat)
    ensures Roots(paths + [p], k) == Roots(paths, k) + Root(k + |paths|, p)
    decreases |paths|
  {
    if paths == [] {
      assert [] + [p] == [p] && [p][1..] == [];
      assert Root(k, p) + [] == Root(k, p);
    } else {
      RootsSnoc(paths[1..], p, k + 1);
      assert (paths + [p])[1..] == paths[1..] + [p];
      Regroup(Root(k, paths[0]), Roots(paths[1..], k + 1), Root(k + |paths|, p));
    }
  }

  /** The count and one line for each pair, in order, numbered from one. */
  lemma SectionText(paths: seq<Path>)
    ensures Section(paths) == "<tolSourceSearchPaths>" + "\n" + ("<entries>" + Digits(|paths|) + "</entries>") + "\n"
                              + Roots(paths, 1) + "</tolSourceSearchPaths>"
    ensures Roots([], 1) == "" && forall p :: Roots(paths + [p], 1) == Roots(paths, 1) + Root(|paths| + 1, p)
  {
    SectionTags(Digits(|paths|));
    SixPieces(OpenTag(SECTION), "\n", Tag("entries", Digits(|paths|)), Roots(paths, 1), CloseTag(SECTION));
    forall p ensures Roots(paths + [p], 1) == Roots(paths, 1) + Root(|paths| + 1, p) { RootsSnoc(paths, p, 1); }
  }

  lemma SixPieces(a: Text, nl: Text, t: Text, r: Text, c: Text)
    ensures a + (nl + (t + (nl + (r + c)))) == a + nl + t + nl + r + c
  {}

  lemma EmptySection()
    ensures Section([]) == "<tolSourceSearchPaths>" + "\n" + "<entries>0</entries>" + "\n" + "</tolSourceSearchPaths>"
  {
    SectionText([]);
    DigitsMean(0, 0);
    assert "<entries>" + "0" + "</entries>" == "<entries>0</entries>";
    NoMore("<tolSourceSearchPaths>" + "\n" + "<entries>0</entries>" + "\n", "</tolSourceSearchPaths>");
  }

  lemma NoMore(a: Text, b: Text)
    ensures a + "" + b == a + b
  {}

  lemma SectionOfOne(p: Path)
    ensures Section([p]) == "<tolSourceSearchPaths>" + "\n" + "<entries>1</entries>" + "\n"
      + ("<root_1>" + ("<alias>" + p.alias + "</alias>") + ("<path>" + p.value + "</path>") + "</root_1>" + "\n")
      + "</tolSourceSearchPaths>"
  {
    SectionText([p]);
    DigitsMean(0, 0);
    OneRoot(p);
    assert "<entries>" + "1" + "</entries>" == "<entries>1</entries>";
  }

  lemma OneRoot(p: Path)
    ensures Roots([p], 1) == "<root_1>" + ("<alias>" + p.alias + "</alias>") + ("<path>" + p.value + "</path>")
                             + "</root_1>" + "\n"
  {
    DigitsMean(0, 0);
    RootText(1, p);
    RootsSnoc([], p, 1);
    assert [] + [p] == [p] && [] + Root(1, p) == Root(1, p);
    assert "<root_" + "1" + ">" == "<root_1>" && "</root_" + "1" + ">" == "</root_1>";
  }

  // ----- what is read

  /** `part` stands in `s` behind some text without `<`, and `rest` behind it. */
  ghost predicate Behind(s: Text, part: Text, rest: Text) {
    exists n :: 0 <= n <= |s| && '<' !in s[..n] && s[n..] == part + rest
  }

  lemma BehindJunk(junk: Text, part: Text, rest: Text)
    requires '<' !in junk
    ensures Behind(junk + (part + rest), part, rest)
  {
    var s := junk + (part + rest);
    assert s[..|junk|] == junk && s[|junk|..] == part + rest;
  }

  lemma BehindParts(s: Text, part: Text, rest: Text) returns (junk: Text)
    requires Behind(s, part, rest)
    ensures '<' !in junk && s == junk + (part + rest)
  {
    var n :| 0 <= n <= |s| && '<' !in s[..n] && s[n..] == part + rest;
    junk := s[..n];
  }

  lemma OpenPieces(junk: Text, name: Text, rest: Text)
    ensures junk + ['<'] + (name + ['>'] + rest) == junk + (("<" + name + ">") + rest)
  {}

  lemma ClosePieces(junk: Text, name: Text, rest: Text)
    ensures junk + ['<'] + ("/" + name + ">" + rest) == junk + (("</" + name + ">") + rest)
  {}

  lemma TagPieces(junk: Text, open: Text, value: Text, name: Text, rest: Text)
    ensures junk + (open + (value + ['<'] + ("/" + name + ">" + rest)))
         == junk + ((open + value + "</" + name + ">") + rest)
  {}

  /** A begin tag is read exactly where it stands, behind text without `<`. */
  lemma OpenMeans(s: Text, name: Text, max: int, rest: Text)
    requires Header.Plain(name, max)
    ensures NextTagTitle(s, name, max) == Some((name, rest)) <==> Behind(s, "<" + name + ">", rest)
    ensures NextTagTitle(s, name, max).Some? ==> NextTagTitle(s, name, max).value.0 == name
  {
    if Behind(s, "<" + name + ">", rest) {
      var junk := BehindParts(s, "<" + name + ">", rest);
      ReadsOpen(junk, name, rest, max);
    }
    if NextTagTitle(s, name, max) == Some((name, rest)) {
      UpToParts(s, '<');
      var (junk, tail) := UpTo(s, '<').value;
      UpToParts(tail, '>');
      OpenPieces(junk, name, rest);
      BehindJunk(junk, "<" + name + ">", rest);
    }
  }

  /** Without a name to expect, any title that is short enough is read. */
  lemma AnyTitle(s: Text, title: Text, max: int, rest: Text)
    ensures NextTagTitle(s, "", max) == Some((title, rest))
       <==> Behind(s, "<" + title + ">", rest) && '>' !in title && |title| < max
  {
    if Behind(s, "<" + title + ">", rest) && '>' !in title && |title| < max {
      var junk := BehindParts(s, "<" + title + ">", rest);
      OpenPieces(junk, title, rest);
      UpToFirst(junk, '<', title + ['>'] + rest);
      UpToFirst(title, '>', rest);
    }
    if NextTagTitle(s, "", max) == Some((title, rest)) {
      UpToParts(s, '<');
      var (junk, tail) := UpTo(s, '<').value;
      UpToParts(tail, '>');
      OpenPieces(junk, title, rest);
      BehindJunk(junk, "<" + title + ">", rest);
    }
  }

  lemma EndTitleMeans(s: Text, name: Text, max: int, rest: Text)
    requires Header.Plain(name, max)
    ensures EndTitle(s, name, max) == Some(rest) <==> s == "/" + name + ">" + rest
  {
    if s == "/" + name + ">" + rest {
      assert s == ['/'] + (name + ['>'] + rest);
      ReadsEnd(name, rest, max);
    }
    if EndTitle(s, name, max) == Some(rest) {
      UpToParts(s[1..], '>');
      assert s == ['/'] + s[1..];
    }
  }

  /** An end tag likewise. */
  lemma CloseMeans(s: Text, name: Text, max: int, rest: Text)
    requires Header.Plain(name, max)
    ensures EndTag(s, name, max) == Some(rest) <==> Behind(s, "</" + name + ">", rest)
  {
    if Behind(s, "</" + name + ">", rest) {
      var junk := BehindParts(s, "</" + name + ">", rest);
      ReadsClose(junk, name, rest, max);
    }
    if EndTag(s, name, max) == Some(rest) {
      UpToParts(s, '<');
      var (junk, tail) := UpTo(s, '<').value;
      EndTitleMeans(tail, name, max, rest);
      ClosePieces(junk, name, rest);
      BehindJunk(junk, "</" + name + ">", rest);
    }
  }

  /** A tag with its value: no `<` in the value, which is short enough, and the
      end tag right behind it. */
  lemma TagMeans(s: Text, name: Text, value: Text, max: int, rest: Text)
    requires Header.Plain(name, max)
    ensures TagValue(s, name, max) == Some((value, rest))
       <==> Behind(s, "<" + name + ">" + value + "</" + name + ">", rest) && '<' !in value && |value| < max
  {
    var part := "<" + name + ">" + value + "</" + name + ">";
    if Behind(s, part, rest) && '<' !in value && |value| < max {
      var junk := BehindParts(s, part, rest);
      assert part == Tag(name, value);
      ReadsTag(junk, name, value, rest, max);
    }
    if TagValue(s, name, max) == Some((value, rest)) { TagFound(s, name, value, max, rest); }
  }

  lemma TagFound(s: Text, name: Text, value: Text, max: int, rest: Text)
    requires Header.Plain(name, max) && TagValue(s, name, max) == Some((value, rest))
    ensures Behind(s, "<" + name + ">" + value + "</" + name + ">", rest) && '<' !in value && |value| < max
  {
    var open, inside := "<" + name + ">", NextTagTitle(s, name, max).value.1;
    OpenMeans(s, name, max, inside);
    var junk := BehindParts(s, open, inside);
    ValueFound(inside, name, value, max, rest);
    TagPieces(junk, open, value, name, rest);
    BehindJunk(junk, open + value + "</" + name + ">", rest);
  }

  lemma ValueFound(inside: Text, name: Text, value: Text, max: int, rest: Text)
    requires Header.Plain(name, max) && UpTo(inside, '<').Some?
    requires UpTo(inside, '<').value.0 == value && EndTitle(UpTo(inside, '<').value.1, name, max) == Some(rest)
    ensures '<' !in value && inside == value + ['<'] + ("/" + name + ">" + rest)
  {
    UpToParts(inside, '<');
    EndTitleMeans(UpTo(inside, '<').value.1, name, max, rest);
  }

  /** The parts stand in `s` in order, with text without `<` in front of each. */
  ghost predicate Spaced(s: Text, parts: seq<Text>, rest: Text)
    decreases |parts|
  {
    if parts == [] then s == rest else exists s' :: Behind(s, parts[0], s') && Spaced(s', parts[1..], rest)
  }

  lemma SpacedCons(s: Text, part: Text, parts: seq<Text>, rest: Text)
    ensures Spaced(s, [part] + parts, rest) <==> exists s' :: Behind(s, part, s') && Spaced(s', parts, rest)
  {
    assert ([part] + parts)[1..] == parts;
  }

  lemma {:induction false} SpacedConcat(s: Text, a: seq<Text>, b: seq<Text>, rest: Text)
    ensures Spaced(s, a + b, rest) <==> exists s' :: Spaced(s, a, s') && Spaced(s', b, rest)
    decreases |a|
  {
    if a == [] {
      assert a + b == b && forall s' :: Spaced(s, a, s') <==> s' == s;
    } else {
      assert (a + b)[1..] == a[1..] + b;
      forall t ensures Spaced(t, a[1..] + b, rest) <==> exists s' :: Spaced(t, a[1..], s') && Spaced(s', b, rest) {
        SpacedConcat(t, a[1..], b, rest);
      }
      if Spaced(s, a + b, rest) {
        var t :| Behind(s, a[0], t) && Spaced(t, a[1..] + b, rest);
        var s' :| Spaced(t, a[1..], s') && Spaced(s', b, rest);
        assert Spaced(s, a, s');
      }
      forall s' | Spaced(s, a, s') && Spaced(s', b, rest) ensures Spaced(s, a + b, rest) {
        var t :| Behind(s, a[0], t) && Spaced(t, a[1..], s');
        assert Spaced(t, a[1..] + b, rest);
      }
    }
  }

  lemma {:induction false} SpacedAppend(s: Text, a: seq<Text>, s': Text, b: seq<Text>, rest: Text)
    requires Spaced(s, a, s') && Spaced(s', b, rest)
    ensures Spaced(s, a + b, rest)
    decreases |a|
  {
    if a == [] {
      assert a + b == b;
    } else {
      var all := a + b;
      assert all[0] == a[0] && all[1..] == a[1..] + b;
      var t :| Behind(s, a[0], t) && Spaced(t, a[1..], s');
      SpacedAppend(t, a[1..], s', b, rest);
    }
  }

  /** The four parts of a pair. */
  function RootParts(k: nat, p: Path): seq<Text> {
    ["<root_" + Digits(k) + ">", "<alias>" + p.alias + "</alias>", "<path>" + p.value + "</path>",
     "</root_" + Digits(k) + ">"]
  }

  function AllParts(paths: seq<Path>, k: nat): seq<Text> {
    if paths == [] then [] else RootParts(k, paths[0]) + AllParts(paths[1..], k + 1)
  }

  lemma NamesPlain(k: nat, max: int)
    requires 20 < max && |Digits(k)| + 5 < max
    ensures Header.Plain("root_" + Digits(k), max) && Header.Plain("alias", max) && Header.Plain("path", max)
    ensures Header.Plain("tolSourceSearchPaths", max) && Header.Plain("entries", max)
  {}

  lemma SpacedOne(s: Text, part: Text, rest: Text)
    ensures Spaced(s, [part], rest) <==> Behind(s, part, rest)
  {
    assert [part][1..] == [];
    if Behind(s, part, rest) { assert Spaced(rest, [], rest); }
  }

  lemma SpacedFour(s: Text, a: Text, b: Text, c: Text, d: Text, rest: Text) returns (s1: Text, s2: Text, s3: Text)
    requires Spaced(s, [a, b, c, d], rest)
    ensures Behind(s, a, s1) && Behind(s1, b, s2) && Behind(s2, c, s3) && Behind(s3, d, rest)
  {
    assert [a, b, c, d] == [a] + ([b] + ([c] + [d]));
    SpacedCons(s, a, [b] + ([c] + [d]), rest);
    s1 :| Behind(s, a, s1) && Spaced(s1, [b] + ([c] + [d]), rest);
    SpacedCons(s1, b, [c] + [d], rest);
    s2 :| Behind(s1, b, s2) && Spaced(s2, [c] + [d], rest);
    SpacedCons(s2, c, [d], rest);
    s3 :| Behind(s2, c, s3) && Spaced(s3, [d], rest);
    SpacedOne(s3, d, rest);
  }

  lemma FourSpaced(s: Text, a: Text, s1: Text, b: Text, s2: Text, c: Text, s3: Text, d: Text, rest: Text)
    requires Behind(s, a, s1) && Behind(s1, b, s2) && Behind(s2, c, s3) && Behind(s3, d, rest)
    ensures Spaced(s, [a, b, c, d], rest)
  {
    assert [a, b, c, d] == [a] + ([b] + ([c] + [d]));
    SpacedOne(s3, d, rest);
    SpacedCons(s2, c, [d], rest);
    SpacedCons(s1, b, [c] + [d], rest);
    SpacedCons(s, a, [b] + ([c] + [d]), rest);
  }

  /** A pair is read exactly from its four parts, in order. */
  lemma RootMeans(s: Text, k: nat, p: Path, max: int, rest: Text)
    requires 20 < max && |Digits(k)| + 5 < max
    ensures ReadRoot(s, k, max) == Some((p, rest)) <==> Fits(p, max) && Spaced(s, RootParts(k, p), rest)
  {
    if ReadRoot(s, k, max) == Some((p, rest)) { RootFound(s, k, p, max, rest); }
    if Fits(p, max) && Spaced(s, RootParts(k, p), rest) { RootTaken(s, k, p, max, rest); }
  }

  /** A begin tag, two values and the end tag, one after the other. */
  ghost predicate FourRead(s: Text, name: Text, t: Text, x: Text, u: Text, y: Text, max: int, rest: Text,
                           s1: Text, s2: Text, s3: Text)
  {
    && NextTagTitle(s, name, max) == Some((name, s1)) && TagValue(s1, t, max) == Some((x, s2))
    && TagValue(s2, u, max) == Some((y, s3)) && EndTag(s3, name, max) == Some(rest)
  }

  function FourParts(name: Text, t: Text, x: Text, u: Text, y: Text): seq<Text> {
    ["<" + name + ">", "<" + t + ">" + x + "</" + t + ">", "<" + u + ">" + y + "</" + u + ">", "</" + name + ">"]
  }

  lemma FourTaken(s: Text, name: Text, t: Text, x: Text, u: Text, y: Text, max: int, rest: Text)
    returns (s1: Text, s2: Text, s3: Text)
    requires Header.Plain(name, max) && Header.Plain(t, max) && Header.Plain(u, max)
    requires Fits(Path(x, y), max) && Spaced(s, FourParts(name, t, x, u, y), rest)
    ensures FourRead(s, name, t, x, u, y, max, rest, s1, s2, s3)
  {
    s1, s2, s3 := SpacedFour(s, "<" + name + ">", "<" + t + ">" + x + "</" + t + ">",
                             "<" + u + ">" + y + "</" + u + ">", "</" + name + ">", rest);
    OpenMeans(s, name, max, s1);
    TagMeans(s1, t, x, max, s2);
    TagMeans(s2, u, y, max, s3);
    CloseMeans(s3, name, max, rest);
  }

  lemma FourFound(s: Text, name: Text, t: Text, x: Text, u: Text, y: Text, max: int, rest: Text,
                  s1: Text, s2: Text, s3: Text)
    requires Header.Plain(name, max) && Header.Plain(t, max) && Header.Plain(u, max)
    requires FourRead(s, name, t, x, u, y, max, rest, s1, s2, s3)
    ensures Fits(Path(x, y), max) && Spaced(s, FourParts(name, t, x, u, y), rest)
  {
    OpenMeans(s, name, max, s1);
    TagMeans(s1, t, x, max, s2);
    TagMeans(s2, u, y, max, s3);
    CloseMeans(s3, name, max, rest);
    FourSpaced(s, "<" + name + ">", s1, "<" + t + ">" + x + "</" + t + ">", s2, "<" + u + ">" + y + "</" + u + ">", s3,
               "</" + name + ">", rest);
  }

  lemma RootPartsAre(k: nat, p: Path)
    ensures RootParts(k, p) == FourParts("root_" + Digits(k), "alias", p.alias, "path", p.value)
  {
    SmallTags(k, p);
    TagIs("alias", p.alias);
    TagIs("path", p.value);
  }

  lemma TagIs(name: Text, x: Text)
    ensures Tag(name, x) == "<" + name + ">" + x + "</" + name + ">"
  {}

  lemma RootTaken(s: Text, k: nat, p: Path, max: int, rest: Text)
    requires 20 < max && |Digits(k)| + 5 < max && Fits(p, max) && Spaced(s, RootParts(k, p), rest)
    ensures ReadRoot(s, k, max) == Some((p, rest))
  {
    NamesPlain(k, max);
    RootPartsAre(k, p);
    var s1, s2, s3 := FourTaken(s, "root_" + Digits(k), "alias", p.alias, "path", p.value, max, rest);
  }

  lemma RootFound(s: Text, k: nat, p: Path, max: int, rest: Text)
    requires 20 < max && |Digits(k)| + 5 < max && ReadRoot(s, k, max) == Some((p, rest))
    ensures Fits(p, max) && Spaced(s, RootParts(k, p), rest)
  {
    NamesPlain(k, max);
    RootPartsAre(k, p);
    var name := "root_" + Digits(k);
    var (title, s1) := NextTagTitle(s, name, max).value;
    OpenMeans(s, name, max, s1);
    var s2 := TagValue(s1, "alias", max).value.1;
    var s3 := TagValue(s2, "path", max).value.1;
    FourFound(s, name, "alias", p.alias, "path", p.value, max, rest, s1, s2, s3);
  }

  lemma PartsCons(k: nat, p: Path, more: seq<Path>)
    ensures AllParts([p] + more, k) == RootParts(k, p) + AllParts(more, k + 1)
  {
    assert ([p] + more)[1..] == more;
  }

  lemma {:induction false} RootsTaken(s: Text, k: nat, paths: seq<Path>, max: int, rest: Text)
    requires 20 < max && forall i :: k <= i < k + |paths| ==> |Digits(i)| + 5 < max
    requires (forall p :: p in paths ==> Fits(p, max)) && Spaced(s, AllParts(paths, k), rest)
    ensures ReadRoots(s, k, |paths|, max) == Some((paths, rest))
    decreases |paths|
  {
    if paths != [] {
      var p, more := paths[0], paths[1..];
      assert paths == [p] + more;
      PartsCons(k, p, more);
      SpacedConcat(s, RootParts(k, p), AllParts(more, k + 1), rest);
      var s' :| Spaced(s, RootParts(k, p), s') && Spaced(s', AllParts(more, k + 1), rest);
      RootTaken(s, k, p, max, s');
      RootsTaken(s', k + 1, more, max, rest);
      ReadOneMore(s, k, |paths|, p, s', more, rest, max);
    }
  }

  predicate EveryFits(paths: seq<Path>, max: int) { forall p :: p in paths ==> Fits(p, max) }

  lemma {:induction false} RootsFound(s: Text, k: nat, n: nat, paths: seq<Path>, max: int, rest: Text)
    requires 20 < max && forall i :: k <= i < k + n ==> |Digits(i)| + 5 < max
    requires ReadRoots(s, k, n, max) == Some((paths, rest))
    ensures |paths| == n && EveryFits(paths, max) && Spaced(s, AllParts(paths, k), rest)
    decreases n
  {
    if n > 0 {
      var (p, s', more) := FirstRead(s, k, n, paths, max, rest);
      RootFound(s, k, p, max, s');
      RootsFound(s', k + 1, n - 1, more, max, rest);
      PartsCons(k, p, more);
      SpacedAppend(s, RootParts(k, p), s', AllParts(more, k + 1), rest);
      FitCons(p, more, max);
    }
  }

  lemma FitCons(p: Path, more: seq<Path>, max: int)
    ensures EveryFits([p] + more, max) <==> Fits(p, max) && EveryFits(more, max)
  {
    assert forall q :: q in [p] + more <==> q == p || q in more;
  }

  function FirstRead(s: Text, k: nat, n: nat, paths: seq<Path>, max: int, rest: Text): (r: (Path, Text, seq<Path>))
    requires n > 0 && ReadRoots(s, k, n, max) == Some((paths, rest))
    ensures ReadRoot(s, k, max) == Some((r.0, r.1)) && ReadRoots(r.1, k + 1, n - 1, max) == Some((r.2, rest))
    ensures paths == [r.0] + r.2
  {
    var (p, s') := ReadRoot(s, k, max).value;
    (p, s', ReadRoots(s', k + 1, n - 1, max).value.0)
  }

  /** The tags around the pairs. */
  function SectionParts(count: Text, paths: seq<Path>): seq<Text> {
    ["<tolSourceSearchPaths>", "<entries>" + count + "</entries>"] + AllParts(paths, 1) + ["</tolSourceSearchPaths>"]
  }

  /** Read are exactly the texts made of the section's tags in order, with any
      text without `<` in front of each tag, whose count is the number of pairs. */
  lemma SectionMeans(s: Text, before: int, paths: seq<Path>, max: int, rest: Text)
    requires 20 < max && forall i :: 1 <= i <= |paths| ==> |Digits(i)| + 5 < max
    ensures ReadSection(s, before, max) == Some((paths, rest))
       <==> exists count :: SectionReads(s, before, paths, max, rest, count)
  {
    if ReadSection(s, before, max) == Some((paths, rest)) {
      var count := SectionFound(s, before, paths, max, rest);
    }
    forall count | SectionReads(s, before, paths, max, rest, count)
      ensures ReadSection(s, before, max) == Some((paths, rest))
    {
      SectionTaken(s, before, paths, max, rest, count);
    }
  }

  /** A count that is no number leaves the one there was. */
  ghost predicate SectionReads(s: Text, before: int, paths: seq<Path>, max: int, rest: Text, count: Text) {
    && '<' !in count && |count| < max
    && |paths| == (if Scanned(count, before) < 0 then 0 else Scanned(count, before))
    && EveryFits(paths, max)
    && Spaced(s, SectionParts(count, paths), rest)
  }

  lemma SectionSpaced(s: Text, count: Text, paths: seq<Path>, rest: Text)
    returns (s1: Text, s2: Text, s3: Text)
    requires Spaced(s, SectionParts(count, paths), rest)
    ensures Behind(s, "<tolSourceSearchPaths>", s1) && Behind(s1, "<entries>" + count + "</entries>", s2)
    ensures Spaced(s2, AllParts(paths, 1), s3) && Behind(s3, "</tolSourceSearchPaths>", rest)
  {
    var a, d := "<tolSourceSearchPaths>", "</tolSourceSearchPaths>";
    var b, c := "<entries>" + count + "</entries>", AllParts(paths, 1);
    SpacedConcat(s, [a, b] + c, [d], rest);
    s3 :| Spaced(s, [a, b] + c, s3) && Spaced(s3, [d], rest);
    SpacedOne(s3, d, rest);
    assert [a, b] + c == [a] + ([b] + c);
    SpacedCons(s, a, [b] + c, s3);
    s1 :| Behind(s, a, s1) && Spaced(s1, [b] + c, s3);
    SpacedCons(s1, b, c, s3);
    s2 :| Behind(s1, b, s2) && Spaced(s2, c, s3);
  }

  lemma SpacedSection(s: Text, s1: Text, count: Text, s2: Text, paths: seq<Path>, s3: Text, rest: Text)
    requires Behind(s, "<tolSourceSearchPaths>", s1) && Behind(s1, "<entries>" + count + "</entries>", s2)
    requires Spaced(s2, AllParts(paths, 1), s3) && Behind(s3, "</tolSourceSearchPaths>", rest)
    ensures Spaced(s, SectionParts(count, paths), rest)
  {
    var a, d := "<tolSourceSearchPaths>", "</tolSourceSearchPaths>";
    var b, c := "<entries>" + count + "</entries>", AllParts(paths, 1);
    SpacedCons(s1, b, c, s3);
    SpacedCons(s, a, [b] + c, s3);
    assert [a, b] + c == [a] + ([b] + c);
    SpacedOne(s3, d, rest);
    SpacedConcat(s, [a, b] + c, [d], rest);
  }

  lemma SectionTaken(s: Text, before: int, paths: seq<Path>, max: int, rest: Text, count: Text)
    requires 20 < max && (forall i :: 1 <= i <= |paths| ==> |Digits(i)| + 5 < max)
    requires SectionReads(s, before, paths, max, rest, count)
    ensures ReadSection(s, before, max) == Some((paths, rest))
  {
    var s1, s2, s3 := SectionSpaced(s, count, paths, rest);
    HeadMeans(s, s1, count, s2, max);
    RootsTaken(s2, 1, paths, max, s3);
    SectionEnds(s3, max, rest);
  }

  /** The tags in front of the pairs, and the one behind them. */
  lemma HeadMeans(s: Text, s1: Text, count: Text, s2: Text, max: int)
    requires 20 < max
    ensures NextTagTitle(s, SECTION, max) == Some((SECTION, s1)) <==> Behind(s, "<tolSourceSearchPaths>", s1)
    ensures NextTagTitle(s, SECTION, max).Some? ==> NextTagTitle(s, SECTION, max).value.0 == SECTION
    ensures TagValue(s1, "entries", max) == Some((count, s2))
       <==> Behind(s1, "<entries>" + count + "</entries>", s2) && '<' !in count && |count| < max
  {
    SectionTags(count);
    TagIs("entries", count);
    SmallNames(max);
    OpenMeans(s, SECTION, max, s1);
    TagMeans(s1, "entries", count, max, s2);
  }

  lemma SectionEnds(s: Text, max: int, rest: Text)
    requires 20 < max
    ensures EndTag(s, SECTION, max) == Some(rest) <==> Behind(s, "</tolSourceSearchPaths>", rest)
  {
    SectionTags("");
    SmallNames(max);
    CloseMeans(s, SECTION, max, rest);
  }

  lemma PairsFound(s: Text, n: nat, paths: seq<Path>, max: int, rest: Text) returns (s': Text)
    requires 20 < max && (forall i :: 1 <= i <= |paths| ==> |Digits(i)| + 5 < max)
    requires ReadToEnd(s, n, max) == Some((paths, rest))
    ensures |paths| == n && EveryFits(paths, max)
    ensures Spaced(s, AllParts(paths, 1), s') && Behind(s', "</tolSourceSearchPaths>", rest)
  {
    s' := ReadRoots(s, 1, n, max).value.1;
    RootsCount(s, 1, n, max);
    RootsFound(s, 1, n, paths, max, s');
    SectionEnds(s', max, rest);
  }

  lemma {:induction false} RootsCount(s: Text, k: nat, n: nat, max: int)
    ensures ReadRoots(s, k, n, max).Some? ==> |ReadRoots(s, k, n, max).value.0| == n
    decreases n
  {
    if n > 0 && ReadRoots(s, k, n, max).Some? { RootsCount(ReadRoot(s, k, max).value.1, k + 1, n - 1, max); }
  }

  lemma SectionFound(s: Text, before: int, paths: seq<Path>, max: int, rest: Text) returns (count: Text)
    requires 20 < max && (forall i :: 1 <= i <= |paths| ==> |Digits(i)| + 5 < max)
    requires ReadSection(s, before, max) == Some((paths, rest))
    ensures SectionReads(s, before, paths, max, rest, count)
  {
    var s1 := NextTagTitle(s, SECTION, max).value.1;
    count := TagValue(s1, "entries", max).value.0;
    var s2 := TagValue(s1, "entries", max).value.1;
    HeadMeans(s, s1, count, s2, max);
    var s3 := PairsFound(s2, Clamped(Scanned(count, before)), paths, max, rest);
    SpacedSection(s, s1, count, s2, paths, s3, rest);
  }

  // ----- numbers

  /** A count is the number its leading digits make; with none it is what was
      there before. */
  lemma ScansNumber(n: nat, t: Text, before: int)
    requires t == "" || !('0' <= t[0] <= '9')
    ensures Scanned(Digits(n) + t, before) == n && Scanned(t, before) == before
  {
    LeadingOf(Digits(n), t);
    ValueOfDigits(n);
  }

  lemma {:induction false} LeadingOf(d: Text, t: Text)
    requires (forall i :: 0 <= i < |d| ==> '0' <= d[i] <= '9') && (t == "" || !('0' <= t[0] <= '9'))
    ensures LeadingDigits(d + t) == d
  {
    if d == "" {
      assert d + t == t;
    } else {
      LeadingOf(d[1..], t);
      assert (d + t)[1..] == d[1..] + t && d == [d[0]] + d[1..];
    }
  }
}
