/** The header's tags: how they are written, and the reader that walks over
    them. */
module Header {
  import opened Options

  type Text = string

  // ----- written form

  function OpenTag(name: Text): Text { "<" + name + ">" }

  function CloseTag(name: Text): Text { "</" + name + ">" }

  function Tag(name: Text, value: Text): Text { OpenTag(name) + value + CloseTag(name) }

  // ----- reading, on what is left of the text

  /** The text before the first `c`, and what is behind it. */
  function UpTo(s: Text, c: char): Option<(Text, Text)> {
    if s == [] then None
    else if s[0] == c then Some(([], s[1..]))
    else
      match UpTo(s[1..], c)
      case None => None
      case Some((a, rest)) => Some(([s[0]] + a, rest))
  }

  lemma {:induction false} UpToParts(s: Text, c: char)
    ensures UpTo(s, c) == None <==> c !in s
    ensures UpTo(s, c).Some? ==> var (a, rest) := UpTo(s, c).value; s == a + [c] + rest && c !in a
  {
    if s != [] && s[0] != c {
      UpToParts(s[1..], c);
      assert s == [s[0]] + s[1..];
      if c in s[1..] {
        var (a, rest) := UpTo(s[1..], c).value;
        assert [s[0]] + (a + [c] + rest) == [s[0]] + a + [c] + rest;
      }
    }
  }

  function GoToNextTag(s: Text): Option<Text> {
    match UpTo(s, '<')
    case None => None
    case Some((_, rest)) => Some(rest)
  }

  /** A title of fewer than `max` characters; an empty `ensure` allows any. */
  function NextTitle(s: Text, ensure: Text, max: int): Option<(Text, Text)> {
    match UpTo(s, '>')
    case None => None
    case Some((title, rest)) => if |title| < max && (ensure == "" || ensure == title) then Some((title, rest)) else None
  }

  function NextTagTitle(s: Text, ensure: Text, max: int): Option<(Text, Text)> {
    match GoToNextTag(s)
    case None => None
    case Some(rest) => NextTitle(rest, ensure, max)
  }

  /** `s` stands behind the `<` of the end tag. */
  function EndTitle(s: Text, title: Text, max: int): Option<Text> {
    if s == [] || s[0] != '/' then None
    else match NextTitle(s[1..], title, max)
      case None => None
      case Some((_, rest)) => Some(rest)
  }

  function EndTag(s: Text, title: Text, max: int): Option<Text> {
    match GoToNextTag(s)
    case None => None
    case Some(rest) => EndTitle(rest, title, max)
  }

  /** A tag, its value, and its end tag. */
  function TagValue(s: Text, ensure: Text, max: int): Option<(Text, Text)> {
    match NextTagTitle(s, ensure, max)
    case None => None
    case Some((title, inside)) =>
      match UpTo(inside, '<')
      case None => None
      case Some((value, behind)) =>
        if |value| >= max then None
        else match EndTitle(behind, title, max)
          case None => None
          case Some(rest) => Some((value, rest))
  }

  // ----- reading what was written

  lemma {:induction false} UpToFirst(a: Text, c: char, rest: Text)
    requires c !in a
    ensures UpTo(a + [c] + rest, c) == Some((a, rest))
  {
    if a == [] {
      assert [] + [c] + rest == [c] + rest && ([c] + rest)[1..] == rest;
    } else {
      UpToFirst(a[1..], c, rest);
      assert (a + [c] + rest)[1..] == a[1..] + [c] + rest && [a[0]] + a[1..] == a;
    }
  }

  predicate Plain(name: Text, max: int) { name != "" && '<' !in name && '>' !in name && |name| < max }

  lemma ReadsOpen(junk: Text, name: Text, rest: Text, max: int)
    requires '<' !in junk && Plain(name, max)
    ensures NextTagTitle(junk + (OpenTag(name) + rest), name, max) == Some((name, rest))
  {
    assert junk + (OpenTag(name) + rest) == junk + ['<'] + (name + ['>'] + rest);
    UpToFirst(junk, '<', name + ['>'] + rest);
    UpToFirst(name, '>', rest);
  }

  lemma ReadsEnd(name: Text, rest: Text, max: int)
    requires Plain(name, max)
    ensures EndTitle(['/'] + (name + ['>'] + rest), name, max) == Some(rest)
  {
    var s := ['/'] + (name + ['>'] + rest);
    assert s[1..] == name + ['>'] + rest;
    UpToFirst(name, '>', rest);
  }

  lemma ReadsClose(junk: Text, name: Text, rest: Text, max: int)
    requires '<' !in junk && Plain(name, max)
    ensures EndTag(junk + (CloseTag(name) + rest), name, max) == Some(rest)
  {
    assert junk + (CloseTag(name) + rest) == junk + ['<'] + (['/'] + (name + ['>'] + rest));
    UpToFirst(junk, '<', ['/'] + (name + ['>'] + rest));
    ReadsEnd(name, rest, max);
  }

  lemma ReadsTag(junk: Text, name: Text, value: Text, rest: Text, max: int)
    requires '<' !in junk && Plain(name, max) && '<' !in value && |value| < max
    ensures TagValue(junk + (Tag(name, value) + rest), name, max) == Some((value, rest))
  {
    var behind := ['/'] + (name + ['>'] + rest);
    assert Tag(name, value) + rest == OpenTag(name) + (value + ['<'] + behind);
    ReadsOpen(junk, name, value + ['<'] + behind, max);
    UpToFirst(value, '<', behind);
    ReadsEnd(name, rest, max);
  }

  // ----- numbers

  function Digits(n: nat): (d: Text)
    ensures d != "" && forall i :: 0 <= i < |d| ==> '0' <= d[i] <= '9'
  {
    var last := ['0' + (n % 10) as char];
    if n < 10 then last else Digits(n / 10) + last
  }

  predicate IsDigit(c: char) { '0' <= c <= '9' }

  function DigitsValue(d: Text): nat
    requires forall i :: 0 <= i < |d| ==> IsDigit(d[i])
  {
    if d == [] then 0 else
      assert IsDigit(d[|d| - 1]);
      10 * DigitsValue(d[..|d| - 1]) + (d[|d| - 1] as int - '0' as int)
  }

  function LeadingDigits(s: Text): (d: Text)
    ensures forall i :: 0 <= i < |d| ==> IsDigit(d[i])
  {
    if s == [] || !IsDigit(s[0]) then [] else [s[0]] + LeadingDigits(s[1..])
  }

  /** A number that starts `s`; without one the variable keeps its value. */
  function Scanned(s: Text, before: int): int {
    if LeadingDigits(s) == [] then before else DigitsValue(LeadingDigits(s))
  }

  lemma {:induction false} ValueOfDigits(n: nat)
    ensures DigitsValue(Digits(n)) == n
  {
    var d := Digits(n);
    if n >= 10 {
      ValueOfDigits(n / 10);
      assert d[..|d| - 1] == Digits(n / 10);
    }
  }

  lemma {:induction false} AllLeading(d: Text)
    requires forall i :: 0 <= i < |d| ==> IsDigit(d[i])
    ensures LeadingDigits(d) == d
  {
    if d != [] { AllLeading(d[1..]); }
  }

  lemma ScansDigits(n: nat, before: int)
    ensures Scanned(Digits(n), before) == n
  {
    AllLeading(Digits(n));
    ValueOfDigits(n);
  }

  // ----- the section of the search paths

  datatype Path = Path(alias: Text, value: Text)

  const SECTION := "tolSourceSearchPaths"

  function RootName(k: nat): Text { "root_" + Digits(k) }

  function Root(k: nat, p: Path): Text {
    OpenTag(RootName(k)) + (Tag("alias", p.alias) + (Tag("path", p.value) + (CloseTag(RootName(k)) + "\n")))
  }

  function Roots(paths: seq<Path>, k: nat): Text {
    if paths == [] then [] else Root(k, paths[0]) + Roots(paths[1..], k + 1)
  }

  function Section(paths: seq<Path>): Text {
    OpenTag(SECTION) + ("\n" + (Tag("entries", Digits(|paths|)) + ("\n" + (Roots(paths, 1) + CloseTag(SECTION)))))
  }

  function ReadRoot(s: Text, k: nat, max: int): Option<(Path, Text)> {
    match NextTagTitle(s, RootName(k), max)
    case None => None
    case Some((_, rest)) => ReadAlias(rest, k, max)
  }

  function ReadAlias(s: Text, k: nat, max: int): Option<(Path, Text)> {
    match TagValue(s, "alias", max)
    case None => None
    case Some((alias, rest)) => ReadValue(rest, k, alias, max)
  }

  function ReadValue(s: Text, k: nat, alias: Text, max: int): Option<(Path, Text)> {
    match TagValue(s, "path", max)
    case None => None
    case Some((value, behind)) =>
      match EndTag(behind, RootName(k), max)
      case None => None
      case Some(rest) => Some((Path(alias, value), rest))
  }

  function ReadRoots(s: Text, k: nat, n: nat, max: int): Option<(seq<Path>, Text)>
    decreases n
  {
    if n == 0 then Some(([], s))
    else match ReadRoot(s, k, max)
      case None => None
      case Some((p, rest)) =>
        match ReadRoots(rest, k + 1, n - 1, max)
        case None => None
        case Some((paths, end)) => Some(([p] + paths, end))
  }

  function Clamped(n: int): nat { if n < 0 then 0 else n }

  function ReadSection(s: Text, before: int, max: int): Option<(seq<Path>, Text)> {
    match NextTagTitle(s, SECTION, max)
    case None => None
    case Some((_, rest)) => ReadCounted(rest, before, max)
  }

  function ReadCounted(s: Text, before: int, max: int): Option<(seq<Path>, Text)> {
    match TagValue(s, "entries", max)
    case None => None
    case Some((count, rest)) => ReadToEnd(rest, Clamped(Scanned(count, before)), max)
  }

  function ReadToEnd(s: Text, n: nat, max: int): Option<(seq<Path>, Text)> {
    match ReadRoots(s, 1, n, max)
    case None => None
    case Some((paths, behind)) =>
      match EndTag(behind, SECTION, max)
      case None => None
      case Some(rest) => Some((paths, rest))
  }

  predicate Fits(p: Path, max: int) { '<' !in p.alias && |p.alias| < max && '<' !in p.value && |p.value| < max }

  lemma RootNamePlain(k: nat, max: int)
    requires |RootName(k)| < max
    ensures Plain(RootName(k), max)
  {}

  lemma SmallNames(max: int)
    requires |SECTION| < max
    ensures Plain(SECTION, max) && Plain("alias", max) && Plain("path", max) && Plain("entries", max)
  {}

  lemma ValueReadsBack(k: nat, p: Path, rest: Text, max: int)
    requires |RootName(k)| < max && Fits(p, max) && |SECTION| < max
    ensures ReadValue(Tag("path", p.value) + (CloseTag(RootName(k)) + rest), k, p.alias, max) == Some((p, rest))
  {
    var behind := CloseTag(RootName(k)) + rest;
    SmallNames(max);
    ReadsTag([], "path", p.value, behind, max);
    RootNamePlain(k, max);
    ReadsClose([], RootName(k), rest, max);
    assert [] + (Tag("path", p.value) + behind) == Tag("path", p.value) + behind && [] + behind == behind;
  }

  lemma AliasReadsBack(k: nat, p: Path, behind: Text, max: int)
    requires Fits(p, max) && |SECTION| < max
    ensures ReadAlias(Tag("alias", p.alias) + behind, k, max) == ReadValue(behind, k, p.alias, max)
  {
    SmallNames(max);
    ReadsTag([], "alias", p.alias, behind, max);
    assert [] + (Tag("alias", p.alias) + behind) == Tag("alias", p.alias) + behind;
  }

  lemma RootRegrouped(k: nat, p: Path, rest: Text)
    ensures Root(k, p) + rest ==
      OpenTag(RootName(k)) + (Tag("alias", p.alias) + (Tag("path", p.value) + (CloseTag(RootName(k)) + ("\n" + rest))))
  {
    FiveParts(OpenTag(RootName(k)), Tag("alias", p.alias), Tag("path", p.value), CloseTag(RootName(k)), "\n", rest);
  }

  lemma FiveParts<A>(a: seq<A>, b: seq<A>, c: seq<A>, d: seq<A>, e: seq<A>, rest: seq<A>)
    ensures a + (b + (c + (d + e))) + rest == a + (b + (c + (d + (e + rest))))
  {}

  lemma RootReadsBack(junk: Text, k: nat, p: Path, rest: Text, max: int)
    requires '<' !in junk && |RootName(k)| < max && Fits(p, max) && |SECTION| < max
    ensures ReadRoot(junk + (Root(k, p) + rest), k, max) == Some((p, "\n" + rest))
  {
    var s3 := Tag("path", p.value) + (CloseTag(RootName(k)) + ("\n" + rest));
    RootRegrouped(k, p, rest);
    RootNamePlain(k, max);
    ReadsOpen(junk, RootName(k), Tag("alias", p.alias) + s3, max);
    AliasReadsBack(k, p, s3, max);
    ValueReadsBack(k, p, "\n" + rest, max);
  }

  ghost predicate AllFit(paths: seq<Path>, k: nat, max: int) {
    forall i :: 0 <= i < |paths| ==> Fits(paths[i], max) && |RootName(k + i)| < max
  }

  lemma FitRest(paths: seq<Path>, k: nat, max: int)
    requires paths != [] && AllFit(paths, k, max)
    ensures Fits(paths[0], max) && |RootName(k)| < max && AllFit(paths[1..], k + 1, max)
  {
    assert Fits(paths[0], max) && |RootName(k + 0)| < max;
    forall i | 0 <= i < |paths| - 1 ensures Fits(paths[1..][i], max) && |RootName(k + 1 + i)| < max {
      assert Fits(paths[i + 1], max) && |RootName(k + (i + 1))| < max;
    }
  }

  lemma ReadOneMore(s: Text, k: nat, n: nat, p: Path, s': Text, more: seq<Path>, end: Text, max: int)
    requires n > 0 && ReadRoot(s, k, max) == Some((p, s')) && ReadRoots(s', k + 1, n - 1, max) == Some((more, end))
    ensures ReadRoots(s, k, n, max) == Some(([p] + more, end))
  {}

  lemma {:induction false} RootsReadBack(junk: Text, paths: seq<Path>, k: nat, rest: Text, max: int)
    returns (junk': Text)
    requires '<' !in junk && |SECTION| < max && AllFit(paths, k, max)
    ensures '<' !in junk'
    ensures ReadRoots(junk + (Roots(paths, k) + rest), k, |paths|, max) == Some((paths, junk' + rest))
    decreases |paths|
  {
    if paths == [] {
      assert [] + rest == rest;
      junk' := junk;
    } else {
      FitRest(paths, k, max);
      junk' := RootsReadBack("\n", paths[1..], k + 1, rest, max);
      var p, more := paths[0], paths[1..];
      var later := Roots(more, k + 1) + rest;
      assert Roots(paths, k) + rest == Root(k, p) + later by { Regroup(Root(k, p), Roots(more, k + 1), rest); }
      assert [p] + more == paths && |more| + 1 == |paths|;
      RootsStep(junk, p, k, later, more, junk' + rest, max);
    }
  }

  lemma RootsStep(junk: Text, p: Path, k: nat, later: Text, more: seq<Path>, end: Text, max: int)
    requires '<' !in junk && |SECTION| < max && Fits(p, max) && |RootName(k)| < max
    requires ReadRoots("\n" + later, k + 1, |more|, max) == Some((more, end))
    ensures ReadRoots(junk + (Root(k, p) + later), k, |more| + 1, max) == Some(([p] + more, end))
  {
    RootReadsBack(junk, k, p, later, max);
    ReadOneMore(junk + (Root(k, p) + later), k, |more| + 1, p, "\n" + later, more, end, max);
  }

  lemma Regroup<A>(a: seq<A>, b: seq<A>, c: seq<A>)
    ensures a + b + c == a + (b + c)
  {}

  lemma ToEndReadsBack(paths: seq<Path>, rest: Text, max: int)
    requires |SECTION| < max && AllFit(paths, 1, max)
    ensures ReadToEnd("\n" + (Roots(paths, 1) + (CloseTag(SECTION) + rest)), |paths|, max) == Some((paths, rest))
  {
    var junk' := RootsReadBack("\n", paths, 1, CloseTag(SECTION) + rest, max);
    SmallNames(max);
    ReadsClose(junk', SECTION, rest, max);
  }

  lemma CountedReadsBack(n: nat, behind: Text, before: int, max: int)
    requires |SECTION| < max && |Digits(n)| < max
    ensures ReadCounted("\n" + (Tag("entries", Digits(n)) + behind), before, max) == ReadToEnd(behind, n, max)
  {
    SmallNames(max);
    ReadsTag("\n", "entries", Digits(n), behind, max);
    ScansDigits(n, before);
  }

  /** What is written is read back, and the reader then stands right behind the
      section's end tag. */
  lemma SectionReadsBack(junk: Text, paths: seq<Path>, rest: Text, before: int, max: int)
    requires '<' !in junk && |SECTION| < max && |Digits(|paths|)| < max && AllFit(paths, 1, max)
    ensures ReadSection(junk + (Section(paths) + rest), before, max) == Some((paths, rest))
  {
    var s3 := Roots(paths, 1) + (CloseTag(SECTION) + rest);
    var s2 := Tag("entries", Digits(|paths|)) + ("\n" + s3);
    SixParts(OpenTag(SECTION), "\n", Tag("entries", Digits(|paths|)), "\n", Roots(paths, 1), CloseTag(SECTION), rest);
    SmallNames(max);
    ReadsOpen(junk, SECTION, "\n" + s2, max);
    CountedReadsBack(|paths|, "\n" + s3, before, max);
    ToEndReadsBack(paths, rest, max);
  }

  lemma SixParts<A>(a: seq<A>, b: seq<A>, c: seq<A>, d: seq<A>, e: seq<A>, f: seq<A>, rest: seq<A>)
    ensures a + (b + (c + (d + (e + f)))) + rest == a + (b + (c + (d + (e + (f + rest)))))
  {}

  // ----- no other paths can be read

  lemma TagValueFits(s: Text, ensure: Text, max: int)
    ensures TagValue(s, ensure, max).Some? ==>
      '<' !in TagValue(s, ensure, max).value.0 && |TagValue(s, ensure, max).value.0| < max
  {
    var title := NextTagTitle(s, ensure, max);
    if title.Some? { UpToParts(title.value.1, '<'); }
  }

  lemma RootFits(s: Text, k: nat, max: int)
    ensures ReadRoot(s, k, max).Some? ==> Fits(ReadRoot(s, k, max).value.0, max)
  {
    var title := NextTagTitle(s, RootName(k), max);
    if title.Some? {
      var alias := TagValue(title.value.1, "alias", max);
      TagValueFits(title.value.1, "alias", max);
      if alias.Some? { TagValueFits(alias.value.1, "path", max); }
    }
  }

  lemma {:induction false} RootsFit(s: Text, k: nat, n: nat, max: int)
    ensures ReadRoots(s, k, n, max).Some? ==> forall p :: p in ReadRoots(s, k, n, max).value.0 ==> Fits(p, max)
    decreases n
  {
    if n > 0 && ReadRoot(s, k, max).Some? {
      RootFits(s, k, max);
      RootsFit(ReadRoot(s, k, max).value.1, k + 1, n - 1, max);
    }
  }

  lemma SectionFits(s: Text, before: int, max: int)
    ensures ReadSection(s, before, max).Some? ==> forall p :: p in ReadSection(s, before, max).value.0 ==> Fits(p, max)
  {
    var title := NextTagTitle(s, SECTION, max);
    if title.Some? {
      var count := TagValue(title.value.1, "entries", max);
      if count.Some? { RootsFit(count.value.1, 1, Clamped(Scanned(count.value.0, before)), max); }
    }
  }

  /** The pairs come back, with the cursor right behind the section, exactly
      when no alias or path holds a `<` or is too long. */
  lemma SectionRoundTrip(junk: Text, paths: seq<Path>, rest: Text, before: int, max: int)
    requires '<' !in junk && |SECTION| < max && |Digits(|paths|)| < max
    requires forall k :: 1 <= k <= |paths| ==> |RootName(k)| < max
    ensures ReadSection(junk + (Section(paths) + rest), before, max) == Some((paths, rest))
       <==> forall p :: p in paths ==> Fits(p, max)
  {
    SectionFits(junk + (Section(paths) + rest), before, max);
    if forall p :: p in paths ==> Fits(p, max) {
      assert AllFit(paths, 1, max);
      SectionReadsBack(junk, paths, rest, before, max);
    }
  }
}
