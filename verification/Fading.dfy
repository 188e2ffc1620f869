/** What printing a phrase does to the characters of its words: renamings,
    separators and brackets dropped or replaced. */
module Fading {
  import opened Options
  import opened SyntaxTree
  import opened Phrase
  import opened Acceptance
  import opened Reparse
  import opened RoundTrip
  import opened Tally

  predicate Separating(w: Word) { w == ";" || w == "," }

  /** The same words up to the choice of separators. */
  predicate Alike(a: seq<Word>, b: seq<Word>) {
    && |a| == |b|
    && forall i :: 0 <= i < |a| ==> a[i] == b[i] || (Separating(a[i]) && Separating(b[i]))
  }

  /** Printing adds no weight, and takes none away only if it changes nothing
      but separators. */
  ghost predicate Lighter(names: set<(Kind, Word)>, a: seq<Word>, b: seq<Word>) {
    && Load(Weight, b) <= Load(Weight, a)
    && (Load(Weight, b) == Load(Weight, a) ==> Alike(a, b) && NOT !in names && HAT !in names)
  }

  predicate SameLetters(a: seq<Word>, b: seq<Word>) {
    Load(CapitalE, b) == Load(CapitalE, a) && Load(SmallY, b) == Load(SmallY, a)
  }

  /** The filter's brackets come in pairs. */
  predicate Paired(ws: seq<Word>) {
    Count(ws, "#(#") == Count(ws, "#)#") && Count(ws, "#{#") == Count(ws, "#}#")
  }

  /** The words printing may bring in. */
  predicate Brought(w: Word) {
    Separating(w) || w == "(" || w == ")" || w == "Not" || w == "^" || w == "Eq" || w == "SqRt"
  }

  predicate Stems(a: seq<Word>, b: seq<Word>) { forall w :: w in b ==> w in a || Brought(w) }

  ghost predicate Faded(names: set<(Kind, Word)>, a: seq<Word>, b: seq<Word>) {
    Lighter(names, a, b) && SameLetters(a, b) && Paired(a) && Paired(b) && Stems(a, b)
  }

  // ----- one after the other

  lemma AlikeConcat(a: seq<Word>, b: seq<Word>, c: seq<Word>, d: seq<Word>)
    requires Alike(a, b) && Alike(c, d)
    ensures Alike(a + c, b + d)
  {}

  lemma LighterConcat(m: set<(Kind, Word)>, a: seq<Word>, b: seq<Word>,
                      n: set<(Kind, Word)>, c: seq<Word>, d: seq<Word>)
    requires Lighter(m, a, b) && Lighter(n, c, d)
    ensures Lighter(m + n, a + c, b + d)
  {
    LoadConcat(Weight, a, c);
    LoadConcat(Weight, b, d);
    if Alike(a, b) && Alike(c, d) { AlikeConcat(a, b, c, d); }
  }

  lemma SameLettersConcat(a: seq<Word>, b: seq<Word>, c: seq<Word>, d: seq<Word>)
    requires SameLetters(a, b) && SameLetters(c, d)
    ensures SameLetters(a + c, b + d)
  {
    LoadConcat(CapitalE, a, c);
    LoadConcat(CapitalE, b, d);
    LoadConcat(SmallY, a, c);
    LoadConcat(SmallY, b, d);
  }

  lemma PairedConcat(a: seq<Word>, b: seq<Word>)
    requires Paired(a) && Paired(b)
    ensures Paired(a + b)
  {
    CountConcat(a, b, "#(#");
    CountConcat(a, b, "#)#");
    CountConcat(a, b, "#{#");
    CountConcat(a, b, "#}#");
  }

  lemma StemsConcat(a: seq<Word>, b: seq<Word>, c: seq<Word>, d: seq<Word>)
    requires Stems(a, b) && Stems(c, d)
    ensures Stems(a + c, b + d)
  {}

  lemma FadedConcat(m: set<(Kind, Word)>, a: seq<Word>, b: seq<Word>, n: set<(Kind, Word)>, c: seq<Word>, d: seq<Word>)
    requires Faded(m, a, b) && Faded(n, c, d)
    ensures Faded(m + n, a + c, b + d)
  {
    LighterConcat(m, a, b, n, c, d);
    SameLettersConcat(a, b, c, d);
    PairedConcat(a, c);
    PairedConcat(b, d);
    StemsConcat(a, b, c, d);
  }

  // ----- single words

  predicate Plain(w: Word) { w != "#(#" && w != "#)#" && w != "#{#" && w != "#}#" }

  lemma PlainPaired(w: Word)
    requires Plain(w)
    ensures Paired([w])
  {}

  /** A word that printing replaces by a lighter one with the same letters `E`
      and `y`. */
  lemma WordFades(names: set<(Kind, Word)>, v: Word, u: Word)
    requires Plain(v) && Plain(u) && (u == v || Brought(u))
    requires Sum(CapitalE, u) == Sum(CapitalE, v) && Sum(SmallY, u) == Sum(SmallY, v)
    requires Sum(Weight, u) <= Sum(Weight, v)
    requires Sum(Weight, u) == Sum(Weight, v) ==>
      (u == v || (Separating(v) && Separating(u))) && NOT !in names && HAT !in names
    ensures Faded(names, [v], [u])
  {
    LoadOne(Weight, u);
    LoadOne(Weight, v);
    LoadOne(CapitalE, u);
    LoadOne(CapitalE, v);
    LoadOne(SmallY, u);
    LoadOne(SmallY, v);
    PlainPaired(u);
    PlainPaired(v);
  }

  /** What a renaming does to the measures. */
  predicate Cheaper(m: Measure, v: Word, u: Word) {
    if m == Weight then Sum(m, u) < Sum(m, v) else Sum(m, u) == Sum(m, v)
  }

  lemma NotCheaper(m: Measure)
    ensures Cheaper(m, "!", "Not")
  {
    SumOne(m, '!');
    SumThree(m, 'N', 'o', 't');
  }

  lemma HatCheaper(m: Measure)
    ensures Cheaper(m, "**", "^") && Cheaper(m, "Pow", "^")
  {
    SumTwo(m, '*', '*');
    SumThree(m, 'P', 'o', 'w');
    SumOne(m, '^');
  }

  lemma EqCheaper(m: Measure)
    ensures Cheaper(m, "EQ", "Eq")
  {
    SumTwo(m, 'E', 'Q');
    SumTwo(m, 'E', 'q');
  }

  lemma SqRtCheaper(m: Measure)
    ensures Cheaper(m, "Sqrt", "SqRt")
  {
    SumThree(m, 'S', 'q', 'r');
    SumThree(m, 'S', 'q', 'R');
    SumSnoc(m, "Sqr", 't');
    SumSnoc(m, "SqR", 't');
    assert "Sqr" + ['t'] == "Sqrt" && "SqR" + ['t'] == "SqRt";
  }

  lemma RespeltFades(names: set<(Kind, Word)>, v: Word, u: Word)
    requires (v == "!" && u == "Not") || (v == "**" && u == "^") || (v == "Pow" && u == "^")
          || (v == "EQ" && u == "Eq") || (v == "Sqrt" && u == "SqRt")
    ensures Faded(names, [v], [u])
  {
    forall m: Measure ensures Cheaper(m, v, u) {
      NotCheaper(m);
      HatCheaper(m);
      EqCheaper(m);
      SqRtCheaper(m);
    }
    assert Cheaper(Weight, v, u) && Cheaper(CapitalE, v, u) && Cheaper(SmallY, v, u);
    WordFades(names, v, u);
  }

  lemma SeparatorFades(v: Word, u: Word)
    requires Separating(v) && Separating(u)
    ensures Faded({}, [v], [u])
  {
    forall m: Measure ensures Sum(m, ";") == Sum(m, ",") == 0 {
      SumOne(m, ';');
      SumOne(m, ',');
    }
    WordFades({}, v, u);
  }

  lemma SameFades(names: set<(Kind, Word)>, v: Word)
    requires Plain(v) && NOT !in names && HAT !in names
    ensures Faded(names, [v], [v])
  {
    WordFades(names, v, v);
  }

  lemma SymbolIsPlain(tab: Table, w: Word)
    requires ValidTable(tab)
    requires IsPrefixWord(tab, w) || IsInfixWord(tab, w) || IsSeparatorWord(tab, w) || IsArgument(tab, w)
    ensures Plain(w)
  {
    assert Lookup(tab, OpenName(Index)) == Some(Open(Index)) && Lookup(tab, CloseName(Index)) == Some(Close(Index));
    assert Lookup(tab, OpenName(SetOf)) == Some(Open(SetOf)) && Lookup(tab, CloseName(SetOf)) == Some(Close(SetOf));
  }

  lemma PrefixFades(tab: Table, v: Word)
    requires PrintableTable(tab) && IsPrefixWord(tab, v)
    ensures Faded(ItemNames(tab, Prefix(v)), [v], [if v == "!" then "Not" else v])
  {
    SymbolIsPlain(tab, v);
    if v == "!" { RespeltFades(ItemNames(tab, Prefix(v)), v, "Not"); } else { SameFades(ItemNames(tab, Prefix(v)), v); }
  }

  lemma InfixFades(tab: Table, v: Word)
    requires PrintableTable(tab) && IsInfixWord(tab, v)
    ensures Faded(ItemNames(tab, Infix(v)), [v], [if v == "**" then "^" else v])
  {
    SymbolIsPlain(tab, v);
    if v == "**" { RespeltFades(ItemNames(tab, Infix(v)), v, "^"); } else { SameFades(ItemNames(tab, Infix(v)), v); }
  }

  function HeadWords(head: Option<Word>): seq<Word> { if head.Some? then [head.value] else [] }

  ghost function HeadNames(head: Option<Word>): set<(Kind, Word)> {
    if head.Some? then {(FUNCTION, FunctionName(head.value))} else {}
  }

  function HeadPrinted(head: Option<Word>): Option<Word> {
    if head.Some? then Some(FunctionName(head.value)) else None
  }

  lemma HeadFades(tab: Table, head: Option<Word>)
    requires PrintableTable(tab) && (head.Some? ==> IsArgument(tab, head.value))
    ensures Faded(HeadNames(head), HeadWords(head), HeadWords(HeadPrinted(head)))
  {
    if head.Some? {
      var f := head.value;
      SymbolIsPlain(tab, f);
      assert f != "^";
      if FunctionName(f) == f {
        SameFades(HeadNames(head), f);
      } else {
        RespeltFades(HeadNames(head), f, FunctionName(f));
      }
    }
  }

  // ----- brackets

  function Between(br: Bracket, ws: seq<Word>): seq<Word> { [OpenName(br)] + ws + [CloseName(br)] }

  /** How heavy a bracket is. */
  function Heft(br: Bracket): nat {
    match br
    case Paren => 1
    case Index => 3
    case SetOf => 4
    case _ => 2
  }

  lemma BracketLoads(m: Measure, br: Bracket)
    ensures Sum(m, OpenName(br)) == Sum(m, CloseName(br)) == if m == Weight then Heft(br) else 0
  {
    var o, c := OpenName(br), CloseName(br);
    match br
    case Index =>
      SumThree(m, '#', '(', '#');
      SumThree(m, '#', ')', '#');
    case SetOf =>
      SumThree(m, '#', '{', '#');
      SumThree(m, '#', '}', '#');
    case _ =>
      assert o == [o[0]] && c == [c[0]];
      SumOne(m, o[0]);
      SumOne(m, c[0]);
  }

  lemma BetweenLoad(m: Measure, br: Bracket, ws: seq<Word>)
    ensures Load(m, Between(br, ws)) == Sum(m, OpenName(br)) + Load(m, ws) + Sum(m, CloseName(br))
  {
    LoadConcat(m, [OpenName(br)] + ws, [CloseName(br)]);
    LoadConcat(m, [OpenName(br)], ws);
    LoadOne(m, OpenName(br));
    LoadOne(m, CloseName(br));
  }

  lemma BetweenPaired(br: Bracket, ws: seq<Word>)
    requires Paired(ws)
    ensures Paired(Between(br, ws))
  {
    forall w: Word ensures Count(Between(br, ws), w)
      == Count(ws, w) + (if w == OpenName(br) then 1 else 0) + (if w == CloseName(br) then 1 else 0)
    {
      CountConcat([OpenName(br)] + ws, [CloseName(br)], w);
      CountConcat([OpenName(br)], ws, w);
      CountOne(OpenName(br), w);
      CountOne(CloseName(br), w);
    }
  }

  lemma BetweenLoads(m: Measure, a: seq<Word>, b: seq<Word>, br: Bracket, ar: Bracket)
    requires ar == br || ar == Paren
    ensures m != Weight ==> Load(m, Between(ar, b)) == Load(m, b) && Load(m, Between(br, a)) == Load(m, a)
    ensures Load(m, Between(ar, b)) - Load(m, b) <= Load(m, Between(br, a)) - Load(m, a)
    ensures m == Weight && Load(m, Between(ar, b)) - Load(m, b) == Load(m, Between(br, a)) - Load(m, a) ==> ar == br
  {
    BetweenLoad(m, br, a);
    BetweenLoad(m, ar, b);
    BracketLoads(m, br);
    BracketLoads(m, ar);
  }

  lemma BetweenWords(a: seq<Word>, b: seq<Word>, br: Bracket, ar: Bracket)
    requires ar == br || ar == Paren
    ensures ar == br && Alike(a, b) ==> Alike(Between(br, a), Between(ar, b))
    ensures Stems(a, b) ==> Stems(Between(br, a), Between(ar, b))
  {
    if ar == br && Alike(a, b) {
      AlikeConcat([OpenName(br)], [OpenName(ar)], a, b);
      AlikeConcat([OpenName(br)] + a, [OpenName(ar)] + b, [CloseName(br)], [CloseName(ar)]);
    }
    if Stems(a, b) {
      StemsConcat([OpenName(br)], [OpenName(ar)], a, b);
      StemsConcat([OpenName(br)] + a, [OpenName(ar)] + b, [CloseName(br)], [CloseName(ar)]);
    }
  }

  /** A pair of brackets stays or becomes round. */
  lemma BetweenFades(names: set<(Kind, Word)>, a: seq<Word>, b: seq<Word>, br: Bracket, ar: Bracket)
    requires Faded(names, a, b) && (ar == br || ar == Paren)
    ensures Faded(names, Between(br, a), Between(ar, b))
  {
    BetweenLoads(Weight, a, b, br, ar);
    BetweenLoads(CapitalE, a, b, br, ar);
    BetweenLoads(SmallY, a, b, br, ar);
    BetweenWords(a, b, br, ar);
    BetweenPaired(br, a);
    BetweenPaired(ar, b);
  }

  /** A pair of brackets inside another is dropped. */
  lemma DroppedFades(names: set<(Kind, Word)>, a: seq<Word>, b: seq<Word>, br: Bracket)
    requires Faded(names, a, b)
    ensures Faded(names, Between(br, a), b)
  {
    BetweenLoad(Weight, br, a);
    BetweenLoad(CapitalE, br, a);
    BetweenLoad(SmallY, br, a);
    BracketLoads(Weight, br);
    BracketLoads(CapitalE, br);
    BracketLoads(SmallY, br);
    BetweenPaired(br, a);
  }

  // ----- phrases

  lemma NothingFades()
    ensures Faded({}, [], [])
  {}

  lemma {:induction false} ItemsFade(tab: Table, p: seq<Item>, sep: Word)
    requires PrintableTable(tab) && WellFormedSoFar(tab, p) && Separating(sep)
    ensures Faded(PhraseNames(tab, p), Yield(p), Yield(PrintedItems(p, sep)))
    decreases p, 0
  {
    if p == [] {
      assert PhraseNames(tab, p) == {};
      NothingFades();
    } else {
      var n := |p| - 1;
      Shrink(tab, p);
      PhraseNamesSnoc(tab, p);
      ItemsFade(tab, p[..n], sep);
      ItemFades(tab, p[n], sep);
      YieldSnoc(p[..n], p[n]);
      YieldSnoc(PrintedItems(p[..n], sep), PrintedItem(p[n], sep));
      assert p == p[..n] + [p[n]];
      FadedConcat(PhraseNames(tab, p[..n]), Yield(p[..n]), Yield(PrintedItems(p[..n], sep)),
                  ItemNames(tab, p[n]), Words(p[n]), Words(PrintedItem(p[n], sep)));
    }
  }

  lemma YieldSnoc(p: seq<Item>, x: Item)
    ensures Yield(p + [x]) == Yield(p) + Words(x)
  {
    YieldConcat(p, [x]);
    YieldOne(x);
  }

  lemma {:induction false} ItemFades(tab: Table, x: Item, sep: Word)
    requires PrintableTable(tab) && ItemOk(tab, x) && Separating(sep)
    ensures Faded(ItemNames(tab, x), Words(x), Words(PrintedItem(x, sep)))
    decreases x, 0
  {
    match x
    case Group(head, br, body) =>
      assert WellFormed(tab, body);
      BodySepIsSeparator(tab, body);
      BodyFades(tab, body, GroupSep(x));
      GroupFades(tab, x, sep);
    case Prefix(v) => PrefixFades(tab, v);
    case Infix(v) => InfixFades(tab, v);
    case Separate(v) => SeparatorFades(v, sep);
    case Argument(v) =>
      SymbolIsPlain(tab, v);
      SameFades({(ARGUMENT, v)}, v);
  }

  lemma GroupFades(tab: Table, x: Item, sep: Word)
    requires PrintableTable(tab) && ItemOk(tab, x) && x.Group? && WellFormed(tab, x.body)
    requires Faded(PhraseNames(tab, x.body), Yield(x.body), Yield(PrintedBody(x.body, GroupSep(x))))
    ensures Faded(ItemNames(tab, x), Words(x), Words(PrintedItem(x, sep)))
  {
    var y := PrintedItem(x, sep);
    HeadFades(tab, x.head);
    BetweenFades(PhraseNames(tab, x.body), Yield(x.body), Yield(y.body), x.br, y.br);
    FadedConcat(HeadNames(x.head), HeadWords(x.head), HeadWords(y.head),
                PhraseNames(tab, x.body), Between(x.br, Yield(x.body)), Between(y.br, Yield(y.body)));
    GroupWords(x);
    GroupWords(y);
  }

  lemma GroupWords(x: Item)
    requires x.Group?
    ensures Words(x) == HeadWords(x.head) + Between(x.br, Yield(x.body))
  {}

  lemma {:induction false} BodyFades(tab: Table, body: seq<Item>, sep: Word)
    requires PrintableTable(tab) && WellFormed(tab, body) && Separating(sep)
    ensures Faded(PhraseNames(tab, body), Yield(body), Yield(PrintedBody(body, sep)))
    decreases body, 1
  {
    if Double(body) {
      var x := body[0];
      assert body == [x];
      NamesAt(tab, body, 0);
      assert WellFormed(tab, x.body);
      BodyFades(tab, x.body, sep);
      DroppedFades(PhraseNames(tab, x.body), Yield(x.body), Yield(PrintedBody(x.body, sep)), x.br);
      YieldOne(x);
      GroupWords(x);
      assert [] + Between(x.br, Yield(x.body)) == Between(x.br, Yield(x.body));
      LoneNames(tab, body);
    } else {
      ItemsFade(tab, body, sep);
    }
  }

  lemma LoneNames(tab: Table, body: seq<Item>)
    requires WellFormed(tab, body) && Double(body)
    ensures WellFormed(tab, body[0].body) && PhraseNames(tab, body) == PhraseNames(tab, body[0].body)
  {
    PhraseNamesSnoc(tab, body);
    assert PhraseNames(tab, body[..0]) == {};
  }
}
