/** The texts written for short trees, blank by blank, and where prefix words
    end in any text. */
module WrittenTexts {
  import opened Options
  import opened SyntaxTree
  import opened Phrase
  import Acceptance
  import opened Machine
  import opened Unparse
  import opened Reparse
  import opened Lexing
  import opened PrintedText
  import opened Rescan
  import opened Rereading
  import opened Grouping
  import opened LostTexts

  // ----- prefixes

  /** What is written for the tree of an accepted text. */
  predicate Writes(tab: Table, words: seq<Word>, text: seq<Bit>) {
    Parse(tab, words).Parsed? && Unparsed(Parse(tab, words).tree) == text
  }

  lemma PrefixWritten(tab: Table, t: Word, a: Word)
    requires ValidTable(tab) && IsPrefixWord(tab, t) && IsArgument(tab, a)
    ensures Writes(tab, [t, a], Operator(PrefixToken(tab, t)) + [Spell(a)])
  {
    PrefixTree(tab, t, a);
    PhraseGives(tab, [Prefix(t)] + [Argument(a)], [t, a]);
    PrefixText(PrefixToken(tab, t), Leaf(ArgumentToken(a)));
    LeafText(a);
  }

  /** A blank stands behind the name of a type. */
  lemma TypeText(tab: Table, t: Word, a: Word)
    requires PrintableTable(tab) && Lookup(tab, t) == Some(Type) && IsArgument(tab, a)
    ensures Writes(tab, [t, a], [Spell(t), Blank, Spell(a)])
  {
    PrefixWritten(tab, t, a);
    assert [Spell(t), Blank] + [Spell(a)] == [Spell(t), Blank, Spell(a)];
  }

  /** And behind the name of a prefix operator; a sign that is no binary one
      stands next to its operand. */
  lemma MonaryText(tab: Table, t: Word, a: Word)
    requires PrintableTable(tab) && Lookup(tab, t) == Some(Monary(None)) && t != "!" && IsArgument(tab, a)
    ensures IsAlpha(t[0]) ==> Writes(tab, [t, a], [Spell(t), Blank, Spell(a)])
    ensures !IsAlpha(t[0]) ==> Writes(tab, [t, a], [Spell(t), Spell(a)])
  {
    PrefixWritten(tab, t, a);
    assert [Spell(t), Blank] + [Spell(a)] == [Spell(t), Blank, Spell(a)];
    assert [Spell(t)] + [Spell(a)] == [Spell(t), Spell(a)];
  }

  /** A sign that is also a binary operator stands between blanks. */
  lemma SignText(tab: Table, t: Word, a: Word)
    requires PrintableTable(tab) && Lookup(tab, t).Some? && Lookup(tab, t).value.Monary?
    requires Lookup(tab, t).value.twin.Some? && t != "!" && IsArgument(tab, a)
    ensures Writes(tab, [t, a], [Blank, Spell(t), Blank, Spell(a)])
  {
    PrefixWritten(tab, t, a);
    var name: Word := " " + t + " ";
    assert name[1..|name| - 1] == t && Spoken(name) == t;
    assert [Blank, Spell(t), Blank] + [Spell(a)] == [Blank, Spell(t), Blank, Spell(a)];
  }

  /** So these texts are read as they were written. */
  lemma PrefixComesBack(tab: Table, t: Word, a: Word)
    requires PrintableTable(tab) && IsArgument(tab, a) && LostTexts.Ordinary(a) && LostTexts.Ordinary(t) && t != "!"
    requires IsPrefixWord(tab, t) && (Lookup(tab, t) == Some(Monary(None)) ==> IsAlpha(t[0]))
    ensures Parse(tab, [t, a]).Parsed? && Filter(Unparsed(Parse(tab, [t, a]).tree)) == [t, a]
  {
    if Lookup(tab, t) == Some(Type) {
      TypeText(tab, t, a);
      TwoApart(t, a);
    } else if Lookup(tab, t) == Some(Monary(None)) {
      MonaryText(tab, t, a);
      TwoApart(t, a);
    } else {
      SignText(tab, t, a);
      BetweenBlanks(t, a);
    }
  }

  lemma GapSkipped(cs: seq<Chunk>)
    ensures Reread([Gap] + cs) == Reread(cs)
  {
    assert ([Gap] + cs)[1..] == cs;
  }

  lemma BetweenRead(v: Word, a: Word)
    requires LostTexts.Ordinary(v) && LostTexts.Ordinary(a)
    ensures Reread([Gap, OwnChunk(v), Gap, OwnChunk(a)]) == [v, a]
  {
    var last := [OwnChunk(a)];
    assert last + [] == last;
    TakesOrdinary(a, []);
    GapSkipped(last);
    TakesOrdinary(v, [Gap] + last);
    GapSkipped([OwnChunk(v)] + ([Gap] + last));
    assert [Gap] + ([OwnChunk(v)] + ([Gap] + last)) == [Gap, OwnChunk(v), Gap, OwnChunk(a)];
  }

  lemma BetweenBlanks(v: Word, a: Word)
    requires LostTexts.Ordinary(v) && LostTexts.Ordinary(a)
    ensures Filter([Blank, Spell(v), Blank, Spell(a)]) == [v, a]
  {
    var b1, b2, b3 := [Blank], [Blank, Spell(v)], [Blank, Spell(v), Blank];
    var c1, c2, c3 := [Gap], [Gap, OwnChunk(v)], [Gap, OwnChunk(v), Gap];
    assert [] + [Blank] == b1 && Chunks([]) == [] && [] + [Gap] == c1;
    ChunksSnoc([], Blank);
    assert b1 + [Spell(v)] == b2 && c1 + [OwnChunk(v)] == c2;
    StepOrdinary(b1, c1, v);
    assert b2 + [Blank] == b3 && c2 + [Gap] == c3;
    ChunksSnoc(b2, Blank);
    assert b3 + [Spell(a)] == [Blank, Spell(v), Blank, Spell(a)];
    StepOrdinary(b3, c3, a);
    assert c3 + [OwnChunk(a)] == [Gap, OwnChunk(v), Gap, OwnChunk(a)];
    BetweenRead(v, a);
  }

  // ----- brackets

  /** Brackets around anything but a list are written close to it. */
  lemma GroupText(t: Sexp, br: Bracket, deep: bool)
    requires Rooted(t) && t.car.tok.kind != SEPARATOR && t.car.tok.close == None
    ensures Written(Headed(Closed(t, br), None), deep)
         == [Spell(OpenName(br))] + Written(t, deep) + [Spell(CloseName(br))]
  {
    var g := Headed(Closed(t, br), None);
    SameInside(t, g, deep);
    assert Written(t, deep) == [] + Inside(t, deep) + [] == Inside(t, deep);
  }

  lemma SameInside(t: Sexp, g: Sexp, deep: bool)
    requires Rooted(t) && Rooted(g) && g.cdr == t.cdr
    requires g.car.tok.kind == t.car.tok.kind && g.car.tok.name == t.car.tok.name
    ensures Inside(g, deep) == Inside(t, deep)
  {}

  lemma GroupWritten(tab: Table, br: Bracket, a: Word)
    requires PrintableTable(tab) && IsArgument(tab, a)
    ensures Writes(tab, [OpenName(br), a, CloseName(br)], [Spell(OpenName(br)), Spell(a), Spell(CloseName(br))])
  {
    ArgumentTree(tab, a);
    GroupTree(tab, None, br, [Argument(a)]);
    assert [] + [OpenName(br)] + [a] + [CloseName(br)] == [OpenName(br), a, CloseName(br)];
    GroupText(Leaf(ArgumentToken(a)), br, false);
    LeafText(a);
    assert [Spell(OpenName(br))] + [Spell(a)] + [Spell(CloseName(br))]
        == [Spell(OpenName(br)), Spell(a), Spell(CloseName(br))];
  }

  // ----- operators, calls and lists

  /** No blanks around a binary operator. */
  lemma InfixWritten(tab: Table, a: Word, w: Word, b: Word)
    requires PrintableTable(tab) && IsInfixWord(tab, w) && IsArgument(tab, a) && IsArgument(tab, b)
    ensures Writes(tab, [a, w, b], [Spell(a), Spell(if w == "**" then "^" else w), Spell(b)])
  {
    var tok, la, lb := InfixToken(tab, w), Leaf(ArgumentToken(a)), Leaf(ArgumentToken(b));
    InfixTree(tab, a, w, b);
    PhraseGives(tab, [Argument(a)] + [Infix(w)] + [Argument(b)], [a, w, b]);
    LeafText(a);
    LeafText(b);
    PlainBinary(tok, la, lb);
  }

  lemma PlainBinary(tok: Token, l: Sexp, r: Sexp)
    requires tok.kind == BINARY && tok.close == None && (tok.name == "=" ==> !IsList(r))
    ensures Written(Bin(tok, l, r), false) == Written(l, false) + [Spell(tok.name)] + Written(r, false)
  {
    var t := Bin(tok, l, r);
    assert t.cdr.car == l && t.cdr.cdr.car == r;
    var left, right := Written(l, false), Written(r, false);
    assert Inside(t, false) == left + [Spell(tok.name)] + [] + right;
    assert Written(t, false) == [] + Inside(t, false) + [] == left + [Spell(tok.name)] + right;
  }

  /** A call of one argument, and one of two with a blank behind the comma. */
  lemma CallWritten(tab: Table, f: Word, a: Word, s: Word, b: Word)
    requires PrintableTable(tab) && IsArgument(tab, f) && LetterOrUnderscore(f[0])
    requires IsArgument(tab, a) && IsSeparatorWord(tab, s) && IsArgument(tab, b)
    ensures Writes(tab, [f, "(", a, ")"], [Spell(Called(f)), Spell("("), Spell(a), Spell(")")])
    ensures Writes(tab, [f, "(", a, s, b, ")"],
      [Spell(Called(f)), Spell("("), Spell(a), Spell(","), Blank, Spell(b), Spell(")")])
  {
    assert OpenName(Paren) == "(" && CloseName(Paren) == ")";
    ParseCall(tab, f, Paren, a);
    CallText(f, Paren, a);
    ListGroup(tab, Some(f), Paren, a, s, b);
    SixInRow(f, OpenName(Paren), a, s, b, CloseName(Paren));
    TwoListed(SeparatorToken(tab, s), f, a, b);
  }

  lemma TwoListed(sep: Token, f: Word, a: Word, b: Word)
    requires sep.kind == SEPARATOR
    ensures Unparsed(Headed(Closed(Bin(sep, Leaf(ArgumentToken(a)), Leaf(ArgumentToken(b))), Paren), Some(f)))
         == [Spell(Called(f)), Spell("("), Spell(a), Spell(","), Blank, Spell(b), Spell(")")]
  {
    var la, lb := Leaf(ArgumentToken(a)), Leaf(ArgumentToken(b));
    var t := Headed(Closed(Bin(sep, la, lb), Paren), Some(f));
    LeafText(a);
    LeafText(b);
    assert t.cdr == Cons(la, Cons(lb, Nil));
    assert Listed(Cons(lb, Nil), false) == [Spell(b)] + [] == [Spell(b)];
    assert Listed(t.cdr, false) == [Spell(a)] + ([Spell(",")] + [Blank] + [Spell(b)]);
    assert Listed(t.cdr, false) == [Spell(a), Spell(","), Blank, Spell(b)];
    assert Inside(t, false) == [Spell(Called(f))] + [Spell("(")] + Listed(t.cdr, false) + [Spell(")")];
    assert Written(t, false) == [] + Inside(t, false) + [];
  }

  /** The lines of a list of two. */
  function TwoLines(a: Word, s: Word, b: Word): seq<Bit> {
    [Blank, Spell(a), Spell(s), Blank] + [Blank, Spell(b), Blank]
  }

  lemma LinesOfTwo(a: Word, s: Word, b: Word)
    ensures Lines(Cons(Leaf(ArgumentToken(a)), Cons(Leaf(ArgumentToken(b)), Nil)), s) == TwoLines(a, s, b)
  {
    var la, lb := Leaf(ArgumentToken(a)), Leaf(ArgumentToken(b));
    assert Written(la, true) == [] + [Spell(a)] + [];
    assert Written(lb, true) == [] + [Spell(b)] + [];
    assert Lines(Nil, s) == [];
    assert Lines(Cons(lb, Nil), s) == [Blank] + [Spell(b)] + [] + [Blank] + [];
    assert Lines(Cons(lb, Nil), s) == [Blank, Spell(b), Blank];
    assert Lines(Cons(la, Cons(lb, Nil)), s) == [Blank] + [Spell(a)] + [Spell(s)] + [Blank] + [Blank, Spell(b), Blank];
  }

  /** A list stands on lines of its own, its brackets too. */
  lemma ListWritten(tab: Table, a: Word, s: Word, b: Word, br: Bracket)
    requires PrintableTable(tab) && IsArgument(tab, a) && IsSeparatorWord(tab, s) && IsArgument(tab, b)
    ensures Writes(tab, [a, s, b], [Blank] + TwoLines(a, s, b))
    ensures Writes(tab, [OpenName(br), a, s, b, CloseName(br)],
      [Spell(OpenName(br)), Blank] + TwoLines(a, s, b) + [Spell(CloseName(br))])
  {
    var sep, la, lb := SeparatorToken(tab, s), Leaf(ArgumentToken(a)), Leaf(ArgumentToken(b));
    ListTree(tab, a, s, b);
    PhraseGives(tab, [Argument(a)] + [Separate(s)] + [Argument(b)], [a, s, b]);
    ListGroup(tab, None, br, a, s, b);
    assert [] + [OpenName(br)] + [a, s, b] + [CloseName(br)] == [OpenName(br), a, s, b, CloseName(br)];
    ListText(sep, a, b, br);
  }

  lemma ListText(sep: Token, a: Word, b: Word, br: Bracket)
    requires sep.kind == SEPARATOR && sep.close == None
    ensures var t := Bin(sep, Leaf(ArgumentToken(a)), Leaf(ArgumentToken(b)));
      && Unparsed(t) == [Blank] + TwoLines(a, sep.name, b)
      && Unparsed(Headed(Closed(t, br), None))
         == [Spell(OpenName(br)), Blank] + TwoLines(a, sep.name, b) + [Spell(CloseName(br))]
  {
    var t := Bin(sep, Leaf(ArgumentToken(a)), Leaf(ArgumentToken(b)));
    LinesOfTwo(a, sep.name, b);
    assert Unparsed(t) == [] + [] + [Blank] + TwoLines(a, sep.name, b) + [] + [];
    ClosedListText(sep, a, b, br, false);
    NoPad([Spell(OpenName(br)), Blank], TwoLines(a, sep.name, b), [Spell(CloseName(br))]);
  }

  lemma NoPad(a: seq<Bit>, b: seq<Bit>, c: seq<Bit>)
    ensures [] + a + b + [] + c == a + b + c
  {}

  /** A list assigned with `=` begins on a line of its own. */
  lemma AssignedList(eq: Token, sep: Token, x: Word, a: Word, b: Word, br: Bracket)
    requires eq.kind == BINARY && eq.close == None && eq.name == "=" && sep.kind == SEPARATOR
    ensures var list := Headed(Closed(Bin(sep, Leaf(ArgumentToken(a)), Leaf(ArgumentToken(b))), br), None);
      Unparsed(Bin(eq, Leaf(ArgumentToken(x)), list))
      == [Spell(x), Spell("="), Blank, Spell(OpenName(br)), Blank] + TwoLines(a, sep.name, b) + [Spell(CloseName(br))]
  {
    var t := Bin(sep, Leaf(ArgumentToken(a)), Leaf(ArgumentToken(b)));
    var list := Headed(Closed(t, br), None);
    var lx := Leaf(ArgumentToken(x));
    LeafText(x);
    ClosedListText(sep, a, b, br, false);
    var all, right := Bin(eq, lx, list), Written(list, false);
    assert all.cdr.car == lx && all.cdr.cdr.car == list && IsList(list);
    assert Inside(all, false) == [Spell(x)] + [Spell("=")] + [Blank] + right;
    assert Written(all, false) == [] + Inside(all, false) + [];
  }

  /** A list inside a list has its brackets indented. */
  lemma ClosedListText(sep: Token, a: Word, b: Word, br: Bracket, deep: bool)
    requires sep.kind == SEPARATOR
    ensures var list := Headed(Closed(Bin(sep, Leaf(ArgumentToken(a)), Leaf(ArgumentToken(b))), br), None);
      Written(list, deep)
      == (if deep then [Blank] else []) + [Spell(OpenName(br)), Blank] + TwoLines(a, sep.name, b)
         + (if deep then [Blank] else []) + [Spell(CloseName(br))]
  {
    var t := Bin(sep, Leaf(ArgumentToken(a)), Leaf(ArgumentToken(b)));
    var h := Headed(Closed(t, br), None);
    LinesOfTwo(a, sep.name, b);
    assert h.cdr == t.cdr;
    var pad: seq<Bit> := if deep then [Blank] else [];
    assert Written(h, deep)
        == pad + [Spell(OpenName(br))] + [Blank] + TwoLines(a, sep.name, b) + pad + [Spell(CloseName(br))];
    assert pad + [Spell(OpenName(br))] + [Blank] == pad + [Spell(OpenName(br)), Blank];
  }

  // ----- where prefix words end

  /** Only prefixes are named `w`. */
  predicate PrefixOnly(w: Word, t: Sexp) {
    match t
    case Nil => true
    case Atom(tok) => tok.name == w ==> tok.kind == MONARY || tok.kind == TYPE
    case Cons(a, d) => PrefixOnly(w, a) && PrefixOnly(w, d)
  }

  lemma {:induction false} PrefixOnlyFill(w: Word, s: Sexp, v: Sexp)
    requires PrefixOnly(w, s) && PrefixOnly(w, v)
    ensures PrefixOnly(w, Fill(s, v))
  {
    if s.Cons? {
      if s.cdr.Cons? { PrefixOnlyFill(w, s.cdr, v); } else { PrefixOnlyFill(w, s.car, v); }
    }
  }

  lemma {:induction false} PrefixOnlyLast(w: Word, s: Sexp, v: Sexp)
    requires s.Cons? && PrefixOnly(w, s)
    ensures PrefixOnly(w, Last(s)) && (PrefixOnly(w, v) ==> PrefixOnly(w, SetLast(s, v)))
  {
    if s.cdr.Cons? { PrefixOnlyLast(w, s.cdr, v); }
  }

  lemma {:induction false} PrefixOnlyBin(w: Word, t: Sexp, op: Token)
    requires PrefixOnly(w, t) && op.name != w
    ensures PrefixOnly(w, BinIns(t, op))
    decreases t
  {
    if !Rooted(t) || t.car.tok.precedence >= op.precedence {
      assert PrefixOnly(w, Cons(t, Cons(Nil, Nil)));
    } else {
      PrefixOnlyLast(w, t, Nil);
      PrefixOnlyBin(w, Last(t), op);
      PrefixOnlyLast(w, t, BinIns(Last(t), op));
    }
  }

  lemma {:induction false} PrefixOnlyAppend(w: Word, s: Sexp)
    requires s.Cons? && PrefixOnly(w, s)
    ensures PrefixOnly(w, AppendSlot(s))
  {
    if s.cdr.Cons? {
      PrefixOnlyAppend(w, s.cdr);
    } else {
      assert PrefixOnly(w, Cons(Nil, Nil));
    }
  }

  lemma PrefixOnlySep(w: Word, t: Sexp, sep: Token)
    requires PrefixOnly(w, t) && sep.name != w
    ensures PrefixOnly(w, SepIns(t, sep))
  {
    if OpenList(t) {
      PrefixOnlyAppend(w, t);
    } else {
      assert PrefixOnly(w, Cons(t, Cons(Nil, Nil)));
    }
  }

  /** A prefix word of letters that is no operator. */
  predicate PureName(tab: Table, w: Word) { IsPrefixWord(tab, w) && !IsInfixWord(tab, w) && IsAlpha(w[0]) }

  lemma {:induction false} PhrasePrefixOnly(tab: Table, p: seq<Item>, w: Word)
    requires PrintableTable(tab) && WellFormedSoFar(tab, p) && PureName(tab, w)
    ensures PrefixOnly(w, PhraseTree(tab, p))
    decreases p, 1
  {
    if p == [] {
      EmptyPhrase(tab);
    } else {
      var q, x := p[..|p| - 1], p[|p| - 1];
      Acceptance.Shrink(tab, p);
      PhrasePrefixOnly(tab, q, w);
      if Ends(x) {
        Acceptance.AddOperand(tab, q, x);
        OperandPrefixOnly(tab, x, w);
        PrefixOnlyFill(w, PhraseTree(tab, q), PieceOf(tab, x).e.tree);
      } else {
        OperatorPrefixOnly(tab, q, x, w);
      }
    }
  }

  lemma OperatorPrefixOnly(tab: Table, q: seq<Item>, x: Item, w: Word)
    requires PrintableTable(tab) && WellFormedSoFar(tab, q) && ItemOk(tab, x) && !Ends(x)
    requires StartsOperand(x) <==> !Acceptance.Ended(q)
    requires PureName(tab, w) && PrefixOnly(w, PhraseTree(tab, q))
    ensures WellFormedSoFar(tab, q + [x]) && PrefixOnly(w, PhraseTree(tab, q + [x]))
  {
    if x.Prefix? {
      Acceptance.AddPrefix(tab, q, x.word);
      PrefixOnlyFill(w, PhraseTree(tab, q), Mon(PrefixToken(tab, x.word), Nil));
    } else if x.Infix? {
      Acceptance.AddInfix(tab, q, x.word);
      PrefixOnlyBin(w, PhraseTree(tab, q), InfixToken(tab, x.word));
    } else {
      Acceptance.AddSeparator(tab, q, x.word);
      PrefixOnlySep(w, PhraseTree(tab, q), SeparatorToken(tab, x.word));
    }
  }

  lemma {:induction false} OperandPrefixOnly(tab: Table, x: Item, w: Word)
    requires PrintableTable(tab) && ItemOk(tab, x) && PureName(tab, w) && Ends(x)
    ensures PieceOf(tab, x).Op? && PieceOf(tab, x).e.Operand? && PrefixOnly(w, PieceOf(tab, x).e.tree)
    decreases x, 0
  {
    if x.Group? {
      assert WellFormed(tab, x.body);
      PhraseSound(tab, x.body);
      PhrasePrefixOnly(tab, x.body, w);
      GroupPrefixOnly(tab, PhraseTree(tab, x.body), x, w);
    }
  }

  lemma GroupPrefixOnly(tab: Table, t: Sexp, x: Item, w: Word)
    requires PrintableTable(tab) && ItemOk(tab, x) && x.Group? && PureName(tab, w) && Rooted(t) && PrefixOnly(w, t)
    ensures PrefixOnly(w, Headed(Closed(t, x.br), x.head))
  {
    var c := Closed(t, x.br);
    assert PrefixOnly(w, c.car) && PrefixOnly(w, c.cdr);
    if x.head.Some? {
      assert FunctionName(x.head.value) != w;
      assert PrefixOnly(w, Cons(c, Nil));
    }
  }

  /** A blank stands behind `w` wherever it is written. */
  predicate EndsWord(b: seq<Bit>, w: Word) {
    forall i :: 0 <= i < |b| && b[i] == Spell(w) ==> i + 1 < |b| && b[i + 1] == Blank
  }

  lemma EndsWordAll(a: seq<Bit>, b: seq<Bit>, c: seq<Bit>, d: seq<Bit>, e: seq<Bit>, w: Word)
    requires EndsWord(a, w) && EndsWord(b, w) && EndsWord(c, w) && EndsWord(d, w) && EndsWord(e, w)
    ensures EndsWord(a + b + c + d + e, w) && EndsWord(a + b + c + d, w) && EndsWord(a + b + c, w)
  {
    EndsWordBoth(a, b, w);
    EndsWordBoth(a + b, c, w);
    EndsWordBoth(a + b + c, d, w);
    EndsWordBoth(a + b + c + d, e, w);
  }

  lemma EndsWordBoth(a: seq<Bit>, b: seq<Bit>, w: Word)
    requires EndsWord(a, w) && EndsWord(b, w)
    ensures EndsWord(a + b, w)
  {
    var s := a + b;
    forall i | 0 <= i < |s| && s[i] == Spell(w) ensures i + 1 < |s| && s[i + 1] == Blank {
      if i >= |a| { assert b[i - |a|] == Spell(w); }
    }
  }

  lemma {:induction false} WrittenEndsWord(t: Sexp, deep: bool, w: Word)
    requires PrefixOnly(w, t) && IsAlpha(w[0])
    ensures EndsWord(Written(t, deep), w)
    decreases t, 1
  {
    if Rooted(t) {
      var tok := t.car.tok;
      assert PrefixOnly(w, t.car) && PrefixOnly(w, t.cdr);
      if tok.kind == SEPARATOR {
        LinesEndsWord(t.cdr, tok.name, w);
        EndsWordAll(Indent(deep), PrintedText.Open(tok), [Blank], Lines(t.cdr, tok.name), Indent(deep), w);
        EndsWordBoth(Indent(deep) + PrintedText.Open(tok) + [Blank] + Lines(t.cdr, tok.name) + Indent(deep),
                     PrintedText.Close(tok), w);
      } else {
        InsideEndsWord(t, deep, w);
        EndsWordAll(PrintedText.Open(tok), Inside(t, deep), PrintedText.Close(tok), [], [], w);
      }
    }
  }

  lemma {:induction false} InsideEndsWord(t: Sexp, deep: bool, w: Word)
    requires Rooted(t) && PrefixOnly(w, t) && IsAlpha(w[0])
    ensures EndsWord(Inside(t, deep), w)
    decreases t, 0
  {
    var tok, d := t.car.tok, t.cdr;
    assert PrefixOnly(w, t.car) && PrefixOnly(w, d);
    match tok.kind
    case ARGUMENT =>
    case SEPARATOR =>
    case FUNCTION =>
      ListedEndsWord(d, deep, w);
      CallEndsWord(tok, Listed(d, deep), w);
    case BINARY =>
      if d.Cons? && d.cdr.Cons? {
        assert PrefixOnly(w, d.car) && PrefixOnly(w, d.cdr);
        WrittenEndsWord(d.car, deep, w);
        WrittenEndsWord(d.cdr.car, deep, w);
        var gap := if tok.name == "=" && IsList(d.cdr.car) then [Blank] else [];
        EndsWordAll(Written(d.car, deep), [Spell(tok.name)], gap, Written(d.cdr.car, deep), [], w);
      }
    case _ =>
      if d.Cons? { WrittenEndsWord(d.car, deep, w); }
      OperatorEndsWord(tok, if d.Cons? then Written(d.car, deep) else [], w);
  }

  lemma CallEndsWord(tok: Token, d: seq<Bit>, w: Word)
    requires IsAlpha(w[0]) && tok.name != w && EndsWord(d, w)
    ensures EndsWord([Spell(tok.name)] + [Spell("(")] + d + [Spell(")")], w) && EndsWord([Spell(tok.name)] + d, w)
  {
    EndsWordAll([Spell(tok.name)], [Spell("(")], d, [Spell(")")], [], w);
    EndsWordBoth([Spell(tok.name)], d, w);
  }

  lemma OperatorEndsWord(tok: Token, d: seq<Bit>, w: Word)
    requires IsAlpha(w[0]) && EndsWord(d, w)
    ensures EndsWord(Operator(tok) + d, w)
  {
    assert EndsWord(Operator(tok), w);
    EndsWordBoth(Operator(tok), d, w);
  }

  lemma {:induction false} ListedEndsWord(d: Sexp, deep: bool, w: Word)
    requires PrefixOnly(w, d) && IsAlpha(w[0])
    ensures EndsWord(Listed(d, deep), w)
    decreases d, 2
  {
    if d.Cons? {
      WrittenEndsWord(d.car, deep, w);
      ListedEndsWord(d.cdr, deep, w);
      EndsWordAll([Spell(",")], [Blank], Listed(d.cdr, deep), [], [], w);
      EndsWordBoth(Written(d.car, deep), if d.cdr.Cons? then [Spell(",")] + [Blank] + Listed(d.cdr, deep) else [], w);
    }
  }

  lemma {:induction false} LinesEndsWord(d: Sexp, sep: Word, w: Word)
    requires PrefixOnly(w, d) && IsAlpha(w[0]) && sep != w
    ensures EndsWord(Lines(d, sep), w)
    decreases d, 2
  {
    if d.Cons? {
      WrittenEndsWord(d.car, true, w);
      LinesEndsWord(d.cdr, sep, w);
      EndsWordAll([Blank], Written(d.car, true), if d.cdr.Cons? then [Spell(sep)] else [], [Blank], Lines(d.cdr, sep),
                  w);
    }
  }

  /** Nothing stands next to `w` on its right. */
  predicate EndsChunk(cs: seq<Chunk>, w: Word) {
    forall i, k :: 0 <= i < |cs| && cs[i].Side? && 0 <= k < |cs[i].ws| - 1 ==> cs[i].ws[k] != w
  }

  /** The last stretch, if a blank does not end it. */
  predicate OpenEnd(cs: seq<Chunk>, v: Option<Word>) {
    cs != [] && cs[|cs| - 1].Side? ==> var ws := cs[|cs| - 1].ws; ws != [] && v == Some(ws[|ws| - 1])
  }

  lemma MoreEndsChunk(cs: seq<Chunk>, more: seq<Chunk>, v: Option<Word>, w: Word)
    requires EndsChunk(cs, w) && more != [] && forall i :: 0 <= i < |more| ==> !more[i].Side?
    ensures EndsChunk(cs + more, w) && OpenEnd(cs + more, v)
  {
    var all := cs + more;
    assert all[|all| - 1] == more[|more| - 1];
    assert forall i :: 0 <= i < |all| ==> all[i] == if i < |cs| then cs[i] else more[i - |cs|];
  }

  lemma PushEndsChunk(cs: seq<Chunk>, last: Option<Word>, x: Bit, w: Word)
    requires EndsChunk(cs, w) && OpenEnd(cs, last) && (last == Some(w) ==> x == Blank)
    ensures EndsChunk(Push(cs, x), w) && OpenEnd(Push(cs, x), if x.Spell? then Some(x.w) else None)
  {
    if x.Blank? {
      MoreEndsChunk(cs, [Gap], None, w);
    } else if Quoted(x.w) {
      MoreEndsChunk(cs, [Quote(x.w)], Some(x.w), w);
    } else if IsMark(x.w) {
      NoSide(x.w);
      MoreEndsChunk(cs, Squares(x.w), Some(x.w), w);
    } else {
      BesideEndsChunk(cs, x.w, w);
    }
  }

  lemma NoSide(w: Word)
    ensures forall i :: 0 <= i < |Squares(w)| ==> !Squares(w)[i].Side?
  {}

  lemma {:induction false} ChunksEndWord(b: seq<Bit>, w: Word)
    requires forall i :: 0 <= i < |b| - 1 && b[i] == Spell(w) ==> b[i + 1] == Blank
    ensures EndsChunk(Chunks(b), w)
    ensures OpenEnd(Chunks(b), if b != [] && b[|b| - 1].Spell? then Some(b[|b| - 1].w) else None)
  {
    if b != [] {
      var l, x := b[..|b| - 1], b[|b| - 1];
      ChunksEndWord(l, w);
      PushEndsChunk(Chunks(l), if l != [] && l[|l| - 1].Spell? then Some(l[|l| - 1].w) else None, x, w);
    }
  }

  lemma BesideEndsChunk(cs: seq<Chunk>, v: Word, w: Word)
    requires EndsChunk(cs, w)
    requires cs != [] && cs[|cs| - 1].Side? ==> var ws := cs[|cs| - 1].ws; ws != [] && ws[|ws| - 1] != w
    ensures EndsChunk(Beside(cs, v), w)
    ensures var r := Beside(cs, v); r[|r| - 1].Side? && var ws := r[|r| - 1].ws; ws != [] && ws[|ws| - 1] == v
  {
    if cs != [] && cs[|cs| - 1].Side? {
      var ws := cs[|cs| - 1].ws;
      forall k | 0 <= k < |ws + [v]| - 1 ensures (ws + [v])[k] != w {
        assert (ws + [v])[k] == ws[k];
      }
    }
  }

  /** In the text of any accepted input a blank stands behind every prefix
      word of letters, so it sticks to no word behind it. */
  lemma PrefixWordsEnd(tab: Table, words: seq<Word>, t: Sexp, w: Word)
    requires PrintableTable(tab) && PureName(tab, w) && Parse(tab, words) == Parsed(t, [])
    ensures EndsWord(Unparsed(t), w) && EndsChunk(Chunks(Unparsed(t)), w)
  {
    Acceptance.AcceptsExactlyPhrases(tab, words, t);
    var p :| WellFormed(tab, p) && Yield(p) == words && PhraseTree(tab, p) == t;
    PhrasePrefixOnly(tab, p, w);
    WrittenEndsWord(PhraseTree(tab, p), false, w);
    ChunksEndWord(Unparsed(t), w);
  }
}
