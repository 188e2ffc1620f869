/** What the parser makes of the words a tree is printed with. */
module Reparse {
  import opened Options
  import opened SyntaxTree
  import opened Precedence
  import opened Level
  import opened Phrase
  import opened Acceptance
  import opened Unparse

  /** Further facts of the scanner's table that printing relies on: words hold
      no blanks, semicolon and comma are the separators, and of the names the
      parser invents only `^` is a symbol, with the precedence of `**`. */
  predicate PrintableTable(tab: Table) {
    && ValidTable(tab)
    && (forall w :: w in tab ==> w[0] != ' ')
    && IsSeparatorWord(tab, ",") && (forall w :: w in tab && tab[w].Separator? ==> w == ";" || w == ",")
    && Lookup(tab, "!") == Some(Monary(None)) && IsArgument(tab, "Not")
    && Lookup(tab, "^") == Lookup(tab, "**") && IsInfixWord(tab, "^") && Lookup(tab, "^").value.Binary?
    && IsArgument(tab, "Eq") && IsArgument(tab, "SqRt") && IsArgument(tab, "Pow")
  }

  /** A group without a head, alone at its level: a second pair of brackets. */
  predicate Double(body: seq<Item>) { |body| == 1 && body[0].Group? && body[0].head == None }

  function SepWord(p: seq<Item>): Option<Word> {
    if p == [] then None else if p[0].Separate? then Some(p[0].word) else SepWord(p[1..])
  }

  /** The separator of the innermost level under double brackets. */
  function BodySep(body: seq<Item>): Option<Word> {
    if Double(body) then BodySep(body[0].body) else SepWord(body)
  }

  function Or(o: Option<Word>, w: Word): Word { if o.Some? then o.value else w }

  // ----- the phrase a tree is printed as

  function PrintedItem(x: Item, sep: Word): Item
    decreases x, 0
  {
    match x
    case Prefix(w) => Prefix(if w == "!" then "Not" else w)
    case Infix(w) => Infix(if w == "**" then "^" else w)
    case Separate(_) => Separate(sep)
    case Argument(w) => x
    case Group(head, br, body) =>
      if head.Some? && BodySep(body).Some? then
        Group(Some(FunctionName(head.value)), Paren, PrintedBody(body, ","))
      else
        Group(if head.Some? then Some(FunctionName(head.value)) else None, br,
              PrintedBody(body, Or(BodySep(body), ",")))
  }

  function PrintedItems(p: seq<Item>, sep: Word): seq<Item>
    decreases p, 0
  {
    if p == [] then []
    else
      var n := |p| - 1;
      PrintedItems(p[..n], sep) + [PrintedItem(p[n], sep)]
  }

  /** Double brackets collapse into one pair. */
  function PrintedBody(body: seq<Item>, sep: Word): seq<Item>
    decreases body, 1
  {
    if Double(body) then PrintedBody(body[0].body, sep) else PrintedItems(body, sep)
  }

  function Printed(p: seq<Item>): seq<Item> { PrintedItems(p, Or(SepWord(p), ",")) }

  // ----- separators of a phrase and of its tree

  lemma {:induction false} SepWordSnoc(p: seq<Item>, x: Item)
    ensures SepWord(p + [x]) ==
      if SepWord(p).Some? then SepWord(p) else if x.Separate? then Some(x.word) else None
    decreases |p|
  {
    if p == [] {
      assert p + [x] == [x] && [x][1..] == [];
    } else {
      assert (p + [x])[1..] == p[1..] + [x];
      SepWordSnoc(p[1..], x);
    }
  }

  lemma FirstSepSnoc(tab: Table, p: seq<Item>, n: nat)
    requires WellFormedSoFar(tab, p) && |p| == n + 1 && WellFormedSoFar(tab, p[..n]) && ItemOk(tab, p[n])
    ensures FirstSep(Pieces(tab, p)) ==
      if FirstSep(Pieces(tab, p[..n])).Some? then FirstSep(Pieces(tab, p[..n]))
      else if p[n].Separate? then Some(SeparatorToken(tab, p[n].word)) else None
  {
    Snoc(Pieces(tab, p[..n]), PieceOf(tab, p[n]));
  }

  lemma {:induction false} SepWordIsFirst(tab: Table, p: seq<Item>)
    requires WellFormedSoFar(tab, p)
    ensures SepWord(p).Some? ==> IsSeparatorWord(tab, SepWord(p).value)
    ensures FirstSep(Pieces(tab, p)) ==
      if SepWord(p).Some? then Some(SeparatorToken(tab, SepWord(p).value)) else None
  {
    if p != [] {
      var n := |p| - 1;
      assert p == p[..n] + [p[n]] && WellFormedSoFar(tab, p[..n]) && ItemOk(tab, p[n]) by { Shrink(tab, p); }
      SepWordIsFirst(tab, p[..n]);
      SepWordSnoc(p[..n], p[n]);
      FirstSepSnoc(tab, p, n);
    }
  }

  lemma {:induction false} PiecesPrintable(tab: Table, p: seq<Item>)
    requires ValidTable(tab) && WellFormedSoFar(tab, p)
    ensures PrintableLevel(Pieces(tab, p))
  {
    PhraseSound(tab, p);
    if p != [] {
      Shrink(tab, p);
      PiecesPrintable(tab, p[..|p| - 1]);
    }
  }

  /** The root of a body's tree is a separator just when its innermost level
      has one. */
  lemma {:induction false} RootKind(tab: Table, body: seq<Item>)
    requires ValidTable(tab) && WellFormed(tab, body)
    ensures Rooted(PhraseTree(tab, body))
    ensures PhraseTree(tab, body).car.tok.kind == SEPARATOR <==> BodySep(body).Some?
    ensures PhraseTree(tab, body).car.tok.close.Some? <==> Double(body)
    decreases body
  {
    PhraseSound(tab, body);
    var ps := Pieces(tab, body);
    LevelSlots(ps);
    if |body| == 1 {
      var x := body[0];
      assert body == [x] && body[1..] == [];
      LoneItem(tab, x);
      assert SepWord(body) == SepWord(body[1..]) == None;
      if x.Group? {
        assert WellFormed(tab, x.body);
        RootKind(tab, x.body);
        assert PieceOf(tab, x).e.tree == Headed(Closed(PhraseTree(tab, x.body), x.br), x.head);
      } else {
        assert PieceOf(tab, x).e.tree == Leaf(ArgumentToken(x.word));
      }
    } else {
      RootUnclosed(ps);
      SepWordIsFirst(tab, body);
      DoneShape(ps);
      if FirstSep(ps).None? { RootIsOperator(ps); }
    }
  }

  lemma RootIsOperator(ps: seq<Piece>)
    requires Sound(ps) && |ps| > 1 && FirstSep(ps).None?
    ensures Rooted(LevelTree(ps)) && LevelTree(ps).car.tok.kind != SEPARATOR
  {
    DoneShape(ps);
    CurIsSegment(ps);
    var e := Padded(Cur(ps));
    CanonRoot(e);
    var x :| x in e && !x.Operand? && Canon(e).car.tok == x.tok;
    assert ElemOk(x);
  }

  // ----- the printed words are the words of the printed phrase

  lemma PrintMarked(t: Sexp, br: Bracket)
    requires Rooted(t)
    ensures Print(Closed(t, br)) == [OpenName(br)] + Body(t) + [CloseName(br)]
  {
    assert Body(Closed(t, br)) == Body(t);
  }

  lemma PrintHeaded(t: Sexp, br: Bracket, head: Option<Word>)
    requires Rooted(t)
    ensures head == None ==> Print(Headed(Closed(t, br), head)) == [OpenName(br)] + Body(t) + [CloseName(br)]
    ensures head.Some? && t.car.tok.kind != SEPARATOR ==>
      Print(Headed(Closed(t, br), head)) == [FunctionName(head.value)] + [OpenName(br)] + Body(t) + [CloseName(br)]
    ensures head.Some? && t.car.tok.kind == SEPARATOR && t.cdr.Cons? && t.cdr.cdr.Cons? ==>
      Print(Headed(Closed(t, br), head)) == [FunctionName(head.value)] + ["("] + Join(t.cdr, ",") + [")"]
  {
    var h := Headed(Closed(t, br), head);
    PrintMarked(t, br);
    if head.None? {
      assert Body(h) == Body(t);
    } else if t.car.tok.kind != SEPARATOR {
      assert h.cdr == Cons(Closed(t, br), Nil);
      assert Join(h.cdr, ",") == Print(Closed(t, br)) + [];
      assert Print(h) == [] + Body(h) + [];
      Assoc([FunctionName(head.value)], [OpenName(br)], Body(t));
      Assoc([FunctionName(head.value)], [OpenName(br)] + Body(t), [CloseName(br)]);
    } else {
      assert h.cdr == t.cdr && Print(h) == [] + Body(h) + [];
    }
  }

  lemma {:induction false} PrintedYield(tab: Table, p: seq<Item>, sep: Word)
    requires PrintableTable(tab) && WellFormedSoFar(tab, p)
    ensures Yield(PrintedItems(p, sep)) == PiecesWords(Pieces(tab, p), sep)
    decreases p, 0
  {
    if p != [] {
      var n := |p| - 1;
      Shrink(tab, p);
      PrintedYield(tab, p[..n], sep);
      PrintedWords(tab, p[n], sep);
      YieldConcat(PrintedItems(p[..n], sep), [PrintedItem(p[n], sep)]);
      YieldOne(PrintedItem(p[n], sep));
    }
  }

  lemma {:induction false} PrintedWords(tab: Table, x: Item, sep: Word)
    requires PrintableTable(tab) && ItemOk(tab, x)
    ensures Words(PrintedItem(x, sep)) == PieceWords(PieceOf(tab, x), sep)
    decreases x, 0
  {
    match x
    case Prefix(w) => SpokenPrefix(tab, w);
    case Infix(w) => SpokenInfix(tab, w);
    case Separate(w) =>
    case Argument(w) => assert Print(Leaf(ArgumentToken(w))) == [w];
    case Group(head, br, body) =>
      assert WellFormed(tab, body);
      RootKind(tab, body);
      BodyPrints(tab, body, GroupSep(x));
      GroupPrints(PhraseTree(tab, body), x, sep);
  }

  /** The separator a group is printed with. */
  function GroupSep(x: Item): Word
    requires x.Group?
  {
    if x.head.Some? && BodySep(x.body).Some? then "," else Or(BodySep(x.body), ",")
  }

  lemma GroupPrints(t: Sexp, x: Item, sep: Word)
    requires x.Group? && Rooted(t) && (t.car.tok.kind == SEPARATOR <==> BodySep(x.body).Some?)
    requires PrintsBody(t, BodySep(x.body), GroupSep(x), Yield(PrintedBody(x.body, GroupSep(x))))
    ensures Words(PrintedItem(x, sep)) == Print(Headed(Closed(t, x.br), x.head))
  {
    PrintHeaded(t, x.br, x.head);
    var y := PrintedItem(x, sep);
    assert y.Group? && y.body == PrintedBody(x.body, GroupSep(x));
    if x.head.None? {
      assert Words(y) == [] + [OpenName(y.br)] + Yield(y.body) + [CloseName(y.br)];
      assert [] + [OpenName(y.br)] == [OpenName(y.br)];
    }
  }

  lemma SpokenInfix(tab: Table, w: Word)
    requires PrintableTable(tab) && IsInfixWord(tab, w)
    ensures InfixToken(tab, w).name == if w == "**" then "^" else w
  {}

  lemma SpokenPrefix(tab: Table, w: Word)
    requires PrintableTable(tab) && IsPrefixWord(tab, w)
    ensures Spoken(PrefixToken(tab, w).name) == if w == "!" then "Not" else w
  {
    if Lookup(tab, w) == Some(Monary(None)) || Lookup(tab, w) == Some(Type) {
    } else {
      var name: Word := " " + w + " ";
      assert PrefixToken(tab, w).name == name && name[1..|name| - 1] == w;
    }
  }

  /** Under one pair of brackets a body prints like the body below its double
      brackets; a separator list prints its branches with any separator. */
  lemma {:induction false} BodyPrints(tab: Table, body: seq<Item>, sep: Word)
    requires PrintableTable(tab) && WellFormed(tab, body)
    ensures PrintsBody(PhraseTree(tab, body), BodySep(body), sep, Yield(PrintedBody(body, sep)))
    decreases body, 1
  {
    if Double(body) {
      assert ItemOk(tab, body[0]) && WellFormed(tab, body[0].body);
      BodyPrints(tab, body[0].body, sep);
      DoubleBodyPrints(tab, body, sep, Yield(PrintedBody(body, sep)));
    } else {
      PrintedYield(tab, body, sep);
      FlatBodyPrints(tab, body, sep);
    }
  }

  lemma DoubleBodyPrints(tab: Table, body: seq<Item>, sep: Word, text: seq<Word>)
    requires PrintableTable(tab) && WellFormed(tab, body) && Double(body) && WellFormed(tab, body[0].body)
    requires PrintsBody(PhraseTree(tab, body[0].body), BodySep(body[0].body), sep, text)
    ensures PrintsBody(PhraseTree(tab, body), BodySep(body), sep, text)
  {
    var x := body[0];
    assert body == [x];
    LoneItem(tab, x);
    RootKind(tab, x.body);
    ClosedPrintsBody(PhraseTree(tab, x.body), x.br, BodySep(x.body), sep, text);
  }

  lemma ClosedPrintsBody(t: Sexp, br: Bracket, bodySep: Option<Word>, sep: Word, text: seq<Word>)
    requires PrintsBody(t, bodySep, sep, text)
    ensures PrintsBody(Headed(Closed(t, br), None), bodySep, sep, text)
  {}

  /** The inside of a body's tree prints as `text`. */
  predicate PrintsBody(t: Sexp, bodySep: Option<Word>, sep: Word, text: seq<Word>) {
    && Rooted(t)
    && (bodySep.None? ==> Body(t) == text)
    && (bodySep.Some? ==>
          t.cdr.Cons? && t.cdr.cdr.Cons? && Join(t.cdr, sep) == text
          && t.car.tok.kind == SEPARATOR && t.car.tok.name == bodySep.value)
  }

  lemma FlatBodyPrints(tab: Table, body: seq<Item>, sep: Word)
    requires ValidTable(tab) && WellFormed(tab, body) && !Double(body)
    ensures PrintsBody(PhraseTree(tab, body), BodySep(body), sep, PiecesWords(Pieces(tab, body), sep))
  {
    RootKind(tab, body);
    PhraseSound(tab, body);
    PiecesPrintable(tab, body);
    PrintLevel(Pieces(tab, body), sep);
    SepWordIsFirst(tab, body);
    var t := PhraseTree(tab, body);
    assert FirstSep(Pieces(tab, body)).None? ==> Print(t) == [] + Body(t) + [] == Body(t);
  }

  /** The words printed for a phrase's tree are those of the printed phrase. */
  lemma PrintIsYield(tab: Table, p: seq<Item>)
    requires PrintableTable(tab) && WellFormed(tab, p)
    ensures Print(PhraseTree(tab, p)) == Yield(Printed(p))
  {
    var sep := Or(SepWord(p), ",");
    var t := PhraseTree(tab, p);
    PhraseSound(tab, p);
    PiecesPrintable(tab, p);
    PrintLevel(Pieces(tab, p), sep);
    PrintedYield(tab, p, sep);
    SepWordIsFirst(tab, p);
    if SepWord(p).Some? {
      LevelSlots(Pieces(tab, p));
      assert t.car.tok == SeparatorToken(tab, sep);
      assert Print(t) == [] + Join(t.cdr, sep) + [];
    }
  }
}
