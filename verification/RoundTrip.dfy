/** The phrase whose words a tree is printed with has the same tree, unless a
    name was respelt. */
module RoundTrip {
  import opened Options
  import opened SyntaxTree
  import opened Precedence
  import opened Level
  import opened Phrase
  import opened Acceptance
  import opened Unparse
  import opened Reparse

  // ----- trees up to the precedences the parser leaves in the tokens

  function Erase(t: Sexp): Sexp {
    match t
    case Nil => Nil
    case Atom(tok) => Atom(tok.(precedence := 0))
    case Cons(a, d) => Cons(Erase(a), Erase(d))
  }

  lemma {:induction false} EraseTwice(t: Sexp)
    ensures Erase(Erase(t)) == Erase(t)
  {
    if t.Cons? {
      EraseTwice(t.car);
      EraseTwice(t.cdr);
    }
  }

  /** Printing does not look at precedences. */
  lemma {:induction false} PrintErased(t: Sexp)
    ensures Print(Erase(t)) == Print(t)
    ensures Rooted(t) ==> Rooted(Erase(t)) && Body(Erase(t)) == Body(t)
    decreases t, 1
  {
    if Rooted(t) { BodyErased(t); }
  }

  lemma {:induction false} BodyErased(t: Sexp)
    requires Rooted(t)
    ensures Rooted(Erase(t)) && Body(Erase(t)) == Body(t)
    decreases t, 0
  {
    match t.car.tok.kind
    case ARGUMENT =>
    case SEPARATOR => JoinErased(t.cdr, t.car.tok.name);
    case FUNCTION => JoinErased(t.cdr, ",");
    case BINARY =>
      assert Erase(t).cdr.Cons? == t.cdr.Cons?;
      assert t.cdr.Cons? ==> Erase(t.cdr).cdr == Erase(t.cdr.cdr);
      if t.cdr.Cons? && t.cdr.cdr.Cons? {
        assert Erase(t.cdr.cdr).car == Erase(t.cdr.cdr.car);
        PrintErased(t.cdr.car);
        PrintErased(t.cdr.cdr.car);
      }
    case _ =>
      if t.cdr.Cons? { PrintErased(t.cdr.car); }
  }

  lemma {:induction false} JoinErased(d: Sexp, sep: Word)
    ensures Join(Erase(d), sep) == Join(d, sep)
    decreases d, 1
  {
    if d.Cons? {
      PrintErased(d.car);
      JoinErased(d.cdr, sep);
    }
  }

  function BlurElem(e: Elem): Elem { if e.Operand? then Operand(Erase(e.tree)) else e }

  function Blur(e: seq<Elem>): (b: seq<Elem>)
    ensures |b| == |e| && forall i :: 0 <= i < |e| ==> b[i] == BlurElem(e[i])
  {
    seq(|e|, i requires 0 <= i < |e| => BlurElem(e[i]))
  }

  function BlurTree(t: OpTree): OpTree {
    match t
    case Hold(x) => Hold(Erase(x))
    case Un(p, s) => Un(p, BlurTree(s))
    case Bi(q, l, r) => Bi(q, BlurTree(l), BlurTree(r))
  }

  lemma {:induction false} BlurInOrder(t: OpTree)
    ensures InOrder(BlurTree(t)) == Blur(InOrder(t))
    ensures Erase(Layout(BlurTree(t))) == Erase(Layout(t))
  {
    match t
    case Hold(x) => EraseTwice(x);
    case Un(p, s) =>
      BlurInOrder(s);
      EraseNode(p, Nil, Layout(s));
      EraseNode(p, Nil, Layout(BlurTree(s)));
    case Bi(q, l, r) =>
      BlurInOrder(l);
      BlurInOrder(r);
      EraseNode(q, Layout(l), Layout(r));
      EraseNode(q, Layout(BlurTree(l)), Layout(BlurTree(r)));
  }

  lemma EraseNode(t: Token, l: Sexp, r: Sexp)
    ensures Erase(Bin(t, l, r)) == Bin(t.(precedence := 0), Erase(l), Erase(r))
    ensures Erase(Mon(t, r)) == Mon(t.(precedence := 0), Erase(r))
  {
    assert Erase(Cons(r, Nil)) == Cons(Erase(r), Nil);
  }

  lemma BlurKeepsOperators(e: seq<Elem>, x: Elem)
    requires x in Blur(e) && !x.Operand?
    ensures x in e
  {}

  lemma {:induction false} BlurObeys(t: OpTree)
    requires Obeys(t)
    ensures Obeys(BlurTree(t))
  {
    match t
    case Hold(_) =>
    case Un(p, s) =>
      BlurObeys(s);
      BlurInOrder(s);
      forall x | x in InOrder(BlurTree(s)) && x.Inf? ensures p.precedence < x.tok.precedence {
        BlurKeepsOperators(InOrder(s), x);
      }
    case Bi(q, l, r) =>
      BlurObeys(l);
      BlurObeys(r);
      BlurInOrder(l);
      BlurInOrder(r);
      forall x | x in InOrder(BlurTree(l)) && x.Inf? ensures q.precedence <= x.tok.precedence {
        BlurKeepsOperators(InOrder(l), x);
      }
      forall x | x in InOrder(BlurTree(r)) && x.Inf? ensures q.precedence < x.tok.precedence {
        BlurKeepsOperators(InOrder(r), x);
      }
  }

  /** The shape of an operator tree does not depend on its operands. */
  lemma BlurCanon(e: seq<Elem>)
    requires Alternates(e)
    ensures Alternates(Blur(e)) && Erase(Canon(Blur(e))) == Erase(Canon(e))
  {
    var t := CanonObeys(e);
    BlurInOrder(t);
    BlurObeys(t);
    ObeysIsCanon(BlurTree(t));
  }

  function BlurPiece(p: Piece, sep: Token): Piece {
    if p.Sep? then Sep(sep) else Op(BlurElem(p.e))
  }

  function BlurPieces(ps: seq<Piece>, sep: Token): (b: seq<Piece>) {
    if ps == [] then [] else BlurPieces(ps[..|ps| - 1], sep) + [BlurPiece(ps[|ps| - 1], sep)]
  }

  function EraseAll(ts: seq<Sexp>): (r: seq<Sexp>)
    ensures |r| == |ts| && forall i :: 0 <= i < |ts| ==> r[i] == Erase(ts[i])
  {
    seq(|ts|, i requires 0 <= i < |ts| => Erase(ts[i]))
  }

  lemma BlurSegment(e: seq<Elem>)
    requires Alternates(Padded(e))
    ensures Erase(SegTree(Blur(e))) == Erase(SegTree(e))
  {
    BlurCanon(Padded(e));
    assert Blur(Padded(e)) == Padded(Blur(e));
  }

  lemma BlurPiecesSnoc(ps: seq<Piece>, p: Piece, sep: Token)
    ensures BlurPieces(ps + [p], sep) == BlurPieces(ps, sep) + [BlurPiece(p, sep)]
  {
    assert (ps + [p])[..|ps|] == ps;
  }

  lemma BlurSnocElem(e: seq<Elem>, x: Elem)
    ensures Blur(e + [x]) == Blur(e) + [BlurElem(x)]
  {}

  /** The parts of a level are those of the blurred level, blurred. */
  predicate Blurred(ps: seq<Piece>, sep: Token) {
    && Cur(BlurPieces(ps, sep)) == Blur(Cur(ps))
    && EraseAll(Done(BlurPieces(ps, sep))) == EraseAll(Done(ps))
    && FirstSep(BlurPieces(ps, sep)) == if FirstSep(ps).Some? then Some(sep) else None
  }

  lemma BlurOp(ps: seq<Piece>, e: Elem, sep: Token)
    requires Blurred(ps, sep)
    ensures Blurred(ps + [Op(e)], sep)
  {
    BlurPiecesSnoc(ps, Op(e), sep);
    Snoc(BlurPieces(ps, sep), Op(BlurElem(e)));
    Snoc(ps, Op(e));
    BlurSnocElem(Cur(ps), e);
  }

  lemma BlurSep(ps: seq<Piece>, tok: Token, sep: Token)
    requires Blurred(ps, sep) && Erase(SegTree(Blur(Cur(ps)))) == Erase(SegTree(Cur(ps)))
    ensures Blurred(ps + [Sep(tok)], sep)
  {
    var b := BlurPieces(ps, sep);
    BlurPiecesSnoc(ps, Sep(tok), sep);
    Snoc(b, Sep(sep));
    Snoc(ps, Sep(tok));
    EraseAllSnoc(Done(ps), SegTree(Cur(ps)));
    EraseAllSnoc(Done(b), SegTree(Cur(b)));
  }

  lemma EraseAllSnoc(ts: seq<Sexp>, t: Sexp)
    ensures EraseAll(ts + [t]) == EraseAll(ts) + [Erase(t)]
  {}

  lemma {:induction false} BlurLevel(ps: seq<Piece>, sep: Token)
    requires Sound(ps)
    ensures Blurred(ps, sep)
  {
    if ps != [] {
      var n := |ps| - 1;
      SoundInit(ps);
      BlurLevel(ps[..n], sep);
      CurSegment(ps[..n]);
      BlurSegment(Cur(ps[..n]));
      assert ps == ps[..n] + [ps[n]];
      if ps[n].Sep? { BlurSep(ps[..n], ps[n].tok, sep); } else { BlurOp(ps[..n], ps[n].e, sep); }
    }
  }

  lemma {:induction false} EraseChain(ts: seq<Sexp>)
    ensures Erase(Chain(ts)) == Chain(EraseAll(ts))
    decreases |ts|
  {
    if ts != [] {
      EraseChain(ts[1..]);
      assert EraseAll(ts)[1..] == EraseAll(ts[1..]);
    }
  }

  /** A level's tree depends on its operands only through their erased trees. */
  lemma BlurLevelTree(ps: seq<Piece>, sep: Token)
    requires Sound(ps)
    ensures FirstSep(ps).None? || FirstSep(ps) == Some(sep) ==>
      Erase(LevelTree(BlurPieces(ps, sep))) == Erase(LevelTree(ps))
    ensures FirstSep(ps).Some? ==>
      LevelTree(ps).Cons? && LevelTree(BlurPieces(ps, sep)).Cons?
      && Erase(LevelTree(BlurPieces(ps, sep)).cdr) == Erase(LevelTree(ps).cdr)
  {
    BlurLevel(ps, sep);
    CurSegment(ps);
    BlurSegment(Cur(ps));
    var b := BlurPieces(ps, sep);
    if FirstSep(ps).Some? {
      var ts, us := Done(ps) + [SegTree(Cur(ps))], Done(b) + [SegTree(Cur(b))];
      EraseAllSnoc(Done(ps), SegTree(Cur(ps)));
      EraseAllSnoc(Done(b), SegTree(Cur(b)));
      EraseChain(ts);
      EraseChain(us);
    }
  }

  // ----- every name written is in the tree, and nothing else

  /** The tokens of a tree by kind and name, separators aside. */
  ghost function Names(t: Sexp): set<(Kind, Word)> {
    match t
    case Nil => {}
    case Atom(tok) => if tok.kind == SEPARATOR then {} else {(tok.kind, tok.name)}
    case Cons(a, d) => Names(a) + Names(d)
  }

  ghost function ElemNames(e: Elem): set<(Kind, Word)> {
    if e.Operand? then Names(e.tree) else Names(Atom(e.tok))
  }

  ghost function ElemsNames(e: seq<Elem>): set<(Kind, Word)> { set x, n | x in e && n in ElemNames(x) :: n }

  ghost function TreesNames(ts: seq<Sexp>): set<(Kind, Word)> { set t, n | t in ts && n in Names(t) :: n }

  ghost function PieceNames(p: Piece): set<(Kind, Word)> { if p.Sep? then {} else ElemNames(p.e) }

  ghost function PiecesNames(ps: seq<Piece>): set<(Kind, Word)> { set p, n | p in ps && n in PieceNames(p) :: n }

  /** The names written in a phrase, as the parser spells them. */
  ghost function ItemNames(tab: Table, x: Item): set<(Kind, Word)>
    requires ItemOk(tab, x)
    decreases x, 0
  {
    match x
    case Group(head, br, body) =>
      assert WellFormed(tab, body);
      (if head.Some? then {(FUNCTION, FunctionName(head.value))} else {}) + PhraseNames(tab, body)
    case Prefix(w) => {(PrefixToken(tab, w).kind, PrefixToken(tab, w).name)}
    case Infix(w) => {(BINARY, InfixToken(tab, w).name)}
    case Argument(w) => {(ARGUMENT, w)}
    case Separate(_) => {}
  }

  ghost function PhraseNames(tab: Table, p: seq<Item>): set<(Kind, Word)>
    requires WellFormedSoFar(tab, p)
    decreases p, 1
  {
    set x, n | x in p && n in ItemNames(tab, x) :: n
  }

  lemma NodeNames(t: Token, l: Sexp, r: Sexp)
    ensures Names(Bin(t, l, r)) == Names(Atom(t)) + Names(l) + Names(r)
    ensures Names(Mon(t, r)) == Names(Atom(t)) + Names(r)
  {
    assert Names(Cons(r, Nil)) == Names(r);
    assert Names(Cons(l, Cons(r, Nil))) == Names(l) + Names(r);
  }

  lemma {:induction false} LayoutNames(t: OpTree)
    ensures Names(Layout(t)) == ElemsNames(InOrder(t))
  {
    match t
    case Hold(x) => ElemsNamesOne(Operand(x));
    case Un(p, s) =>
      LayoutNames(s);
      NodeNames(p, Nil, Layout(s));
      ElemsNamesConcat([Pre(p)], InOrder(s));
      ElemsNamesOne(Pre(p));
    case Bi(q, l, r) =>
      LayoutNames(l);
      LayoutNames(r);
      NodeNames(q, Layout(l), Layout(r));
      ElemsNamesConcat(InOrder(l), [Inf(q)]);
      ElemsNamesConcat(InOrder(l) + [Inf(q)], InOrder(r));
      ElemsNamesOne(Inf(q));
  }

  lemma ElemsNamesOne(x: Elem)
    ensures ElemsNames([x]) == ElemNames(x)
  {
    assert [x][0] == x && forall y :: y in [x] ==> y == x;
    forall n ensures n in ElemsNames([x]) <==> n in ElemNames(x) {
      if n in ElemNames(x) { assert x in [x]; }
    }
  }

  lemma ElemsNamesConcat(a: seq<Elem>, b: seq<Elem>)
    ensures ElemsNames(a + b) == ElemsNames(a) + ElemsNames(b)
  {}

  lemma SegmentNames(e: seq<Elem>)
    requires Alternates(Padded(e))
    ensures Names(SegTree(e)) == ElemsNames(e)
  {
    var t := CanonObeys(Padded(e));
    LayoutNames(t);
    if Padded(e) != e {
      ElemsNamesConcat(e, [Operand(Nil)]);
      ElemsNamesOne(Operand(Nil));
    }
  }

  lemma {:induction false} ChainNames(ts: seq<Sexp>)
    ensures Names(Chain(ts)) == TreesNames(ts)
    decreases |ts|
  {
    if ts != [] {
      ChainNames(ts[1..]);
      assert ts == [ts[0]] + ts[1..];
      assert TreesNames(ts) == Names(ts[0]) + TreesNames(ts[1..]);
    }
  }

  lemma {:induction false} DoneNames(ps: seq<Piece>)
    requires Sound(ps)
    ensures PiecesNames(ps) == TreesNames(Done(ps)) + ElemsNames(Cur(ps))
  {
    if ps != [] {
      var n := |ps| - 1;
      var init, p := ps[..n], ps[n];
      SoundInit(ps);
      DoneNames(init);
      Snoc(init, p);
      PiecesNamesSnoc(init, p);
      if p.Sep? {
        CurSegment(init);
        SegmentNames(Cur(init));
        assert TreesNames(Done(init) + [SegTree(Cur(init))]) == TreesNames(Done(init)) + Names(SegTree(Cur(init)));
      } else {
        ElemsNamesConcat(Cur(init), [p.e]);
        ElemsNamesOne(p.e);
      }
    }
  }

  lemma PiecesNamesSnoc(ps: seq<Piece>, p: Piece)
    ensures PiecesNames(ps + [p]) == PiecesNames(ps) + PieceNames(p)
  {}

  lemma LevelNames(ps: seq<Piece>)
    requires Sound(ps)
    ensures Names(LevelTree(ps)) == PiecesNames(ps)
  {
    DoneNames(ps);
    DoneShape(ps);
    CurSegment(ps);
    SegmentNames(Cur(ps));
    if FirstSep(ps).Some? {
      var t := SegTree(Cur(ps));
      ChainNames(Done(ps) + [t]);
      assert TreesNames(Done(ps) + [t]) == TreesNames(Done(ps)) + Names(t);
    }
  }

  /** The tree holds exactly the operators, arguments and calls written. */
  lemma {:induction false} NamesKept(tab: Table, p: seq<Item>)
    requires ValidTable(tab) && WellFormedSoFar(tab, p)
    ensures Names(PhraseTree(tab, p)) == PhraseNames(tab, p)
    decreases p, 1
  {
    PhraseSound(tab, p);
    LevelNames(Pieces(tab, p));
    PiecesNamesKept(tab, p);
  }

  lemma {:induction false} PiecesNamesKept(tab: Table, p: seq<Item>)
    requires ValidTable(tab) && WellFormedSoFar(tab, p)
    ensures PiecesNames(Pieces(tab, p)) == PhraseNames(tab, p)
    decreases p, 0
  {
    if p != [] {
      var n := |p| - 1;
      Shrink(tab, p);
      PiecesNamesKept(tab, p[..n]);
      PieceNamesKept(tab, p[n]);
      PiecesNamesSnoc(Pieces(tab, p[..n]), PieceOf(tab, p[n]));
      PhraseNamesSnoc(tab, p);
    }
  }

  lemma PhraseNamesSnoc(tab: Table, p: seq<Item>)
    requires WellFormedSoFar(tab, p) && |p| > 0
    ensures WellFormedSoFar(tab, p[..|p| - 1]) && ItemOk(tab, p[|p| - 1])
    ensures PhraseNames(tab, p) == PhraseNames(tab, p[..|p| - 1]) + ItemNames(tab, p[|p| - 1])
  {
    Shrink(tab, p);
    var q, x := p[..|p| - 1], p[|p| - 1];
    forall y ensures y in p <==> y in q || y == x {
      assert p == q + [x];
    }
  }

  lemma GroupNames(t: Sexp, br: Bracket, head: Option<Word>)
    requires Rooted(t)
    ensures Names(Headed(Closed(t, br), head)) ==
      (if head.Some? then {(FUNCTION, FunctionName(head.value))} else {}) + Names(t)
  {
    var c, h := Closed(t, br), Headed(Closed(t, br), head);
    assert Names(c) == Names(c.car) + Names(c.cdr) == Names(t);
    if head.Some? {
      NodeNames(FunctionToken(head.value), Nil, c);
      assert Names(h) == Names(h.car) + Names(h.cdr);
      if t.car.tok.kind != SEPARATOR {
        assert h.cdr == Cons(c, Nil) && Names(h.cdr) == Names(c) + Names(Nil);
      }
    } else {
      assert Names(h) == Names(h.car) + Names(h.cdr);
    }
  }

  lemma {:induction false} PieceNamesKept(tab: Table, x: Item)
    requires ValidTable(tab) && ItemOk(tab, x)
    ensures PieceNames(PieceOf(tab, x)) == ItemNames(tab, x)
    decreases x, 0
  {
    match x
    case Group(head, br, body) =>
      assert WellFormed(tab, body);
      PhraseSound(tab, body);
      NamesKept(tab, body);
      GroupNames(PhraseTree(tab, body), br, head);
    case Argument(w) => assert Names(Leaf(ArgumentToken(w))) == Names(Atom(ArgumentToken(w))) + Names(Nil);
    case _ =>
  }

  // ----- when the printed phrase is a phrase

  const NOT: (Kind, Word) := (MONARY, "Not")
  const HAT: (Kind, Word) := (FUNCTION, "^")

  /** `!x` prints as `Not x` and `Pow(x, y)` as `^(x, y)`: neither can be read
      back. */
  ghost predicate NothingRespelt(t: Sexp) { NOT !in Names(t) && HAT !in Names(t) }

  lemma NamesAt(tab: Table, p: seq<Item>, i: nat)
    requires WellFormedSoFar(tab, p) && i < |p|
    ensures ItemOk(tab, p[i]) && ItemNames(tab, p[i]) <= PhraseNames(tab, p)
  {
    assert p[i] in p;
  }

  lemma {:induction false} PrintedIndex(p: seq<Item>, sep: Word)
    ensures |PrintedItems(p, sep)| == |p|
    ensures forall i :: 0 <= i < |p| ==> PrintedItems(p, sep)[i] == PrintedItem(p[i], sep)
  {
    if p != [] { PrintedIndex(p[..|p| - 1], sep); }
  }

  /** Printing keeps the roles of the items. */
  lemma SameRole(x: Item, sep: Word)
    ensures StartsOperand(PrintedItem(x, sep)) == StartsOperand(x)
    ensures Ends(PrintedItem(x, sep)) == Ends(x)
  {}

  lemma {:induction false} PrintedWellFormed(tab: Table, p: seq<Item>, sep: Word)
    requires PrintableTable(tab) && WellFormedSoFar(tab, p) && IsSeparatorWord(tab, sep)
    requires NOT !in PhraseNames(tab, p) && HAT !in PhraseNames(tab, p)
    ensures WellFormedSoFar(tab, PrintedItems(p, sep))
    ensures WellFormed(tab, p) ==> WellFormed(tab, PrintedItems(p, sep))
    decreases p, 1
  {
    var q := PrintedItems(p, sep);
    PrintedIndex(p, sep);
    forall i | 0 <= i < |q| ensures ItemOk(tab, q[i]) {
      NamesAt(tab, p, i);
      PrintedItemOk(tab, p[i], sep);
    }
    forall i | 0 <= i < |q|
      ensures StartsOperand(q[i]) == StartsOperand(p[i]) && Ends(q[i]) == Ends(p[i])
    {
      SameRole(p[i], sep);
    }
  }

  lemma {:induction false} PrintedItemOk(tab: Table, x: Item, sep: Word)
    requires PrintableTable(tab) && ItemOk(tab, x) && IsSeparatorWord(tab, sep)
    requires NOT !in ItemNames(tab, x) && HAT !in ItemNames(tab, x)
    ensures ItemOk(tab, PrintedItem(x, sep))
    decreases x, 1
  {
    match x
    case Group(head, br, body) =>
      assert WellFormed(tab, body);
      BodySepIsSeparator(tab, body);
      PrintedBodyOk(tab, body, GroupSep(x));
    case _ =>
  }

  lemma {:induction false} BodySepIsSeparator(tab: Table, body: seq<Item>)
    requires WellFormed(tab, body)
    ensures BodySep(body).Some? ==> IsSeparatorWord(tab, BodySep(body).value)
    decreases body
  {
    if Double(body) {
      assert ItemOk(tab, body[0]) && WellFormed(tab, body[0].body);
      BodySepIsSeparator(tab, body[0].body);
    } else {
      SepWordIsFirst(tab, body);
    }
  }

  lemma {:induction false} PrintedBodyOk(tab: Table, body: seq<Item>, sep: Word)
    requires PrintableTable(tab) && WellFormed(tab, body) && IsSeparatorWord(tab, sep)
    requires NOT !in PhraseNames(tab, body) && HAT !in PhraseNames(tab, body)
    ensures WellFormed(tab, PrintedBody(body, sep)) && !BraceAlone(PrintedBody(body, sep))
    decreases body, 2
  {
    if Double(body) {
      NamesAt(tab, body, 0);
      assert WellFormed(tab, body[0].body);
      PrintedBodyOk(tab, body[0].body, sep);
    } else {
      PrintedWellFormed(tab, body, sep);
      PrintedIndex(body, sep);
    }
  }

  // ----- the printed phrase has the same tree

  lemma {:induction false} PrintedPieces(tab: Table, p: seq<Item>, sep: Word, tok: Token)
    requires PrintableTable(tab) && WellFormedSoFar(tab, p) && IsSeparatorWord(tab, sep)
    requires NOT !in PhraseNames(tab, p) && HAT !in PhraseNames(tab, p)
    ensures WellFormedSoFar(tab, PrintedItems(p, sep))
    ensures BlurPieces(Pieces(tab, PrintedItems(p, sep)), tok) == BlurPieces(Pieces(tab, p), tok)
    decreases p, 1
  {
    PrintedWellFormed(tab, p, sep);
    if p != [] {
      var n := |p| - 1;
      PhraseNamesSnoc(tab, p);
      PrintedPieces(tab, p[..n], sep, tok);
      PrintedPiece(tab, p[n], sep, tok);
      BlurSnoc(tab, p, tok);
      PrintedSnoc(p, sep);
      BlurSnoc(tab, PrintedItems(p, sep), tok);
    }
  }

  lemma PrintedSnoc(p: seq<Item>, sep: Word)
    requires |p| > 0
    ensures var q, n := PrintedItems(p, sep), |p| - 1;
            |q| == |p| && q[..n] == PrintedItems(p[..n], sep) && q[n] == PrintedItem(p[n], sep)
  {
    PrintedIndex(p, sep);
  }

  lemma BlurSnoc(tab: Table, p: seq<Item>, tok: Token)
    requires WellFormedSoFar(tab, p) && |p| > 0
    ensures WellFormedSoFar(tab, p[..|p| - 1]) && ItemOk(tab, p[|p| - 1])
    ensures BlurPieces(Pieces(tab, p), tok)
         == BlurPieces(Pieces(tab, p[..|p| - 1]), tok) + [BlurPiece(PieceOf(tab, p[|p| - 1]), tok)]
  {
    Shrink(tab, p);
    var init := Pieces(tab, p[..|p| - 1]);
    assert Pieces(tab, p)[..|p| - 1] == init;
  }

  lemma {:induction false} PrintedPiece(tab: Table, x: Item, sep: Word, tok: Token)
    requires PrintableTable(tab) && ItemOk(tab, x) && IsSeparatorWord(tab, sep)
    requires NOT !in ItemNames(tab, x) && HAT !in ItemNames(tab, x)
    ensures ItemOk(tab, PrintedItem(x, sep))
    ensures BlurPiece(PieceOf(tab, PrintedItem(x, sep)), tok) == BlurPiece(PieceOf(tab, x), tok)
    decreases x, 2
  {
    PrintedItemOk(tab, x, sep);
    match x
    case Group(head, br, body) =>
      assert WellFormed(tab, body);
      BodySepIsSeparator(tab, body);
      PrintedBodyOk(tab, body, GroupSep(x));
      PrintedBodyTree(tab, body, GroupSep(x));
      PrintedGroupTree(tab, x, sep);
    case _ =>
  }

  lemma ClosedErased(t: Sexp, u: Sexp, br: Bracket)
    requires Rooted(t) && Rooted(u) && Erase(t.cdr) == Erase(u.cdr)
    requires t.car.tok.kind == u.car.tok.kind && t.car.tok.name == u.car.tok.name
    ensures Erase(Closed(t, br)) == Erase(Closed(u, br))
    ensures Erase(Headed(Closed(t, br), None)) == Erase(Headed(Closed(u, br), None))
  {}

  lemma CalledErased(t: Sexp, u: Sexp, f: Word, g: Word)
    requires Rooted(t) && Rooted(u) && FunctionToken(f) == FunctionToken(g)
    requires t.car.tok.kind == u.car.tok.kind && Erase(t.cdr) == Erase(u.cdr)
    requires t.car.tok.kind == SEPARATOR || Erase(t) == Erase(u)
    ensures Erase(Headed(t, Some(f))) == Erase(Headed(u, Some(g)))
  {
    if t.car.tok.kind != SEPARATOR {
      EraseNode(FunctionToken(f), Nil, t);
      EraseNode(FunctionToken(g), Nil, u);
    }
  }

  lemma PrintedGroupTree(tab: Table, x: Item, sep: Word)
    requires PrintableTable(tab) && ItemOk(tab, x) && x.Group? && WellFormed(tab, x.body)
    requires ItemOk(tab, PrintedItem(x, sep))
    requires var q := PrintedBody(x.body, GroupSep(x));
             && WellFormed(tab, q)
             && SameBody(PhraseTree(tab, x.body), PhraseTree(tab, q), BodySep(x.body), GroupSep(x))
    ensures PieceOf(tab, x).Op? && PieceOf(tab, PrintedItem(x, sep)).Op?
    ensures PieceOf(tab, x).e.Operand? && PieceOf(tab, PrintedItem(x, sep)).e.Operand?
    ensures Erase(PieceOf(tab, PrintedItem(x, sep)).e.tree) == Erase(PieceOf(tab, x).e.tree)
  {
    var q := PrintedBody(x.body, GroupSep(x));
    var t, u := PhraseTree(tab, x.body), PhraseTree(tab, q);
    RootKind(tab, x.body);
    var y := PrintedItem(x, sep);
    assert y.Group? && y.body == q && Rooted(u);
    assert PieceOf(tab, y) == Op(Operand(Headed(Closed(u, y.br), y.head)));
    if x.head.None? || BodySep(x.body).None? { ClosedErased(t, u, x.br); }
    if x.head.Some? { CalledErased(Closed(t, x.br), Closed(u, y.br), x.head.value, y.head.value); }
  }

  /** Two body trees that differ at most in precedences, in the bracket of
      their roots, and in the separator of a flat list. */
  predicate SameBody(t: Sexp, u: Sexp, bodySep: Option<Word>, sep: Word) {
    && Rooted(t) && Rooted(u)
    && Erase(t.cdr) == Erase(u.cdr)
    && t.car.tok.kind == u.car.tok.kind
    && (bodySep.None? || bodySep == Some(sep) ==> t.car.tok.name == u.car.tok.name)
  }

  lemma {:induction false} PrintedBodyTree(tab: Table, body: seq<Item>, sep: Word)
    requires PrintableTable(tab) && WellFormed(tab, body) && IsSeparatorWord(tab, sep)
    requires NOT !in PhraseNames(tab, body) && HAT !in PhraseNames(tab, body)
    ensures WellFormed(tab, PrintedBody(body, sep))
    ensures SameBody(PhraseTree(tab, body), PhraseTree(tab, PrintedBody(body, sep)), BodySep(body), sep)
    decreases body, 2
  {
    PrintedBodyOk(tab, body, sep);
    if Double(body) {
      var x := body[0];
      assert body == [x];
      NamesAt(tab, body, 0);
      assert WellFormed(tab, x.body);
      PrintedBodyTree(tab, x.body, sep);
      LoneItem(tab, x);
    } else {
      PrintedPieces(tab, body, sep, SeparatorToken(tab, sep));
      FlatBodyTree(tab, body, sep);
    }
  }

  lemma FlatBodyTree(tab: Table, body: seq<Item>, sep: Word)
    requires ValidTable(tab) && WellFormed(tab, body) && IsSeparatorWord(tab, sep) && !Double(body)
    requires WellFormed(tab, PrintedItems(body, sep))
    requires var tok := SeparatorToken(tab, sep);
      BlurPieces(Pieces(tab, PrintedItems(body, sep)), tok) == BlurPieces(Pieces(tab, body), tok)
    ensures SameBody(PhraseTree(tab, body), PhraseTree(tab, PrintedItems(body, sep)), SepWord(body), sep)
  {
    var tok, q := SeparatorToken(tab, sep), PrintedItems(body, sep);
    var t, u := PhraseTree(tab, body), PhraseTree(tab, q);
    PhraseSound(tab, body);
    PhraseSound(tab, q);
    PrintedSep(body, sep);
    SepWordIsFirst(tab, body);
    SepWordIsFirst(tab, q);
    BlurLevelTree(Pieces(tab, body), tok);
    BlurLevelTree(Pieces(tab, q), tok);
    if SepWord(body).None? {
      assert Erase(t) == Erase(u);
      assert Erase(t.car) == Erase(u.car) && Erase(t.cdr) == Erase(u.cdr);
    } else {
      assert t.car.tok == SeparatorToken(tab, SepWord(body).value) && u.car.tok == tok;
    }
  }

  lemma {:induction false} PrintedSep(p: seq<Item>, sep: Word)
    ensures SepWord(PrintedItems(p, sep)) == if SepWord(p).Some? then Some(sep) else None
  {
    if p != [] {
      var n := |p| - 1;
      PrintedSep(p[..n], sep);
      SepWordSnoc(PrintedItems(p[..n], sep), PrintedItem(p[n], sep));
      SepWordSnoc(p[..n], p[n]);
      assert p == p[..n] + [p[n]];
    }
  }

  lemma PrintedPhraseTree(tab: Table, p: seq<Item>)
    requires PrintableTable(tab) && WellFormed(tab, p) && NothingRespelt(PhraseTree(tab, p))
    ensures WellFormed(tab, Printed(p))
    ensures Erase(PhraseTree(tab, Printed(p))) == Erase(PhraseTree(tab, p))
  {
    var sep := Or(SepWord(p), ",");
    NamesKept(tab, p);
    SepWordIsFirst(tab, p);
    PrintedWellFormed(tab, p, sep);
    var q, tok := PrintedItems(p, sep), SeparatorToken(tab, sep);
    PrintedPieces(tab, p, sep, tok);
    PhraseSound(tab, p);
    PhraseSound(tab, q);
    SepWordIsFirst(tab, q);
    PrintedSep(p, sep);
    BlurLevelTree(Pieces(tab, p), tok);
    BlurLevelTree(Pieces(tab, q), tok);
  }
}
