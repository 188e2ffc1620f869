/** Printing a syntax tree as words, and what parsing those words gives back.
    Blanks and line ends, and what the filter makes of the text, come with
    `PrintedText` and `Rescan`. */
module Unparse {
  import opened Options
  import opened SyntaxTree
  import opened Precedence
  import opened Level
  import opened Acceptance

  // ----- the printer

  function OpenMark(t: Token): seq<Word> { if t.close.Some? then [OpenName(t.close.value)] else [] }

  function CloseMark(t: Token): seq<Word> { if t.close.Some? then [CloseName(t.close.value)] else [] }

  /** The word a scanner sees in a name that may be padded with blanks. */
  function Spoken(name: Word): Word {
    if |name| > 2 && name[0] == ' ' && name[|name| - 1] == ' ' then name[1..|name| - 1] else name
  }

  function Print(t: Sexp): seq<Word>
    decreases t, 1
  {
    if Rooted(t) then OpenMark(t.car.tok) + Body(t) + CloseMark(t.car.tok) else []
  }

  function Body(t: Sexp): seq<Word>
    requires Rooted(t)
    decreases t, 0
  {
    var tok := t.car.tok;
    match tok.kind
    case ARGUMENT => [tok.name]
    case SEPARATOR => Join(t.cdr, tok.name)
    case FUNCTION =>
      if t.cdr.Cons? && t.cdr.cdr.Cons? then [tok.name] + ["("] + Join(t.cdr, ",") + [")"]
      else [tok.name] + Join(t.cdr, ",")
    case BINARY =>
      if t.cdr.Cons? && t.cdr.cdr.Cons? then Print(t.cdr.car) + [tok.name] + Print(t.cdr.cdr.car) else [tok.name]
    case _ => [Spoken(tok.name)] + (if t.cdr.Cons? then Print(t.cdr.car) else [])
  }

  function Join(d: Sexp, sep: Word): seq<Word>
    decreases d, 1
  {
    if !d.Cons? then []
    else Print(d.car) + (if d.cdr.Cons? then [sep] + Join(d.cdr, sep) else [])
  }

  // ----- the tree is printed from left to right

  function ElemWords(e: Elem): seq<Word> {
    match e
    case Pre(t) => [Spoken(t.name)]
    case Inf(t) => [t.name]
    case Operand(t) => Print(t)
  }

  function ElemsWords(e: seq<Elem>): seq<Word> {
    if e == [] then [] else ElemsWords(e[..|e| - 1]) + ElemWords(e[|e| - 1])
  }

  /** Operator tokens as the parser makes them. */
  predicate Printable(e: Elem) {
    match e
    case Pre(t) => (t.kind == MONARY || t.kind == TYPE) && t.close == None
    case Inf(t) => t.kind == BINARY && t.close == None
    case Operand(_) => true
  }

  lemma ElemsWordsSnoc(a: seq<Elem>, x: Elem)
    ensures ElemsWords(a + [x]) == ElemsWords(a) + ElemWords(x)
  {
    assert (a + [x])[..|a|] == a;
  }

  lemma {:induction false} ElemsWordsConcat(a: seq<Elem>, b: seq<Elem>)
    ensures ElemsWords(a + b) == ElemsWords(a) + ElemsWords(b)
    decreases |b|
  {
    if b == [] {
      assert a + b == a && ElemsWords(a) + [] == ElemsWords(a);
    } else {
      var l, x := b[..|b| - 1], b[|b| - 1];
      assert b == l + [x];
      ElemsWordsConcat(a, l);
      ElemsWordsSnoc(a + l, x);
      ElemsWordsSnoc(l, x);
      Assoc(a, l, [x]);
      Assoc(ElemsWords(a), ElemsWords(l), ElemWords(x));
    }
  }

  lemma ElemsWordsOne(e: Elem)
    ensures ElemsWords([e]) == ElemWords(e)
  {
    ElemsWordsSnoc([], e);
    assert [] + [e] == [e] && [] + ElemWords(e) == ElemWords(e);
  }

  lemma ElemsWordsAt(l: seq<Elem>, x: Elem, r: seq<Elem>)
    ensures ElemsWords(l + [x] + r) == ElemsWords(l) + ElemWords(x) + ElemsWords(r)
  {
    ElemsWordsConcat(l + [x], r);
    ElemsWordsSnoc(l, x);
  }

  lemma PrintNode(t: Token, l: Sexp, r: Sexp)
    requires t.close == None
    ensures t.kind == BINARY ==> Print(Bin(t, l, r)) == Print(l) + [t.name] + Print(r)
    ensures t.kind == MONARY || t.kind == TYPE ==> Print(Mon(t, r)) == [Spoken(t.name)] + Print(r)
  {
    var b, m := Bin(t, l, r), Mon(t, r);
    assert Print(b) == [] + Body(b) + [] == Body(b);
    assert Print(m) == [] + Body(m) + [] == Body(m);
    assert b.cdr.car == l && b.cdr.cdr.car == r && m.cdr.car == r;
  }

  lemma {:induction false} PrintLayout(t: OpTree)
    requires forall x :: x in InOrder(t) ==> Printable(x)
    ensures Print(Layout(t)) == ElemsWords(InOrder(t))
  {
    match t
    case Hold(x) => ElemsWordsOne(Operand(x));
    case Un(p, s) =>
      PrintLayout(s);
      assert Printable(InOrder(t)[0]);
      PrintNode(p, Nil, Layout(s));
      ElemsWordsConcat([Pre(p)], InOrder(s));
      ElemsWordsOne(Pre(p));
    case Bi(q, l, r) =>
      PrintLayout(l);
      PrintLayout(r);
      assert Printable(InOrder(t)[|InOrder(l)|]);
      PrintAt(InOrder(l), Inf(q), InOrder(r), Layout(l), Layout(r));
  }

  lemma PrintCanon(e: seq<Elem>)
    requires Alternates(e) && forall x :: x in e ==> Printable(x)
    ensures Print(Canon(e)) == ElemsWords(e)
  {
    var t := CanonObeys(e);
    PrintLayout(t);
  }

  lemma PrintAt(a: seq<Elem>, x: Elem, b: seq<Elem>, l: Sexp, r: Sexp)
    requires x.Inf? && Printable(x) && Print(l) == ElemsWords(a) && Print(r) == ElemsWords(b)
    ensures Print(Bin(x.tok, l, r)) == ElemsWords(a + [x] + b)
  {
    PrintNode(x.tok, l, r);
    ElemsWordsAt(a, x, b);
  }

  function PieceWords(p: Piece, sep: Word): seq<Word> {
    if p.Sep? then [sep] else ElemWords(p.e)
  }

  function PiecesWords(ps: seq<Piece>, sep: Word): seq<Word> {
    if ps == [] then [] else PiecesWords(ps[..|ps| - 1], sep) + PieceWords(ps[|ps| - 1], sep)
  }

  predicate PrintableLevel(ps: seq<Piece>) {
    Sound(ps) && forall p :: p in ps && p.Op? ==> Printable(p.e)
  }

  lemma {:induction false} JoinSnoc(ts: seq<Sexp>, t: Sexp, sep: Word)
    ensures Join(Chain(ts + [t]), sep) == (if ts == [] then [] else Join(Chain(ts), sep) + [sep]) + Print(t)
    decreases |ts|
  {
    if ts == [] {
      assert ts + [t] == [t] && [t][1..] == [] && Chain([t]) == Cons(t, Nil);
    } else {
      JoinSnoc(ts[1..], t, sep);
      assert (ts + [t])[1..] == ts[1..] + [t];
      assert Chain(ts + [t]) == Cons(ts[0], Chain(ts[1..] + [t]));
      var rest := if ts[1..] == [] then [] else Join(Chain(ts[1..]), sep) + [sep];
      Assoc(Print(ts[0]) + [sep], rest, Print(t));
      Assoc(Print(ts[0]), [sep], rest + Print(t));
      if ts[1..] != [] {
        Assoc(Print(ts[0]) + [sep], Join(Chain(ts[1..]), sep), [sep]);
        Assoc(Print(ts[0]), [sep], Join(Chain(ts[1..]), sep));
      } else {
        assert Chain(ts) == Cons(ts[0], Nil);
      }
    }
  }

  function Closing(ps: seq<Piece>, sep: Word): seq<Word> {
    if Done(ps) == [] then [] else Join(Chain(Done(ps)), sep) + [sep]
  }

  lemma CurPrintable(ps: seq<Piece>)
    requires forall p :: p in ps && p.Op? ==> Printable(p.e)
    ensures forall x :: x in Cur(ps) ==> Printable(x)
  {}

  lemma {:induction false} LevelFromLeft(ps: seq<Piece>, sep: Word)
    requires PrintableLevel(ps)
    ensures PiecesWords(ps, sep) == Closing(ps, sep) + ElemsWords(Cur(ps))
  {
    if ps != [] {
      var n := |ps| - 1;
      var init, p := ps[..n], ps[n];
      SoundInit(ps);
      LevelFromLeft(init, sep);
      Snoc(init, p);
      if p.Sep? {
        CurSegment(init);
        CurPrintable(init);
        PrintCanon(Cur(init));
        JoinSnoc(Done(init), SegTree(Cur(init)), sep);
        assert Closing(ps, sep) + [] == Closing(ps, sep);
      } else {
        Assoc(Closing(init, sep), ElemsWords(Cur(init)), ElemWords(p.e));
        ElemsWordsConcat(Cur(init), [p.e]);
        ElemsWordsOne(p.e);
      }
    }
  }

  /** A complete level prints as its pieces from left to right. */
  lemma PrintLevel(ps: seq<Piece>, sep: Word)
    requires PrintableLevel(ps) && Complete(ps)
    ensures FirstSep(ps).None? ==> Print(LevelTree(ps)) == PiecesWords(ps, sep)
    ensures FirstSep(ps).Some? ==> LevelTree(ps).Cons? && LevelTree(ps).cdr.Cons? && LevelTree(ps).cdr.cdr.Cons?
    ensures FirstSep(ps).Some? ==> Join(LevelTree(ps).cdr, sep) == PiecesWords(ps, sep)
  {
    LevelFromLeft(ps, sep);
    CurSegment(ps);
    CurPrintable(ps);
    PrintCanon(Cur(ps));
    DoneShape(ps);
    if FirstSep(ps).Some? {
      JoinSnoc(Done(ps), SegTree(Cur(ps)), sep);
      var ts := Done(ps) + [SegTree(Cur(ps))];
      assert ts[1..] != [];
    } else {
      assert [] + ElemsWords(Cur(ps)) == ElemsWords(Cur(ps));
    }
  }
}
