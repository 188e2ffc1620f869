/** The text `Unparse` writes for a tree, and the words the filter and the
    scanner make of it. */
module PrintedText {
  import opened SyntaxTree
  import opened Unparse
  import opened Lexing

  // ----- writing

  /** A text is names, signs and brackets, with blanks and line ends between
      some of them.  Brackets are named as in the tree. */
  datatype Bit = Spell(w: Word) | Blank

  function Open(t: Token): seq<Bit> { if t.close.Some? then [Spell(OpenName(t.close.value))] else [] }

  function Close(t: Token): seq<Bit> { if t.close.Some? then [Spell(CloseName(t.close.value))] else [] }

  /** The indent of a bracket is two blanks shorter than that of the lines, so
      it is empty at the outermost list. */
  function Indent(deep: bool): seq<Bit> { if deep then [Blank] else [] }

  /** A prefix operator: a sign that is also binary stands between blanks, a
      name is followed by one. */
  function Operator(t: Token): seq<Bit> {
    if Spoken(t.name) != t.name then [Blank, Spell(Spoken(t.name)), Blank]
    else if t.kind == TYPE || IsAlpha(t.name[0]) then [Spell(t.name), Blank]
    else [Spell(t.name)]
  }

  predicate IsList(t: Sexp) { Rooted(t) && t.car.tok.kind == SEPARATOR }

  function Written(t: Sexp, deep: bool): seq<Bit>
    decreases t, 1
  {
    if !Rooted(t) then []
    else
      var tok := t.car.tok;
      if tok.kind == SEPARATOR then
        Indent(deep) + Open(tok) + [Blank] + Lines(t.cdr, tok.name) + Indent(deep) + Close(tok)
      else Open(tok) + Inside(t, deep) + Close(tok)
  }

  function Inside(t: Sexp, deep: bool): seq<Bit>
    requires Rooted(t)
    decreases t, 0
  {
    var tok := t.car.tok;
    match tok.kind
    case ARGUMENT => [Spell(tok.name)]
    case SEPARATOR => []
    case FUNCTION =>
      if t.cdr.Cons? && t.cdr.cdr.Cons? then [Spell(tok.name)] + [Spell("(")] + Listed(t.cdr, deep) + [Spell(")")]
      else [Spell(tok.name)] + Listed(t.cdr, deep)
    case BINARY =>
      if t.cdr.Cons? && t.cdr.cdr.Cons? then
        Written(t.cdr.car, deep) + [Spell(tok.name)]
        + (if tok.name == "=" && IsList(t.cdr.cdr.car) then [Blank] else []) + Written(t.cdr.cdr.car, deep)
      else [Spell(tok.name)]
    case _ => Operator(tok) + (if t.cdr.Cons? then Written(t.cdr.car, deep) else [])
  }

  /** The arguments of a call, on one line. */
  function Listed(d: Sexp, deep: bool): seq<Bit>
    decreases d, 2
  {
    if !d.Cons? then []
    else Written(d.car, deep) + (if d.cdr.Cons? then [Spell(",")] + [Blank] + Listed(d.cdr, deep) else [])
  }

  /** The branches of a list, one on a line. */
  function Lines(d: Sexp, sep: Word): seq<Bit>
    decreases d, 2
  {
    if !d.Cons? then []
    else
      [Blank] + Written(d.car, true) + (if d.cdr.Cons? then [Spell(sep)] else []) + [Blank] + Lines(d.cdr, sep)
  }

  // ----- the words written

  function Spelled(b: seq<Bit>): seq<Word> {
    if b == [] then []
    else Spelled(b[..|b| - 1]) + (if b[|b| - 1].Spell? then [b[|b| - 1].w] else [])
  }

  lemma SpelledSnoc(b: seq<Bit>, x: Bit)
    ensures Spelled(b + [x]) == Spelled(b) + if x.Spell? then [x.w] else []
  {
    assert (b + [x])[..|b|] == b;
  }

  lemma {:induction false} SpelledConcat(a: seq<Bit>, b: seq<Bit>)
    ensures Spelled(a + b) == Spelled(a) + Spelled(b)
    decreases |b|
  {
    if b == [] {
      assert a + b == a;
    } else {
      var n := |b| - 1;
      SpelledConcat(a, b[..n]);
      SpelledSnoc(a + b[..n], b[n]);
      assert a + b == (a + b[..n]) + [b[n]];
    }
  }

  lemma SpelledOne(x: Bit)
    ensures Spelled([x]) == if x.Spell? then [x.w] else []
  {
    SpelledSnoc([], x);
    assert [] + [x] == [x];
  }

  lemma SpelledFour(a: seq<Bit>, b: seq<Bit>, c: seq<Bit>, d: seq<Bit>)
    ensures Spelled(a + b + c + d) == Spelled(a) + Spelled(b) + Spelled(c) + Spelled(d)
    ensures Spelled(a + b + c) == Spelled(a) + Spelled(b) + Spelled(c)
  {
    SpelledConcat(a, b);
    SpelledConcat(a + b, c);
    SpelledConcat(a + b + c, d);
  }

  lemma SpelledMarks(t: Token)
    ensures Spelled(Open(t)) == OpenMark(t) && Spelled(Close(t)) == CloseMark(t)
    ensures Spelled(Operator(t)) == [Spoken(t.name)]
    ensures Spelled([]) == [] && Spelled([Blank]) == [] && forall d :: Spelled(Indent(d)) == []
  {
    if t.close.Some? {
      SpelledOne(Spell(OpenName(t.close.value)));
      SpelledOne(Spell(CloseName(t.close.value)));
    }
    SpelledOne(Blank);
    SpelledOne(Spell(Spoken(t.name)));
    SpelledSnoc([Spell(t.name)], Blank);
    SpelledConcat([Blank], [Spell(Spoken(t.name))]);
    SpelledSnoc([Blank, Spell(Spoken(t.name))], Blank);
    assert [Blank, Spell(Spoken(t.name))] + [Blank] == [Blank, Spell(Spoken(t.name)), Blank];
    assert [Blank] + [Spell(Spoken(t.name))] == [Blank, Spell(Spoken(t.name))];
    assert [Spell(t.name)] + [Blank] == [Spell(t.name), Blank];
  }

  lemma MarkedSpelled(t: Token, inside: seq<Bit>)
    ensures Spelled(Open(t) + inside + Close(t)) == OpenMark(t) + Spelled(inside) + CloseMark(t)
    ensures forall d :: Spelled(Indent(d) + Open(t) + [Blank] + inside + Indent(d) + Close(t))
                     == OpenMark(t) + Spelled(inside) + CloseMark(t)
  {
    SpelledMarks(t);
    SpelledFour(Open(t), inside, Close(t), []);
    forall d
      ensures Spelled(Indent(d) + Open(t) + [Blank] + inside + Indent(d) + Close(t))
           == OpenMark(t) + Spelled(inside) + CloseMark(t)
    {
      SpelledFour(Indent(d), Open(t), [Blank], inside);
      SpelledFour(Indent(d) + Open(t) + [Blank] + inside, Indent(d), Close(t), []);
    }
  }

  /** Blanks aside, a text is the tree's words from left to right. */
  lemma {:induction false} SpelledWritten(t: Sexp, deep: bool)
    ensures Spelled(Written(t, deep)) == Print(t)
    decreases t, 1
  {
    if Rooted(t) {
      var tok := t.car.tok;
      if tok.kind == SEPARATOR {
        SpelledLines(t.cdr, tok.name);
        MarkedSpelled(tok, Lines(t.cdr, tok.name));
      } else {
        SpelledInside(t, deep);
        MarkedSpelled(tok, Inside(t, deep));
      }
    }
  }

  lemma CallSpelled(f: Word, args: seq<Bit>)
    ensures Spelled([Spell(f)] + [Spell("(")] + args + [Spell(")")]) == [f] + ["("] + Spelled(args) + [")"]
    ensures Spelled([Spell(f)] + args) == [f] + Spelled(args)
  {
    SpelledOne(Spell(f));
    SpelledOne(Spell("("));
    SpelledOne(Spell(")"));
    SpelledFour([Spell(f)], [Spell("(")], args, [Spell(")")]);
    SpelledConcat([Spell(f)], args);
  }

  lemma BinarySpelled(l: seq<Bit>, w: Word, gap: seq<Bit>, r: seq<Bit>)
    requires Spelled(gap) == []
    ensures Spelled(l + [Spell(w)] + gap + r) == Spelled(l) + [w] + Spelled(r)
  {
    SpelledOne(Spell(w));
    SpelledFour(l, [Spell(w)], gap, r);
  }

  lemma CommaSpelled(a: seq<Bit>, b: seq<Bit>)
    ensures Spelled(a + ([Spell(",")] + [Blank] + b)) == Spelled(a) + ([","] + Spelled(b))
  {
    var comma := [Spell(",")] + [Blank];
    SpelledOne(Spell(","));
    SpelledSnoc([Spell(",")], Blank);
    SpelledConcat(comma, b);
    SpelledConcat(a, comma + b);
  }

  lemma LineSpelled(a: seq<Bit>, sep: seq<Bit>, b: seq<Bit>)
    ensures Spelled([Blank] + a + sep + [Blank] + b) == Spelled(a) + (Spelled(sep) + Spelled(b))
  {
    SpelledOne(Blank);
    SpelledFour([Blank], a, sep, [Blank]);
    SpelledConcat([Blank] + a + sep + [Blank], b);
  }

  lemma {:induction false} SpelledInside(t: Sexp, deep: bool)
    requires Rooted(t) && t.car.tok.kind != SEPARATOR
    ensures Spelled(Inside(t, deep)) == Body(t)
    decreases t, 0
  {
    var tok := t.car.tok;
    match tok.kind
    case ARGUMENT => SpelledOne(Spell(tok.name));
    case SEPARATOR =>
    case FUNCTION =>
      SpelledListed(t.cdr, deep);
      CallSpelled(tok.name, Listed(t.cdr, deep));
    case BINARY =>
      SpelledOne(Spell(tok.name));
      if t.cdr.Cons? && t.cdr.cdr.Cons? {
        var l, r := t.cdr.car, t.cdr.cdr.car;
        SpelledWritten(l, deep);
        SpelledWritten(r, deep);
        SpelledOne(Blank);
        var gap := if tok.name == "=" && IsList(r) then [Blank] else [];
        BinarySpelled(Written(l, deep), tok.name, gap, Written(r, deep));
      }
    case _ =>
      SpelledMarks(tok);
      var rest := if t.cdr.Cons? then Written(t.cdr.car, deep) else [];
      if t.cdr.Cons? { SpelledWritten(t.cdr.car, deep); }
      SpelledConcat(Operator(tok), rest);
  }

  lemma {:induction false} SpelledListed(d: Sexp, deep: bool)
    ensures Spelled(Listed(d, deep)) == Join(d, ",")
    decreases d, 2
  {
    if d.Cons? {
      SpelledWritten(d.car, deep);
      if d.cdr.Cons? {
        SpelledListed(d.cdr, deep);
        CommaSpelled(Written(d.car, deep), Listed(d.cdr, deep));
      } else {
        SpelledConcat(Written(d.car, deep), []);
      }
    }
  }

  lemma {:induction false} SpelledLines(d: Sexp, sep: Word)
    ensures Spelled(Lines(d, sep)) == Join(d, sep)
    decreases d, 2
  {
    if d.Cons? {
      SpelledWritten(d.car, true);
      SpelledOne(Spell(sep));
      SpelledLines(d.cdr, sep);
      LineSpelled(Written(d.car, true), if d.cdr.Cons? then [Spell(sep)] else [], Lines(d.cdr, sep));
    }
  }
}
