/** How the parser groups short texts, from the numbers in the symbol table
    alone: which trees come out, and which texts are refused. */
module Grouping {
  import opened Options
  import opened SyntaxTree
  import opened Phrase
  import opened Machine
  import opened Acceptance
  import opened Canonical
  import opened RoundTrip

  // ----- expected trees, without precedences

  function Word1(name: Word): Sexp { Leaf(Token(name, ARGUMENT, 0, None)) }

  function Binary2(name: Word, l: Sexp, r: Sexp): Sexp {
    Cons(Atom(Token(name, BINARY, 0, None)), Cons(l, Cons(r, Nil)))
  }

  function Prefix1(kind: Kind, name: Word, sub: Sexp): Sexp {
    Cons(Atom(Token(name, kind, 0, None)), Cons(sub, Nil))
  }

  /** The text is accepted, with this tree up to the precedences in its tokens. */
  predicate Gives(tab: Table, words: seq<Word>, t: Sexp) {
    Parse(tab, words).Parsed? && Parse(tab, words).rest == [] && Erase(Parse(tab, words).tree) == t
  }

  // ----- through phrases

  lemma PhraseGives(tab: Table, p: seq<Item>, words: seq<Word>)
    requires ValidTable(tab) && WellFormed(tab, p) && Yield(p) == words
    ensures Parse(tab, words) == Parsed(PhraseTree(tab, p), [])
  {
    AcceptsExactlyPhrases(tab, words, PhraseTree(tab, p));
  }

  lemma EmptyPhrase(tab: Table)
    ensures WellFormedSoFar(tab, []) && PhraseTree(tab, []) == Nil
  {}

  /** A finished phrase lengthened by a binary operator and an argument. */
  lemma Lengthened(tab: Table, p: seq<Item>, w: Word, c: Word)
    requires ValidTable(tab) && WellFormed(tab, p) && IsInfixWord(tab, w) && IsArgument(tab, c)
    ensures var q := p + [Infix(w)] + [Argument(c)];
            && WellFormed(tab, q) && Yield(q) == Yield(p) + [w] + [c]
            && PhraseTree(tab, q) == Fill(BinIns(PhraseTree(tab, p), InfixToken(tab, w)), Leaf(ArgumentToken(c)))
  {
    AddInfix(tab, p, w);
    AddOperand(tab, p + [Infix(w)], Argument(c));
    YieldConcat(p + [Infix(w)], [Argument(c)]);
    YieldConcat(p, [Infix(w)]);
    YieldOne(Infix(w));
    YieldOne(Argument(c));
  }

  lemma ArgumentTree(tab: Table, a: Word)
    requires ValidTable(tab) && IsArgument(tab, a)
    ensures WellFormed(tab, [Argument(a)]) && Yield([Argument(a)]) == [a]
    ensures PhraseTree(tab, [Argument(a)]) == Leaf(ArgumentToken(a))
  {
    EmptyPhrase(tab);
    AddOperand(tab, [], Argument(a));
    assert [] + [Argument(a)] == [Argument(a)];
    YieldOne(Argument(a));
  }

  lemma LonePrefix(tab: Table, t: Word)
    requires ValidTable(tab) && IsPrefixWord(tab, t)
    ensures WellFormedSoFar(tab, [Prefix(t)]) && !Ended([Prefix(t)])
    ensures PhraseTree(tab, [Prefix(t)]) == Mon(PrefixToken(tab, t), Nil)
  {
    EmptyPhrase(tab);
    AddPrefix(tab, [], t);
    assert [] + [Prefix(t)] == [Prefix(t)];
  }

  /** A prefix and its operand. */
  lemma PrefixTree(tab: Table, t: Word, a: Word)
    requires ValidTable(tab) && IsPrefixWord(tab, t) && IsArgument(tab, a)
    ensures var p := [Prefix(t)] + [Argument(a)];
            && WellFormed(tab, p) && Yield(p) == [t, a]
            && PhraseTree(tab, p) == Mon(PrefixToken(tab, t), Leaf(ArgumentToken(a)))
  {
    LonePrefix(tab, t);
    AddOperand(tab, [Prefix(t)], Argument(a));
    NodeSlot(PrefixToken(tab, t), Nil, Nil, Leaf(ArgumentToken(a)));
    YieldTwo(Prefix(t), Argument(a));
    assert [t] + [a] == [t, a];
  }

  lemma YieldTwo(x: Item, y: Item)
    ensures Yield([x] + [y]) == Words(x) + Words(y)
  {
    YieldConcat([x], [y]);
    YieldOne(x);
    YieldOne(y);
  }

  /** Where one more operator and operand go. */
  lemma NodeLengthened(p: Token, l: Sexp, r: Sexp, q: Token, c: Sexp)
    ensures Fill(BinIns(Bin(p, l, r), q), c) ==
      if p.precedence >= q.precedence then Bin(q, Bin(p, l, r), c) else Bin(p, l, Fill(BinIns(r, q), c))
    ensures Fill(BinIns(Mon(p, r), q), c) ==
      if p.precedence >= q.precedence then Bin(q, Mon(p, r), c) else Mon(p, Fill(BinIns(r, q), c))
  {
    BinInsNode(p, l, r, q);
    NodeSlot(q, Bin(p, l, r), Nil, c);
    NodeSlot(q, Mon(p, r), Nil, c);
    NodeSlot(p, l, BinIns(r, q), c);
  }

  /** Nothing binds tighter than an argument. */
  lemma LeafLengthened(tab: Table, a: Word, w: Word, c: Sexp)
    requires ValidTable(tab) && IsInfixWord(tab, w)
    ensures Fill(BinIns(Leaf(ArgumentToken(a)), InfixToken(tab, w)), c)
         == Bin(InfixToken(tab, w), Leaf(ArgumentToken(a)), c)
  {
    assert InfixToken(tab, w).precedence <= MAX_PRECEDENCE;
    NodeSlot(InfixToken(tab, w), Leaf(ArgumentToken(a)), Nil, c);
  }

  /** A prefix, an operand, a binary operator and another operand. */
  lemma PrefixThenInfix(tab: Table, t: Word, a: Word, w: Word, b: Word, p: Token, q: Token)
    requires ValidTable(tab) && IsPrefixWord(tab, t) && IsInfixWord(tab, w) && IsArgument(tab, a) && IsArgument(tab, b)
    requires p == PrefixToken(tab, t) && q == InfixToken(tab, w)
    ensures var la, lb := Leaf(ArgumentToken(a)), Leaf(ArgumentToken(b));
      Parse(tab, [t, a, w, b])
      == Parsed(if p.precedence >= q.precedence then Bin(q, Mon(p, la), lb) else Mon(p, Bin(q, la, lb)), [])
  {
    var la, lb := Leaf(ArgumentToken(a)), Leaf(ArgumentToken(b));
    PrefixTree(tab, t, a);
    Lengthened(tab, [Prefix(t)] + [Argument(a)], w, b);
    NodeLengthened(p, Nil, la, q, lb);
    LeafLengthened(tab, a, w, lb);
    assert [t, a] + [w] + [b] == [t, a, w, b];
    PhraseGives(tab, [Prefix(t)] + [Argument(a)] + [Infix(w)] + [Argument(b)], [t, a, w, b]);
  }

  lemma InfixTree(tab: Table, a: Word, v: Word, b: Word)
    requires ValidTable(tab) && IsInfixWord(tab, v) && IsArgument(tab, a) && IsArgument(tab, b)
    ensures var p := [Argument(a)] + [Infix(v)] + [Argument(b)];
            && WellFormed(tab, p) && Yield(p) == [a, v, b]
            && PhraseTree(tab, p) == Bin(InfixToken(tab, v), Leaf(ArgumentToken(a)), Leaf(ArgumentToken(b)))
  {
    ArgumentTree(tab, a);
    Lengthened(tab, [Argument(a)], v, b);
    LeafLengthened(tab, a, v, Leaf(ArgumentToken(b)));
    assert [a] + [v] + [b] == [a, v, b];
  }

  /** Two binary operators between three operands. */
  lemma TwoInfixes(tab: Table, a: Word, v: Word, b: Word, w: Word, c: Word, p: Token, q: Token)
    requires ValidTable(tab) && IsInfixWord(tab, v) && IsInfixWord(tab, w)
    requires IsArgument(tab, a) && IsArgument(tab, b) && IsArgument(tab, c)
    requires p == InfixToken(tab, v) && q == InfixToken(tab, w)
    ensures var la, lb, lc := Leaf(ArgumentToken(a)), Leaf(ArgumentToken(b)), Leaf(ArgumentToken(c));
      Parse(tab, [a, v, b, w, c])
      == Parsed(if p.precedence >= q.precedence then Bin(q, Bin(p, la, lb), lc) else Bin(p, la, Bin(q, lb, lc)), [])
  {
    var la, lb, lc := Leaf(ArgumentToken(a)), Leaf(ArgumentToken(b)), Leaf(ArgumentToken(c));
    InfixTree(tab, a, v, b);
    var three := [Argument(a)] + [Infix(v)] + [Argument(b)];
    Lengthened(tab, three, w, c);
    NodeLengthened(p, la, lb, q, lc);
    LeafLengthened(tab, b, w, lc);
    assert [a, v, b] + [w] + [c] == [a, v, b, w, c];
    PhraseGives(tab, three + [Infix(w)] + [Argument(c)], [a, v, b, w, c]);
  }

  // ----- grouping by the numbers in the table

  /** The number the table gives a binary word, which a sign that is also a
      prefix has from its twin. */
  predicate Binds(tab: Table, w: Word, q: int) {
    Lookup(tab, w) == Some(Binary(q)) || Lookup(tab, w) == Some(Monary(Some(q)))
  }

  /** `**` and `^` are one operator. */
  function Power(w: Word): Word { if w == "**" then "^" else w }

  lemma EraseBinary(q: Token, l: Sexp, r: Sexp)
    requires q.kind == BINARY && q.close == None
    ensures Erase(Bin(q, l, r)) == Binary2(q.name, Erase(l), Erase(r))
  {
    EraseNode(q, l, r);
  }

  lemma ErasePrefix(p: Token, r: Sexp)
    requires p.close == None
    ensures Erase(Mon(p, r)) == Prefix1(p.kind, p.name, Erase(r))
  {
    EraseNode(p, Nil, r);
  }

  lemma EraseWord(a: Word)
    ensures Erase(Leaf(ArgumentToken(a))) == Word1(a)
  {}

  /** `t a w b` with a prefix `t`: its own number decides what it takes. */
  lemma PrefixScope(tab: Table, t: Word, a: Word, w: Word, b: Word, q: int, n: int, kind: Kind, name: Word)
    requires ValidTable(tab) && IsPrefixWord(tab, t) && IsArgument(tab, a) && IsArgument(tab, b)
    requires Binds(tab, w, q) && w != "!" && PrefixToken(tab, t) == Token(name, kind, n, None)
    ensures Gives(tab, [t, a, w, b],
      if q <= n then Binary2(Power(w), Prefix1(kind, name, Word1(a)), Word1(b))
      else Prefix1(kind, name, Binary2(Power(w), Word1(a), Word1(b))))
  {
    var p, i, la, lb := PrefixToken(tab, t), InfixToken(tab, w), Leaf(ArgumentToken(a)), Leaf(ArgumentToken(b));
    PrefixThenInfix(tab, t, a, w, b, p, i);
    EraseWord(a);
    EraseWord(b);
    ErasePrefix(p, la);
    ErasePrefix(p, Bin(i, la, lb));
    EraseBinary(i, la, lb);
    EraseBinary(i, Mon(p, la), lb);
  }

  /** A type binds like `+`: `Real x = 3` is an assignment to `Real x`, and
      `Real x * 3` a `Real` of a product. */
  lemma TypeScope(tab: Table, t: Word, a: Word, w: Word, b: Word, q: int)
    requires ValidTable(tab) && Lookup(tab, t) == Some(Type) && IsArgument(tab, a) && IsArgument(tab, b)
    requires Binds(tab, w, q) && w != "!"
    ensures Gives(tab, [t, a, w, b],
      if q <= 9 then Binary2(Power(w), Prefix1(TYPE, t, Word1(a)), Word1(b))
      else Prefix1(TYPE, t, Binary2(Power(w), Word1(a), Word1(b))))
  {
    PrefixScope(tab, t, a, w, b, q, 9, TYPE, t);
  }

  /** Prefixes in a row take what is behind them. */
  lemma TwoPrefixes(tab: Table, t: Word, u: Word, a: Word)
    requires ValidTable(tab) && IsPrefixWord(tab, t) && IsPrefixWord(tab, u) && IsArgument(tab, a)
    ensures Parse(tab, [t, u, a])
         == Parsed(Mon(PrefixToken(tab, t), Mon(PrefixToken(tab, u), Leaf(ArgumentToken(a)))), [])
  {
    var pt, pu, la := PrefixToken(tab, t), PrefixToken(tab, u), Leaf(ArgumentToken(a));
    LonePrefix(tab, t);
    AddPrefix(tab, [Prefix(t)], u);
    NodeSlot(pt, Nil, Nil, Mon(pu, Nil));
    var two := [Prefix(t)] + [Prefix(u)];
    AddOperand(tab, two, Argument(a));
    InnerSlot(pt, pu, la);
    YieldTwo(Prefix(t), Prefix(u));
    YieldConcat(two, [Argument(a)]);
    YieldOne(Argument(a));
    assert [t] + [u] + [a] == [t, u, a];
    PhraseGives(tab, two + [Argument(a)], [t, u, a]);
  }

  lemma InnerSlot(pt: Token, pu: Token, c: Sexp)
    ensures Fill(Mon(pt, Mon(pu, Nil)), c) == Mon(pt, Mon(pu, c))
  {
    NodeSlot(pu, Nil, Nil, c);
    assert Fill(Cons(Mon(pu, Nil), Nil), c) == Cons(Fill(Mon(pu, Nil), c), Nil);
  }

  /** A word that is only a prefix binds tighter than all binary operators up to
      20, but `Static` only than those of 1. */
  lemma MonaryScope(tab: Table, t: Word, a: Word, w: Word, b: Word, q: int)
    requires ValidTable(tab) && Lookup(tab, t) == Some(Monary(None)) && IsArgument(tab, a) && IsArgument(tab, b)
    requires Binds(tab, w, q) && w != "!"
    ensures var name: Word := if t == "!" then "Not" else t;
      Gives(tab, [t, a, w, b],
        if q <= (if t == "Static" then 1 else 20) then Binary2(Power(w), Prefix1(MONARY, name, Word1(a)), Word1(b))
        else Prefix1(MONARY, name, Binary2(Power(w), Word1(a), Word1(b))))
  {
    var name: Word := if t == "!" then "Not" else t;
    PrefixScope(tab, t, a, w, b, q, if t == "Static" then 1 else 20, MONARY, name);
  }

  /** A sign that is also binary binds as a prefix like its twin. */
  lemma SignScope(tab: Table, t: Word, a: Word, w: Word, b: Word, q: int, n: int)
    requires ValidTable(tab) && Lookup(tab, t) == Some(Monary(Some(n))) && t != "!"
    requires IsArgument(tab, a) && IsArgument(tab, b) && Binds(tab, w, q) && w != "!"
    ensures var name: Word := " " + t + " ";
      Gives(tab, [t, a, w, b],
        if q <= n then Binary2(Power(w), Prefix1(MONARY, name, Word1(a)), Word1(b))
        else Prefix1(MONARY, name, Binary2(Power(w), Word1(a), Word1(b))))
  {
    PrefixScope(tab, t, a, w, b, q, n, MONARY, " " + t + " ");
  }

  /** Of two binary operators the tighter one takes the operand between them,
      and of equal ones the left one. */
  lemma InfixScope(tab: Table, a: Word, v: Word, b: Word, w: Word, c: Word, p: int, q: int)
    requires ValidTable(tab) && IsArgument(tab, a) && IsArgument(tab, b) && IsArgument(tab, c)
    requires Binds(tab, v, p) && v != "!" && Binds(tab, w, q) && w != "!"
    ensures Gives(tab, [a, v, b, w, c],
      if p >= q then Binary2(Power(w), Binary2(Power(v), Word1(a), Word1(b)), Word1(c))
      else Binary2(Power(v), Word1(a), Binary2(Power(w), Word1(b), Word1(c))))
  {
    var i, j := InfixToken(tab, v), InfixToken(tab, w);
    var la, lb, lc := Leaf(ArgumentToken(a)), Leaf(ArgumentToken(b)), Leaf(ArgumentToken(c));
    TwoInfixes(tab, a, v, b, w, c, i, j);
    EraseWord(a);
    EraseWord(b);
    EraseWord(c);
    EraseBinary(i, la, lb);
    EraseBinary(j, Bin(i, la, lb), lc);
    EraseBinary(j, lb, lc);
    EraseBinary(i, la, Bin(j, lb, lc));
  }

  // ----- the same for all phrases without separators

  lemma {:induction false} ElementsLength(tab: Table, p: seq<Item>)
    requires WellFormedSoFar(tab, p) && NoSeparators(p)
    ensures |Elements(tab, p)| == |p|
  {
    if p != [] {
      LastElement(tab, p);
      ElementsLength(tab, p[..|p| - 1]);
    }
  }

  lemma {:induction false} ElementAt(tab: Table, p: seq<Item>, i: nat)
    requires WellFormedSoFar(tab, p) && NoSeparators(p) && i < |p|
    ensures |Elements(tab, p)| == |p| && ItemOk(tab, p[i]) && !p[i].Separate?
    ensures Elements(tab, p)[i] == PieceOf(tab, p[i]).e
  {
    LastElement(tab, p);
    var init, last := p[..|p| - 1], p[|p| - 1];
    ElementsLength(tab, init);
    if i < |init| {
      ElementAt(tab, init, i);
      assert init[i] == p[i] && Elements(tab, p)[i] == Elements(tab, init)[i];
    } else {
      assert p[i] == last && Elements(tab, p)[i] == PieceOf(tab, last).e;
    }
  }

  predicate PrefixBinds(tab: Table, w: Word, n: int) {
    || (Lookup(tab, w) == Some(Type) && n == 9)
    || Lookup(tab, w) == Some(Monary(Some(n)))
    || (Lookup(tab, w) == Some(Monary(None)) && n == if w == "Static" then 1 else 20)
  }

  /** The numbers by which the operators of a phrase bind: those of the table,
      9 for types, 20 for words that are only prefixes, and 1 for `Static`. */
  lemma NumbersOfTable(tab: Table, p: seq<Item>, i: nat)
    requires ValidTable(tab) && WellFormed(tab, p) && NoSeparators(p) && i < |p|
    ensures |Elements(tab, p)| == |p|
    ensures p[i].Infix? ==>
      Elements(tab, p)[i].Inf? && Binds(tab, p[i].word, Elements(tab, p)[i].tok.precedence)
    ensures p[i].Prefix? ==>
      Elements(tab, p)[i].Pre? && PrefixBinds(tab, p[i].word, Elements(tab, p)[i].tok.precedence)
    ensures Ends(p[i]) ==> Elements(tab, p)[i].Operand?
  {
    ElementAt(tab, p, i);
    PieceSound(tab, p[i]);
  }

  // ----- brackets, calls and lists

  /** The cells of a chain of branches. */
  function Branches2(a: Sexp, b: Sexp): Sexp { Cons(a, Cons(b, Nil)) }

  /** A lone bracket group. */
  lemma GroupTree(tab: Table, head: Option<Word>, br: Bracket, body: seq<Item>)
    requires ValidTable(tab) && ItemOk(tab, Group(head, br, body)) && WellFormed(tab, body)
    ensures Rooted(PhraseTree(tab, body))
    ensures Parse(tab, (if head.Some? then [head.value] else []) + [OpenName(br)] + Yield(body) + [CloseName(br)])
         == Parsed(Headed(Closed(PhraseTree(tab, body), br), head), [])
  {
    var x := Group(head, br, body);
    PhraseSound(tab, body);
    assert WellFormed(tab, [x]);
    LoneItem(tab, x);
    YieldOne(x);
    PhraseGives(tab, [x], Words(x));
  }

  /** The argument `a` in brackets remembers them. */
  lemma BracketsKept(tab: Table, br: Bracket, a: Word)
    requires ValidTable(tab) && IsArgument(tab, a)
    ensures Gives(tab, [OpenName(br), a, CloseName(br)], Cons(Atom(Token(a, ARGUMENT, 0, Some(br))), Nil))
  {
    ArgumentTree(tab, a);
    GroupTree(tab, None, br, [Argument(a)]);
    assert [] + [OpenName(br)] + [a] + [CloseName(br)] == [OpenName(br), a, CloseName(br)];
  }

  predicate LetterOrUnderscore(c: char) {
    'a' <= c <= 'z' || 'A' <= c <= 'Z' || c == '_' || c == '\U{00F1}' || c == '\U{00D1}'
  }

  /** The names under which three functions are called. */
  function Called(f: Word): Word {
    if f == "EQ" then "Eq" else if f == "Sqrt" then "SqRt" else if f == "Pow" then "^" else f
  }

  /** A call of one argument: the name goes on top of the bracketed argument. */
  lemma CallOfOne(tab: Table, f: Word, br: Bracket, a: Word)
    requires ValidTable(tab) && IsArgument(tab, f) && LetterOrUnderscore(f[0]) && IsArgument(tab, a)
    ensures Gives(tab, [f, OpenName(br), a, CloseName(br)],
      Prefix1(FUNCTION, Called(f), Cons(Atom(Token(a, ARGUMENT, 0, Some(br))), Nil)))
  {
    ArgumentTree(tab, a);
    GroupTree(tab, Some(f), br, [Argument(a)]);
    assert [f] + [OpenName(br)] + [a] + [CloseName(br)] == [f, OpenName(br), a, CloseName(br)];
    var c := Closed(Leaf(ArgumentToken(a)), br);
    assert Erase(c) == Cons(Atom(Token(a, ARGUMENT, 0, Some(br))), Nil);
    EraseNode(FunctionToken(f), Nil, c);
  }

  lemma ListTree(tab: Table, a: Word, s: Word, b: Word)
    requires ValidTable(tab) && IsSeparatorWord(tab, s) && IsArgument(tab, a) && IsArgument(tab, b)
    ensures var p := [Argument(a)] + [Separate(s)] + [Argument(b)];
            && WellFormed(tab, p) && Yield(p) == [a, s, b]
            && PhraseTree(tab, p) == Bin(SeparatorToken(tab, s), Leaf(ArgumentToken(a)), Leaf(ArgumentToken(b)))
  {
    ArgumentTree(tab, a);
    var one := [Argument(a)];
    AddSeparator(tab, one, s);
    AddOperand(tab, one + [Separate(s)], Argument(b));
    NodeSlot(SeparatorToken(tab, s), Leaf(ArgumentToken(a)), Nil, Leaf(ArgumentToken(b)));
    YieldTwo(Argument(a), Separate(s));
    YieldConcat(one + [Separate(s)], [Argument(b)]);
    YieldOne(Argument(b));
    assert [a] + [s] + [b] == [a, s, b];
  }

  /** A list has its separator at the root. */
  lemma ListOfTwo(tab: Table, a: Word, s: Word, b: Word)
    requires ValidTable(tab) && IsSeparatorWord(tab, s) && IsArgument(tab, a) && IsArgument(tab, b)
    ensures Gives(tab, [a, s, b], Cons(Atom(Token(s, SEPARATOR, 0, None)), Branches2(Word1(a), Word1(b))))
  {
    ListTree(tab, a, s, b);
    PhraseGives(tab, [Argument(a)] + [Separate(s)] + [Argument(b)], [a, s, b]);
    EraseNode(SeparatorToken(tab, s), Leaf(ArgumentToken(a)), Leaf(ArgumentToken(b)));
  }

  lemma SixInRow<A>(u: A, v: A, w: A, x: A, y: A, z: A)
    ensures [u] + [v] + [w, x, y] + [z] == [u, v, w, x, y, z]
  {}

  lemma HeadedList(sep: Token, a: Sexp, b: Sexp, br: Bracket, head: Option<Word>)
    requires sep.kind == SEPARATOR
    ensures Erase(Headed(Closed(Bin(sep, a, b), br), head))
         == Cons(Atom(if head.Some? then Token(Called(head.value), FUNCTION, 0, None)
                      else Token(sep.name, SEPARATOR, 0, Some(br))),
                 Branches2(Erase(a), Erase(b)))
  {
    assert Erase(Cons(b, Nil)) == Cons(Erase(b), Nil);
    assert Erase(Cons(a, Cons(b, Nil))) == Branches2(Erase(a), Erase(b));
  }

  lemma ListGroup(tab: Table, head: Option<Word>, br: Bracket, a: Word, s: Word, b: Word)
    requires ValidTable(tab) && IsSeparatorWord(tab, s) && IsArgument(tab, a) && IsArgument(tab, b)
    requires head.Some? ==> IsArgument(tab, head.value) && StartIdentifier(head.value)
    ensures var t := Bin(SeparatorToken(tab, s), Leaf(ArgumentToken(a)), Leaf(ArgumentToken(b)));
      Parse(tab, (if head.Some? then [head.value] else []) + [OpenName(br)] + [a, s, b] + [CloseName(br)])
      == Parsed(Headed(Closed(t, br), head), [])
  {
    var body := [Argument(a)] + [Separate(s)] + [Argument(b)];
    ListTree(tab, a, s, b);
    assert !BraceAlone(body);
    GroupTree(tab, head, br, body);
  }

  /** In a call the name takes the place of the separator; the bracket goes. */
  lemma CallOfTwo(tab: Table, f: Word, br: Bracket, a: Word, s: Word, b: Word)
    requires ValidTable(tab) && IsArgument(tab, f) && LetterOrUnderscore(f[0]) && IsSeparatorWord(tab, s)
    requires IsArgument(tab, a) && IsArgument(tab, b)
    ensures Gives(tab, [f, OpenName(br), a, s, b, CloseName(br)],
      Cons(Atom(Token(Called(f), FUNCTION, 0, None)), Branches2(Word1(a), Word1(b))))
  {
    ListGroup(tab, Some(f), br, a, s, b);
    SixInRow(f, OpenName(br), a, s, b, CloseName(br));
    HeadedList(SeparatorToken(tab, s), Leaf(ArgumentToken(a)), Leaf(ArgumentToken(b)), br, Some(f));
  }

  /** Without a head the list remembers its brackets. */
  lemma BracketedList(tab: Table, br: Bracket, a: Word, s: Word, b: Word)
    requires ValidTable(tab) && IsSeparatorWord(tab, s) && IsArgument(tab, a) && IsArgument(tab, b)
    ensures Gives(tab, [OpenName(br), a, s, b, CloseName(br)],
      Cons(Atom(Token(s, SEPARATOR, 0, Some(br))), Branches2(Word1(a), Word1(b))))
  {
    ListGroup(tab, None, br, a, s, b);
    assert [] + [OpenName(br)] + [a, s, b] + [CloseName(br)] == [OpenName(br), a, s, b, CloseName(br)];
    HeadedList(SeparatorToken(tab, s), Leaf(ArgumentToken(a)), Leaf(ArgumentToken(b)), br, None);
  }

  /** A separator takes whole operations, whatever their operators. */
  lemma SeparatorScope(tab: Table, a: Word, s: Word, b: Word, w: Word, c: Word)
    requires ValidTable(tab) && IsSeparatorWord(tab, s) && IsInfixWord(tab, w) && w != "!"
    requires IsArgument(tab, a) && IsArgument(tab, b) && IsArgument(tab, c)
    ensures Gives(tab, [a, s, b, w, c],
      Cons(Atom(Token(s, SEPARATOR, 0, None)), Branches2(Word1(a), Binary2(Power(w), Word1(b), Word1(c)))))
  {
    ListTree(tab, a, s, b);
    var three, q, sep := [Argument(a)] + [Separate(s)] + [Argument(b)], InfixToken(tab, w), SeparatorToken(tab, s);
    var la, lb, lc := Leaf(ArgumentToken(a)), Leaf(ArgumentToken(b)), Leaf(ArgumentToken(c));
    Lengthened(tab, three, w, c);
    NodeLengthened(sep, la, lb, q, lc);
    LeafLengthened(tab, b, w, lc);
    assert [a, s, b] + [w] + [c] == [a, s, b, w, c];
    PhraseGives(tab, three + [Infix(w)] + [Argument(c)], [a, s, b, w, c]);
    EraseNode(sep, la, Bin(q, lb, lc));
    EraseBinary(q, lb, lc);
  }

  lemma ThirdBranch(sep: Token, a: Sexp, b: Sexp, c: Sexp)
    ensures Fill(AppendSlot(Bin(sep, a, b)), c) == Cons(Atom(sep), Cons(a, Cons(b, Cons(c, Nil))))
  {
    var two, three := Cons(b, Nil), Cons(a, Cons(b, Nil));
    assert AppendSlot(two) == Cons(b, Cons(Nil, Nil));
    assert AppendSlot(three) == Cons(a, Cons(b, Cons(Nil, Nil)));
    assert Fill(Cons(Nil, Nil), c) == Cons(c, Nil);
    assert Fill(AppendSlot(two), c) == Cons(b, Cons(c, Nil));
    assert Fill(AppendSlot(three), c) == Cons(a, Cons(b, Cons(c, Nil)));
  }

  lemma EraseThree(sep: Token, a: Sexp, b: Sexp, c: Sexp)
    ensures Erase(Cons(Atom(sep), Cons(a, Cons(b, Cons(c, Nil)))))
         == Cons(Atom(sep.(precedence := 0)), Cons(Erase(a), Branches2(Erase(b), Erase(c))))
  {
    assert Erase(Cons(b, Cons(c, Nil))) == Branches2(Erase(b), Erase(c)) by {
      assert Erase(Cons(c, Nil)) == Cons(Erase(c), Nil);
    }
  }

  /** A further separator lengthens the list, which keeps its first one. */
  lemma ListOfThree(tab: Table, a: Word, s: Word, b: Word, r: Word, c: Word)
    requires ValidTable(tab) && IsSeparatorWord(tab, s) && IsSeparatorWord(tab, r)
    requires IsArgument(tab, a) && IsArgument(tab, b) && IsArgument(tab, c)
    ensures Gives(tab, [a, s, b, r, c],
      Cons(Atom(Token(s, SEPARATOR, 0, None)), Cons(Word1(a), Branches2(Word1(b), Word1(c)))))
  {
    ListTree(tab, a, s, b);
    var three, sep := [Argument(a)] + [Separate(s)] + [Argument(b)], SeparatorToken(tab, s);
    var la, lb, lc := Leaf(ArgumentToken(a)), Leaf(ArgumentToken(b)), Leaf(ArgumentToken(c));
    AddSeparator(tab, three, r);
    AddOperand(tab, three + [Separate(r)], Argument(c));
    ThirdBranch(sep, la, lb, lc);
    EraseThree(sep, la, lb, lc);
    YieldConcat(three, [Separate(r)]);
    YieldConcat(three + [Separate(r)], [Argument(c)]);
    YieldOne(Separate(r));
    YieldOne(Argument(c));
    assert [a, s, b] + [r] + [c] == [a, s, b, r, c];
    PhraseGives(tab, three + [Separate(r)] + [Argument(c)], [a, s, b, r, c]);
  }

  // ----- refusals

  lemma Behind(w: Word, rest: seq<Word>)
    ensures ([w] + rest)[0] == w && ([w] + rest)[1..] == rest
  {}

  lemma BehindTwo(v: Word, w: Word, rest: seq<Word>)
    ensures ([v, w] + rest)[0] == v && ([v, w] + rest)[1] == w && ([v, w] + rest)[2..] == rest
  {}

  /** No text, or a text that ends in an operator or separator. */
  lemma OperandMissing(tab: Table, a: Word, w: Word)
    requires ValidTable(tab) && IsArgument(tab, a) && (IsInfixWord(tab, w) || IsSeparatorWord(tab, w))
    ensures Parse(tab, []) == Fail && Parse(tab, [a, w]) == Fail
  {
    assert [a, w][2..] == [];
    assert Read(tab, [a, w]) == Reading(Some(a), Sym(w, Lookup(tab, w).value), []);
    assert Read(tab, []) == Reading(None, End, []);
    var next := Advance(tab, START, Some(a), w);
    assert next.Some? && !next.value.complete && next.value.delayed == None;
    assert Run(tab, next.value, None, []) == Fail;
    RunAdvances(tab, START, None, [a, w], next.value);
  }

  /** An operator that is no prefix, or a separator, without operand before it. */
  lemma OperatorFirst(tab: Table, w: Word, rest: seq<Word>)
    requires ValidTable(tab) && !IsPrefixWord(tab, w) && (IsInfixWord(tab, w) || IsSeparatorWord(tab, w))
    ensures Parse(tab, [w] + rest) == Fail
  {
    Behind(w, rest);
    assert Read(tab, [w] + rest) == Reading(None, Sym(w, Lookup(tab, w).value), rest);
  }

  /** A prefix behind an operand, unless it is also binary. */
  lemma PrefixBehind(tab: Table, a: Word, w: Word, rest: seq<Word>)
    requires ValidTable(tab) && IsArgument(tab, a) && IsPrefixWord(tab, w) && !IsInfixWord(tab, w)
    ensures Parse(tab, [a, w] + rest) == Fail
  {
    BehindTwo(a, w, rest);
    assert Read(tab, [a, w] + rest) == Reading(Some(a), Sym(w, Lookup(tab, w).value), rest);
  }

  /** Brackets around nothing. */
  lemma EmptyBrackets(tab: Table, br: Bracket, rest: seq<Word>)
    requires ValidTable(tab)
    ensures Parse(tab, [OpenName(br), CloseName(br)] + rest) == Fail
  {
    var words := [OpenName(br), CloseName(br)] + rest;
    assert words[1..] == [CloseName(br)] + rest;
    Behind(CloseName(br), rest);
    assert Read(tab, words) == Reading(None, Sym(OpenName(br), Open(br)), words[1..]);
    assert Read(tab, words[1..]) == Reading(None, Sym(CloseName(br), Close(br)), rest);
    assert Run(tab, START, Some(br), words[1..]) == Fail;
  }

  /** A bracket that is never closed, or closed by another one. */
  lemma BracketsDiffer(tab: Table, br: Bracket, a: Word, cl: Bracket, rest: seq<Word>)
    requires ValidTable(tab) && IsArgument(tab, a) && br != cl
    ensures Parse(tab, [OpenName(br), a]) == Fail
    ensures Parse(tab, [OpenName(br), a, CloseName(cl)] + rest) == Fail
  {
    assert [OpenName(br), a][1..] == [a];
    assert Read(tab, [OpenName(br), a]) == Reading(None, Sym(OpenName(br), Open(br)), [a]);
    assert Read(tab, [a]) == Reading(Some(a), End, []);
    assert Run(tab, START, Some(br), [a]) == Fail;
    var words := [OpenName(br), a, CloseName(cl)] + rest;
    assert words[1..] == [a, CloseName(cl)] + rest;
    BehindTwo(a, CloseName(cl), rest);
    assert Read(tab, words) == Reading(None, Sym(OpenName(br), Open(br)), words[1..]);
    assert Read(tab, words[1..]) == Reading(Some(a), Sym(CloseName(cl), Close(cl)), rest);
    assert Run(tab, START, Some(br), words[1..]) == Fail;
  }

  /** A closing bracket that nothing has opened. */
  lemma StrayBracket(tab: Table, a: Word, br: Bracket, rest: seq<Word>)
    requires ValidTable(tab) && IsArgument(tab, a)
    ensures Parse(tab, [a, CloseName(br)] + rest) == Fail
  {
    BehindTwo(a, CloseName(br), rest);
    assert Read(tab, [a, CloseName(br)] + rest) == Reading(Some(a), Sym(CloseName(br), Close(br)), rest);
  }

  /** Only names can be called, and no user type is known. */
  lemma NoName(tab: Table, f: Word, br: Bracket, rest: seq<Word>)
    requires ValidTable(tab) && Lookup(tab, f) == None && !LetterOrUnderscore(f[0])
    ensures Parse(tab, [f, OpenName(br)] + rest) == Fail
  {
    BehindTwo(f, OpenName(br), rest);
    assert Read(tab, [f, OpenName(br)] + rest) == Reading(Some(f), Sym(OpenName(br), Open(br)), rest);
  }

  /** A quoted text is an argument even where the table has it, and a word that
      begins with `@` is refused. */
  lemma WordAlone(tab: Table, w: Word)
    requires ValidTable(tab) && (w[0] == '\"' || w !in tab)
    ensures w[0] != '@' ==> Gives(tab, [w], Word1(w))
    ensures w[0] == '@' ==> Parse(tab, [w]) == Fail
  {
    assert Read(tab, [w]) == Reading(Some(w), End, []);
    if w[0] != '@' {
      ArgumentTree(tab, w);
      PhraseGives(tab, [Argument(w)], [w]);
    }
  }

  function AfterGroup(br: Bracket, a: Word): State {
    State(Headed(Closed(Leaf(ArgumentToken(a)), br), None), true, None)
  }

  /** What a bracket group leaves behind it. */
  lemma GroupRead(tab: Table, br: Bracket, a: Word, close: Option<Bracket>, rest: seq<Word>)
    requires ValidTable(tab) && IsArgument(tab, a)
    ensures Run(tab, START, close, [OpenName(br), a, CloseName(br)] + rest) == Run(tab, AfterGroup(br, a), close, rest)
  {
    var words := [OpenName(br), a, CloseName(br)] + rest;
    assert words[1..] == [a, CloseName(br)] + rest;
    BehindTwo(a, CloseName(br), rest);
    assert Read(tab, words) == Reading(None, Sym(OpenName(br), Open(br)), words[1..]);
    assert Read(tab, words[1..]) == Reading(Some(a), Sym(CloseName(br), Close(br)), rest);
    RunLast(tab, START, Some(br), words[1..], Some(a), rest);
    RunGroup(tab, START, close, words, Parsed(CloseTree(Leaf(ArgumentToken(a)), br), rest));
  }

  lemma ClosedAfterBrace(tab: Table, br: Bracket, a: Word, rest: seq<Word>)
    requires ValidTable(tab) && br != Brace
    ensures Run(tab, AfterGroup(Brace, a), Some(br), [CloseName(br)] + rest) == Fail
  {
    Behind(CloseName(br), rest);
    assert Read(tab, [CloseName(br)] + rest) == Reading(None, Sym(CloseName(br), Close(br)), rest);
    assert ClosedByBrace(AfterGroup(Brace, a).tree);
  }

  /** A call of a brace group alone in other brackets. */
  lemma BraceCalled(tab: Table, f: Word, br: Bracket, a: Word, rest: seq<Word>)
    requires ValidTable(tab) && IsArgument(tab, f) && IsArgument(tab, a) && br != Brace
    ensures Parse(tab, [f, OpenName(br)] + (["{", a, "}"] + ([CloseName(br)] + rest))) == Fail
  {
    var inner := ["{", a, "}"] + ([CloseName(br)] + rest);
    assert OpenName(Brace) == "{" && CloseName(Brace) == "}";
    GroupRead(tab, Brace, a, Some(br), [CloseName(br)] + rest);
    ClosedAfterBrace(tab, br, a, rest);
    BehindTwo(f, OpenName(br), inner);
    assert Read(tab, [f, OpenName(br)] + inner) == Reading(Some(f), Sym(OpenName(br), Open(br)), inner);
  }

  /** An operand right behind a group. */
  lemma OperandBehind(tab: Table, br: Bracket, a: Word, b: Word, op: Bracket, rest: seq<Word>)
    requires ValidTable(tab) && IsArgument(tab, a) && IsArgument(tab, b)
    ensures Parse(tab, [OpenName(br), a, CloseName(br)] + [b]) == Fail
    ensures Parse(tab, [OpenName(br), a, CloseName(br)] + ([OpenName(op)] + rest)) == Fail
  {
    GroupRead(tab, br, a, None, [b]);
    assert Read(tab, [b]) == Reading(Some(b), End, []);
    GroupRead(tab, br, a, None, [OpenName(op)] + rest);
    Behind(OpenName(op), rest);
    assert Read(tab, [OpenName(op)] + rest) == Reading(None, Sym(OpenName(op), Open(op)), rest);
  }

  /** Two arguments in a row. */
  lemma TwoArguments(tab: Table, a: Word, b: Word, rest: seq<Word>)
    requires ValidTable(tab) && IsArgument(tab, a) && IsArgument(tab, b)
    ensures Parse(tab, [a, b] + rest) == Fail
  {
    BehindTwo(a, b, rest);
    assert Read(tab, [a, b] + rest).input.Extra?;
  }

  /** A prefix without operand. */
  lemma PrefixAlone(tab: Table, t: Word)
    requires ValidTable(tab) && IsPrefixWord(tab, t)
    ensures Parse(tab, [t]) == Fail
  {
    assert [t][1..] == [];
    assert Read(tab, [t]) == Reading(None, Sym(t, Lookup(tab, t).value), []);
    assert Read(tab, []) == Reading(None, End, []);
    var next := Advance(tab, START, None, t);
    assert next.Some? && !next.value.complete;
    assert Run(tab, next.value, None, []) == Fail;
    RunAdvances(tab, START, None, [t], next.value);
  }

  /** A brace group alone in other brackets; in braces it may be. */
  lemma BraceInside(tab: Table, br: Bracket, a: Word, rest: seq<Word>)
    requires ValidTable(tab) && IsArgument(tab, a)
    ensures br != Brace ==> Parse(tab, [OpenName(br)] + (["{", a, "}"] + ([CloseName(br)] + rest))) == Fail
    ensures Parse(tab, ["{", "{", a, "}", "}"]).Parsed?
  {
    var inner := ["{", a, "}"] + ([CloseName(br)] + rest);
    assert OpenName(Brace) == "{" && CloseName(Brace) == "}";
    GroupRead(tab, Brace, a, Some(br), [CloseName(br)] + rest);
    if br != Brace {
      ClosedAfterBrace(tab, br, a, rest);
      Behind(OpenName(br), inner);
      assert Read(tab, [OpenName(br)] + inner) == Reading(None, Sym(OpenName(br), Open(br)), inner);
    }
    BraceTwice(tab, a);
  }

  lemma BraceTwice(tab: Table, a: Word)
    requires ValidTable(tab) && IsArgument(tab, a)
    ensures Parse(tab, ["{", "{", a, "}", "}"]).Parsed?
  {
    ArgumentTree(tab, a);
    var one := Group(None, Brace, [Argument(a)]);
    var two := Group(None, Brace, [one]);
    assert ItemOk(tab, one) && WellFormed(tab, [one]);
    assert ItemOk(tab, two) && WellFormed(tab, [two]);
    YieldOne(two);
    AcceptsExactlyPhrases(tab, Yield([two]), PhraseTree(tab, [two]));
    BraceWords(a);
  }

  lemma BraceWords(a: Word)
    ensures Yield([Group(None, Brace, [Group(None, Brace, [Argument(a)])])]) == ["{", "{", a, "}", "}"]
  {
    var one := Group(None, Brace, [Argument(a)]);
    var two := Group(None, Brace, [one]);
    YieldOne(Argument(a));
    YieldOne(one);
    YieldOne(two);
    assert Words(one) == [] + ["{"] + [a] + ["}"] == ["{", a, "}"];
    assert Words(two) == [] + ["{"] + ["{", a, "}"] + ["}"];
  }
}
