/** The parser accepts exactly the well-formed phrases and builds their tree. */
module Acceptance {
  import opened Options
  import opened SyntaxTree
  import opened Precedence
  import opened Level
  import opened Phrase
  import opened Machine

  // ----- regrouping

  lemma Assoc<A>(a: seq<A>, b: seq<A>, c: seq<A>)
    ensures a + b + c == a + (b + c)
  {}

  predicate Ended(p: seq<Item>) { |p| > 0 && Ends(p[|p| - 1]) }

  predicate TypeLast(tab: Table, p: seq<Item>) {
    |p| > 0 && p[|p| - 1].Prefix? && IsTypeWord(tab, p[|p| - 1].word)
  }

  /** The parser is in state `st` after reading the items `p` at this level. */
  predicate Reached(tab: Table, st: State, p: seq<Item>) {
    && WellFormedSoFar(tab, p)
    && st.complete == Ended(p)
    && if TypeLast(tab, p) then
         ItemOk(tab, p[|p| - 1]) && WellFormedSoFar(tab, p[..|p| - 1])
         && st.delayed == Some(PrefixToken(tab, p[|p| - 1].word))
         && st.tree == PhraseTree(tab, p[..|p| - 1])
       else st.delayed == None && st.tree == PhraseTree(tab, p)
  }

  /** The same, with no symbol delayed. */
  predicate Settled(tab: Table, st: State, p: seq<Item>) {
    WellFormedSoFar(tab, p) && st == State(PhraseTree(tab, p), Ended(p), None)
  }

  lemma Grow(tab: Table, p: seq<Item>, x: Item)
    requires WellFormedSoFar(tab, p) && ItemOk(tab, x) && (StartsOperand(x) <==> !Ended(p))
    ensures WellFormedSoFar(tab, p + [x]) && (p + [x])[..|p|] == p
    ensures Pieces(tab, p + [x]) == Pieces(tab, p) + [PieceOf(tab, x)]
  {
    var q := p + [x];
    assert q[..|p|] == p;
    forall i | 0 <= i < |q| ensures ItemOk(tab, q[i]) {
      if i < |p| { assert q[i] == p[i]; }
    }
    forall i | 0 < i < |q| ensures StartsOperand(q[i]) <==> !Ends(q[i - 1]) {
      if i < |p| { assert q[i] == p[i] && q[i - 1] == p[i - 1]; }
    }
  }

  lemma Shrink(tab: Table, p: seq<Item>)
    requires WellFormedSoFar(tab, p) && |p| > 0
    ensures WellFormedSoFar(tab, p[..|p| - 1]) && p == p[..|p| - 1] + [p[|p| - 1]]
    ensures ItemOk(tab, p[|p| - 1]) && (StartsOperand(p[|p| - 1]) <==> !Ended(p[..|p| - 1]))
  {}

  // ----- what one more item does to the tree

  lemma AddOperand(tab: Table, p: seq<Item>, x: Item)
    requires ValidTable(tab) && WellFormedSoFar(tab, p) && ItemOk(tab, x) && Ends(x) && !Ended(p)
    ensures WellFormedSoFar(tab, p + [x]) && PieceOf(tab, x).Op? && PieceOf(tab, x).e.Operand?
    ensures PhraseTree(tab, p + [x]) == Fill(PhraseTree(tab, p), PieceOf(tab, x).e.tree)
  {
    Grow(tab, p, x);
    PhraseSound(tab, p);
    PieceSound(tab, x);
    LevelFill(Pieces(tab, p), PieceOf(tab, x).e.tree);
  }

  lemma AddPrefix(tab: Table, p: seq<Item>, w: Word)
    requires ValidTable(tab) && WellFormedSoFar(tab, p) && IsPrefixWord(tab, w) && !Ended(p)
    ensures WellFormedSoFar(tab, p + [Prefix(w)])
    ensures PhraseTree(tab, p + [Prefix(w)]) == Fill(PhraseTree(tab, p), Mon(PrefixToken(tab, w), Nil))
  {
    Grow(tab, p, Prefix(w));
    PhraseSound(tab, p);
    LevelPrefix(Pieces(tab, p), PrefixToken(tab, w));
  }

  lemma AddInfix(tab: Table, p: seq<Item>, w: Word)
    requires ValidTable(tab) && WellFormedSoFar(tab, p) && IsInfixWord(tab, w) && Ended(p)
    ensures WellFormedSoFar(tab, p + [Infix(w)])
    ensures PhraseTree(tab, p + [Infix(w)]) == BinIns(PhraseTree(tab, p), InfixToken(tab, w))
  {
    Grow(tab, p, Infix(w));
    PhraseSound(tab, p);
    PieceSound(tab, Infix(w));
    LevelInfix(Pieces(tab, p), InfixToken(tab, w));
  }

  lemma AddSeparator(tab: Table, p: seq<Item>, w: Word)
    requires ValidTable(tab) && WellFormedSoFar(tab, p) && IsSeparatorWord(tab, w) && Ended(p)
    ensures WellFormedSoFar(tab, p + [Separate(w)])
    ensures PhraseTree(tab, p + [Separate(w)]) == SepIns(PhraseTree(tab, p), SeparatorToken(tab, w))
  {
    Grow(tab, p, Separate(w));
    PhraseSound(tab, p);
    PieceSound(tab, Separate(w));
    LevelSep(Pieces(tab, p), SeparatorToken(tab, w));
  }

  lemma FlushSettles(tab: Table, st: State, p: seq<Item>)
    requires ValidTable(tab) && Reached(tab, st, p)
    ensures Settled(tab, Flush(st), p)
  {
    if TypeLast(tab, p) {
      Shrink(tab, p);
      AddPrefix(tab, p[..|p| - 1], p[|p| - 1].word);
    }
  }

  // ----- one symbol

  /** The item a symbol stands for after the items `p`. */
  function ItemOf(tab: Table, p: seq<Item>, w: Word): Item {
    if IsSeparatorWord(tab, w) then Separate(w) else if Ended(p) then Infix(w) else Prefix(w)
  }

  function WithArgument(p: seq<Item>, arg: Option<Word>): seq<Item> {
    if arg.Some? then p + [Argument(arg.value)] else p
  }

  lemma SupplySettles(tab: Table, f: State, p: seq<Item>, arg: Option<Word>)
    requires ValidTable(tab) && Settled(tab, f, p)
    requires arg.Some? ==> !Ended(p) && IsArgument(tab, arg.value)
    ensures Settled(tab, State(Supply(f.tree, arg), arg.Some? || f.complete, None), WithArgument(p, arg))
  {
    if arg.Some? { AddOperand(tab, p, Argument(arg.value)); }
  }

  lemma AdvanceSettled(tab: Table, f: State, p: seq<Item>, w: Word)
    requires ValidTable(tab) && Settled(tab, f, p)
    requires IsPrefixWord(tab, w) || IsInfixWord(tab, w) || IsSeparatorWord(tab, w)
    ensures Advance(tab, f, None, w).Some? ==> Reached(tab, Advance(tab, f, None, w).value, p + [ItemOf(tab, p, w)])
    ensures Advance(tab, f, None, w).None? ==> !WellFormedSoFar(tab, p + [ItemOf(tab, p, w)])
  {
    var q := p + [ItemOf(tab, p, w)];
    assert q[..|p|] == p && q[|p|] == ItemOf(tab, p, w);
    if Advance(tab, f, None, w).None? {
      if WellFormedSoFar(tab, q) { Shrink(tab, q); }
    } else if IsSeparatorWord(tab, w) {
      AddSeparator(tab, p, w);
    } else if Ended(p) {
      AddInfix(tab, p, w);
    } else {
      AddPrefix(tab, p, w);
    }
  }

  /** The parser goes on after a symbol exactly when the phrase does. */
  lemma AdvanceIsItems(tab: Table, f: State, p: seq<Item>, arg: Option<Word>, w: Word)
    requires ValidTable(tab) && Settled(tab, f, p)
    requires IsPrefixWord(tab, w) || IsInfixWord(tab, w) || IsSeparatorWord(tab, w)
    requires arg.Some? ==> !Ended(p) && IsArgument(tab, arg.value)
    ensures var q := WithArgument(p, arg) + [ItemOf(tab, WithArgument(p, arg), w)];
            && (Advance(tab, f, arg, w).Some? ==> Reached(tab, Advance(tab, f, arg, w).value, q))
            && (Advance(tab, f, arg, w).None? ==> !WellFormedSoFar(tab, q))
  {
    var g := State(Supply(f.tree, arg), arg.Some? || f.complete, None);
    SupplySettles(tab, f, p, arg);
    assert Advance(tab, f, arg, w) == Advance(tab, g, None, w);
    AdvanceSettled(tab, g, WithArgument(p, arg), w);
  }

  // ----- brackets

  lemma BraceRule(tab: Table, p: seq<Item>)
    requires ValidTable(tab) && WellFormed(tab, p)
    ensures ClosedByBrace(PhraseTree(tab, p)) <==> BraceAlone(p)
  {
    PhraseSound(tab, p);
    if |p| == 1 {
      LoneItem(tab, p[0]);
      assert p == [p[0]];
    } else {
      RootUnclosed(Pieces(tab, p));
    }
  }

  lemma LoneItem(tab: Table, x: Item)
    requires ValidTable(tab) && WellFormed(tab, [x])
    ensures ItemOk(tab, x) && PieceOf(tab, x).Op? && PieceOf(tab, x).e.Operand?
    ensures PhraseTree(tab, [x]) == PieceOf(tab, x).e.tree
    ensures ClosedByBrace(PhraseTree(tab, [x])) <==> BraceAlone([x])
  {
    assert ItemOk(tab, x) && Ends(x) by { assert [x][0] == x; }
    assert [] + [x] == [x];
    Grow(tab, [], x);
    assert Pieces(tab, [x]) == [PieceOf(tab, x)];
    PieceSound(tab, x);
    LoneOperand(PieceOf(tab, x).e.tree);
    LoneBrace(tab, x);
  }

  lemma LoneBrace(tab: Table, x: Item)
    requires ValidTable(tab) && ItemOk(tab, x) && Ends(x)
    ensures PieceOf(tab, x).Op? && PieceOf(tab, x).e.Operand?
    ensures ClosedByBrace(PieceOf(tab, x).e.tree) <==> BraceAlone([x])
  {
    if x.Group? {
      assert WellFormed(tab, x.body);
      PhraseSound(tab, x.body);
    }
  }

  lemma GroupReached(tab: Table, f: State, p: seq<Item>, x: Item)
    requires ValidTable(tab) && Settled(tab, f, p) && !Ended(p) && x.Group? && ItemOk(tab, x)
    ensures WellFormed(tab, x.body)
    ensures var t := CloseTree(PhraseTree(tab, x.body), x.br);
            Reached(tab, State(Fill(f.tree, HeadTree(t, x.head)), true, None), p + [x])
  {
    assert WellFormed(tab, x.body);
    PhraseSound(tab, x.body);
    AddOperand(tab, p, x);
  }

  lemma {:induction false} YieldConcat(a: seq<Item>, b: seq<Item>)
    ensures Yield(a + b) == Yield(a) + Yield(b)
    decreases |a|
  {
    if a == [] {
      assert a + b == b;
    } else {
      YieldConcat(a[1..], b);
      assert (a + b)[1..] == a[1..] + b;
    }
  }

  lemma YieldOne(x: Item)
    ensures Yield([x]) == Words(x)
  {
    assert [x][1..] == [];
  }

  lemma YieldArgument(p: seq<Item>, arg: Option<Word>, x: Item)
    ensures WithArgument(p, arg) + [x] == p + (WithArgument([], arg) + [x])
    ensures Yield(WithArgument([], arg) + [x]) == (if arg.Some? then [arg.value] else []) + Words(x)
  {
    YieldConcat(WithArgument([], arg), [x]);
    YieldOne(x);
    if arg.Some? {
      YieldOne(Argument(arg.value));
      assert [] + [Argument(arg.value)] == [Argument(arg.value)];
    }
  }

  function CloseWords(close: Option<Bracket>): seq<Word> {
    if close.Some? then [CloseName(close.value)] else []
  }

  /** The rest of a level: items `q` after `p`, then the closing symbol. */
  ghost predicate ReadsLevel(tab: Table, p: seq<Item>, q: seq<Item>, close: Option<Bracket>, words: seq<Word>, o: Outcome) {
    && WellFormed(tab, p + q)
    && o.Parsed?
    && words == Yield(q) + CloseWords(close) + o.rest
    && (match close
        case None => o.rest == [] && o.tree == PhraseTree(tab, p + q)
        case Some(br) =>
          && (br == Brace || !BraceAlone(p + q))
          && o.tree == CloseTree(PhraseTree(tab, p + q), br))
  }

  /** What the parser accepts is a phrase, and its tree is the phrase's tree. */
  lemma {:induction false} RunIsSound(tab: Table, st: State, close: Option<Bracket>, words: seq<Word>, p: seq<Item>)
    returns (q: seq<Item>)
    requires ValidTable(tab) && Reached(tab, st, p) && Run(tab, st, close, words).Parsed?
    ensures ReadsLevel(tab, p, q, close, words, Run(tab, st, close, words))
    decreases |words|
  {
    var r := Read(tab, words);
    var f := Flush(st);
    FlushSettles(tab, st, p);
    if r.input.End? || r.input.info.Close? {
      q := WithArgument([], r.arg);
      LastWordReads(tab, st, close, words, p);
    } else if r.input.info.Open? {
      var br := r.input.info.br;
      assert r.input.word == OpenName(br);
      StartReached(tab);
      var body := RunIsSound(tab, START, Some(br), r.rest, []);
      assert [] + body == body;
      var inner := Run(tab, START, Some(br), r.rest);
      var x := Group(r.arg, br, body);
      GroupOk(tab, x, r.rest, inner);
      GroupReached(tab, f, p, x);
      var next := State(Fill(f.tree, HeadTree(inner.tree, r.arg)), true, None);
      var q1 := RunIsSound(tab, next, close, inner.rest, p + [x]);
      q := [x] + q1;
      GroupReads(tab, p, x, q1, close, words, inner.rest, Run(tab, next, close, inner.rest));
    } else {
      AdvanceIsItems(tab, f, p, r.arg, r.input.word);
      var x := ItemOf(tab, WithArgument(p, r.arg), r.input.word);
      var next := Advance(tab, f, r.arg, r.input.word).value;
      var q1 := RunIsSound(tab, next, close, r.rest, WithArgument(p, r.arg) + [x]);
      q := WithArgument([], r.arg) + [x] + q1;
      SymbolReads(tab, p, r.arg, x, q1, close, words, r.rest, Run(tab, next, close, r.rest));
    }
  }

  lemma GroupOk(tab: Table, x: Item, words: seq<Word>, o: Outcome)
    requires x.Group? && ReadsLevel(tab, [], x.body, Some(x.br), words, o)
    requires x.head.Some? ==> IsArgument(tab, x.head.value) && StartIdentifier(x.head.value)
    ensures ItemOk(tab, x) && WellFormed(tab, x.body) && o.tree == CloseTree(PhraseTree(tab, x.body), x.br)
    ensures words == Yield(x.body) + [CloseName(x.br)] + o.rest
  {
    assert [] + x.body == x.body;
  }

  lemma LastWordReads(tab: Table, st: State, close: Option<Bracket>, words: seq<Word>, p: seq<Item>)
    requires ValidTable(tab) && Reached(tab, st, p) && Run(tab, st, close, words).Parsed?
    requires Read(tab, words).input.End? || (Read(tab, words).input.Sym? && Read(tab, words).input.info.Close?)
    ensures ReadsLevel(tab, p, WithArgument([], Read(tab, words).arg), close, words, Run(tab, st, close, words))
  {
    var r := Read(tab, words);
    LastOutcome(tab, st, close, words);
    FlushSettles(tab, st, p);
    LastReads(tab, Flush(st), close, r, words, p, Run(tab, st, close, words));
  }

  lemma LastReads(tab: Table, f: State, close: Option<Bracket>, r: Reading, words: seq<Word>, p: seq<Item>, o: Outcome)
    requires ValidTable(tab) && Settled(tab, f, p) && (r.arg.Some? || f.complete)
    requires r.arg.Some? ==> !Ended(p) && IsArgument(tab, r.arg.value)
    requires words == ArgWords(r.arg) + CloseWords(close) + r.rest && (close.None? ==> r.rest == [])
    requires var t := Supply(f.tree, r.arg);
             && o == Parsed(if close.None? then t else CloseTree(t, close.value), r.rest)
             && (close.Some? ==> close == Some(Brace) || !ClosedByBrace(t))
    ensures ReadsLevel(tab, p, WithArgument([], r.arg), close, words, o)
  {
    EndIsSound(tab, f, p, r.arg);
    assert p + WithArgument([], r.arg) == WithArgument(p, r.arg);
    BraceRule(tab, WithArgument(p, r.arg));
  }

  lemma LastOutcome(tab: Table, st: State, close: Option<Bracket>, words: seq<Word>)
    requires ValidTable(tab) && Run(tab, st, close, words).Parsed?
    requires Read(tab, words).input.End? || (Read(tab, words).input.Sym? && Read(tab, words).input.info.Close?)
    ensures var r := Read(tab, words); var t := Supply(Flush(st).tree, r.arg);
            && Run(tab, st, close, words) == Parsed(if close.None? then t else CloseTree(t, close.value), r.rest)
            && !Refused(st.complete, r) && (r.arg.Some? || Flush(st).complete)
            && words == ArgWords(r.arg) + CloseWords(close) + r.rest && (close.None? ==> r.rest == [])
            && (close.Some? ==> close == Some(Brace) || !ClosedByBrace(t))
  {
    var r := Read(tab, words);
    if r.input.Sym? {
      assert r.input.word == CloseName(r.input.info.br);
    }
  }

  lemma GroupReads(tab: Table, p: seq<Item>, x: Item, q: seq<Item>, close: Option<Bracket>,
                   words: seq<Word>, mid: seq<Word>, o: Outcome)
    requires x.Group? && ReadsLevel(tab, p + [x], q, close, mid, o)
    requires words == (if x.head.Some? then [x.head.value] else []) + [OpenName(x.br)]
                      + (Yield(x.body) + [CloseName(x.br)] + mid)
    ensures ReadsLevel(tab, p, [x] + q, close, words, o)
  {
    assert p + ([x] + q) == p + [x] + q;
    GroupWords(words, x, q, close, mid, o.rest);
  }

  lemma SymbolReads(tab: Table, p: seq<Item>, arg: Option<Word>, x: Item, q: seq<Item>, close: Option<Bracket>,
                    words: seq<Word>, mid: seq<Word>, o: Outcome)
    requires !x.Group? && ReadsLevel(tab, WithArgument(p, arg) + [x], q, close, mid, o)
    requires words == (if arg.Some? then [arg.value] else []) + [x.word] + mid
    ensures ReadsLevel(tab, p, WithArgument([], arg) + [x] + q, close, words, o)
  {
    var front := WithArgument([], arg) + [x];
    YieldArgument(p, arg, x);
    YieldConcat(front, q);
    Assoc(p, front, q);
    Assoc(ArgWords(arg) + [x.word], Yield(q), CloseWords(close));
    Assoc(ArgWords(arg) + [x.word], Yield(q) + CloseWords(close), o.rest);
  }

  lemma StartReached(tab: Table)
    ensures Reached(tab, START, []) && Settled(tab, START, [])
  {
    assert Pieces(tab, []) == [] && Cur([]) == [] && FirstSep([]) == None;
    assert Padded([]) == [Operand(Nil)];
  }

  lemma EndIsSound(tab: Table, f: State, p: seq<Item>, arg: Option<Word>)
    requires ValidTable(tab) && Settled(tab, f, p)
    requires arg.Some? ==> !Ended(p) && IsArgument(tab, arg.value)
    requires arg.Some? || f.complete
    ensures WellFormed(tab, WithArgument(p, arg))
    ensures Supply(f.tree, arg) == PhraseTree(tab, WithArgument(p, arg))
    ensures Yield(WithArgument([], arg)) == if arg.Some? then [arg.value] else []
  {
    SupplySettles(tab, f, p, arg);
    if arg.Some? {
      assert [] + [Argument(arg.value)] == [Argument(arg.value)];
      YieldOne(Argument(arg.value));
    }
  }

  lemma GroupWords(words: seq<Word>, x: Item, q: seq<Item>, close: Option<Bracket>, mid: seq<Word>, rest: seq<Word>)
    requires x.Group?
    requires words == (if x.head.Some? then [x.head.value] else []) + [OpenName(x.br)]
                      + (Yield(x.body) + [CloseName(x.br)] + mid)
    requires mid == Yield(q) + CloseWords(close) + rest
    ensures words == Yield([x] + q) + CloseWords(close) + rest
  {
    YieldConcat([x], q);
    YieldOne(x);
    var front := (if x.head.Some? then [x.head.value] else []) + [OpenName(x.br)];
    Assoc(front, Yield(x.body), [CloseName(x.br)]);
    Assoc(front, Yield(x.body) + [CloseName(x.br)], mid);
    Assoc(Words(x), Yield(q), CloseWords(close));
    Assoc(Words(x), Yield(q) + CloseWords(close), rest);
  }

  // ----- every phrase is accepted

  lemma AtIndex(tab: Table, all: seq<Item>, k: nat)
    requires WellFormedSoFar(tab, all) && k < |all|
    ensures WellFormedSoFar(tab, all[..k]) && WellFormedSoFar(tab, all[..k + 1])
    ensures all[..k + 1] == all[..k] + [all[k]]
    ensures ItemOk(tab, all[k]) && (StartsOperand(all[k]) <==> !Ended(all[..k]))
    ensures all[k..] != [] && all[k..][0] == all[k] && all[k..][1..] == all[k + 1..]
  {}

  lemma ItemIsForced(tab: Table, p: seq<Item>, x: Item)
    requires ItemOk(tab, x) && !Ends(x) && (StartsOperand(x) <==> !Ended(p))
    ensures IsPrefixWord(tab, x.word) || IsInfixWord(tab, x.word) || IsSeparatorWord(tab, x.word)
    ensures ItemOf(tab, p, x.word) == x
  {}

  function LevelOutcome(tab: Table, p: seq<Item>, close: Option<Bracket>, rest: seq<Word>): Outcome
    requires WellFormedSoFar(tab, p)
  {
    match close
    case None => Parsed(PhraseTree(tab, p), rest)
    case Some(br) => Parsed(CloseTree(PhraseTree(tab, p), br), rest)
  }

  /** A phrase may be finished here, by this closing symbol or by the end. */
  predicate MayClose(tab: Table, p: seq<Item>, close: Option<Bracket>, rest: seq<Word>) {
    && WellFormed(tab, p)
    && (match close
        case None => rest == []
        case Some(br) => br == Brace || !BraceAlone(p))
  }

  function ArgWords(arg: Option<Word>): seq<Word> { if arg.Some? then [arg.value] else [] }

  /** The words still to come at a level, and what follows the level. */
  function Text(q: seq<Item>, close: Option<Bracket>, rest: seq<Word>): seq<Word> {
    Yield(q) + CloseWords(close) + rest
  }

  lemma TextCons(q: seq<Item>, close: Option<Bracket>, rest: seq<Word>)
    requires q != []
    ensures Text(q, close, rest) == Words(q[0]) + Text(q[1..], close, rest)
  {
    Assoc(Words(q[0]), Yield(q[1..]), CloseWords(close));
    Assoc(Words(q[0]), Yield(q[1..]) + CloseWords(close), rest);
  }

  lemma RunCloses(tab: Table, st: State, close: Option<Bracket>, p: seq<Item>, arg: Option<Word>, rest: seq<Word>)
    requires ValidTable(tab) && Reached(tab, st, p)
    requires arg.Some? ==> !Ended(p) && IsArgument(tab, arg.value)
    requires MayClose(tab, WithArgument(p, arg), close, rest)
    ensures Run(tab, st, close, ArgWords(arg) + Text([], close, rest))
         == LevelOutcome(tab, WithArgument(p, arg), close, rest)
  {
    var words := ArgWords(arg) + Text([], close, rest);
    FlushSettles(tab, st, p);
    EndIsSound(tab, Flush(st), p, arg);
    BraceRule(tab, WithArgument(p, arg));
    ReadClose(tab, arg, close, rest);
    RunLast(tab, st, close, words, arg, rest);
  }

  lemma ReadClose(tab: Table, arg: Option<Word>, close: Option<Bracket>, rest: seq<Word>)
    requires ValidTable(tab) && (arg.Some? ==> IsArgument(tab, arg.value)) && (close.None? ==> rest == [])
    ensures Read(tab, ArgWords(arg) + Text([], close, rest))
         == Reading(arg, if close.None? then End else Sym(CloseName(close.value), Close(close.value)), rest)
  {
    var words := ArgWords(arg) + Text([], close, rest);
    if arg.Some? && close.Some? {
      assert words[0] == arg.value && words[1] == CloseName(close.value) && words[2..] == rest;
    } else if close.Some? {
      assert words[0] == CloseName(close.value) && words[1..] == rest;
    } else if arg.Some? {
      assert words == [arg.value];
    } else {
      assert words == [];
    }
  }

  lemma ReadWord(tab: Table, arg: Option<Word>, w: Word, rest: seq<Word>)
    requires (arg.Some? ==> IsArgument(tab, arg.value)) && Lookup(tab, w).Some?
    ensures Read(tab, ArgWords(arg) + [w] + rest)
         == Reading(arg, Sym(w, Lookup(tab, w).value), rest)
  {
    var words := (if arg.Some? then [arg.value] else []) + [w] + rest;
    if arg.Some? {
      assert words[0] == arg.value && words[1] == w && words[2..] == rest;
    } else {
      assert words[0] == w && words[1..] == rest;
    }
  }

  /** One symbol of a phrase is taken, and the parser reaches the next item. */
  lemma RunSymbol(tab: Table, st: State, close: Option<Bracket>, p: seq<Item>, arg: Option<Word>, x: Item, rest: seq<Word>)
    returns (next: State)
    requires ValidTable(tab) && Reached(tab, st, p)
    requires arg.Some? ==> !Ended(p) && IsArgument(tab, arg.value)
    requires WellFormedSoFar(tab, WithArgument(p, arg)) && !Ends(x)
    requires ItemOk(tab, x) && (StartsOperand(x) <==> !Ended(WithArgument(p, arg)))
    ensures Reached(tab, next, WithArgument(p, arg) + [x])
    ensures Run(tab, st, close, ArgWords(arg) + [x.word] + rest) == Run(tab, next, close, rest)
  {
    FlushSettles(tab, st, p);
    ItemIsForced(tab, WithArgument(p, arg), x);
    AdvanceIsItems(tab, Flush(st), p, arg, x.word);
    Grow(tab, WithArgument(p, arg), x);
    next := Advance(tab, Flush(st), arg, x.word).value;
    ReadWord(tab, arg, x.word, rest);
    RunAdvances(tab, st, close, ArgWords(arg) + [x.word] + rest, next);
  }

  /** From item `k` of a phrase on, the parser accepts the rest of the phrase
      and ends with the tree of all of it. */
  lemma {:induction false} RunIsComplete(tab: Table, st: State, close: Option<Bracket>, all: seq<Item>, k: nat, rest: seq<Word>)
    requires ValidTable(tab) && MayClose(tab, all, close, rest)
    requires k <= |all| && Reached(tab, st, all[..k])
    ensures Run(tab, st, close, Text(all[k..], close, rest)) == LevelOutcome(tab, all, close, rest)
    decreases all, |all| - k, 1
  {
    if k == |all| {
      assert all[..k] == all && all[k..] == [];
      assert ArgWords(None) + Text([], close, rest) == Text([], close, rest);
      RunCloses(tab, st, close, all, None, rest);
    } else if all[k].Group? {
      GroupIsComplete(tab, st, close, all, k, rest);
    } else if all[k].Argument? {
      ArgumentIsComplete(tab, st, close, all, k, rest);
    } else {
      AtIndex(tab, all, k);
      var tail := Text(all[k + 1..], close, rest);
      var next := RunSymbol(tab, st, close, all[..k], None, all[k], tail);
      RunIsComplete(tab, next, close, all, k + 1, rest);
      TextCons(all[k..], close, rest);
      assert ArgWords(None) + [all[k].word] == [all[k].word];
    }
  }

  lemma {:induction false} ArgumentIsComplete(tab: Table, st: State, close: Option<Bracket>, all: seq<Item>, k: nat, rest: seq<Word>)
    requires ValidTable(tab) && MayClose(tab, all, close, rest)
    requires k < |all| && Reached(tab, st, all[..k]) && all[k].Argument?
    ensures Run(tab, st, close, Text(all[k..], close, rest)) == LevelOutcome(tab, all, close, rest)
    decreases all, |all| - k, 0
  {
    var arg := Some(all[k].word);
    AtIndex(tab, all, k);
    assert WithArgument(all[..k], arg) == all[..k + 1];
    if k + 1 == |all| {
      TextCons(all[k..], close, rest);
      assert all[..k + 1] == all && all[k + 1..] == [];
      RunCloses(tab, st, close, all[..k], arg, rest);
    } else {
      AtIndex(tab, all, k + 1);
      var next := RunSymbol(tab, st, close, all[..k], arg, all[k + 1], Text(all[k + 2..], close, rest));
      RunIsComplete(tab, next, close, all, k + 2, rest);
      assert all[k..][1] == all[k + 1] && all[k..][2..] == all[k + 2..];
      ArgumentText(all[k..], close, rest);
    }
  }

  lemma {:induction false} GroupIsComplete(tab: Table, st: State, close: Option<Bracket>, all: seq<Item>, k: nat, rest: seq<Word>)
    requires ValidTable(tab) && MayClose(tab, all, close, rest)
    requires k < |all| && Reached(tab, st, all[..k]) && all[k].Group?
    ensures Run(tab, st, close, Text(all[k..], close, rest)) == LevelOutcome(tab, all, close, rest)
    decreases all, |all| - k, 0
  {
    var x := all[k];
    AtIndex(tab, all, k);
    FlushSettles(tab, st, all[..k]);
    GroupReached(tab, Flush(st), all[..k], x);
    StartReached(tab);
    var tail := Text(all[k + 1..], close, rest);
    assert x.body[..0] == [] && x.body[0..] == x.body;
    RunIsComplete(tab, START, Some(x.br), x.body, 0, tail);
    GroupText(tab, all[k..], close, rest);
    var t := CloseTree(PhraseTree(tab, x.body), x.br);
    RunGroup(tab, st, close, Text(all[k..], close, rest), Parsed(t, tail));
    var next := State(Fill(Flush(st).tree, HeadTree(t, x.head)), true, None);
    RunIsComplete(tab, next, close, all, k + 1, rest);
  }

  lemma ArgumentText(q: seq<Item>, close: Option<Bracket>, rest: seq<Word>)
    requires |q| > 1 && q[0].Argument? && !q[1].Group?
    ensures ArgWords(Some(q[0].word)) + [q[1].word] + Text(q[2..], close, rest) == Text(q, close, rest)
  {
    TextCons(q, close, rest);
    TextCons(q[1..], close, rest);
    assert q[1..][1..] == q[2..];
    Assoc([q[0].word], [q[1].word], Text(q[2..], close, rest));
  }

  lemma GroupText(tab: Table, q: seq<Item>, close: Option<Bracket>, rest: seq<Word>)
    requires ValidTable(tab) && q != [] && q[0].Group? && ItemOk(tab, q[0])
    ensures Read(tab, Text(q, close, rest)) ==
      Reading(q[0].head, Sym(OpenName(q[0].br), Open(q[0].br)), Text(q[0].body, Some(q[0].br), Text(q[1..], close, rest)))
  {
    var x := q[0];
    var inside := Text(x.body, Some(x.br), Text(q[1..], close, rest));
    TextCons(q, close, rest);
    var front, back := ArgWords(x.head) + [OpenName(x.br)], CloseWords(Some(x.br));
    Assoc(front, Yield(x.body), back);
    Assoc(front, Yield(x.body) + back, Text(q[1..], close, rest));
    ReadWord(tab, x.head, OpenName(x.br), inside);
  }

  // ----- the theorem

  /** The parser accepts the words exactly when they are those of a phrase, and
      then returns that phrase's tree. */
  lemma AcceptsExactlyPhrases(tab: Table, words: seq<Word>, t: Sexp)
    requires ValidTable(tab)
    ensures Parse(tab, words) == Parsed(t, [])
       <==> exists p :: WellFormed(tab, p) && Yield(p) == words && PhraseTree(tab, p) == t
  {
    StartReached(tab);
    if Parse(tab, words) == Parsed(t, []) {
      var q := RunIsSound(tab, START, None, words, []);
      assert [] + q == q && Yield(q) == words;
    }
    forall p | WellFormed(tab, p) && Yield(p) == words && PhraseTree(tab, p) == t
      ensures Parse(tab, words) == Parsed(t, [])
    {
      assert p[..0] == [] && p[0..] == p && Text(p, None, []) == words;
      RunIsComplete(tab, START, None, p, 0, []);
    }
  }

  // ----- the open slot in every state

  /** The states the parser is in before each reading, at all levels, whether
      or not the text is accepted in the end. */
  ghost function Visited(tab: Table, st: State, close: Option<Bracket>, words: seq<Word>): set<State>
    decreases |words|
  {
    var r := Read(tab, words);
    var f := Flush(st);
    if Refused(st.complete, r) || !r.input.Sym? || r.input.info.Close? then {st}
    else if r.input.info.Open? then
      var br := r.input.info.br;
      if f.complete || (r.arg.Some? && !StartIdentifier(r.arg.value)) then {st}
      else
        var inner := Run(tab, START, Some(br), r.rest);
        {st} + Visited(tab, START, Some(br), r.rest)
        + (if inner.Fail? then {}
           else Visited(tab, State(Fill(f.tree, HeadTree(inner.tree, r.arg)), true, None), close, inner.rest))
    else
      var next := Advance(tab, f, r.arg, r.input.word);
      {st} + (if next.None? then {} else Visited(tab, next.value, close, r.rest))
  }

  /** A tree waiting for an operand has one open slot, at the end of its right
      spine; any other tree has none. */
  predicate OneSlot(st: State) {
    && (HasHole(st.tree) <==> !st.complete)
    && Slots(st.tree) == if st.complete || st.tree == Nil then 0 else 1
  }

  lemma ReachedSlot(tab: Table, st: State, p: seq<Item>)
    requires ValidTable(tab) && Reached(tab, st, p)
    ensures OneSlot(st)
  {
    var q := if TypeLast(tab, p) then p[..|p| - 1] else p;
    if TypeLast(tab, p) { Shrink(tab, p); }
    PhraseSound(tab, q);
    LevelSlots(Pieces(tab, q));
  }

  /** The state behind a group that has been read. */
  lemma AfterGroup(tab: Table, f: State, p: seq<Item>, head: Option<Word>, br: Bracket, words: seq<Word>)
    returns (x: Item, next: State)
    requires ValidTable(tab) && Settled(tab, f, p) && !Ended(p) && Run(tab, START, Some(br), words).Parsed?
    requires head.Some? ==> IsArgument(tab, head.value) && StartIdentifier(head.value)
    ensures next == State(Fill(f.tree, HeadTree(Run(tab, START, Some(br), words).tree, head)), true, None)
    ensures Reached(tab, next, p + [x])
  {
    StartReached(tab);
    var inner := Run(tab, START, Some(br), words);
    var body := RunIsSound(tab, START, Some(br), words, []);
    x := Group(head, br, body);
    GroupOk(tab, x, words, inner);
    GroupReached(tab, f, p, x);
    next := State(Fill(f.tree, HeadTree(inner.tree, head)), true, None);
  }

  lemma {:induction false} EveryStateHasOneSlot(tab: Table, st: State, close: Option<Bracket>, words: seq<Word>, p: seq<Item>)
    requires ValidTable(tab) && Reached(tab, st, p)
    ensures forall s :: s in Visited(tab, st, close, words) ==> OneSlot(s)
    decreases |words|
  {
    var r := Read(tab, words);
    var f := Flush(st);
    ReachedSlot(tab, st, p);
    FlushSettles(tab, st, p);
    if Refused(st.complete, r) || !r.input.Sym? || r.input.info.Close? {
    } else if r.input.info.Open? {
      var br := r.input.info.br;
      if !f.complete && (r.arg.Some? ==> StartIdentifier(r.arg.value)) {
        StartReached(tab);
        EveryStateHasOneSlot(tab, START, Some(br), r.rest, []);
        var inner := Run(tab, START, Some(br), r.rest);
        if inner.Parsed? {
          var x, next := AfterGroup(tab, f, p, r.arg, br, r.rest);
          EveryStateHasOneSlot(tab, next, close, inner.rest, p + [x]);
        }
      }
    } else if Advance(tab, f, r.arg, r.input.word).Some? {
      AdvanceIsItems(tab, f, p, r.arg, r.input.word);
      var q := WithArgument(p, r.arg) + [ItemOf(tab, WithArgument(p, r.arg), r.input.word)];
      EveryStateHasOneSlot(tab, Advance(tab, f, r.arg, r.input.word).value, close, r.rest, q);
    }
  }

  lemma ParsingKeepsOneSlot(tab: Table, words: seq<Word>, s: State)
    requires ValidTable(tab) && s in Visited(tab, START, None, words)
    ensures OneSlot(s)
  {
    StartReached(tab);
    EveryStateHasOneSlot(tab, START, None, words, []);
  }
}
