/** Texts that the parser accepts and whose printed form it does not. */
module LostTexts {
  import opened Options
  import opened SyntaxTree
  import opened Phrase
  import opened Machine
  import opened Reparse
  import opened Lexing
  import opened PrintedText
  import opened Rescan
  import opened Rereading

  /** A word that stands for itself. */
  predicate Ordinary(w: Word) { Delivered(w) && !FilterMark(w) }

  lemma ChunksSnoc(b: seq<Bit>, x: Bit)
    ensures Chunks(b + [x]) == Push(Chunks(b), x)
  {
    assert (b + [x])[..|b|] == b;
  }

  function OwnChunk(w: Word): Chunk { if Quoted(w) then Quote(w) else Side([w]) }

  lemma PushOrdinary(cs: seq<Chunk>, w: Word)
    requires Ordinary(w) && (cs != [] ==> !cs[|cs| - 1].Side?)
    ensures Push(cs, Spell(w)) == cs + [OwnChunk(w)]
  {
    SolidIsNoMark(w);
  }

  lemma LexOrdinary(w: Word)
    requires Solid(w) && Alone(w)
    ensures Lex(Flat([w])) == [w]
  {
    FlatSnoc([], w);
    assert [] + [w] == [w];
    LexIffSeparate([w]);
  }

  lemma TakesOrdinary(w: Word, cs: seq<Chunk>)
    requires Ordinary(w)
    ensures Reread([OwnChunk(w)] + cs) == [w] + Reread(cs)
  {
    assert ([OwnChunk(w)] + cs)[1..] == cs;
    if !Quoted(w) { LexOrdinary(w); }
  }

  lemma StepOrdinary(b: seq<Bit>, cs: seq<Chunk>, w: Word)
    requires Chunks(b) == cs && Ordinary(w) && (cs != [] ==> !cs[|cs| - 1].Side?)
    ensures Chunks(b + [Spell(w)]) == cs + [OwnChunk(w)]
  {
    ChunksSnoc(b, Spell(w));
    PushOrdinary(cs, w);
  }

  lemma StepMark(b: seq<Bit>, cs: seq<Chunk>, w: Word)
    requires Chunks(b) == cs && FilterMark(w)
    ensures Chunks(b + [Spell(w)]) == cs + Squares(w)
  {
    ChunksSnoc(b, Spell(w));
  }

  /** Words with no blank between them. */
  function SideBySide(ws: seq<Word>): seq<Chunk> { if ws == [] then [] else [Side(ws)] }

  lemma StepSolid(b: seq<Bit>, ws: seq<Word>, w: Word)
    requires Chunks(b) == SideBySide(ws) && Solid(w)
    ensures Chunks(b + [Spell(w)]) == SideBySide(ws + [w])
  {
    ChunksSnoc(b, Spell(w));
    SolidIsNoMark(w);
    assert IsSolid(w[0]);
    assert ws == [] ==> ws + [w] == [w];
  }

  /** The operand `a` read behind a prefix already in the tree. */
  lemma ReadLast(tab: Table, st: State, a: Word)
    requires IsArgument(tab, a) && !st.complete && st.delayed.None?
    ensures Run(tab, st, None, [a]) == Parsed(Fill(st.tree, Leaf(ArgumentToken(a))), [])
  {
    assert Read(tab, [a]) == Reading(Some(a), End, []);
    RunLast(tab, st, None, [a], Some(a), []);
  }

  // ----- respelt names

  /** `!a` prints as `Not a`, which the parser refuses: two arguments in a row. */
  lemma NegationIsLost(tab: Table, a: Word)
    requires PrintableTable(tab) && IsArgument(tab, a) && Ordinary(a)
    ensures Parse(tab, ["!", a]).Parsed?
    ensures Filter(Unparsed(Parse(tab, ["!", a]).tree)) == ["Not", a]
    ensures Parse(tab, ["Not", a]) == Fail
  {
    var words, leaf := ["!", a], Leaf(ArgumentToken(a));
    var tok := PrefixToken(tab, "!");
    assert tok == Token("Not", MONARY, 20, None);
    var st := State(Mon(tok, Nil), false, None);
    assert Read(tab, words) == Reading(None, Sym("!", Monary(None)), [a]) by { assert words[1..] == [a]; }
    RunAdvances(tab, START, None, words, st);
    ReadLast(tab, st, a);
    assert Fill(Cons(Nil, Nil), leaf) == Cons(leaf, Nil);
    NegationText(tok, a);
    assert Read(tab, ["Not", a]).input.Extra?;
  }

  lemma LeafText(a: Word)
    ensures Written(Leaf(ArgumentToken(a)), false) == [Spell(a)]
  {
    assert Written(Leaf(ArgumentToken(a)), false) == [] + [Spell(a)] + [];
  }

  lemma PrefixText(tok: Token, t: Sexp)
    requires (tok.kind == MONARY || tok.kind == TYPE) && tok.close == None
    ensures Written(Mon(tok, t), false) == Operator(tok) + Written(t, false)
  {
    var m := Mon(tok, t);
    assert m.cdr.car == t;
    assert Inside(m, false) == Operator(tok) + Written(t, false);
    assert Written(m, false) == [] + Inside(m, false) + [];
  }

  /** A name, a blank and a word. */
  lemma TwoApart(v: Word, a: Word)
    requires Ordinary(v) && Ordinary(a)
    ensures Filter([Spell(v), Blank, Spell(a)]) == [v, a]
  {
    var one, two := [OwnChunk(v)], [OwnChunk(v), Gap];
    assert [] + [Spell(v)] == [Spell(v)] && [] + one == one;
    StepOrdinary([], [], v);
    assert [Spell(v)] + [Blank] == [Spell(v), Blank] && one + [Gap] == two;
    ChunksSnoc([Spell(v)], Blank);
    assert [Spell(v), Blank] + [Spell(a)] == [Spell(v), Blank, Spell(a)];
    StepOrdinary([Spell(v), Blank], two, a);
    var rest := [Gap, OwnChunk(a)];
    assert two + [OwnChunk(a)] == one + rest;
    TakesOrdinary(v, rest);
    assert rest[1..] == [OwnChunk(a)] + [];
    TakesOrdinary(a, []);
  }

  lemma NegationText(tok: Token, a: Word)
    requires tok == Token("Not", MONARY, 20, None) && Ordinary(a)
    ensures Filter(Unparsed(Mon(tok, Leaf(ArgumentToken(a))))) == ["Not", a]
  {
    LeafText(a);
    PrefixText(tok, Leaf(ArgumentToken(a)));
    assert Operator(tok) == [Spell("Not"), Blank];
    AloneLetters("Not");
    assert [Spell("Not"), Blank] + [Spell(a)] == [Spell("Not"), Blank, Spell(a)];
    TwoApart("Not", a);
  }

  lemma ParseCall(tab: Table, f: Word, br: Bracket, a: Word)
    requires ValidTable(tab) && IsArgument(tab, f) && StartIdentifier(f) && IsArgument(tab, a)
    ensures Parse(tab, [f, OpenName(br), a, CloseName(br)])
         == Parsed(Mon(FunctionToken(f), Closed(Leaf(ArgumentToken(a)), br)), [])
  {
    var words, leaf := [f, OpenName(br), a, CloseName(br)], Leaf(ArgumentToken(a));
    assert words[2..] == [a, CloseName(br)];
    assert Read(tab, words) == Reading(Some(f), Sym(OpenName(br), Open(br)), [a, CloseName(br)]);
    assert Read(tab, [a, CloseName(br)]) == Reading(Some(a), Sym(CloseName(br), Close(br)), []);
    RunLast(tab, START, Some(br), [a, CloseName(br)], Some(a), []);
    var inner := Parsed(CloseTree(leaf, br), []);
    RunGroup(tab, START, None, words, inner);
    var t := HeadTree(inner.tree, Some(f));
    assert t == Mon(FunctionToken(f), Closed(leaf, br));
    RunLast(tab, State(t, true, None), None, [], None, []);
  }

  lemma ClosedText(a: Word, br: Bracket)
    ensures Written(Closed(Leaf(ArgumentToken(a)), br), false) == [Spell(OpenName(br)), Spell(a), Spell(CloseName(br))]
  {
    var t := Closed(Leaf(ArgumentToken(a)), br);
    assert Inside(t, false) == [Spell(a)];
    assert Written(t, false) == [Spell(OpenName(br))] + [Spell(a)] + [Spell(CloseName(br))];
  }

  lemma CallText(f: Word, br: Bracket, a: Word)
    ensures Unparsed(Mon(FunctionToken(f), Closed(Leaf(ArgumentToken(a)), br)))
         == [Spell(FunctionName(f)), Spell(OpenName(br)), Spell(a), Spell(CloseName(br))]
  {
    var closed := Closed(Leaf(ArgumentToken(a)), br);
    var t := Mon(FunctionToken(f), closed);
    ClosedText(a, br);
    assert Listed(t.cdr, false) == Written(closed, false) + [];
    assert Inside(t, false) == [Spell(FunctionName(f))] + Listed(t.cdr, false);
    assert Written(t, false) == [] + Inside(t, false) + [];
  }

  /** `Pow(a)` prints as `^(a)`, and `^` wants an operand before it. */
  lemma PowIsLost(tab: Table, a: Word)
    requires PrintableTable(tab) && IsArgument(tab, a) && Solid(a) && Alone(a)
    ensures Parse(tab, ["Pow", "(", a, ")"]).Parsed?
    ensures Filter(Unparsed(Parse(tab, ["Pow", "(", a, ")"]).tree)) == ["^", "(", a, ")"]
    ensures Parse(tab, ["^", "(", a, ")"]) == Fail
  {
    ParseCall(tab, "Pow", Paren, a);
    CallText("Pow", Paren, a);
    HatText(a);
    assert Read(tab, ["^", "(", a, ")"]).input == Sym("^", Lookup(tab, "^").value);
  }

  lemma LonersUnstuck(s: string, i: nat)
    requires i < |s| && IsLoner(s[i])
    ensures i !in Stuck(s) && i + 1 !in Stuck(s)
  {
    LonerSeparates(s, i);
  }

  lemma HatFlat(a: Word)
    ensures var ws: seq<Word> := ["^", "(", a, ")"];
            At(ws, 1) == 1 && At(ws, 2) == 2 && At(ws, 3) == 2 + |a| && Flat(ws) == "^(" + a + ")"
  {
    var ws: seq<Word> := ["^", "(", a, ")"];
    assert ws[..0] == [] && ws[..4] == ws;
    assert ws[..1] == ws[..0] + [ws[0]] && ws[..2] == ws[..1] + [ws[1]];
    assert ws[..3] == ws[..2] + [ws[2]] && ws[..4] == ws[..3] + [ws[3]];
    FlatSnoc(ws[..0], ws[0]);
    FlatSnoc(ws[..1], ws[1]);
    FlatSnoc(ws[..2], ws[2]);
    FlatSnoc(ws[..3], ws[3]);
  }

  lemma HatSeparate(a: Word)
    ensures NoneStick(["^", "(", a, ")"]) && Flat(["^", "(", a, ")"]) == "^(" + a + ")"
  {
    HatFlat(a);
    var s := "^(" + a + ")";
    LonersUnstuck(s, 1);
    LonersUnstuck(s, |s| - 1);
  }

  function Spells(ws: seq<Word>): (b: seq<Bit>)
    ensures |b| == |ws|
  {
    if ws == [] then [] else Spells(ws[..|ws| - 1]) + [Spell(ws[|ws| - 1])]
  }

  lemma {:induction false} SpellsSide(ws: seq<Word>)
    requires forall k :: 0 <= k < |ws| ==> Solid(ws[k])
    ensures Chunks(Spells(ws)) == SideBySide(ws)
  {
    if ws != [] {
      var n := |ws| - 1;
      SpellsSide(ws[..n]);
      StepSolid(Spells(ws[..n]), ws[..n], ws[n]);
      assert ws[..n] + [ws[n]] == ws;
    }
  }

  lemma SpellsFour(p: Word, q: Word, r: Word, t: Word)
    ensures Spells([p, q, r, t]) == [Spell(p), Spell(q), Spell(r), Spell(t)]
  {
    SpellsThree(p, q, r);
    assert [p, q, r, t][..3] == [p, q, r];
  }

  lemma HatText(a: Word)
    requires Solid(a) && Alone(a)
    ensures Filter([Spell("^"), Spell("("), Spell(a), Spell(")")]) == ["^", "(", a, ")"]
  {
    var ws: seq<Word> := ["^", "(", a, ")"];
    SpellsFour("^", "(", a, ")");
    SpellsSide(ws);
    HatSeparate(a);
    assert AllAlone(["^", "(", a, ")"]) && Solid("^(" + a + ")");
    LexIffSeparate(["^", "(", a, ")"]);
    OneSide(["^", "(", a, ")"]);
  }

  lemma OneSide(ws: seq<Word>)
    ensures Reread([Side(ws)]) == Lex(Flat(ws))
  {
    assert [Side(ws)][1..] == [];
  }

  // ----- square brackets

  lemma ReadsPairs(cs: seq<Chunk>)
    ensures Reread([Left, Left] + cs) == ["SetOfAnything", "#{#"] + Reread(cs)
    ensures Reread([Right, Right] + cs) == ["#}#"] + Reread(cs)
  {
    assert ([Left, Left] + cs)[2..] == cs && ([Right, Right] + cs)[2..] == cs;
  }

  lemma SetChunks(h: Word, a: Word)
    requires Ordinary(h) && Ordinary(a)
    ensures Chunks([Spell(h), Spell("#{#"), Spell(a), Spell("#}#")])
         == [OwnChunk(h), Left, Left, OwnChunk(a), Right, Right]
  {
    var b1, b2, b3 := [Spell(h)], [Spell(h), Spell("#{#")], [Spell(h), Spell("#{#"), Spell(a)];
    var c1, c2 := [OwnChunk(h)], [OwnChunk(h), Left, Left];
    var c3, c4 := c2 + [OwnChunk(a)], [OwnChunk(h), Left, Left, OwnChunk(a), Right, Right];
    assert [] + [Spell(h)] == b1 && [] + c1 == c1;
    StepOrdinary([], [], h);
    assert b1 + [Spell("#{#")] == b2 && c1 + [Left, Left] == c2;
    StepMark(b1, c1, "#{#");
    assert b2 + [Spell(a)] == b3;
    StepOrdinary(b2, c2, a);
    assert b3 + [Spell("#}#")] == [Spell(h), Spell("#{#"), Spell(a), Spell("#}#")] && c3 + [Right, Right] == c4;
    StepMark(b3, c3, "#}#");
  }

  lemma SetRead(h: Word, a: Word)
    requires Ordinary(h) && Ordinary(a)
    ensures Reread([OwnChunk(h), Left, Left, OwnChunk(a), Right, Right]) == [h, "SetOfAnything", "#{#", a, "#}#"]
  {
    var last := [Right, Right];
    ReadsPairs([]);
    assert last + [] == last;
    TakesOrdinary(a, last);
    ReadsPairs([OwnChunk(a)] + last);
    TakesOrdinary(h, [Left, Left] + ([OwnChunk(a)] + last));
    assert [OwnChunk(h)] + ([Left, Left] + ([OwnChunk(a)] + last))
        == [OwnChunk(h), Left, Left, OwnChunk(a), Right, Right];
  }

  lemma SetFiltered(h: Word, a: Word)
    requires Ordinary(h) && Ordinary(a)
    ensures Filter([Spell(h), Spell("#{#"), Spell(a), Spell("#}#")]) == [h, "SetOfAnything", "#{#", a, "#}#"]
  {
    SetChunks(h, a);
    SetRead(h, a);
  }

  lemma SetText(h: Word, a: Word)
    requires Ordinary(h) && FunctionName(h) == h && Ordinary(a)
    ensures Filter(Unparsed(Mon(FunctionToken(h), Closed(Leaf(ArgumentToken(a)), SetOf))))
         == [h, "SetOfAnything", "#{#", a, "#}#"]
  {
    CallText(h, SetOf, a);
    SetFiltered(h, a);
  }

  lemma TwoArguments(tab: Table, a: Word, b: Word, rest: seq<Word>)
    requires IsArgument(tab, a) && IsArgument(tab, b)
    ensures Parse(tab, [a, b] + rest) == Fail
  {
    assert Read(tab, [a, b] + rest).input.Extra?;
  }

  lemma SetRefused(tab: Table, h: Word, a: Word)
    requires IsArgument(tab, h)
    ensures Parse(tab, [h, h, "#{#", a, "#}#"]) == Fail
  {
    assert [h, h] + ["#{#", a, "#}#"] == [h, h, "#{#", a, "#}#"];
    TwoArguments(tab, h, h, ["#{#", a, "#}#"]);
  }

  lemma HeadTwice(tab: Table, h: Word, a: Word)
    requires ValidTable(tab) && IsArgument(tab, h) && StartIdentifier(h) && Ordinary(h) && FunctionName(h) == h
    requires IsArgument(tab, a) && Ordinary(a)
    ensures var o := Parse(tab, [h, "#{#", a, "#}#"]);
            o.Parsed? && Filter(Unparsed(o.tree)) == [h, "SetOfAnything", "#{#", a, "#}#"]
    ensures Parse(tab, [h, h, "#{#", a, "#}#"]) == Fail
  {
    ParseCall(tab, h, SetOf, a);
    SetText(h, a);
    SetRefused(tab, h, a);
  }

  /** `[[a]]` prints as `SetOfAnything[[a]]`, which is read with a second
      `SetOfAnything`: two arguments in a row. */
  lemma SetIsLost(tab: Table, a: Word)
    requires PrintableTable(tab) && IsArgument(tab, "SetOfAnything") && IsArgument(tab, a) && Ordinary(a)
    ensures var o := Parse(tab, ["SetOfAnything", "#{#", a, "#}#"]);
            o.Parsed? && Filter(Unparsed(o.tree)) == ["SetOfAnything", "SetOfAnything", "#{#", a, "#}#"]
    ensures Parse(tab, ["SetOfAnything", "SetOfAnything", "#{#", a, "#}#"]) == Fail
  {
    AloneLetters("SetOfAnything");
    HeadTwice(tab, "SetOfAnything", a);
  }

  lemma ParseOperator(tab: Table, a: Word, op: Word, rest: seq<Word>)
    requires ValidTable(tab) && IsArgument(tab, a) && IsInfixWord(tab, op)
    ensures Parse(tab, [a, op] + rest)
         == Run(tab, State(Bin(InfixToken(tab, op), Leaf(ArgumentToken(a)), Nil), false, None), None, rest)
  {
    var words, leaf, tok := [a, op] + rest, Leaf(ArgumentToken(a)), InfixToken(tab, op);
    assert words[2..] == rest && words[0] == a && words[1] == op;
    var next := State(Bin(tok, leaf, Nil), false, None);
    assert tok.precedence <= MAX_PRECEDENCE;
    assert BinIns(leaf, tok) == Bin(tok, leaf, Nil);
    assert Advance(tab, START, Some(a), op) == Some(next);
    RunAdvances(tab, START, None, words, next);
  }

  lemma ParseInfix(tab: Table, a: Word, op: Word, b: Word)
    requires ValidTable(tab) && IsArgument(tab, a) && IsInfixWord(tab, op) && IsArgument(tab, b)
    ensures Parse(tab, [a, op, b])
         == Parsed(Bin(InfixToken(tab, op), Leaf(ArgumentToken(a)), Leaf(ArgumentToken(b))), [])
  {
    var tok, left, right := InfixToken(tab, op), Leaf(ArgumentToken(a)), Leaf(ArgumentToken(b));
    assert [a, op] + [b] == [a, op, b];
    ParseOperator(tab, a, op, [b]);
    ReadLast(tab, State(Bin(tok, left, Nil), false, None), b);
    NodeSlot(tok, left, Nil, right);
  }

  lemma ParseIndex(tab: Table, a: Word, i: Word)
    requires ValidTable(tab) && IsInfixWord(tab, "#E#") && IsArgument(tab, a) && IsArgument(tab, i)
    ensures Parse(tab, [a, "#E#", "#(#", i, "#)#"])
         == Parsed(Bin(InfixToken(tab, "#E#"), Leaf(ArgumentToken(a)), Closed(Leaf(ArgumentToken(i)), Index)), [])
  {
    var tok, left, right := InfixToken(tab, "#E#"), Leaf(ArgumentToken(a)), Leaf(ArgumentToken(i));
    var rest := [OpenName(Index), i, CloseName(Index)];
    assert [a, "#E#"] + rest == [a, "#E#", "#(#", i, "#)#"];
    ParseOperator(tab, a, "#E#", rest);
    var st := State(Bin(tok, left, Nil), false, None);
    assert rest[1..] == [i, CloseName(Index)];
    assert Read(tab, rest) == Reading(None, Sym(OpenName(Index), Open(Index)), [i, CloseName(Index)]);
    assert Read(tab, rest[1..]) == Reading(Some(i), Sym(CloseName(Index), Close(Index)), []);
    RunLast(tab, START, Some(Index), rest[1..], Some(i), []);
    var inner := Parsed(CloseTree(right, Index), []);
    RunGroup(tab, st, None, rest, inner);
    assert HeadTree(inner.tree, None) == Closed(right, Index);
    NodeSlot(tok, left, Nil, Closed(right, Index));
    RunLast(tab, State(Bin(tok, left, Closed(right, Index)), true, None), None, [], None, []);
  }

  lemma IndexChunks(a: Word, i: Word)
    requires Ordinary(a) && Ordinary(i)
    ensures Chunks([Spell(a), Spell("#E#"), Spell("#(#"), Spell(i), Spell("#)#")])
         == [OwnChunk(a), Left, Left, OwnChunk(i), Right]
  {
    var b1, b2, b3 := [Spell(a)], [Spell(a), Spell("#E#")], [Spell(a), Spell("#E#"), Spell("#(#")];
    var b4 := [Spell(a), Spell("#E#"), Spell("#(#"), Spell(i)];
    var c1, c2, c3 := [OwnChunk(a)], [OwnChunk(a), Left], [OwnChunk(a), Left, Left];
    var c4 := c3 + [OwnChunk(i)];
    assert [] + [Spell(a)] == b1 && [] + c1 == c1;
    StepOrdinary([], [], a);
    assert b1 + [Spell("#E#")] == b2 && c1 + [Left] == c2;
    StepMark(b1, c1, "#E#");
    assert b2 + [Spell("#(#")] == b3 && c2 + [Left] == c3;
    StepMark(b2, c2, "#(#");
    assert b3 + [Spell(i)] == b4;
    StepOrdinary(b3, c3, i);
    assert b4 + [Spell("#)#")] == [Spell(a), Spell("#E#"), Spell("#(#"), Spell(i), Spell("#)#")];
    assert c4 + [Right] == [OwnChunk(a), Left, Left, OwnChunk(i), Right];
    StepMark(b4, c4, "#)#");
  }

  lemma IndexRead(a: Word, i: Word)
    requires Ordinary(a) && Ordinary(i)
    ensures Reread([OwnChunk(a), Left, Left, OwnChunk(i), Right]) == [a, "SetOfAnything", "#{#", i, "#)#"]
  {
    var last := [Right];
    assert Reread(last) == ["#)#"] by { assert last[1..] == []; }
    TakesOrdinary(i, last);
    ReadsPairs([OwnChunk(i)] + last);
    TakesOrdinary(a, [Left, Left] + ([OwnChunk(i)] + last));
    assert [OwnChunk(a)] + ([Left, Left] + ([OwnChunk(i)] + last)) == [OwnChunk(a), Left, Left, OwnChunk(i), Right];
  }

  lemma BinaryText(tok: Token, l: Sexp, r: Sexp)
    requires tok.kind == BINARY && tok.close == None && tok.name != "="
    ensures Unparsed(Bin(tok, l, r)) == Written(l, false) + [Spell(tok.name)] + Written(r, false)
  {
    var t := Bin(tok, l, r);
    assert t.cdr.car == l && t.cdr.cdr.car == r;
    var left, right := Written(l, false), Written(r, false);
    assert Inside(t, false) == left + [Spell(tok.name)] + [] + right;
    assert Written(t, false) == [] + Inside(t, false) + [] == left + [Spell(tok.name)] + right;
  }

  lemma IndexText(tok: Token, a: Word, i: Word)
    requires tok.kind == BINARY && tok.close == None && tok.name == "#E#"
    ensures Unparsed(Bin(tok, Leaf(ArgumentToken(a)), Closed(Leaf(ArgumentToken(i)), Index)))
         == [Spell(a), Spell("#E#"), Spell("#(#"), Spell(i), Spell("#)#")]
  {
    BinaryText(tok, Leaf(ArgumentToken(a)), Closed(Leaf(ArgumentToken(i)), Index));
    LeafText(a);
    ClosedText(i, Index);
  }

  lemma IndexFiltered(tok: Token, a: Word, i: Word)
    requires tok.kind == BINARY && tok.close == None && tok.name == "#E#" && Ordinary(a) && Ordinary(i)
    ensures Filter(Unparsed(Bin(tok, Leaf(ArgumentToken(a)), Closed(Leaf(ArgumentToken(i)), Index))))
         == [a, "SetOfAnything", "#{#", i, "#)#"]
  {
    IndexText(tok, a, i);
    IndexChunks(a, i);
    IndexRead(a, i);
  }

  lemma IndexRefused(tab: Table, a: Word, i: Word)
    requires IsArgument(tab, "SetOfAnything") && IsArgument(tab, a)
    ensures Parse(tab, [a, "SetOfAnything", "#{#", i, "#)#"]) == Fail
  {
    var h: Word := "SetOfAnything";
    assert [a, h] + ["#{#", i, "#)#"] == [a, h, "#{#", i, "#)#"];
    TwoArguments(tab, a, h, ["#{#", i, "#)#"]);
  }

  /** `a[i]` prints as `a[[i]`: the index operator and its bracket are both
      written `[`, and two of them open a set literal. */
  lemma IndexIsLost(tab: Table, a: Word, i: Word)
    requires PrintableTable(tab) && IsInfixWord(tab, "#E#") && IsArgument(tab, "SetOfAnything")
    requires IsArgument(tab, a) && Ordinary(a) && IsArgument(tab, i) && Ordinary(i)
    ensures var o := Parse(tab, [a, "#E#", "#(#", i, "#)#"]);
            o.Parsed? && Filter(Unparsed(o.tree)) == [a, "SetOfAnything", "#{#", i, "#)#"]
    ensures Parse(tab, [a, "SetOfAnything", "#{#", i, "#)#"]) == Fail
  {
    ParseIndex(tab, a, i);
    IndexFiltered(InfixToken(tab, "#E#"), a, i);
    IndexRefused(tab, a, i);
  }

  // ----- words that stick together

  lemma FlatThree(p: Word, q: Word, r: Word)
    ensures Flat([p, q, r]) == p + q + r
  {
    FlatSnoc([], p);
    FlatSnoc([p], q);
    FlatSnoc([p, q], r);
    assert [] + [p] == [p] && [p] + [q] == [p, q] && [p, q] + [r] == [p, q, r];
    assert "" + p == p;
  }

  /** The text of an operator and its operands that stick together is read as
      one word. */
  lemma StuckText(p: Word, q: Word, r: Word, w: Word)
    requires Solid(p) && Solid(q) && Solid(r) && p + q + r == w && Solid(w) && Alone(w)
    ensures Filter([Spell(p), Spell(q), Spell(r)]) == [w]
  {
    SpellsThree(p, q, r);
    SpellsSide([p, q, r]);
    FlatThree(p, q, r);
    OneSide([p, q, r]);
    LexOrdinary(w);
    FlatOne(w);
  }

  lemma FlatOne(w: Word)
    ensures Flat([w]) == w
  {
    FlatSnoc([], w);
    assert [] + [w] == [w] && "" + w == w;
  }

  lemma SpellsThree(p: Word, q: Word, r: Word)
    ensures Spells([p, q, r]) == [Spell(p), Spell(q), Spell(r)]
  {
    assert [p, q, r][..2] == [p, q] && [p, q][..1] == [p] && [p][..0] == [];
    assert Spells([p]) == [Spell(p)];
  }

  lemma InfixText(tok: Token, a: Word, b: Word)
    requires tok.kind == BINARY && tok.close == None && tok.name != "="
    ensures Unparsed(Bin(tok, Leaf(ArgumentToken(a)), Leaf(ArgumentToken(b)))) == [Spell(a), Spell(tok.name), Spell(b)]
  {
    BinaryText(tok, Leaf(ArgumentToken(a)), Leaf(ArgumentToken(b)));
    LeafText(a);
    LeafText(b);
  }

  /** `a Of b` prints as `aOfb`, one argument; so does any operator named by
      letters between operands of letters. */
  lemma NamedOperatorIsLost(tab: Table, a: Word, op: Word, b: Word)
    requires PrintableTable(tab) && IsInfixWord(tab, op) && IsArgument(tab, a) && IsArgument(tab, b)
    requires forall c :: c in a + op + b ==> IsAlpha(c)
    ensures var o := Parse(tab, [a, op, b]);
            o.Parsed? && Filter(Unparsed(o.tree)) == [a + op + b]
  {
    var w: Word := a + op + b;
    assert op[0] in w;
    ParseInfix(tab, a, op, b);
    InfixText(InfixToken(tab, op), a, b);
    forall i | 0 <= i < |w| ensures IsAlpha(w[i]) { assert w[i] in a + op + b; }
    forall i | 0 <= i < |a| ensures IsAlpha(a[i]) { assert a[i] in a + op + b; }
    forall i | 0 <= i < |op| ensures IsAlpha(op[i]) { assert op[i] in a + op + b; }
    forall i | 0 <= i < |b| ensures IsAlpha(b[i]) { assert b[i] in a + op + b; }
    AloneLetters(w);
    AloneLetters(a);
    AloneLetters(op);
    AloneLetters(b);
    StuckText(a, op, b, w);
  }

  /** `1e - 5` prints as the number `1e-5`. */
  lemma ExponentIsLost(tab: Table)
    requires PrintableTable(tab) && IsInfixWord(tab, "-") && IsArgument(tab, "1e") && IsArgument(tab, "5")
    ensures var o := Parse(tab, ["1e", "-", "5"]);
            o.Parsed? && Filter(Unparsed(o.tree)) == ["1e-5"]
  {
    ParseInfix(tab, "1e", "-", "5");
    NumberText(InfixToken(tab, "-"));
  }

  lemma NumberText(tok: Token)
    requires tok.kind == BINARY && tok.close == None && tok.name == "-"
    ensures Filter(Unparsed(Bin(tok, Leaf(ArgumentToken("1e")), Leaf(ArgumentToken("5"))))) == ["1e-5"]
  {
    InfixText(tok, "1e", "5");
    NumberAlone();
    StuckText("1e", "-", "5", "1e-5");
  }

  lemma NumberAlone()
    ensures Solid("1e-5") && Alone("1e-5")
  {
    var s: Word := "1e-5";
    assert !IsAlpha(s[0]) && Stretch(s, 0) == 0;
    assert Exponent(s, 0);
    assert Covers(s, 1, 1) && Covers(s, 2, 2) && Covers(s, 3, 3);
  }
}
