/** What the filter and the scanner read in a printed text. */
module Rescan {
  import opened SyntaxTree
  import opened Lexing
  import opened PrintedText
  import opened Tally

  // ----- what the filter sees

  /** Words with no blank between them, a quoted text, blanks, or a square
      bracket. */
  datatype Chunk = Side(ws: seq<Word>) | Quote(w: Word) | Gap | Left | Right

  predicate Quoted(w: Word) { w[0] == '\"' }

  /** The square brackets `Unparse` puts for the words the filter had put for
      square brackets. */
  function Squares(w: Word): seq<Chunk> {
    if w == "#E#" || w == "#(#" || w == "[" then [Left]
    else if w == "#{#" then [Left, Left]
    else if w == "#)#" || w == "]" then [Right]
    else if w == "#}#" then [Right, Right]
    else []
  }

  predicate IsMark(w: Word) { Squares(w) != [] }

  /** A word with no blank before it. */
  function Beside(cs: seq<Chunk>, w: Word): seq<Chunk> {
    if cs != [] && cs[|cs| - 1].Side? then cs[..|cs| - 1] + [Side(cs[|cs| - 1].ws + [w])]
    else cs + [Side([w])]
  }

  function Push(cs: seq<Chunk>, b: Bit): seq<Chunk> {
    match b
    case Blank => cs + [Gap]
    case Spell(w) =>
      if Quoted(w) then cs + [Quote(w)] else if IsMark(w) then cs + Squares(w) else Beside(cs, w)
  }

  function Chunks(b: seq<Bit>): seq<Chunk> {
    if b == [] then [] else Push(Chunks(b[..|b| - 1]), b[|b| - 1])
  }

  /** Two square brackets in a row, which the filter takes together. */
  predicate Twin(cs: seq<Chunk>) { |cs| > 1 && (cs[0].Left? || cs[0].Right?) && cs[1] == cs[0] }

  /** The filter's words: two square brackets in a row are a set literal, one
      is an index. */
  function Taken(c: Chunk, twin: bool): seq<Word> {
    match c
    case Side(ws) => Lex(Flat(ws))
    case Quote(w) => [w]
    case Gap => []
    case Left => if twin then ["SetOfAnything", "#{#"] else ["#E#", "#(#"]
    case Right => if twin then ["#}#"] else ["#)#"]
  }

  function Reread(cs: seq<Chunk>): seq<Word> {
    if cs == [] then []
    else if Twin(cs) then Taken(cs[0], true) + Reread(cs[2..])
    else Taken(cs[0], false) + Reread(cs[1..])
  }

  /** The words read in a text. */
  function Filter(b: seq<Bit>): seq<Word> { Reread(Chunks(b)) }

  // ----- what the filter delivers

  predicate FilterMark(w: Word) { w == "#E#" || w == "#(#" || w == "#)#" || w == "#{#" || w == "#}#" }

  /** A word as the filter delivers it. */
  predicate Delivered(w: Word) { Quoted(w) || FilterMark(w) || (Solid(w) && Alone(w)) }

  predicate AllDelivered(ws: seq<Word>) { forall w :: w in ws ==> Delivered(w) }

  /** A piece of any text that the model covers. */
  predicate ChunkSolid(c: Chunk) {
    match c
    case Side(ws) => Solid(Flat(ws))
    case Quote(w) => Quoted(w)
    case _ => true
  }

  /** A piece of a text made of delivered words. */
  predicate ChunkOk(c: Chunk) { ChunkSolid(c) && (c.Side? ==> AllAlone(c.ws)) }

  predicate ChunksOk(cs: seq<Chunk>) { forall i :: 0 <= i < |cs| ==> ChunkOk(cs[i]) }

  lemma LastDelivered(l: seq<Bit>, x: Bit)
    requires AllDelivered(Spelled(l + [x]))
    ensures AllDelivered(Spelled(l)) && (x.Spell? ==> Delivered(x.w))
  {
    SpelledSnoc(l, x);
    assert forall w :: w in Spelled(l) ==> w in Spelled(l + [x]);
    if x.Spell? { assert x.w in Spelled(l + [x]); }
  }

  lemma {:induction false} DeliveredChunks(b: seq<Bit>)
    requires AllDelivered(Spelled(b))
    ensures ChunksOk(Chunks(b))
  {
    if b != [] {
      var l, x := b[..|b| - 1], b[|b| - 1];
      assert b == l + [x];
      LastDelivered(l, x);
      DeliveredChunks(l);
      if x.Spell? { PushOk(Chunks(l), x.w); }
    }
  }

  lemma BesideOk(cs: seq<Chunk>, w: Word)
    requires ChunksOk(cs) && Solid(w) && Alone(w)
    ensures ChunksOk(Beside(cs, w))
  {
    var ws := if cs != [] && cs[|cs| - 1].Side? then cs[|cs| - 1].ws else [];
    SideOk(ws, w);
    assert ws == [] ==> ws + [w] == [w];
  }

  lemma PushOk(cs: seq<Chunk>, w: Word)
    requires ChunksOk(cs) && Delivered(w)
    ensures ChunksOk(Push(cs, Spell(w)))
  {
    if !Quoted(w) && !IsMark(w) {
      BesideOk(cs, w);
    } else {
      assert forall c :: c in Squares(w) ==> c == Left || c == Right;
    }
  }

  lemma SideOk(ws: seq<Word>, w: Word)
    requires Solid(Flat(ws)) && AllAlone(ws) && Solid(w) && Alone(w)
    ensures Solid(Flat(ws + [w])) && AllAlone(ws + [w])
  {
    FlatSnoc(ws, w);
  }

  lemma TakenDelivers(c: Chunk, twin: bool)
    requires ChunkSolid(c)
    ensures AllDelivered(Taken(c, twin))
  {
    match c
    case Side(ws) => LexAlone(Flat(ws));
    case _ => AloneLetters("SetOfAnything");
  }

  /** Whatever the filter reads, it delivers words that it would read alike. */
  lemma {:induction false} RereadDelivers(cs: seq<Chunk>)
    requires forall i :: 0 <= i < |cs| ==> ChunkSolid(cs[i])
    ensures AllDelivered(Reread(cs))
    decreases |cs|
  {
    if cs != [] {
      TakenDelivers(cs[0], Twin(cs));
      RereadDelivers(if Twin(cs) then cs[2..] else cs[1..]);
    }
  }

  /** A word of letters stands alone. */
  lemma AloneLetters(w: Word)
    requires forall i :: 0 <= i < |w| ==> IsAlpha(w[i])
    ensures Solid(w) && Alone(w)
  {}

  // ----- counting brackets and letters

  /** The words that are neither blanks nor square brackets. */
  function Kept(cs: seq<Chunk>): seq<Word> {
    if cs == [] then [] else KeptOf(cs[0]) + Kept(cs[1..])
  }

  function KeptOf(c: Chunk): seq<Word> {
    match c
    case Side(ws) => ws
    case Quote(w) => [w]
    case _ => []
  }

  lemma {:induction false} KeptConcat(a: seq<Chunk>, b: seq<Chunk>)
    ensures Kept(a + b) == Kept(a) + Kept(b)
  {
    if a == [] {
      assert a + b == b;
    } else {
      KeptConcat(a[1..], b);
      assert (a + b)[1..] == a[1..] + b;
    }
  }

  lemma KeptOne(c: Chunk)
    ensures Kept([c]) == KeptOf(c)
  {
    assert [c][1..] == [];
  }

  function Lefts(cs: seq<Chunk>): nat { multiset(cs)[Left] }

  function Rights(cs: seq<Chunk>): nat { multiset(cs)[Right] }

  lemma KeptSnoc(cs: seq<Chunk>, c: Chunk)
    ensures Kept(cs + [c]) == Kept(cs) + KeptOf(c)
    ensures Lefts(cs + [c]) == Lefts(cs) + if c.Left? then 1 else 0
    ensures Rights(cs + [c]) == Rights(cs) + if c.Right? then 1 else 0
  {
    KeptConcat(cs, [c]);
    KeptOne(c);
  }

  lemma KeptBeside(cs: seq<Chunk>, w: Word)
    ensures Kept(Beside(cs, w)) == Kept(cs) + [w]
    ensures Lefts(Beside(cs, w)) == Lefts(cs) && Rights(Beside(cs, w)) == Rights(cs)
  {
    if cs != [] && cs[|cs| - 1].Side? {
      var init, last := cs[..|cs| - 1], cs[|cs| - 1];
      assert cs == init + [last];
      KeptSnoc(init, last);
      KeptSnoc(init, Side(last.ws + [w]));
    } else {
      KeptSnoc(cs, Side([w]));
    }
  }

  lemma {:induction false} NoneKept(cs: seq<Chunk>)
    requires forall c :: c in cs ==> KeptOf(c) == []
    ensures Kept(cs) == []
  {
    if cs != [] { NoneKept(cs[1..]); }
  }

  lemma KeptSquares(cs: seq<Chunk>, w: Word)
    ensures Kept(cs + Squares(w)) == Kept(cs)
  {
    KeptConcat(cs, Squares(w));
    NoneKept(Squares(w));
  }

  /** The square brackets `l` and `r` in a text, counted by the words `ws`
      they stand for; `kept` are the other words. */
  predicate WritesSquares(ws: seq<Word>, kept: seq<Word>, l: nat, r: nat) {
    && l == Count(ws, "#E#") + Count(ws, "#(#") + 2 * Count(ws, "#{#")
    && r == Count(ws, "#)#") + 2 * Count(ws, "#}#")
    && Load(CapitalE, ws) == Load(CapitalE, kept) + Count(ws, "#E#")
    && Load(SmallY, ws) == Load(SmallY, kept)
  }

  /** The words read for square brackets, counted by the square brackets. */
  predicate ReadsSquares(ws: seq<Word>, kept: seq<Word>, l: nat, r: nat) {
    && l == Count(ws, "#(#") + 2 * Count(ws, "#{#")
    && r == Count(ws, "#)#") + 2 * Count(ws, "#}#")
    && Load(CapitalE, ws) == Load(CapitalE, kept) + Count(ws, "#(#")
    && Load(SmallY, ws) == Load(SmallY, kept) + Count(ws, "#{#")
  }

  // ----- the text

  lemma MarkLoad(w: Word)
    requires FilterMark(w)
    ensures Sum(CapitalE, w) == (if w == "#E#" then 1 else 0) && Sum(SmallY, w) == 0
  {
    assert w == [w[0], w[1], w[2]];
    SumThree(CapitalE, w[0], w[1], w[2]);
    SumThree(SmallY, w[0], w[1], w[2]);
  }

  lemma SolidIsNoMark(w: Word)
    requires Solid(w) || Quoted(w)
    ensures w[0] != '#' && (Solid(w) ==> Squares(w) == [])
  {
    assert Solid(w) ==> IsSolid(w[0]);
  }

  lemma MarkSquares(cs: seq<Chunk>, w: Word)
    requires FilterMark(w)
    ensures Lefts(cs + Squares(w)) == Lefts(cs) + if w == "#E#" || w == "#(#" then 1 else if w == "#{#" then 2 else 0
    ensures Rights(cs + Squares(w)) == Rights(cs) + if w == "#)#" then 1 else if w == "#}#" then 2 else 0
  {
    assert Lefts(cs + Squares(w)) == Lefts(cs) + Lefts(Squares(w));
    assert Rights(cs + Squares(w)) == Rights(cs) + Rights(Squares(w));
  }

  lemma CountMarks(ws: seq<Word>, w: Word)
    ensures Count(ws + [w], "#E#") == Count(ws, "#E#") + if w == "#E#" then 1 else 0
    ensures Count(ws + [w], "#(#") == Count(ws, "#(#") + if w == "#(#" then 1 else 0
    ensures Count(ws + [w], "#)#") == Count(ws, "#)#") + if w == "#)#" then 1 else 0
    ensures Count(ws + [w], "#{#") == Count(ws, "#{#") + if w == "#{#" then 1 else 0
    ensures Count(ws + [w], "#}#") == Count(ws, "#}#") + if w == "#}#" then 1 else 0
  {
    CountSnoc(ws, w, "#E#");
    CountSnoc(ws, w, "#(#");
    CountSnoc(ws, w, "#)#");
    CountSnoc(ws, w, "#{#");
    CountSnoc(ws, w, "#}#");
  }

  lemma WritesMark(ws: seq<Word>, kept: seq<Word>, l: nat, r: nat, w: Word)
    requires WritesSquares(ws, kept, l, r) && FilterMark(w)
    ensures WritesSquares(ws + [w], kept,
      l + (if w == "#E#" || w == "#(#" then 1 else if w == "#{#" then 2 else 0),
      r + (if w == "#)#" then 1 else if w == "#}#" then 2 else 0))
  {
    LoadSnoc(CapitalE, ws, w);
    LoadSnoc(SmallY, ws, w);
    MarkLoad(w);
    CountMarks(ws, w);
  }

  /** Any other word leaves the counts of brackets alone. */
  lemma WritesKept(ws: seq<Word>, kept: seq<Word>, l: nat, r: nat, w: Word)
    requires WritesSquares(ws, kept, l, r) && !FilterMark(w)
    ensures WritesSquares(ws + [w], kept + [w], l, r)
  {
    LoadSnoc(CapitalE, ws, w);
    LoadSnoc(SmallY, ws, w);
    LoadSnoc(CapitalE, kept, w);
    LoadSnoc(SmallY, kept, w);
    CountMarks(ws, w);
  }

  predicate TextOk(ws: seq<Word>, cs: seq<Chunk>) { WritesSquares(ws, Kept(cs), Lefts(cs), Rights(cs)) }

  lemma WritesWord(ws: seq<Word>, cs: seq<Chunk>, w: Word)
    requires TextOk(ws, cs) && Delivered(w)
    ensures TextOk(ws + [w], Push(cs, Spell(w)))
  {
    if FilterMark(w) {
      KeptSquares(cs, w);
      MarkSquares(cs, w);
      WritesMark(ws, Kept(cs), Lefts(cs), Rights(cs), w);
    } else {
      WritesKept(ws, Kept(cs), Lefts(cs), Rights(cs), w);
      SolidIsNoMark(w);
      if Quoted(w) { KeptSnoc(cs, Quote(w)); } else { KeptBeside(cs, w); }
    }
  }

  lemma GapKept(cs: seq<Chunk>)
    ensures Kept(cs + [Gap]) == Kept(cs) && Lefts(cs + [Gap]) == Lefts(cs) && Rights(cs + [Gap]) == Rights(cs)
  {
    KeptSnoc(cs, Gap);
  }

  lemma {:induction false} TextWritesSquares(b: seq<Bit>)
    requires AllDelivered(Spelled(b))
    ensures TextOk(Spelled(b), Chunks(b))
  {
    if b != [] {
      var l, x := b[..|b| - 1], b[|b| - 1];
      var ws, cs := Spelled(l), Chunks(l);
      assert Chunks(b) == Push(cs, x);
      assert b == l + [x];
      LastDelivered(l, x);
      TextWritesSquares(l);
      if x.Spell? {
        assert Spelled(b) == ws + [x.w];
        WritesWord(ws, cs, x.w);
      } else {
        assert Spelled(b) == ws && Push(cs, x) == cs + [Gap];
        GapKept(cs);
      }
    }
  }

  // ----- the words read

  lemma ReadsConcat(a: seq<Word>, ka: seq<Word>, la: nat, ra: nat, b: seq<Word>, kb: seq<Word>, lb: nat, rb: nat)
    requires ReadsSquares(a, ka, la, ra) && ReadsSquares(b, kb, lb, rb)
    ensures ReadsSquares(a + b, ka + kb, la + lb, ra + rb)
  {
    LoadConcat(CapitalE, a, b);
    LoadConcat(CapitalE, ka, kb);
    LoadConcat(SmallY, a, b);
    LoadConcat(SmallY, ka, kb);
    CountConcat(a, b, "#(#");
    CountConcat(a, b, "#{#");
    CountConcat(a, b, "#)#");
    CountConcat(a, b, "#}#");
  }

  lemma NoMarksRead(ws: seq<Word>, kept: seq<Word>)
    requires Flat(ws) == Flat(kept) && forall w :: w in ws ==> w[0] != '#'
    ensures ReadsSquares(ws, kept, 0, 0)
  {
    assert "#(#" !in ws && "#{#" !in ws && "#)#" !in ws && "#}#" !in ws;
  }

  lemma ReadsSide(ws: seq<Word>)
    requires Solid(Flat(ws))
    ensures ReadsSquares(Lex(Flat(ws)), ws, 0, 0)
  {
    var us := Lex(Flat(ws));
    LexFlat(Flat(ws));
    LexAlone(Flat(ws));
    forall w | w in us ensures w[0] != '#' {
      SolidIsNoMark(w);
    }
    NoMarksRead(us, ws);
  }

  lemma SetOfAnythingLoad(m: Measure)
    requires m != Weight
    ensures Sum(m, "SetOfAnything") == if m == SmallY then 1 else 0
  {
    assert "SetOfAnything" == "Set" + "OfA" + "nyt" + "hin" + "g";
    SumConcat(m, "Set", "OfA");
    SumConcat(m, "Set" + "OfA", "nyt");
    SumConcat(m, "Set" + "OfA" + "nyt", "hin");
    SumConcat(m, "Set" + "OfA" + "nyt" + "hin", "g");
    SumThree(m, 'S', 'e', 't');
    SumThree(m, 'O', 'f', 'A');
    SumThree(m, 'n', 'y', 't');
    SumThree(m, 'h', 'i', 'n');
    SumOne(m, 'g');
  }

  lemma ReadsPair()
    ensures ReadsSquares(["SetOfAnything", "#{#"], [], 2, 0)
  {
    var s: Word := "SetOfAnything";
    SetOfAnythingLoad(CapitalE);
    SetOfAnythingLoad(SmallY);
    MarkLoad("#{#");
    LoadOne(CapitalE, s);
    LoadOne(SmallY, s);
    LoadSnoc(CapitalE, [s], "#{#");
    LoadSnoc(SmallY, [s], "#{#");
    assert [s] + ["#{#"] == [s, "#{#"];
  }

  lemma ReadsSingle()
    ensures ReadsSquares(["#E#", "#(#"], [], 1, 0)
  {
    MarkLoad("#E#");
    MarkLoad("#(#");
    LoadOne(CapitalE, "#E#");
    LoadOne(SmallY, "#E#");
    LoadSnoc(CapitalE, ["#E#"], "#(#");
    LoadSnoc(SmallY, ["#E#"], "#(#");
    assert ["#E#"] + ["#(#"] == ["#E#", "#(#"];
  }

  lemma ReadsClosing(w: Word)
    requires w == "#)#" || w == "#}#"
    ensures ReadsSquares([w], [], 0, if w == "#}#" then 2 else 1)
  {
    MarkLoad(w);
    LoadOne(CapitalE, w);
    LoadOne(SmallY, w);
  }

  predicate ReadOk(ws: seq<Word>, cs: seq<Chunk>) { ReadsSquares(ws, Kept(cs), Lefts(cs), Rights(cs)) }

  lemma ReadsMore(a: seq<Chunk>, ws: seq<Word>, b: seq<Chunk>, us: seq<Word>)
    requires ReadOk(ws, a) && ReadOk(us, b)
    ensures ReadOk(ws + us, a + b)
  {
    ReadsConcat(ws, Kept(a), Lefts(a), Rights(a), us, Kept(b), Lefts(b), Rights(b));
    KeptConcat(a, b);
  }

  lemma ReadsOne(c: Chunk)
    requires ChunkOk(c)
    ensures ReadOk(Taken(c, false), [c])
  {
    TakenReads(c);
    KeptOne(c);
    OneSquare(c);
  }

  lemma OneSquare(c: Chunk)
    ensures Lefts([c]) == (if c.Left? then 1 else 0) && Rights([c]) == (if c.Right? then 1 else 0)
  {}

  lemma TakenReads(c: Chunk)
    requires ChunkOk(c)
    ensures ReadsSquares(Taken(c, false), KeptOf(c), if c.Left? then 1 else 0, if c.Right? then 1 else 0)
  {
    match c
    case Side(ws) => ReadsSide(ws);
    case Quote(w) => NoMarksRead([w], [w]);
    case Gap => NoMarksRead([], []);
    case Left => ReadsSingle();
    case Right => ReadsClosing("#)#");
  }

  lemma ReadsTwin(c: Chunk)
    requires c.Left? || c.Right?
    ensures ReadOk(Taken(c, true), [c, c])
  {
    NoneKept([c, c]);
    assert Lefts([c, c]) == (if c.Left? then 2 else 0) && Rights([c, c]) == if c.Right? then 2 else 0;
    if c.Left? { ReadsPair(); } else { ReadsClosing("#}#"); }
  }

  lemma {:induction false} ReadsText(cs: seq<Chunk>)
    requires ChunksOk(cs)
    ensures ReadOk(Reread(cs), cs)
    decreases |cs|
  {
    if cs == [] {
      NoMarksRead([], []);
    } else {
      var twin, c := Twin(cs), cs[0];
      var head, rest := if twin then [c, c] else [c], if twin then cs[2..] else cs[1..];
      assert cs == head + rest;
      ReadsText(rest);
      if twin { ReadsTwin(c); } else { ReadsOne(c); }
      var ws := Reread(rest);
      assert Reread(cs) == Taken(c, twin) + ws;
      ReadsMore(head, Taken(c, twin), rest, ws);
    }
  }

  // ----- texts without square brackets

  /** Words with no blank between them do not stick to each other. */
  predicate Apart(cs: seq<Chunk>) { forall i :: 0 <= i < |cs| && cs[i].Side? ==> NoneStick(cs[i].ws) }

  lemma SameLength(a: seq<Word>, b: seq<Word>)
    requires a <= b && Flat(a) == Flat(b)
    ensures a == b
  {
    assert b[..|a|] == a && b[..|b|] == b;
    FlatPrefix(b, |a|, |b|);
  }

  lemma PrefixByText(a: seq<Word>, x: seq<Word>, b: seq<Word>, y: seq<Word>)
    requires Flat(a) == Flat(b) && a + x == b + y
    ensures a == b && x == y
  {
    if |a| <= |b| {
      assert a == (a + x)[..|a|] == b[..|a|];
      SameLength(a, b);
    } else {
      assert b == (b + y)[..|b|] == a[..|b|];
      SameLength(b, a);
    }
    assert x == (a + x)[|a|..] && y == (b + y)[|b|..];
  }

  lemma TakenApart(c: Chunk)
    requires ChunkOk(c) && !c.Left? && !c.Right?
    ensures Flat(Taken(c, false)) == Flat(KeptOf(c))
    ensures Taken(c, false) == KeptOf(c) <==> (c.Side? ==> NoneStick(c.ws))
  {
    if c.Side? {
      LexFlat(Flat(c.ws));
      LexIffSeparate(c.ws);
    }
  }

  lemma {:induction false} RereadApart(cs: seq<Chunk>)
    requires ChunksOk(cs) && Left !in cs && Right !in cs
    ensures Flat(Reread(cs)) == Flat(Kept(cs))
    ensures Reread(cs) == Kept(cs) <==> Apart(cs)
  {
    if cs != [] {
      var c, rest := cs[0], cs[1..];
      assert c in cs;
      RereadApart(rest);
      TakenApart(c);
      FlatConcat(Taken(c, false), Reread(rest));
      FlatConcat(KeptOf(c), Kept(rest));
      assert Reread(cs) == Taken(c, false) + Reread(rest);
      if Reread(cs) == Kept(cs) {
        PrefixByText(Taken(c, false), Reread(rest), KeptOf(c), Kept(rest));
      }
      assert Apart(cs) <==> (c.Side? ==> NoneStick(c.ws)) && Apart(rest);
    }
  }

  predicate NoMarks(ws: seq<Word>) { forall w :: w in ws ==> !FilterMark(w) }

  lemma {:induction false} NothingLost(b: seq<Bit>)
    requires AllDelivered(Spelled(b)) && NoMarks(Spelled(b))
    ensures Kept(Chunks(b)) == Spelled(b) && Left !in Chunks(b) && Right !in Chunks(b)
  {
    if b != [] {
      var l, x := b[..|b| - 1], b[|b| - 1];
      assert b == l + [x];
      SpelledSnoc(l, x);
      LastDelivered(l, x);
      assert forall w :: w in Spelled(l) ==> w in Spelled(b);
      NothingLost(l);
      assert Chunks(b) == Push(Chunks(l), x);
      if x.Spell? {
        assert x.w in Spelled(b);
        SolidIsNoMark(x.w);
        if Quoted(x.w) { KeptSnoc(Chunks(l), Quote(x.w)); } else { KeptBeside(Chunks(l), x.w); }
      } else {
        GapKept(Chunks(l));
      }
    }
  }

  /** A text without square brackets is read as its words exactly when no word
      sticks to its neighbour; in any case no character is lost. */
  lemma FilterKeeps(b: seq<Bit>)
    requires AllDelivered(Spelled(b)) && NoMarks(Spelled(b))
    ensures Flat(Filter(b)) == Flat(Spelled(b))
    ensures Filter(b) == Spelled(b) <==> Apart(Chunks(b))
  {
    NothingLost(b);
    DeliveredChunks(b);
    RereadApart(Chunks(b));
  }
}
