/** Parsing the text a tree is printed as: exactly which trees come back. */
module Rereading {
  import opened Options
  import opened SyntaxTree
  import opened Phrase
  import opened Machine
  import opened Acceptance
  import opened Unparse
  import opened Reparse
  import opened RoundTrip
  import opened Lexing
  import opened PrintedText
  import opened Tally
  import opened Rescan
  import opened Fading

  // ----- the text does not show precedences

  lemma ListErased(t: Sexp)
    ensures IsList(Erase(t)) == IsList(t)
  {}

  lemma {:induction false} WrittenErased(t: Sexp, deep: bool)
    ensures Written(Erase(t), deep) == Written(t, deep)
    decreases t, 1
  {
    if Rooted(t) {
      assert Rooted(Erase(t));
      LinesErased(t.cdr, t.car.tok.name);
      InsideErased(t, deep);
    }
  }

  lemma {:induction false} InsideErased(t: Sexp, deep: bool)
    requires Rooted(t)
    ensures Rooted(Erase(t)) && Inside(Erase(t), deep) == Inside(t, deep)
    decreases t, 0
  {
    match t.car.tok.kind
    case ARGUMENT =>
    case SEPARATOR =>
    case FUNCTION => ListedErased(t.cdr, deep);
    case BINARY =>
      assert Erase(t).cdr.Cons? == t.cdr.Cons?;
      assert t.cdr.Cons? ==> Erase(t.cdr).cdr == Erase(t.cdr.cdr);
      if t.cdr.Cons? && t.cdr.cdr.Cons? {
        assert Erase(t.cdr.cdr).car == Erase(t.cdr.cdr.car);
        WrittenErased(t.cdr.car, deep);
        WrittenErased(t.cdr.cdr.car, deep);
        ListErased(t.cdr.cdr.car);
      }
    case _ =>
      if t.cdr.Cons? { WrittenErased(t.cdr.car, deep); }
  }

  lemma {:induction false} ListedErased(d: Sexp, deep: bool)
    ensures Listed(Erase(d), deep) == Listed(d, deep)
    decreases d, 2
  {
    if d.Cons? {
      WrittenErased(d.car, deep);
      ListedErased(d.cdr, deep);
    }
  }

  lemma {:induction false} LinesErased(d: Sexp, sep: Word)
    ensures Lines(Erase(d), sep) == Lines(d, sep)
    decreases d, 2
  {
    if d.Cons? {
      WrittenErased(d.car, true);
      LinesErased(d.cdr, sep);
    }
  }

  // ----- which trees come back

  function Unparsed(t: Sexp): seq<Bit> { Written(t, false) }

  /** No name is respelt, no bracket of the filter's own is printed, and no two
      words printed without a blank between them stick together. */
  ghost predicate Rereadable(t: Sexp) {
    NothingRespelt(t) && NoMarks(Print(t)) && Apart(Chunks(Unparsed(t)))
  }

  lemma BroughtDelivered(w: Word)
    requires Brought(w)
    ensures Delivered(w)
  {
    if w == "Not" || w == "Eq" || w == "SqRt" { AloneLetters(w); }
  }

  lemma PrintFades(tab: Table, p: seq<Item>)
    requires PrintableTable(tab) && WellFormed(tab, p)
    ensures Faded(Names(PhraseTree(tab, p)), Yield(p), Print(PhraseTree(tab, p)))
  {
    var sep := Or(SepWord(p), ",");
    SepWordIsFirst(tab, p);
    ItemsFade(tab, p, sep);
    PrintIsYield(tab, p);
    NamesKept(tab, p);
  }

  lemma PrintDelivered(a: seq<Word>, b: seq<Word>)
    requires Stems(a, b) && AllDelivered(a)
    ensures AllDelivered(b)
  {
    forall w | w in b ensures Delivered(w) {
      if w !in a { BroughtDelivered(w); }
    }
  }

  lemma {:induction false} AlikeText(a: seq<Word>, b: seq<Word>)
    requires Alike(a, b) && Flat(a) == Flat(b)
    ensures a == b
    decreases |a|
  {
    if a != [] {
      var n := |a| - 1;
      assert |a[n]| == |b[n]|;
      var s := Flat(a);
      assert s == Flat(a[..n]) + a[n] == Flat(b[..n]) + b[n];
      assert a[n] == s[|s| - |a[n]|..] == b[n];
      assert Flat(a[..n]) == s[..|s| - |a[n]|] == Flat(b[..n]);
      AlikeText(a[..n], b[..n]);
      assert a == a[..n] + [a[n]] && b == b[..n] + [b[n]];
    }
  }

  /** Paired brackets in the words written and in the words read, and no letter
      lost: then there was no square bracket. */
  lemma NoSquares(ws: seq<Word>, us: seq<Word>, kept: seq<Word>, l: nat, r: nat)
    requires WritesSquares(ws, kept, l, r) && ReadsSquares(us, kept, l, r)
    requires Paired(ws) && Paired(us) && SameLetters(us, ws)
    ensures NoMarks(ws)
  {
    assert Count(ws, "#E#") == 0;
    assert Count(us, "#(#") == Count(us, "#{#") == 0;
    forall w | FilterMark(w) ensures w !in ws {
      assert Count(ws, w) == 0;
    }
  }

  lemma TextHasNoSquares(b: seq<Bit>)
    requires AllDelivered(Spelled(b)) && Paired(Spelled(b)) && Paired(Filter(b)) && SameLetters(Filter(b), Spelled(b))
    ensures NoMarks(Spelled(b))
  {
    var cs := Chunks(b);
    DeliveredChunks(b);
    TextWritesSquares(b);
    ReadsText(cs);
    NoSquares(Spelled(b), Filter(b), Kept(cs), Lefts(cs), Rights(cs));
  }

  /** A text read as words that print as this very text loses nothing. */
  lemma ReadsItself(names: set<(Kind, Word)>, b: seq<Bit>)
    requires AllDelivered(Spelled(b)) && Faded(names, Filter(b), Spelled(b))
    ensures NOT !in names && HAT !in names && NoMarks(Spelled(b)) && Apart(Chunks(b))
  {
    TextHasNoSquares(b);
    FilterKeeps(b);
    AlikeText(Filter(b), Spelled(b));
  }

  lemma ReadsBack(tab: Table, p: seq<Item>)
    requires PrintableTable(tab) && WellFormed(tab, p)
    requires AllDelivered(Print(PhraseTree(tab, p))) && Rereadable(PhraseTree(tab, p))
    ensures var t := PhraseTree(tab, p);
            var o := Parse(tab, Filter(Unparsed(t)));
            o.Parsed? && Erase(o.tree) == Erase(t)
  {
    var t := PhraseTree(tab, p);
    SpelledWritten(t, false);
    FilterKeeps(Unparsed(t));
    PrintIsYield(tab, p);
    PrintedPhraseTree(tab, p);
    AcceptsExactlyPhrases(tab, Print(t), PhraseTree(tab, Printed(p)));
  }

  lemma ComesBack(tab: Table, t: Sexp, u: Sexp)
    requires PrintableTable(tab) && AllDelivered(Print(t)) && Erase(u) == Erase(t)
    requires Parse(tab, Filter(Unparsed(t))).Parsed? && Parse(tab, Filter(Unparsed(t))).tree == u
    ensures Rereadable(t)
  {
    var back := Filter(Unparsed(t));
    RestIsEmpty(tab, back);
    AcceptsExactlyPhrases(tab, back, u);
    var q :| WellFormed(tab, q) && Yield(q) == back && PhraseTree(tab, q) == u;
    SameText(t, u);
    PrintFades(tab, q);
    SpelledWritten(t, false);
    ReadsItself(Names(u), Unparsed(t));
  }

  lemma SameText(t: Sexp, u: Sexp)
    requires Erase(u) == Erase(t)
    ensures Unparsed(u) == Unparsed(t) && Print(u) == Print(t) && Names(u) == Names(t)
  {
    WrittenErased(t, false);
    WrittenErased(u, false);
    PrintErased(t);
    PrintErased(u);
    NamesErased(t);
    NamesErased(u);
  }

  lemma RestIsEmpty(tab: Table, words: seq<Word>)
    requires ValidTable(tab) && Parse(tab, words).Parsed?
    ensures Parse(tab, words).rest == []
  {
    StartReached(tab);
    var q := RunIsSound(tab, START, None, words, []);
  }

  lemma {:induction false} NamesErased(t: Sexp)
    ensures Names(Erase(t)) == Names(t)
  {
    if t.Cons? {
      NamesErased(t.car);
      NamesErased(t.cdr);
    }
  }

  /** Printing an accepted text's tree and parsing the printed text gives the
      tree back, up to the precedences left in its tokens, exactly when the
      tree is rereadable. */
  lemma ReparseExactly(tab: Table, words: seq<Word>, t: Sexp)
    requires PrintableTable(tab) && AllDelivered(words) && Parse(tab, words) == Parsed(t, [])
    ensures var o := Parse(tab, Filter(Unparsed(t)));
            Rereadable(t) <==> o.Parsed? && Erase(o.tree) == Erase(t)
  {
    AcceptsExactlyPhrases(tab, words, t);
    var p :| WellFormed(tab, p) && Yield(p) == words && PhraseTree(tab, p) == t;
    PrintFades(tab, p);
    PrintDelivered(words, Print(t));
    if Rereadable(t) { ReadsBack(tab, p); }
    var o := Parse(tab, Filter(Unparsed(t)));
    if o.Parsed? && Erase(o.tree) == Erase(t) { ComesBack(tab, t, o.tree); }
  }
}
