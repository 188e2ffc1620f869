/** The parser's tree of one bracket level is the precedence tree of its
    operators, and no other tree is. */
module Canonical {
  import opened Options
  import opened SyntaxTree
  import opened Precedence
  import opened Level
  import opened Phrase
  import opened Machine
  import opened Acceptance

  predicate NoSeparators(p: seq<Item>) { forall x :: x in p ==> !x.Separate? }

  /** Operators, and operands as finished trees: an argument or a whole group. */
  function Elements(tab: Table, p: seq<Item>): seq<Elem>
    requires WellFormedSoFar(tab, p) && NoSeparators(p)
  {
    if p == [] then []
    else
      var n := |p| - 1;
      assert p[n] in p && p == p[..n] + [p[n]];
      Elements(tab, p[..n]) + [PieceOf(tab, p[n]).e]
  }

  lemma LastElement(tab: Table, p: seq<Item>)
    requires WellFormedSoFar(tab, p) && NoSeparators(p) && p != []
    ensures var n := |p| - 1;
            && WellFormedSoFar(tab, p[..n]) && NoSeparators(p[..n]) && ItemOk(tab, p[n]) && !p[n].Separate?
            && Elements(tab, p) == Elements(tab, p[..n]) + [PieceOf(tab, p[n]).e]
            && Pieces(tab, p) == Pieces(tab, p[..n]) + [PieceOf(tab, p[n])]
  {
    var n := |p| - 1;
    assert p[n] in p && p == p[..n] + [p[n]];
  }

  lemma {:induction false} OneSegment(tab: Table, p: seq<Item>)
    requires WellFormedSoFar(tab, p) && NoSeparators(p)
    ensures FirstSep(Pieces(tab, p)) == None && Cur(Pieces(tab, p)) == Elements(tab, p)
  {
    if p != [] {
      var n := |p| - 1;
      LastElement(tab, p);
      OneSegment(tab, p[..n]);
      Snoc(Pieces(tab, p[..n]), PieceOf(tab, p[n]));
    }
  }

  /** Where no separator stands, the tree the parser builds from left to right is
      the only one in which every operator binds as its precedence demands. */
  lemma BuildsCanonicalTree(tab: Table, p: seq<Item>) returns (o: OpTree)
    requires ValidTable(tab) && WellFormed(tab, p) && NoSeparators(p)
    ensures Alternates(Elements(tab, p)) && Parse(tab, Yield(p)) == Parsed(Canon(Elements(tab, p)), [])
    ensures Obeys(o) && InOrder(o) == Elements(tab, p) && Layout(o) == Canon(Elements(tab, p))
    ensures forall u :: Obeys(u) && InOrder(u) == Elements(tab, p) ==> u == o
  {
    var e := Elements(tab, p);
    OneSegment(tab, p);
    PhraseSound(tab, p);
    LastIsOperand(tab, p);
    CurIsSegment(Pieces(tab, p));
    assert Padded(e) == e && Alternates(e);
    AcceptsExactlyPhrases(tab, Yield(p), PhraseTree(tab, p));
    o := CanonObeys(e);
    forall u | Obeys(u) && InOrder(u) == e ensures u == o {
      YieldDeterminesTree(u, o);
    }
  }

  lemma LastIsOperand(tab: Table, p: seq<Item>)
    requires ValidTable(tab) && WellFormed(tab, p) && NoSeparators(p)
    ensures |Elements(tab, p)| > 0 && Elements(tab, p)[|Elements(tab, p)| - 1].Operand?
  {
    LastElement(tab, p);
    PieceSound(tab, p[|p| - 1]);
  }
}
