/** One bracket level: operator sequences between separators, and the syntax
    tree of everything read so far at that level, finished or not. */
module Level {
  import opened Options
  import opened SyntaxTree
  import opened Precedence

  datatype Piece = Op(e: Elem) | Sep(tok: Token)

  /** A piece that may stand only after a complete operand. */
  predicate Follows(p: Piece) { p.Sep? || p.e.Inf? }

  /** The last piece completes an operand, so nothing is missing. */
  predicate Complete(ps: seq<Piece>) {
    |ps| > 0 && ps[|ps| - 1].Op? && ps[|ps| - 1].e.Operand?
  }

  /** Operators and separators stand exactly behind operands. */
  predicate Ordered(ps: seq<Piece>) {
    && (|ps| > 0 ==> !Follows(ps[0]))
    && forall i :: 0 < i < |ps| ==> (Follows(ps[i]) <==> ps[i - 1].Op? && ps[i - 1].e.Operand?)
  }

  /** The elements behind the last separator. */
  function Cur(ps: seq<Piece>): seq<Elem> {
    if ps == [] then []
    else
      var n := |ps| - 1;
      if ps[n].Sep? then [] else Cur(ps[..n]) + [ps[n].e]
  }

  /** The operator sequence with an open slot for a missing operand. */
  function Padded(e: seq<Elem>): seq<Elem> {
    if |e| > 0 && e[|e| - 1].Operand? then e else e + [Operand(Nil)]
  }

  function SegTree(e: seq<Elem>): Sexp {
    if Alternates(Padded(e)) then Canon(Padded(e)) else Nil
  }

  /** The trees of the segments closed by a separator. */
  function Done(ps: seq<Piece>): seq<Sexp> {
    if ps == [] then []
    else
      var n := |ps| - 1;
      if ps[n].Sep? then Done(ps[..n]) + [SegTree(Cur(ps[..n]))] else Done(ps[..n])
  }

  /** All separators of a level share the node of the first one. */
  function FirstSep(ps: seq<Piece>): Option<Token> {
    if ps == [] then None
    else
      var n := |ps| - 1;
      if FirstSep(ps[..n]).Some? then FirstSep(ps[..n])
      else if ps[n].Sep? then Some(ps[n].tok) else None
  }

  function Chain(ts: seq<Sexp>): Sexp {
    if ts == [] then Nil else Cons(ts[0], Chain(ts[1..]))
  }

  /** The tree of a level: the precedence tree of its only segment, or one flat
      list of the segments' trees. */
  function LevelTree(ps: seq<Piece>): Sexp {
    var t := SegTree(Cur(ps));
    match FirstSep(ps)
    case None => t
    case Some(s) => Cons(Atom(s), Chain(Done(ps) + [t]))
  }

  // ----- what holds of every piece the parser makes

  predicate OperandOk(t: Sexp) {
    && Rooted(t) && !HasHole(t) && Slots(t) == 0
    && t.car.tok.precedence == MAX_PRECEDENCE
    && !OpenList(t)
  }

  predicate PieceOk(p: Piece) {
    match p
    case Sep(t) => t.kind == SEPARATOR && t.close == None && t.precedence < 3
    case Op(Inf(t)) => t.kind != SEPARATOR && t.close == None && 3 <= t.precedence <= MAX_PRECEDENCE
    case Op(Pre(t)) => t.kind != SEPARATOR && t.close == None
    case Op(Operand(t)) => OperandOk(t)
  }

  predicate Sound(ps: seq<Piece>) {
    Ordered(ps) && forall i :: 0 <= i < |ps| ==> PieceOk(ps[i])
  }

  lemma SoundInit(ps: seq<Piece>)
    requires Sound(ps) && |ps| > 0
    ensures Sound(ps[..|ps| - 1])
    ensures Follows(ps[|ps| - 1]) <==> Complete(ps[..|ps| - 1])
    ensures ps == ps[..|ps| - 1] + [ps[|ps| - 1]]
  {}

  lemma SoundSnoc(ps: seq<Piece>, p: Piece)
    requires Sound(ps) && PieceOk(p) && (Follows(p) <==> Complete(ps))
    ensures Sound(ps + [p]) && (ps + [p])[..|ps|] == ps
  {
    var q := ps + [p];
    assert forall i :: 0 <= i < |ps| ==> q[i] == ps[i];
  }

  lemma Snoc(ps: seq<Piece>, p: Piece)
    ensures var q := ps + [p];
      && Cur(q) == (if p.Sep? then [] else Cur(ps) + [p.e])
      && Done(q) == (if p.Sep? then Done(ps) + [SegTree(Cur(ps))] else Done(ps))
      && FirstSep(q) == (if FirstSep(ps).Some? then FirstSep(ps) else if p.Sep? then Some(p.tok) else None)
  {
    assert (ps + [p])[..|ps|] == ps;
  }

  predicate ElemOk(e: Elem) { PieceOk(Op(e)) }

  /** The current segment alternates once its missing operand is supplied. */
  lemma {:induction false} CurSegment(ps: seq<Piece>)
    requires Sound(ps)
    ensures Alternates(Padded(Cur(ps)))
    ensures forall x :: x in Cur(ps) ==> ElemOk(x)
    ensures Complete(ps) <==> |Cur(ps)| > 0 && Cur(ps)[|Cur(ps)| - 1].Operand?
    ensures Complete(ps) ==> Padded(Cur(ps)) == Cur(ps)
    ensures !Complete(ps) ==> Padded(Cur(ps)) == Cur(ps) + [Operand(Nil)]
  {
    if ps != [] {
      var n := |ps| - 1;
      SoundInit(ps);
      CurSegment(ps[..n]);
      if ps[n].Op? {
        var c, d := Padded(Cur(ps[..n])), Padded(Cur(ps));
        assert ElemOk(ps[n].e);
        assert forall i :: 0 <= i < |Cur(ps[..n])| ==> d[i] == c[i];
      }
    }
  }

  // ----- the shape of a segment's tree

  /** All elements are sound, but the last operand may still be missing. */
  predicate Segment(e: seq<Elem>) {
    Alternates(e) && forall i :: 0 <= i < |e| ==> ElemOk(e[i]) || (i == |e| - 1 && e[i] == Operand(Nil))
  }

  lemma {:induction false} SegmentShape(e: seq<Elem>)
    requires Segment(e)
    ensures !OpenList(Canon(e))
    ensures HasHole(Canon(e)) <==> e[|e| - 1] == Operand(Nil)
    ensures Slots(Canon(e)) == if |e| > 1 && e[|e| - 1] == Operand(Nil) then 1 else 0
    ensures Canon(e).Nil? <==> e == [Operand(Nil)]
    decreases |e|
  {
    CanonRooted(e);
    if |e| == 1 {
    } else if LoosePrefix(e) {
      CanonLoose(e);
      assert Segment(e[1..]);
      SegmentShape(e[1..]);
      assert ElemOk(e[0]);
      NodeSlots(e[0].tok, Nil, Canon(e[1..]));
    } else {
      HasInfUnlessLoose(e);
      var k := Split(e);
      CanonAt(e, k);
      SegmentShape(e[..k]);
      SegmentShape(e[k + 1..]);
      assert ElemOk(e[k]);
      NodeSlots(e[k].tok, Canon(e[..k]), Canon(e[k + 1..]));
    }
  }

  lemma NodeSlots(t: Token, l: Sexp, r: Sexp)
    ensures Slots(Mon(t, r)) == if r.Nil? then 1 else Slots(r)
    ensures Slots(Bin(t, l, r)) == (if l.Nil? then 1 else Slots(l)) + (if r.Nil? then 1 else Slots(r))
  {
    assert Slots(Cons(r, Nil)) == if r.Nil? then 1 else Slots(r);
  }

  // ----- the shape of a flat list

  lemma {:induction false} ChainLast(a: Sexp, ts: seq<Sexp>, t: Sexp, v: Sexp)
    ensures Last(Cons(a, Chain(ts + [t]))) == t
    ensures SetLast(Cons(a, Chain(ts + [t])), v) == Cons(a, Chain(ts + [v]))
    ensures Fill(Cons(a, Chain(ts + [t])), v) == Cons(a, Chain(ts + [Fill(t, v)]))
    ensures HasHole(Cons(a, Chain(ts + [t]))) == HasHole(t)
    ensures AppendSlot(Cons(a, Chain(ts + [t]))) == Cons(a, Chain(ts + [t, Nil]))
    decreases |ts|
  {
    if ts == [] {
      assert Chain([t]) == Cons(t, Nil) && Chain([v]) == Cons(v, Nil) && Chain([Fill(t, v)]) == Cons(Fill(t, v), Nil);
      assert ([t, Nil])[1..] == [Nil] && Chain([Nil]) == Cons(Nil, Nil);
      assert Chain([t, Nil]) == Cons(t, Cons(Nil, Nil));
      assert [] + [t] == [t] && [] + [v] == [v] && [] + [Fill(t, v)] == [Fill(t, v)] && [] + [t, Nil] == [t, Nil];
    } else {
      ChainLast(ts[0], ts[1..], t, v);
      assert (ts + [t])[1..] == ts[1..] + [t] && (ts + [v])[1..] == ts[1..] + [v];
      assert (ts + [Fill(t, v)])[1..] == ts[1..] + [Fill(t, v)];
      assert (ts + [t, Nil])[1..] == ts[1..] + [t, Nil];
    }
  }

  lemma {:induction false} ChainSlots(ts: seq<Sexp>, t: Sexp)
    requires forall x :: x in ts ==> x.Cons? && Slots(x) == 0
    ensures Slots(Chain(ts + [t])) == if t.Nil? then 1 else Slots(t)
    decreases |ts|
  {
    if ts == [] {
      assert ts + [t] == [t] && [t][1..] == [] && Chain([t]) == Cons(t, Nil);
    } else {
      ChainSlots(ts[1..], t);
      assert ts[0] in ts && (ts + [t])[1..] == ts[1..] + [t];
      assert Chain(ts + [t]) == Cons(ts[0], Chain(ts[1..] + [t]));
    }
  }

  // ----- what each piece does to the tree of the level

  /** The current segment satisfies `Segment` once padded. */
  lemma CurIsSegment(ps: seq<Piece>)
    requires Sound(ps)
    ensures Segment(Padded(Cur(ps))) && SegTree(Cur(ps)) == Canon(Padded(Cur(ps)))
    ensures Complete(ps) <==> Padded(Cur(ps))[|Padded(Cur(ps))| - 1] != Operand(Nil)
  {
    CurSegment(ps);
    var c, e := Cur(ps), Padded(Cur(ps));
    forall i | 0 <= i < |e| ensures ElemOk(e[i]) || (i == |e| - 1 && e[i] == Operand(Nil)) {
      if i < |c| { assert e[i] == c[i] && c[i] in c; }
    }
    if Complete(ps) { assert c[|c| - 1] in c; }
  }

  lemma {:induction false} DoneShape(ps: seq<Piece>)
    requires Sound(ps)
    ensures forall x :: x in Done(ps) ==> x.Cons? && Slots(x) == 0
    ensures FirstSep(ps).Some? ==> PieceOk(Sep(FirstSep(ps).value))
    ensures FirstSep(ps).None? ==> |Cur(ps)| == |ps|
    ensures FirstSep(ps).None? <==> Done(ps) == []
  {
    if ps != [] {
      SoundInit(ps);
      var n := |ps| - 1;
      DoneShape(ps[..n]);
      if ps[n].Sep? {
        CurIsSegment(ps[..n]);
        CurSegment(ps[..n]);
        SegmentShape(Padded(Cur(ps[..n])));
        assert PieceOk(ps[n]);
        SegmentRooted(Padded(Cur(ps[..n])));
      }
    }
  }

  lemma SegmentRooted(e: seq<Elem>)
    requires Segment(e) && e[|e| - 1] != Operand(Nil)
    ensures Rooted(Canon(e))
  {
    CanonRooted(e);
    assert ElemOk(e[|e| - 1]);
  }

  /** The tree of a level has an open slot exactly while an operand is missing;
      the slot is then the only NIL car and the last position of the tree. */
  lemma LevelSlots(ps: seq<Piece>)
    requires Sound(ps)
    ensures HasHole(LevelTree(ps)) <==> !Complete(ps)
    ensures LevelTree(ps).Nil? <==> ps == []
    ensures ps != [] ==> Rooted(LevelTree(ps)) && Slots(LevelTree(ps)) == if Complete(ps) then 0 else 1
    ensures OpenList(LevelTree(ps)) <==> FirstSep(ps).Some?
  {
    CurIsSegment(ps);
    DoneShape(ps);
    var e := Padded(Cur(ps));
    SegmentShape(e);
    CanonRooted(e);
    if Complete(ps) { SegmentRooted(e); }
    if FirstSep(ps).Some? {
      ChainLast(Atom(FirstSep(ps).value), Done(ps), Canon(e), Nil);
      ChainSlots(Done(ps), Canon(e));
    }
  }

  lemma LevelFill(ps: seq<Piece>, v: Sexp)
    requires Sound(ps) && !Complete(ps)
    ensures Fill(LevelTree(ps), v) == LevelTree(ps + [Op(Operand(v))])
  {
    CurSegment(ps);
    var e := Padded(Cur(ps));
    var q := ps + [Op(Operand(v))];
    Snoc(ps, Op(Operand(v)));
    CanonFill(e, v);
    assert ReplaceLast(e, v) == Cur(q);
    if FirstSep(ps).Some? {
      ChainLast(Atom(FirstSep(ps).value), Done(ps), Canon(e), v);
    }
  }

  lemma LevelPrefix(ps: seq<Piece>, p: Token)
    requires Sound(ps) && !Complete(ps)
    ensures Fill(LevelTree(ps), Mon(p, Nil)) == LevelTree(ps + [Op(Pre(p))])
  {
    LevelFill(ps, Mon(p, Nil));
    CurSegment(ps);
    var c, e := Cur(ps), Padded(Cur(ps));
    Snoc(ps, Op(Operand(Mon(p, Nil))));
    Snoc(ps, Op(Pre(p)));
    CanonFill(e, Mon(p, Nil));
    assert ReplaceLast(e, Mon(p, Nil)) == c + [Operand(Mon(p, Nil))];
    CanonPrefix(c, p, Nil);
    assert Padded(c + [Pre(p)]) == c + [Pre(p), Operand(Nil)];
  }

  lemma LevelInfix(ps: seq<Piece>, op: Token)
    requires Sound(ps) && Complete(ps) && PieceOk(Op(Inf(op)))
    ensures BinIns(LevelTree(ps), op) == LevelTree(ps + [Op(Inf(op))])
  {
    CurSegment(ps);
    var c := Cur(ps);
    Snoc(ps, Op(Inf(op)));
    assert Tight(c, op) by {
      forall i | 0 <= i < |c| && c[i].Operand? ensures Rooted(c[i].tree) && c[i].tree.car.tok.precedence >= op.precedence {
        assert c[i] in c && ElemOk(c[i]);
      }
    }
    CanonBinary(c, op);
    assert Padded(c + [Inf(op)]) == c + [Inf(op), Operand(Nil)];
    if FirstSep(ps).Some? {
      DoneShape(ps);
      var s := Atom(FirstSep(ps).value);
      ChainLast(s, Done(ps), Canon(c), BinIns(Canon(c), op));
      assert BinIns(LevelTree(ps), op) == SetLast(LevelTree(ps), BinIns(Canon(c), op));
    }
  }

  lemma LevelSep(ps: seq<Piece>, sep: Token)
    requires Sound(ps) && Complete(ps) && PieceOk(Sep(sep))
    ensures SepIns(LevelTree(ps), sep) == LevelTree(ps + [Sep(sep)])
  {
    LevelSlots(ps);
    DoneShape(ps);
    Snoc(ps, Sep(sep));
    var t := SegTree(Cur(ps));
    if FirstSep(ps).Some? {
      ChainLast(Atom(FirstSep(ps).value), Done(ps), t, Nil);
      assert Done(ps) + [t] + [Nil] == Done(ps) + [t, Nil];
    } else {
      assert Done(ps) + [t] + [Nil] == [t, Nil];
      assert [t, Nil][1..] == [Nil] && Chain([Nil]) == Cons(Nil, Nil);
    }
    assert SegTree([]) == Nil by { assert Padded([]) == [Operand(Nil)]; }
  }

  /** Only an operand standing alone gives a level a root closed by a bracket. */
  lemma RootUnclosed(ps: seq<Piece>)
    requires Sound(ps) && |ps| > 1
    ensures Rooted(LevelTree(ps)) && LevelTree(ps).car.tok.close == None
  {
    LevelSlots(ps);
    DoneShape(ps);
    CurIsSegment(ps);
    if FirstSep(ps).None? {
      var e := Padded(Cur(ps));
      CanonRoot(e);
      var x :| x in e && !x.Operand? && Canon(e).car.tok == x.tok;
      assert ElemOk(x);
    }
  }

  lemma LoneOperand(t: Sexp)
    ensures LevelTree([Op(Operand(t))]) == t
  {
    var ps := [Op(Operand(t))];
    assert ps[..0] == [] && Cur([]) == [] && FirstSep([]) == None;
    assert Cur(ps) == [Operand(t)] && FirstSep(ps) == None;
    assert Padded(Cur(ps)) == Cur(ps);
  }
}
