/** The shape of trees under construction that keeps the parser's walks over
    cells safe: descents stop before leaves, chains have no gaps. */
module SaneTree {
  import opened Options
  import opened SyntaxTree
  import opened Phrase
  import opened Machine

  /** Every leaf binds most tightly, no separator is a leaf, and only the last branch of a chain may
      still be open. */
  predicate Sane(s: Sexp) {
    match s
    case Nil => true
    case Atom(_) => false
    case Cons(a, d) =>
      && a.Atom? && Branches(d)
      && (d.Nil? ==> a.tok.precedence >= MAX_PRECEDENCE && a.tok.kind != SEPARATOR)
  }

  predicate Branches(d: Sexp) {
    match d
    case Nil => true
    case Atom(_) => false
    case Cons(a, e) => Sane(a) && Branches(e) && (e.Cons? ==> !a.Nil?)
  }

  lemma {:induction false} SaneLast(d: Sexp)
    requires d.Cons? && Branches(d)
    ensures Sane(Last(d))
  {
    if d.cdr.Cons? { SaneLast(d.cdr); }
  }

  /** Below a root looser than an operator there is a branch to go down to. */
  lemma SaneDown(s: Sexp, op: Token)
    requires s.Cons? && Sane(s) && s.car.tok.precedence < op.precedence <= MAX_PRECEDENCE
    ensures s.cdr.Cons? && Sane(Last(s)) && Last(s) < s
  {
    SaneLast(s.cdr);
  }

  lemma {:induction false} SetLastSane(d: Sexp, v: Sexp)
    requires d.Cons? && Sane(v)
    ensures Branches(d) ==> Branches(SetLast(d, v))
    ensures Sane(d) && d.cdr.Cons? ==> Sane(SetLast(d, v))
    decreases d
  {
    if d.cdr.Cons? { SetLastSane(d.cdr, v); }
  }

  lemma {:induction false} FillSane(s: Sexp, v: Sexp)
    requires Sane(s) && Sane(v)
    ensures Sane(Fill(s, v))
    ensures s.Cons? ==> Rooted(Fill(s, v)) && Fill(s, v).car == s.car && (Fill(s, v).cdr.Cons? <==> s.cdr.Cons?)
    decreases s
  {
    if s.Cons? && s.cdr.Cons? { FillBranches(s.cdr, v); }
  }

  lemma {:induction false} FillBranches(d: Sexp, v: Sexp)
    requires d.Cons? && Branches(d) && Sane(v)
    ensures Branches(Fill(d, v)) && Fill(d, v).Cons?
    decreases d
  {
    if d.cdr.Cons? {
      FillBranches(d.cdr, v);
    } else {
      FillSane(d.car, v);
    }
  }

  lemma {:induction false} BinInsSane(s: Sexp, op: Token)
    requires Sane(s) && op.precedence <= MAX_PRECEDENCE && s.Cons? && !HasHole(s)
    ensures Sane(BinIns(s, op)) && BinIns(s, op).Cons? && HasHole(BinIns(s, op))
    decreases s
  {
    if s.car.tok.precedence >= op.precedence {
      WrapSane(s, op);
    } else {
      SaneDown(s, op);
      HoleLast(s);
      BinInsSane(Last(s), op);
      SetLastSane(s, BinIns(Last(s), op));
      HoleLast(SetLast(s, BinIns(Last(s), op)));
    }
  }

  lemma SupplySane(s: Sexp, arg: Option<Word>)
    requires Sane(s)
    ensures Sane(Supply(s, arg)) && (s.Cons? ==> Rooted(Supply(s, arg)) && Supply(s, arg).car == s.car)
    ensures (HasHole(s) ==> arg.Some?) ==> !HasHole(Supply(s, arg)) && Supply(s, arg).Cons?
  {
    if arg.Some? {
      var leaf := Leaf(ArgumentToken(arg.value));
      assert !HasHole(leaf) && Sane(leaf);
      FillSane(s, leaf);
      if HasHole(s) { FillSlots(s, leaf); } else { FillFull(s, leaf); }
    }
  }

  lemma {:induction false} FillFull(s: Sexp, v: Sexp)
    requires !HasHole(s)
    ensures Fill(s, v) == s
  {
    if s.Cons? {
      if s.cdr.Cons? { FillFull(s.cdr, v); } else { FillFull(s.car, v); }
    }
  }

  /** Supplying the pending argument and then inserting is what the descent
      does branch by branch. */
  lemma SupplyThenInsert(s: Sexp, arg: Option<Word>, op: Token)
    requires s.Cons? && Sane(s) && s.car.tok.precedence < op.precedence <= MAX_PRECEDENCE
    requires HasHole(s) <==> arg.Some?
    ensures s.cdr.Cons? && (Last(s).Nil? ==> arg.Some?) && HasHole(Last(s)) == HasHole(s)
    ensures !Last(s).Nil? ==>
      BinIns(Supply(s, arg), op) == Fill(SetLast(s, Nil), BinIns(Supply(Last(s), arg), op))
    ensures Last(s).Nil? ==>
      BinIns(Supply(s, arg), op) == Fill(s, Bin(op, Leaf(ArgumentToken(arg.value)), Nil))
  {
    SaneDown(s, op);
    HoleLast(s);
    var x := BinIns(Supply(Last(s), arg), op);
    FillLast(SetLast(s, Nil), x);
    SetLastTwice(s, Nil, x);
    if arg.Some? {
      var leaf := Leaf(ArgumentToken(arg.value));
      FillLast(s, leaf);
      FillSane(s, leaf);
      SetLastTwice(s, Fill(Last(s), leaf), x);
      FillLast(s, Bin(op, leaf, Nil));
    }
  }

  lemma WrapSane(s: Sexp, op: Token)
    requires Sane(s)
    ensures !s.Nil? ==> Sane(Bin(op, s, Nil))
    ensures HasHole(Bin(op, s, Nil))
    ensures Sane(Mon(op, s)) && HasHole(Mon(op, s)) == HasHole(s)
  {
    NodeSlot(op, s, Nil, Nil);
    NodeSlot(op, Nil, s, Nil);
    assert Branches(Cons(Nil, Nil)) && Branches(Cons(s, Nil));
    assert !s.Nil? ==> Branches(Cons(s, Cons(Nil, Nil)));
  }

  lemma {:induction false} AppendSane(s: Sexp)
    requires s.Cons? && (Sane(s) || Branches(s)) && !Last(s).Nil?
    ensures Sane(s) && s.cdr.Cons? ==> Sane(AppendSlot(s))
    ensures Branches(s) ==> Branches(AppendSlot(s))
    ensures HasHole(AppendSlot(s))
    decreases s
  {
    if s.cdr.Cons? {
      AppendSane(s.cdr);
    } else {
      assert Branches(Cons(Nil, Nil)) && HasHole(Cons(Nil, Nil));
    }
  }

  lemma SetRootSane(s: Sexp, t: Token)
    requires Sane(s) && Rooted(s) && (s.cdr.Nil? ==> t.precedence >= MAX_PRECEDENCE && t.kind != SEPARATOR)
    ensures Sane(SetRoot(s, t)) && HasHole(SetRoot(s, t)) == HasHole(s)
  {}

  lemma HeadedSane(s: Sexp, head: Option<Word>)
    requires Sane(s) && Rooted(s) && !HasHole(s)
    ensures Sane(Headed(s, head)) && !HasHole(Headed(s, head))
  {
    if head.None? {
      SetRootSane(s, s.car.tok.(precedence := MAX_PRECEDENCE));
    } else if s.car.tok.kind == SEPARATOR {
      SetRootSane(s, FunctionToken(head.value));
    } else {
      WrapSane(s, FunctionToken(head.value));
    }
  }
}
