/** The precedence tree of one operator sequence, defined without the parser:
    prefix and binary operators around operands that are already trees. */
module Precedence {
  import opened SyntaxTree

  datatype Elem = Pre(tok: Token) | Inf(tok: Token) | Operand(tree: Sexp)

  /** Operators and operands alternate: an operand or prefix stands exactly
      where an operand is due, and the sequence ends in an operand. */
  predicate Alternates(e: seq<Elem>) {
    && |e| > 0
    && e[|e| - 1].Operand?
    && !e[0].Inf?
    && forall i :: 0 <= i < |e| - 1 ==> (e[i].Operand? <==> e[i + 1].Inf?)
  }

  predicate HasInf(e: seq<Elem>) { exists i :: 0 <= i < |e| && e[i].Inf? }

  /** `k` is the rightmost binary operator of least precedence in `e`. */
  predicate IsSplit(e: seq<Elem>, k: int) {
    && 0 <= k < |e| && e[k].Inf?
    && (forall j :: 0 <= j < k && e[j].Inf? ==> e[k].tok.precedence <= e[j].tok.precedence)
    && (forall j :: k < j < |e| && e[j].Inf? ==> e[k].tok.precedence < e[j].tok.precedence)
  }

  /** `e` starts with a prefix operator looser than every binary one. */
  predicate LoosePrefix(e: seq<Elem>) {
    && |e| > 0 && e[0].Pre?
    && forall j :: 0 <= j < |e| && e[j].Inf? ==> e[0].tok.precedence < e[j].tok.precedence
  }

  function Split(e: seq<Elem>): (k: nat)
    requires HasInf(e)
    ensures IsSplit(e, k)
  {
    var n := |e| - 1;
    var init := e[..n];
    if HasInf(init) then
      var k := Split(init);
      assert forall j :: 0 <= j < n ==> init[j] == e[j];
      if e[n].Inf? && e[n].tok.precedence <= e[k].tok.precedence then n else k
    else
      assert forall j :: 0 <= j < n ==> init[j] == e[j];
      n
  }

  lemma SplitIsUnique(e: seq<Elem>, k: int)
    requires IsSplit(e, k)
    ensures HasInf(e) && Split(e) == k
  {}

  /** At the root stands the rightmost binary operator of least precedence,
      unless the sequence starts with a prefix looser than all of them. */
  function Canon(e: seq<Elem>): (t: Sexp)
    requires Alternates(e)
    decreases |e|
  {
    if |e| == 1 then e[0].tree
    else if LoosePrefix(e) then Mon(e[0].tok, Canon(e[1..]))
    else
      HasInfUnlessLoose(e);
      var k := Split(e);
      SlicesAlternate(e, k);
      Bin(e[k].tok, Canon(e[..k]), Canon(e[k + 1..]))
  }

  lemma HasInfUnlessLoose(e: seq<Elem>)
    requires Alternates(e) && |e| > 1 && !LoosePrefix(e)
    ensures HasInf(e)
  {
    if e[0].Operand? {
      assert e[1].Inf?;
    }
  }

  lemma SlicesAlternate(e: seq<Elem>, k: int)
    requires Alternates(e) && 0 <= k < |e| && e[k].Inf?
    ensures Alternates(e[..k]) && Alternates(e[k + 1..])
  {
    assert e[k - 1].Operand?;
    var l, r := e[..k], e[k + 1..];
    assert forall i :: 0 <= i < |l| ==> l[i] == e[i];
    assert forall i :: 0 <= i < |r| ==> r[i] == e[k + 1 + i];
    assert !e[k + 1].Inf?;
  }

  /** `Canon` at a sequence whose split point is known. */
  lemma CanonAt(e: seq<Elem>, k: int)
    requires Alternates(e) && !LoosePrefix(e) && IsSplit(e, k)
    ensures Alternates(e[..k]) && Alternates(e[k + 1..])
    ensures Canon(e) == Bin(e[k].tok, Canon(e[..k]), Canon(e[k + 1..]))
  {
    SplitIsUnique(e, k);
    SlicesAlternate(e, k);
  }

  lemma CanonLoose(e: seq<Elem>)
    requires Alternates(e) && LoosePrefix(e)
    ensures |e| > 1 && Alternates(e[1..]) && Canon(e) == Mon(e[0].tok, Canon(e[1..]))
  {}

  // ----- the canonical tree is the only one with its in-order yield

  /** Operator trees over operands, before they are laid out in cells. */
  datatype OpTree = Hold(tree: Sexp) | Un(tok: Token, sub: OpTree) | Bi(tok: Token, left: OpTree, right: OpTree)

  function InOrder(t: OpTree): seq<Elem> {
    match t
    case Hold(x) => [Operand(x)]
    case Un(p, s) => [Pre(p)] + InOrder(s)
    case Bi(q, l, r) => InOrder(l) + [Inf(q)] + InOrder(r)
  }

  function Layout(t: OpTree): Sexp {
    match t
    case Hold(x) => x
    case Un(p, s) => Mon(p, Layout(s))
    case Bi(q, l, r) => Bin(q, Layout(l), Layout(r))
  }

  /** Every operator binds as its precedence demands: nothing in the scope of a
      prefix is looser than it, equal binary operators associate to the left. */
  predicate Obeys(t: OpTree) {
    match t
    case Hold(_) => true
    case Un(p, s) =>
      && Obeys(s)
      && forall x :: x in InOrder(s) && x.Inf? ==> p.precedence < x.tok.precedence
    case Bi(q, l, r) =>
      && Obeys(l) && Obeys(r)
      && (forall x :: x in InOrder(l) && x.Inf? ==> q.precedence <= x.tok.precedence)
      && (forall x :: x in InOrder(r) && x.Inf? ==> q.precedence < x.tok.precedence)
      && (|InOrder(l)| > 0 && InOrder(l)[0].Pre? ==> q.precedence <= InOrder(l)[0].tok.precedence)
  }

  lemma {:induction false} InOrderAlternates(t: OpTree)
    ensures Alternates(InOrder(t))
  {
    match t
    case Hold(_) =>
    case Un(_, s) => InOrderAlternates(s);
    case Bi(_, l, r) =>
      InOrderAlternates(l);
      InOrderAlternates(r);
  }

  lemma PrefixIsLoose(t: OpTree)
    requires t.Un? && Obeys(t)
    ensures LoosePrefix(InOrder(t)) && InOrder(t)[1..] == InOrder(t.sub)
  {
    var e := InOrder(t);
    assert forall j :: 1 <= j < |e| ==> e[j] == InOrder(t.sub)[j - 1];
  }

  lemma {:induction false} ObeysIsCanon(t: OpTree)
    requires Obeys(t)
    ensures Alternates(InOrder(t)) && Layout(t) == Canon(InOrder(t))
  {
    InOrderAlternates(t);
    var e := InOrder(t);
    match t
    case Hold(_) =>
    case Un(_, s) =>
      ObeysIsCanon(s);
      PrefixIsLoose(t);
      CanonLoose(e);
    case Bi(q, l, r) =>
      ObeysIsCanon(l);
      ObeysIsCanon(r);
      RootIsSplit(t);
      CanonAt(e, |InOrder(l)|);
  }

  /** Two precedence-respecting trees with the same yield are the same tree. */
  lemma {:induction false} YieldDeterminesTree(t: OpTree, u: OpTree)
    requires Obeys(t) && Obeys(u) && InOrder(t) == InOrder(u)
    ensures t == u
    decreases t
  {
    var e := InOrder(t);
    InOrderAlternates(t);
    if t.Bi? {
      RootIsSplit(t);
      if u.Bi? {
        RootIsSplit(u);
        SplitIsUnique(e, |InOrder(t.left)|);
        SplitIsUnique(e, |InOrder(u.left)|);
        YieldDeterminesTree(t.left, u.left);
        YieldDeterminesTree(t.right, u.right);
      } else {
        NotLooseAtSplit(t, u);
      }
    } else if u.Bi? {
      RootIsSplit(u);
      NotLooseAtSplit(u, t);
    } else if t.Un? && u.Un? {
      assert InOrder(t.sub) == e[1..] == InOrder(u.sub);
      YieldDeterminesTree(t.sub, u.sub);
    } else {
      assert e[0] == InOrder(u)[0];
    }
  }

  lemma RootIsSplit(t: OpTree)
    requires t.Bi? && Obeys(t)
    ensures IsSplit(InOrder(t), |InOrder(t.left)|) && !LoosePrefix(InOrder(t))
    ensures InOrder(t)[..|InOrder(t.left)|] == InOrder(t.left)
    ensures InOrder(t)[|InOrder(t.left)|] == Inf(t.tok)
    ensures InOrder(t)[|InOrder(t.left)| + 1..] == InOrder(t.right)
  {
    var l, r := InOrder(t.left), InOrder(t.right);
    InOrderAlternates(t.left);
    assert l[0] in l;
    SplitBetween(l, t.tok, r);
  }

  /** An operator between two sequences that it does not bind tighter than. */
  lemma SplitBetween(l: seq<Elem>, q: Token, r: seq<Elem>)
    requires |l| > 0 && !l[0].Inf? && (l[0].Pre? ==> q.precedence <= l[0].tok.precedence)
    requires forall x :: x in l && x.Inf? ==> q.precedence <= x.tok.precedence
    requires forall x :: x in r && x.Inf? ==> q.precedence < x.tok.precedence
    ensures var e, k := l + [Inf(q)] + r, |l|;
            IsSplit(e, k) && !LoosePrefix(e) && e[..k] == l && e[k] == Inf(q) && e[k + 1..] == r
  {
    var e, k := l + [Inf(q)] + r, |l|;
    assert e[k] == Inf(q) && e[0] == l[0];
    forall j | 0 <= j < k ensures e[j] == l[j] && e[j] in l {}
    forall j | k < j < |e| ensures e[j] == r[j - k - 1] && e[j] in r {}
  }

  lemma NotLooseAtSplit(t: OpTree, u: OpTree)
    requires t.Bi? && Obeys(t) && !u.Bi? && Obeys(u)
    ensures InOrder(t) != InOrder(u)
  {
    RootIsSplit(t);
    InOrderAlternates(t.left);
    if u.Un? { PrefixIsLoose(u); }
  }

  lemma SplitSides(e: seq<Elem>, k: int)
    requires Alternates(e) && IsSplit(e, k) && !LoosePrefix(e)
    ensures forall x :: x in e[..k] && x.Inf? ==> e[k].tok.precedence <= x.tok.precedence
    ensures forall x :: x in e[k + 1..] && x.Inf? ==> e[k].tok.precedence < x.tok.precedence
    ensures k > 0 && (e[0].Pre? ==> e[k].tok.precedence <= e[0].tok.precedence)
  {}

  lemma BiObeys(e: seq<Elem>, k: int, l: OpTree, r: OpTree)
    requires Alternates(e) && IsSplit(e, k) && !LoosePrefix(e)
    requires Obeys(l) && InOrder(l) == e[..k] && Obeys(r) && InOrder(r) == e[k + 1..]
    ensures Obeys(Bi(e[k].tok, l, r)) && InOrder(Bi(e[k].tok, l, r)) == e
  {
    SplitSides(e, k);
    assert e == e[..k] + [e[k]] + e[k + 1..];
  }

  /** The tree exists: it is the one `Canon` lays out. */
  lemma {:induction false} CanonObeys(e: seq<Elem>) returns (t: OpTree)
    requires Alternates(e)
    ensures Obeys(t) && InOrder(t) == e && Layout(t) == Canon(e)
    decreases |e|
  {
    if |e| == 1 {
      t := Hold(e[0].tree);
    } else if LoosePrefix(e) {
      CanonLoose(e);
      var s := CanonObeys(e[1..]);
      t := Un(e[0].tok, s);
    } else {
      HasInfUnlessLoose(e);
      var k := Split(e);
      SlicesAlternate(e, k);
      var l := CanonObeys(e[..k]);
      var r := CanonObeys(e[k + 1..]);
      t := Bi(e[k].tok, l, r);
      CanonAt(e, k);
      BiObeys(e, k, l, r);
    }
  }

  // ----- one more word at the right end of the sequence

  lemma {:induction false} CanonRooted(e: seq<Elem>)
    requires Alternates(e)
    ensures |e| > 1 ==> Rooted(Canon(e)) && Canon(e).cdr.Cons?
    ensures HasHole(Canon(e)) == HasHole(e[|e| - 1].tree)
    decreases |e|
  {
    if |e| == 1 {
    } else if LoosePrefix(e) {
      CanonRooted(e[1..]);
      NodeSlot(e[0].tok, Nil, Canon(e[1..]), Nil);
    } else {
      HasInfUnlessLoose(e);
      var k := Split(e);
      CanonAt(e, k);
      CanonRooted(e[k + 1..]);
      NodeSlot(e[k].tok, Canon(e[..k]), Canon(e[k + 1..]), Nil);
      assert e[k + 1..][|e| - k - 2] == e[|e| - 1];
    }
  }

  lemma CanonRoot(e: seq<Elem>)
    requires Alternates(e) && |e| > 1
    ensures Rooted(Canon(e)) && exists x :: x in e && !x.Operand? && Canon(e).car.tok == x.tok
  {
    if LoosePrefix(e) {
      CanonLoose(e);
      assert e[0] in e;
    } else {
      HasInfUnlessLoose(e);
      CanonAt(e, Split(e));
      assert e[Split(e)] in e;
    }
  }

  /** Filling the slot of an unfinished sequence supplies its last operand. */
  lemma {:induction false} CanonFill(e: seq<Elem>, v: Sexp)
    requires Alternates(e) && e[|e| - 1].tree == Nil
    ensures Alternates(ReplaceLast(e, v))
    ensures Fill(Canon(e), v) == Canon(ReplaceLast(e, v))
    decreases |e|
  {
    if |e| == 1 {
      SameOperators(e, v, 0);
    } else if LoosePrefix(e) {
      FillBehindPrefix(e, v);
      CanonFill(e[1..], v);
      FilledNode(Canon(e), e[0].tok, Nil, Canon(e[1..]), v);
    } else {
      HasInfUnlessLoose(e);
      var k := Split(e);
      FillAtSplit(e, v, k);
      CanonFill(e[k + 1..], v);
      FilledNode(Canon(e), e[k].tok, Canon(e[..k]), Canon(e[k + 1..]), v);
    }
  }

  lemma FilledNode(t: Sexp, tok: Token, left: Sexp, sub: Sexp, v: Sexp)
    ensures t == Mon(tok, sub) ==> Fill(t, v) == Mon(tok, Fill(sub, v))
    ensures t == Bin(tok, left, sub) ==> Fill(t, v) == Bin(tok, left, Fill(sub, v))
  {
    NodeSlot(tok, left, sub, v);
  }

  lemma FillBehindPrefix(e: seq<Elem>, v: Sexp)
    requires Alternates(e) && |e| > 1 && LoosePrefix(e)
    ensures Alternates(e[1..]) && e[1..][|e| - 2] == e[|e| - 1] && Alternates(ReplaceLast(e, v))
    ensures Alternates(ReplaceLast(e[1..], v))
    ensures Canon(e) == Mon(e[0].tok, Canon(e[1..]))
    ensures Canon(ReplaceLast(e, v)) == Mon(e[0].tok, Canon(ReplaceLast(e[1..], v)))
  {
    SameOperators(e, v, 0);
    assert ReplaceLast(e[1..], v) == ReplaceLast(e, v)[1..];
    CanonLoose(e);
    CanonLoose(ReplaceLast(e, v));
  }

  lemma FillAtSplit(e: seq<Elem>, v: Sexp, k: int)
    requires Alternates(e) && !LoosePrefix(e) && IsSplit(e, k)
    ensures Alternates(e[..k]) && Alternates(e[k + 1..]) && Alternates(ReplaceLast(e, v))
    ensures |e[k + 1..]| > 0 && Alternates(ReplaceLast(e[k + 1..], v))
    ensures Canon(e) == Bin(e[k].tok, Canon(e[..k]), Canon(e[k + 1..]))
    ensures Canon(ReplaceLast(e, v)) == Bin(e[k].tok, Canon(e[..k]), Canon(ReplaceLast(e[k + 1..], v)))
    ensures e[k + 1..][|e| - k - 2] == e[|e| - 1]
  {
    var f := ReplaceLast(e, v);
    CanonAt(e, k);
    SameOperators(e, v, k);
    SameSides(e, v, k);
    CanonAt(f, k);
  }

  lemma SameSides(e: seq<Elem>, v: Sexp, k: int)
    requires 0 <= k < |e| - 1
    ensures var f := ReplaceLast(e, v);
            |f| == |e| && ReplaceLast(e[k + 1..], v) == f[k + 1..] && f[..k] == e[..k] && f[k] == e[k]
  {}

  function ReplaceLast(e: seq<Elem>, v: Sexp): seq<Elem>
    requires |e| > 0
  {
    e[..|e| - 1] + [Operand(v)]
  }

  lemma SameOperators(e: seq<Elem>, v: Sexp, k: int)
    requires Alternates(e)
    ensures Alternates(ReplaceLast(e, v))
    ensures LoosePrefix(ReplaceLast(e, v)) == LoosePrefix(e)
    ensures IsSplit(e, k) ==> IsSplit(ReplaceLast(e, v), k)
  {
    var f := ReplaceLast(e, v);
    assert f[|e| - 1] == Operand(v) && forall i :: 0 <= i < |e| - 1 ==> f[i] == e[i];
    assert LoosePrefix(e) ==> LoosePrefix(f);
    if LoosePrefix(f) {
      forall j | 0 <= j < |e| && e[j].Inf? ensures e[0].tok.precedence < e[j].tok.precedence {
        assert f[j].Inf?;
      }
    }
  }

  /** A prefix node over the last operand is a prefix before that operand. */
  lemma {:induction false} CanonPrefix(e: seq<Elem>, p: Token, v: Sexp)
    requires Alternates(e + [Operand(Mon(p, v))])
    ensures Alternates(e + [Pre(p), Operand(v)])
    ensures Canon(e + [Operand(Mon(p, v))]) == Canon(e + [Pre(p), Operand(v)])
    decreases |e|
  {
    var f, g := e + [Operand(Mon(p, v))], e + [Pre(p), Operand(v)];
    PrefixKeepsOperators(e, p, v);
    if |e| == 0 {
      assert g[1..] == [Operand(v)];
      CanonLoose(g);
    } else if LoosePrefix(f) {
      assert f[1..] == e[1..] + [Operand(Mon(p, v))] && g[1..] == e[1..] + [Pre(p), Operand(v)];
      CanonLoose(f);
      CanonLoose(g);
      CanonPrefix(e[1..], p, v);
    } else {
      HasInfUnlessLoose(f);
      var k := Split(f);
      PrefixSlices(e, p, v, k);
      CanonPrefix(e[k + 1..], p, v);
      CanonAt(f, k);
      CanonAt(g, k);
    }
  }

  lemma PrefixSlices(e: seq<Elem>, p: Token, v: Sexp, k: int)
    requires Alternates(e + [Operand(Mon(p, v))]) && IsSplit(e + [Operand(Mon(p, v))], k)
    ensures k < |e| && Alternates(e[k + 1..] + [Operand(Mon(p, v))])
    ensures (e + [Operand(Mon(p, v))])[k + 1..] == e[k + 1..] + [Operand(Mon(p, v))]
    ensures (e + [Pre(p), Operand(v)])[k + 1..] == e[k + 1..] + [Pre(p), Operand(v)]
    ensures (e + [Operand(Mon(p, v))])[..k] == (e + [Pre(p), Operand(v)])[..k]
  {
    SlicesAlternate(e + [Operand(Mon(p, v))], k);
    assert (e + [Operand(Mon(p, v))])[k + 1..] == e[k + 1..] + [Operand(Mon(p, v))];
  }

  lemma PrefixKeepsOperators(e: seq<Elem>, p: Token, v: Sexp)
    requires Alternates(e + [Operand(Mon(p, v))])
    ensures Alternates(e + [Pre(p), Operand(v)])
    ensures |e| > 0 ==> LoosePrefix(e + [Pre(p), Operand(v)]) == LoosePrefix(e + [Operand(Mon(p, v))])
    ensures |e| == 0 ==> LoosePrefix(e + [Pre(p), Operand(v)])
    ensures forall k :: IsSplit(e + [Operand(Mon(p, v))], k) ==> IsSplit(e + [Pre(p), Operand(v)], k)
  {
    var f, g := e + [Operand(Mon(p, v))], e + [Pre(p), Operand(v)];
    assert forall i :: 0 <= i < |e| ==> f[i] == e[i] == g[i];
    forall i | 0 <= i < |g| - 1 ensures g[i].Operand? <==> g[i + 1].Inf? {
      if i < |e| { assert f[i].Operand? <==> f[i + 1].Inf?; }
    }
    if |e| > 0 && LoosePrefix(g) {
      forall j | 0 <= j < |f| && f[j].Inf? ensures f[0].tok.precedence < f[j].tok.precedence {
        assert g[j].Inf?;
      }
    }
  }

  /** Operands bind more tightly than `op`, whatever they are. */
  predicate Tight(e: seq<Elem>, op: Token) {
    forall i :: 0 <= i < |e| && e[i].Operand? ==>
      Rooted(e[i].tree) && e[i].tree.car.tok.precedence >= op.precedence
  }

  /** Inserting a binary operator into the canonical tree of what came before
      gives the canonical tree of the longer sequence. */
  lemma {:induction false} CanonBinary(e: seq<Elem>, op: Token)
    requires Alternates(e) && Tight(e, op)
    ensures Alternates(e + [Inf(op), Operand(Nil)])
    ensures BinIns(Canon(e), op) == Canon(e + [Inf(op), Operand(Nil)])
    decreases |e|
  {
    InfixKeepsOperators(e, op);
    if |e| == 1 {
      CanonAt(e + [Inf(op), Operand(Nil)], 1);
    } else if LoosePrefix(e) {
      CanonLoose(e);
      CanonBinary(e[1..], op);
      BinaryUnderPrefix(e, op);
    } else {
      HasInfUnlessLoose(e);
      var k := Split(e);
      SlicesAlternate(e, k);
      CanonBinary(e[k + 1..], op);
      BinaryUnderBinary(e, op, k);
    }
  }

  lemma CanonWrap(e: seq<Elem>, op: Token)
    requires Alternates(e) && !LoosePrefix(e + [Inf(op), Operand(Nil)])
    requires IsSplit(e + [Inf(op), Operand(Nil)], |e|)
    ensures Alternates(e + [Inf(op), Operand(Nil)])
    ensures Canon(e + [Inf(op), Operand(Nil)]) == Bin(op, Canon(e), Nil)
  {
    InfixKeepsOperators(e, op);
    CanonAt(e + [Inf(op), Operand(Nil)], |e|);
  }

  lemma BinaryUnderPrefix(e: seq<Elem>, op: Token)
    requires Alternates(e) && LoosePrefix(e) && Alternates(e[1..])
    requires Alternates(e[1..] + [Inf(op), Operand(Nil)])
    requires BinIns(Canon(e[1..]), op) == Canon(e[1..] + [Inf(op), Operand(Nil)])
    ensures Alternates(e + [Inf(op), Operand(Nil)])
    ensures BinIns(Canon(e), op) == Canon(e + [Inf(op), Operand(Nil)])
  {
    var f := e + [Inf(op), Operand(Nil)];
    InfixKeepsOperators(e, op);
    CanonLoose(e);
    BinInsNode(e[0].tok, Nil, Canon(e[1..]), op);
    if e[0].tok.precedence >= op.precedence {
      CanonWrap(e, op);
    } else {
      CanonLoose(f);
      assert f[1..] == e[1..] + [Inf(op), Operand(Nil)];
    }
  }

  /** When the root stays, the new operator lands in the right branch. */
  lemma CanonDeeper(e: seq<Elem>, op: Token, k: nat)
    requires Alternates(e) && !LoosePrefix(e) && IsSplit(e, k) && e[k].tok.precedence < op.precedence
    ensures Alternates(e[k + 1..]) && Alternates(e[k + 1..] + [Inf(op), Operand(Nil)]) && Alternates(e[..k])
    ensures Alternates(e + [Inf(op), Operand(Nil)])
    ensures Canon(e + [Inf(op), Operand(Nil)])
         == Bin(e[k].tok, Canon(e[..k]), Canon(e[k + 1..] + [Inf(op), Operand(Nil)]))
  {
    var f := e + [Inf(op), Operand(Nil)];
    assert f[k + 1..] == e[k + 1..] + [Inf(op), Operand(Nil)] && f[..k] == e[..k] && f[k] == e[k];
    assert Alternates(f) && IsSplit(f, k) && !LoosePrefix(f) by {
      InfixKeepsOperators(e, op);
    }
    SlicesAlternate(e, k);
    CanonAt(f, k);
  }

  lemma BinaryUnderBinary(e: seq<Elem>, op: Token, k: nat)
    requires Alternates(e) && !LoosePrefix(e) && IsSplit(e, k) && Alternates(e[k + 1..])
    requires Alternates(e[k + 1..] + [Inf(op), Operand(Nil)])
    requires BinIns(Canon(e[k + 1..]), op) == Canon(e[k + 1..] + [Inf(op), Operand(Nil)])
    ensures Alternates(e + [Inf(op), Operand(Nil)])
    ensures BinIns(Canon(e), op) == Canon(e + [Inf(op), Operand(Nil)])
  {
    CanonAt(e, k);
    BinInsNode(e[k].tok, Canon(e[..k]), Canon(e[k + 1..]), op);
    if e[k].tok.precedence >= op.precedence {
      InfixKeepsOperators(e, op);
      CanonWrap(e, op);
    } else {
      CanonDeeper(e, op, k);
    }
  }

  lemma InfixKeepsOperators(e: seq<Elem>, op: Token)
    requires Alternates(e)
    ensures var f := e + [Inf(op), Operand(Nil)];
            && Alternates(f) && f[..|e|] == e && f[|e| + 1..] == [Operand(Nil)] && f[|e|] == Inf(op)
            && (LoosePrefix(f) <==> LoosePrefix(e) && e[0].tok.precedence < op.precedence)
            && (forall k :: IsSplit(e, k) && e[k].tok.precedence < op.precedence ==> IsSplit(f, k))
            && (!HasInf(e) ==> IsSplit(f, |e|))
            && (forall k :: IsSplit(e, k) && e[k].tok.precedence >= op.precedence ==> IsSplit(f, |e|))
            && (LoosePrefix(e) && e[0].tok.precedence >= op.precedence ==> IsSplit(f, |e|))
  {
    InfixAlternates(e, op);
    InfixKeepsLoose(e, op);
    InfixKeepsSplit(e, op);
  }

  lemma InfixAlternates(e: seq<Elem>, op: Token)
    requires Alternates(e)
    ensures var f := e + [Inf(op), Operand(Nil)];
            Alternates(f) && f[..|e|] == e && f[|e| + 1..] == [Operand(Nil)] && f[|e|] == Inf(op)
  {
    var f := e + [Inf(op), Operand(Nil)];
    assert forall i :: 0 <= i < |e| ==> f[i] == e[i];
    assert f[|e|] == Inf(op) && f[|e| + 1] == Operand(Nil);
  }

  lemma InfixKeepsLoose(e: seq<Elem>, op: Token)
    requires |e| > 0
    ensures LoosePrefix(e + [Inf(op), Operand(Nil)]) <==> LoosePrefix(e) && e[0].tok.precedence < op.precedence
  {
    var f := e + [Inf(op), Operand(Nil)];
    if LoosePrefix(f) {
      assert f[|e|].Inf?;
      forall j | 0 <= j < |e| && e[j].Inf? ensures e[0].tok.precedence < e[j].tok.precedence {
        assert f[j].Inf?;
      }
    }
  }

  lemma InfixKeepsSplit(e: seq<Elem>, op: Token)
    requires |e| > 0
    ensures var f := e + [Inf(op), Operand(Nil)];
            && (forall k :: IsSplit(e, k) && e[k].tok.precedence < op.precedence ==> IsSplit(f, k))
            && (forall k :: IsSplit(e, k) && e[k].tok.precedence >= op.precedence ==> IsSplit(f, |e|))
            && (!HasInf(e) ==> IsSplit(f, |e|))
            && (LoosePrefix(e) && e[0].tok.precedence >= op.precedence ==> IsSplit(f, |e|))
  {}
}
