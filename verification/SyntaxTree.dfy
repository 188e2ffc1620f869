/** Tokens, the scanner's symbol table and syntax trees as plain values.

    A syntax tree of the parser is built from cons cells: a leaf is `(token)`,
    a prefix node `(token sub)`, a binary node `(token left right)`, and a
    separator list or a call `(token b1 b2 ... bn)`.  `Sexp` is the value of
    such a structure; `Nil` in a branch position is the open slot that the
    parser still has to fill. */
module SyntaxTree {
  import opened Options


  const MAX_PRECEDENCE := 1000

  type Word = w: string | w != "" witness "x"

  datatype Bracket = Paren | Square | Brace | SetOf | Index

  function OpenName(b: Bracket): Word {
    match b
    case Paren => "("
    case Square => "["
    case Brace => "{"
    case SetOf => "#{#"
    case Index => "#(#"
  }

  function CloseName(b: Bracket): Word {
    match b
    case Paren => ")"
    case Square => "]"
    case Brace => "}"
    case SetOf => "#}#"
    case Index => "#)#"
  }

  /** What the symbol table says of a word; `Monary` carries the precedence of
      its binary twin when it has one (`+` and `-`). */
  datatype Symbol =
    | Open(br: Bracket)
    | Close(br: Bracket)
    | Separator(prec: int)
    | Monary(twin: Option<int>)
    | Binary(prec: int)
    | Type

  type Table = map<Word, Symbol>

  datatype Kind = SEPARATOR | MONARY | BINARY | ARGUMENT | FUNCTION | TYPE

  datatype Token = Token(name: Word, kind: Kind, precedence: int, close: Option<Bracket>)

  datatype Sexp = Nil | Atom(tok: Token) | Cons(car: Sexp, cdr: Sexp)

  function Leaf(t: Token): Sexp { Cons(Atom(t), Nil) }

  function Mon(t: Token, sub: Sexp): Sexp { Cons(Atom(t), Cons(sub, Nil)) }

  function Bin(t: Token, left: Sexp, right: Sexp): Sexp {
    Cons(Atom(t), Cons(left, Cons(right, Nil)))
  }

  /** The tree has a root cell and that cell holds a token. */
  predicate Rooted(s: Sexp) { s.Cons? && s.car.Atom? }

  /** The contents of the last cell of the top-level chain. */
  function Last(s: Sexp): (r: Sexp)
    requires s.Cons?
    ensures r < s
  {
    if s.cdr.Cons? then Last(s.cdr) else s.car
  }

  function SetLast(s: Sexp, v: Sexp): (r: Sexp)
    requires s.Cons?
    ensures r.Cons? && Last(r) == v
    ensures s.cdr.Cons? ==> r.car == s.car
  {
    if s.cdr.Cons? then Cons(s.car, SetLast(s.cdr, v)) else Cons(v, s.cdr)
  }

  /** Does the right spine end in an open slot?  The empty tree is one. */
  predicate HasHole(s: Sexp) {
    match s
    case Nil => true
    case Atom(_) => false
    case Cons(a, d) => if d.Cons? then HasHole(d) else HasHole(a)
  }

  /** Put `v` in the open slot at the end of the right spine; a tree without
      an open slot stays as it is. */
  function Fill(s: Sexp, v: Sexp): Sexp {
    match s
    case Nil => v
    case Atom(_) => s
    case Cons(a, d) => if d.Cons? then Cons(a, Fill(d, v)) else Cons(Fill(a, v), d)
  }

  /** The number of cells whose car is still NIL. */
  function Slots(s: Sexp): nat {
    match s
    case Nil => 0
    case Atom(_) => 0
    case Cons(a, d) => (if a.Nil? then 1 else Slots(a)) + Slots(d)
  }

  function SetRoot(s: Sexp, t: Token): (r: Sexp)
    requires Rooted(s)
    ensures Rooted(r) && r.car.tok == t && r.cdr == s.cdr
  {
    Cons(Atom(t), s.cdr)
  }

  /** Insert a binary operator to the right of a tree: wrap the tree when its
      root binds at least as tightly, otherwise go down the last branch. */
  function BinIns(t: Sexp, op: Token): Sexp
    decreases t
  {
    if !Rooted(t) || t.car.tok.precedence >= op.precedence then Bin(op, t, Nil)
    else SetLast(t, BinIns(Last(t), op))
  }

  /** Lengthen the top-level chain by one open slot. */
  function AppendSlot(s: Sexp): Sexp
    requires s.Cons?
  {
    if s.cdr.Cons? then Cons(s.car, AppendSlot(s.cdr)) else Cons(s.car, Cons(Nil, Nil))
  }

  /** Is the root a separator that no bracket has closed yet? */
  predicate OpenList(s: Sexp) {
    Rooted(s) && s.car.tok.kind == SEPARATOR && s.car.tok.close == None
  }

  /** Insert a separator: lengthen an open separator list, wrap anything else. */
  function SepIns(t: Sexp, sep: Token): Sexp {
    if OpenList(t) then AppendSlot(t) else Bin(sep, t, Nil)
  }

  // ----- how the slot operations interact

  lemma {:induction false} FillLast(s: Sexp, v: Sexp)
    requires s.Cons?
    ensures Fill(s, v).Cons? && Last(Fill(s, v)) == Fill(Last(s), v)
    ensures Fill(s, v) == SetLast(s, Fill(Last(s), v))
    ensures Fill(s, v).cdr.Cons? == s.cdr.Cons?
  {
    if s.cdr.Cons? {
      FillLast(s.cdr, v);
    }
  }

  lemma {:induction false} HoleLast(s: Sexp)
    requires s.Cons?
    ensures HasHole(s) == HasHole(Last(s))
  {
    if s.cdr.Cons? {
      HoleLast(s.cdr);
    }
  }

  lemma {:induction false} SetLastTwice(s: Sexp, v: Sexp, w: Sexp)
    requires s.Cons?
    ensures SetLast(SetLast(s, v), w) == SetLast(s, w)
    ensures SetLast(s, Last(s)) == s
  {
    if s.cdr.Cons? {
      SetLastTwice(s.cdr, v, w);
    }
  }

  /** The slot operations on a binary and on a prefix node. */
  lemma NodeSlot(t: Token, l: Sexp, r: Sexp, v: Sexp)
    ensures HasHole(Bin(t, l, r)) == HasHole(r) && Fill(Bin(t, l, r), v) == Bin(t, l, Fill(r, v))
    ensures Last(Bin(t, l, r)) == r && SetLast(Bin(t, l, r), v) == Bin(t, l, v)
    ensures HasHole(Mon(t, r)) == HasHole(r) && Fill(Mon(t, r), v) == Mon(t, Fill(r, v))
    ensures Last(Mon(t, r)) == r && SetLast(Mon(t, r), v) == Mon(t, v)
  {
    var right := Cons(r, Nil);
    assert HasHole(right) == HasHole(r) && Fill(right, v) == Cons(Fill(r, v), Nil);
    assert Last(right) == r && SetLast(right, v) == Cons(v, Nil);
    var both := Cons(l, right);
    assert HasHole(both) == HasHole(r) && Fill(both, v) == Cons(l, Cons(Fill(r, v), Nil));
    assert Last(both) == r && SetLast(both, v) == Cons(l, Cons(v, Nil));
  }

  /** Where the new operator goes, one node at a time. */
  lemma BinInsNode(q: Token, l: Sexp, r: Sexp, op: Token)
    ensures q.precedence >= op.precedence ==>
      BinIns(Bin(q, l, r), op) == Bin(op, Bin(q, l, r), Nil) && BinIns(Mon(q, r), op) == Bin(op, Mon(q, r), Nil)
    ensures q.precedence < op.precedence ==>
      BinIns(Bin(q, l, r), op) == Bin(q, l, BinIns(r, op)) && BinIns(Mon(q, r), op) == Mon(q, BinIns(r, op))
  {
    NodeSlot(q, l, r, BinIns(r, op));
  }

  /** Filling an open slot uses up exactly the slot it fills. */
  lemma {:induction false} FillSlots(s: Sexp, v: Sexp)
    requires HasHole(s)
    ensures s.Cons? ==> Slots(Fill(s, v)) == Slots(s) - 1 + (if v.Nil? then 1 else Slots(v))
    ensures HasHole(Fill(s, v)) == HasHole(v)
  {
    match s
    case Nil =>
    case Atom(_) =>
    case Cons(a, d) =>
      if d.Cons? {
        FillSlots(d, v);
      } else {
        FillSlots(a, v);
      }
  }
}
