/** The cells and trees the parser mutates: `List` cells and the `Tree` object
    with its pointer to the most-right free position.

    The token of a cell is a value here: no two cells share a token object, so
    changing the token through its only cell is the same change. */
module ConsTree {
  import opened Options
  import opened SyntaxTree
  import opened SaneTree

  datatype Core = NIL | Tok(tok: Token) | Branch(cell: List)

  class List {
    var car_: Core
    var cdr_: List?

    constructor cons(a: Core, d: List?)
      ensures car_ == a && cdr_ == d
    {
      car_, cdr_ := a, d;
    }

    method setCar(c: Core)
      modifies this`car_
      ensures car_ == c
    {
      car_ := c;
    }

    method setCdr(c: List?)
      modifies this`cdr_
      ensures cdr_ == c
    {
      cdr_ := c;
    }
  }

  // ----- which cells make up a tree, and its value

  datatype Shape = SNil | SAtom(tok: Token) | SCons(cell: List, car: Shape, cdr: Shape)

  ghost function Value(s: Shape): Sexp {
    match s
    case SNil => Nil
    case SAtom(t) => Atom(t)
    case SCons(_, a, d) => Cons(Value(a), Value(d))
  }

  ghost function Cells(s: Shape): set<List> {
    match s
    case SNil => {}
    case SAtom(_) => {}
    case SCons(c, a, d) => {c} + Cells(a) + Cells(d)
  }

  /** No cell occurs twice: the structure is a tree. */
  ghost predicate Distinct(s: Shape) {
    match s
    case SNil => true
    case SAtom(_) => true
    case SCons(c, a, d) =>
      c !in Cells(a) && c !in Cells(d) && Cells(a) !! Cells(d) && Distinct(a) && Distinct(d) && !d.SAtom?
  }

  ghost function CoreOf(s: Shape): Core {
    match s
    case SNil => NIL
    case SAtom(t) => Tok(t)
    case SCons(c, _, _) => Branch(c)
  }

  ghost function PtrOf(s: Shape): List? { if s.SCons? then s.cell else null }

  /** The heap holds the structure `s`. */
  ghost predicate Holds(s: Shape)
    reads Cells(s)
  {
    match s
    case SNil => true
    case SAtom(_) => true
    case SCons(c, a, d) => c.car_ == CoreOf(a) && c.cdr_ == PtrOf(d) && Holds(a) && Holds(d)
  }

  /** The cell whose car is the open slot at the end of the right spine. */
  ghost function SlotCell(s: Shape): List? {
    match s
    case SNil => null
    case SAtom(_) => null
    case SCons(c, a, d) => if d.SCons? then SlotCell(d) else if a.SNil? then c else SlotCell(a)
  }

  ghost function LastCell(s: Shape): List
    requires s.SCons?
  {
    if s.cdr.SCons? then LastCell(s.cdr) else s.cell
  }

  ghost function LastCar(s: Shape): (r: Shape)
    requires s.SCons?
    ensures Value(r) == Last(Value(s)) && Cells(r) <= Cells(s)
    ensures Distinct(s) ==> Distinct(r)
  {
    if s.cdr.SCons? then LastCar(s.cdr) else s.car
  }

  ghost function FillShape(s: Shape, v: Shape): Shape {
    match s
    case SNil => v
    case SAtom(_) => s
    case SCons(c, a, d) => if d.SCons? then SCons(c, a, FillShape(d, v)) else SCons(c, FillShape(a, v), d)
  }

  ghost function SetLastShape(s: Shape, v: Shape): (r: Shape)
    requires s.SCons?
    ensures r.SCons? && r.cell == s.cell
  {
    if s.cdr.SCons? then SCons(s.cell, s.car, SetLastShape(s.cdr, v)) else SCons(s.cell, v, s.cdr)
  }

  ghost function AppendShape(s: Shape, c: List): (r: Shape)
    requires s.SCons?
    ensures r.SCons? && r.cell == s.cell
  {
    if s.cdr.SCons? then SCons(s.cell, s.car, AppendShape(s.cdr, c))
    else SCons(s.cell, s.car, SCons(c, SNil, SNil))
  }

  lemma {:induction false} SlotIsCell(s: Shape)
    requires Distinct(s)
    ensures SlotCell(s) != null ==> SlotCell(s) in Cells(s)
    ensures SlotCell(s) != null <==> s.SCons? && HasHole(Value(s))
  {
    if s.SCons? {
      SlotIsCell(s.car);
      SlotIsCell(s.cdr);
    }
  }

  lemma {:induction false} FillShapeValue(s: Shape, v: Shape)
    requires Distinct(s) && Distinct(v) && !v.SAtom? && Cells(s) !! Cells(v) && HasHole(Value(s))
    ensures Value(FillShape(s, v)) == Fill(Value(s), Value(v))
    ensures Cells(FillShape(s, v)) == Cells(s) + Cells(v) && Distinct(FillShape(s, v))
    ensures s.SCons? ==> FillShape(s, v).SCons? && FillShape(s, v).cell == s.cell
    ensures s.SCons? && v.SCons? ==> SlotCell(FillShape(s, v)) == SlotCell(v)
  {
    match s
    case SNil =>
    case SAtom(_) =>
    case SCons(c, a, d) =>
      assert Value(s) == Cons(Value(a), Value(d));
      if d.SCons? { FillShapeValue(d, v); } else { FillShapeValue(a, v); }
  }

  lemma {:induction false} SetLastShapeValue(s: Shape, v: Shape)
    requires s.SCons? && Distinct(s) && Distinct(v) && (Cells(s) - Cells(LastCar(s))) !! Cells(v)
    ensures Value(SetLastShape(s, v)) == SetLast(Value(s), Value(v))
    ensures Cells(SetLastShape(s, v)) == Cells(s) - Cells(LastCar(s)) + Cells(v)
    ensures Distinct(SetLastShape(s, v))
    ensures LastCell(s) in Cells(s) && LastCell(s) !in Cells(LastCar(s))
    ensures SlotCell(SetLastShape(s, v)) == if v.SNil? then LastCell(s) else SlotCell(v)
  {
    if s.cdr.SCons? {
      assert Cells(s.cdr) <= Cells(s);
      SetLastShapeValue(s.cdr, v);
    }
  }

  lemma {:induction false} AppendShapeValue(s: Shape, c: List)
    requires s.SCons? && Distinct(s) && c !in Cells(s)
    ensures Value(AppendShape(s, c)) == AppendSlot(Value(s))
    ensures Cells(AppendShape(s, c)) == Cells(s) + {c} && Distinct(AppendShape(s, c))
    ensures SlotCell(AppendShape(s, c)) == c && LastCell(s) in Cells(s)
  {
    if s.cdr.SCons? { AppendShapeValue(s.cdr, c); }
  }

  // ----- one cell is written

  /** Writing the car of the slot cell fills the slot. */
  twostate lemma {:induction false} SlotWritten(s: Shape, new v: Shape, new h: List)
    requires Distinct(s) && SlotCell(s) == h && !v.SAtom?
    requires old(Holds(s))
    requires Holds(v)
    requires forall c :: c in Cells(s) && c != h ==> old(allocated(c)) && c.car_ == old(c.car_)
    requires forall c :: c in Cells(s) ==> old(allocated(c)) && c.cdr_ == old(c.cdr_)
    requires h.car_ == CoreOf(v)
    ensures Holds(FillShape(s, v))
  {
    var t := if s.cdr.SCons? then s.cdr else s.car;
    if t.SCons? {
      SlotIsCell(t);
      SlotWritten(t, v, h);
    }
    if s.cdr.SCons? { Untouched(s.car); }
  }

  twostate lemma {:induction false} Untouched(s: Shape)
    requires old(Holds(s))
    requires forall c :: c in Cells(s) ==> old(allocated(c)) && c.car_ == old(c.car_) && c.cdr_ == old(c.cdr_)
    ensures Holds(s)
  {
    if s.SCons? {
      Untouched(s.car);
      Untouched(s.cdr);
    }
  }

  /** Writing the car of the last cell replaces the last branch. */
  twostate lemma {:induction false} LastWritten(s: Shape, new v: Shape)
    requires s.SCons? && Distinct(s) && !v.SAtom?
    requires old(Holds(s))
    requires Holds(v)
    requires forall c :: c in Cells(s) - Cells(LastCar(s)) && c != LastCell(s) ==> old(allocated(c)) && c.car_ == old(c.car_)
    requires forall c :: c in Cells(s) - Cells(LastCar(s)) ==> old(allocated(c)) && c.cdr_ == old(c.cdr_)
    requires LastCell(s).car_ == CoreOf(v)
    ensures Holds(SetLastShape(s, v))
  {
    SetLastShapeValue(s, SNil);
    if s.cdr.SCons? {
      SetLastShapeValue(s.cdr, SNil);
      LastWritten(s.cdr, v);
      Untouched(s.car);
    }
  }

  twostate lemma RightTaken(s: Shape)
    requires s.SCons? && Distinct(s)
    requires old(Holds(s))
    requires forall c :: c in Cells(s) && c != LastCell(s) ==> old(allocated(c)) && c.car_ == old(c.car_)
    requires forall c :: c in Cells(s) ==> old(allocated(c)) && c.cdr_ == old(c.cdr_)
    requires LastCell(s).car_ == NIL
    ensures var r := SetLastShape(s, SNil);
            && Holds(r) && Distinct(r) && SlotCell(r) == LastCell(s)
            && Value(r) == SetLast(Value(s), Nil) && HasHole(Value(r))
            && Cells(r) == Cells(s) - Cells(LastCar(s))
  {
    SetLastShapeValue(s, SNil);
    LastWritten(s, SNil);
    HoleLast(Value(SetLastShape(s, SNil)));
  }

  /** Writing the cdr of the last cell lengthens the chain. */
  twostate lemma {:induction false} CdrWritten(s: Shape, new k: List)
    requires s.SCons? && Distinct(s) && k !in Cells(s)
    requires old(Holds(s))
    requires forall c :: c in Cells(s) ==> old(allocated(c)) && c.car_ == old(c.car_)
    requires forall c :: c in Cells(s) && c != LastCell(s) ==> old(allocated(c)) && c.cdr_ == old(c.cdr_)
    requires LastCell(s).cdr_ == k && k.car_ == NIL && k.cdr_ == null
    ensures Holds(AppendShape(s, k))
  {
    AppendShapeValue(s, k);
    if s.cdr.SCons? {
      AppendShapeValue(s.cdr, k);
      CdrWritten(s.cdr, k);
    }
    Untouched(s.car);
  }

  lemma {:induction false} CellsAllocated(s: Shape)
    ensures forall c :: c in Cells(s) ==> allocated(c)
  {
    if s.SCons? {
      CellsAllocated(s.car);
      CellsAllocated(s.cdr);
    }
  }

  /** All cells but those of `before` were allocated since. */
  twostate predicate NewOnly(new now: set<List>, new before: set<List>) {
    forall c :: c in now ==> c in before || !old(allocated(c))
  }

  lemma ConsShape(c: List, a: Shape, d: Shape)
    requires c.car_ == CoreOf(a) && c.cdr_ == PtrOf(d) && !d.SAtom?
    requires Holds(a) && Holds(d) && Distinct(a) && Distinct(d)
    requires Cells(a) !! Cells(d) && c !in Cells(a) + Cells(d)
    ensures Holds(SCons(c, a, d)) && Distinct(SCons(c, a, d))
    ensures Cells(SCons(c, a, d)) == {c} + Cells(a) + Cells(d)
    ensures Value(SCons(c, a, d)) == Cons(Value(a), Value(d))
    ensures SlotCell(SCons(c, a, d)) == if d.SCons? then SlotCell(d) else if a.SNil? then c else SlotCell(a)
  {}

  /** A syntax tree under construction. */
  class Tree {
    var tree_: List?
    var mrFree_: List?
    ghost var shape: Shape

    /** `mrFree_` is the open slot, and null when there is none. */
    ghost predicate Valid()
      reads this, Cells(shape)
    {
      && Distinct(shape) && Holds(shape) && !shape.SAtom?
      && tree_ == PtrOf(shape)
      && mrFree_ == SlotCell(shape)
    }

    ghost function Contents(): Sexp
      reads this
    {
      Value(shape)
    }

    constructor ()
      ensures Valid() && shape == SNil
    {
      tree_, mrFree_, shape := null, null, SNil;
    }

    /** A node over given branches.  The free position stays unset, so the tree
        is usable as it is only when there is none. */
    static method create(root: Core, branch: List?, ghost token: Shape, ghost sub: Shape) returns (t: Tree)
      requires (token == SNil || token.SAtom?) && root == CoreOf(token)
      requires Holds(sub) && Distinct(sub) && !sub.SAtom? && branch == PtrOf(sub)
      ensures fresh(t) && t.mrFree_ == null && Holds(t.shape) && Distinct(t.shape)
      ensures t.tree_ != null && t.shape == SCons(t.tree_, token, sub)
      ensures Cells(sub) <= Cells(t.shape) && NewOnly(Cells(t.shape), Cells(sub))
      ensures t.Contents() == Cons(Value(token), Value(sub))
      ensures t.Valid() <==> SlotCell(t.shape) == null
    {
      CellsAllocated(sub);
      var c := new List.cons(root, branch);
      t := new Tree();
      t.tree_ := c;
      t.shape := SCons(c, token, sub);
      ConsShape(c, token, sub);
    }

    /** A prefix node over the structure `sub`; its open slot, when it has one,
        is the most-right free position. */
    static method createMonary(root: Token, branch: List?, ghost sub: Shape) returns (t: Tree)
      requires Holds(sub) && Distinct(sub) && !sub.SAtom? && branch == PtrOf(sub)
      requires branch != null ==> !HasHole(Value(sub))
      ensures fresh(t) && t.Valid() && t.Contents() == Mon(root, Value(sub))
      ensures Cells(sub) <= Cells(t.shape) && NewOnly(Cells(t.shape), Cells(sub))
    {
      CellsAllocated(sub);
      var under := new List.cons(if branch == null then NIL else Branch(branch), null);
      ghost var low := SCons(under, sub, SNil);
      ConsShape(under, sub, SNil);
      var c := new List.cons(Tok(root), under);
      ConsShape(c, SAtom(root), low);
      t := new Tree();
      if branch == null {
        t.mrFree_ := under;
      }
      t.tree_ := c;
      t.shape := SCons(c, SAtom(root), low);
      SlotIsCell(sub);
    }

    /** A binary node whose right branch is still open. */
    static method createBinary(root: Token, left: List, ghost sub: Shape) returns (t: Tree)
      requires Holds(sub) && Distinct(sub) && sub.SCons? && left == sub.cell
      ensures fresh(t) && t.Valid() && t.Contents() == Bin(root, Value(sub), Nil)
      ensures Cells(sub) <= Cells(t.shape) && NewOnly(Cells(t.shape), Cells(sub))
    {
      CellsAllocated(sub);
      var right := new List.cons(NIL, null);
      ghost var low := SCons(right, SNil, SNil);
      ConsShape(right, SNil, SNil);
      var mid := new List.cons(Branch(left), right);
      ghost var both := SCons(mid, sub, low);
      ConsShape(mid, sub, low);
      var c := new List.cons(Tok(root), mid);
      ConsShape(c, SAtom(root), both);
      t := new Tree();
      t.mrFree_ := right;
      t.tree_ := c;
      t.shape := SCons(c, SAtom(root), both);
    }

    /** The last cell of the top-level chain. */
    method getMostRightBranch() returns (r: List?)
      requires Valid()
      ensures tree_ == null ==> r == null
      ensures tree_ != null ==> r == LastCell(shape) && r.car_ == CoreOf(LastCar(shape))
    {
      r := tree_;
      if r == null { return; }
      ghost var rest := shape;
      while r.cdr_ != null
        invariant rest.SCons? && r == rest.cell && Holds(rest) && Distinct(rest)
        invariant LastCell(rest) == LastCell(shape) && LastCar(rest) == LastCar(shape)
        decreases rest
      {
        r := r.cdr_;
        rest := rest.cdr;
      }
    }

    /** Put a tree in the open slot, and go on with that tree's own slot. */
    method putMostRight(aTree: Tree)
      requires Valid() && aTree.Valid() && aTree != this && Cells(shape) !! Cells(aTree.shape)
      requires HasHole(Contents()) ==> aTree.tree_ != null
      requires HasHole(Contents()) || !HasHole(aTree.Contents())
      modifies this, Cells(shape)
      ensures Valid() && Contents() == Fill(old(Contents()), old(aTree.Contents()))
      ensures Cells(shape) <= old(Cells(shape)) + old(Cells(aTree.shape))
    {
      ghost var s, v := shape, aTree.shape;
      CellsAllocated(s);
      CellsAllocated(v);
      SlotIsCell(s);
      SlotIsCell(v);
      if tree_ == null {
        tree_ := aTree.tree_;
        mrFree_ := aTree.mrFree_;
        shape := v;
      } else if mrFree_ == null {
        mrFree_ := aTree.mrFree_;
        FillFull(Value(s), Value(v));
      } else {
        FillShapeValue(s, v);
        mrFree_.setCar(Branch(aTree.tree_));
        SlotWritten(s, v, mrFree_);
        mrFree_ := aTree.mrFree_;
        shape := FillShape(s, v);
      }
    }

    /** Replace the token at the root. */
    method setNode(tok: Token)
      requires Valid() && Rooted(Contents())
      modifies this, Cells(shape)
      ensures Valid() && Contents() == SetRoot(old(Contents()), tok) && Cells(shape) == old(Cells(shape))
      ensures tree_ == old(tree_) && mrFree_ == old(mrFree_)
    {
      ghost var s := shape;
      CellsAllocated(s);
      CellsAllocated(s.cdr);
      assert Value(s).car == Value(s.car) && s.car.SAtom?;
      assert Cells(s) == {s.cell} + Cells(s.cdr);
      tree_.setCar(Tok(tok));
      shape := SCons(s.cell, SAtom(tok), s.cdr);
      ConsShape(s.cell, SAtom(tok), s.cdr);
      assert SlotCell(s) == if s.cdr.SCons? then SlotCell(s.cdr) else SlotCell(s.car);
    }

    /** Take the last branch off into a tree of its own; its place becomes the
        most-right free position. */
    method takeRight() returns (aux: Tree)
      requires Valid() && tree_ != null && Last(Contents()).Cons?
      modifies this, Cells(shape)
      ensures Valid() && Contents() == SetLast(old(Contents()), Nil) && HasHole(Contents()) && tree_ != null
      ensures fresh(aux) && aux.Valid() && aux.Contents() == Last(old(Contents()))
      ensures Cells(shape) !! Cells(aux.shape) && Cells(shape) + Cells(aux.shape) == old(Cells(shape))
    {
      ghost var s, right := shape, LastCar(shape);
      LastSplit(s);
      var rightCdr := getMostRightBranch();
      aux := new Tree();
      aux.tree_ := rightCdr.car_.cell;
      aux.mrFree_ := mrFree_;
      aux.shape := right;
      rightCdr.setCar(NIL);
      mrFree_ := rightCdr;
      RightTaken(s);
      Untouched(right);
      shape := SetLastShape(s, SNil);
    }

    /** Walk to the end of the branches and add an open one. */
    method addBranch()
      requires Valid() && Contents().Cons? && Sane(Contents()) && Contents().cdr.Cons? && !HasHole(Contents())
      modifies this, Cells(shape)
      ensures Valid() && Contents() == AppendSlot(old(Contents()))
      ensures NewOnly(Cells(shape), old(Cells(shape)))
    {
      ghost var s := shape;
      CellsAllocated(s);
      var l := lastBranch();
      var aux := create(NIL, null, SNil, SNil);
      AppendShapeValue(s, aux.tree_);
      l.setCdr(aux.tree_);
      CdrWritten(s, aux.tree_);
      mrFree_ := aux.tree_;
      shape := AppendShape(s, aux.tree_);
    }

    /** The last cell of the top-level chain. */
    method lastBranch() returns (last: List)
      requires Valid() && Contents().Cons? && Sane(Contents()) && Contents().cdr.Cons? && !HasHole(Contents())
      ensures last == LastCell(shape)
    {
      ghost var s := shape;
      HoleLast(Value(s));
      var l := tree_.cdr_;
      ghost var rest := s.cdr;
      assert Value(s) == Cons(Value(s.car), Value(rest)) && Branches(Value(rest)) && Holds(rest);
      assert LastCell(s) == LastCell(rest) && LastCar(s) == LastCar(rest);
      while l.cdr_ != null && l.car_ != NIL
        invariant rest.SCons? && l == rest.cell && Holds(rest) && Distinct(rest) && Branches(Value(rest))
        invariant LastCell(rest) == LastCell(s) && LastCar(rest) == LastCar(s)
        decreases rest
      {
        l := l.cdr_;
        rest := rest.cdr;
      }
      assert Value(rest) == Cons(Value(rest.car), Value(rest.cdr));
      assert l.car_ == CoreOf(rest.car) && l.cdr_ == PtrOf(rest.cdr);
      last := l;
    }
  }

  /** The token at the root, looked for through the cars. */
  method treToken(tree: List?, ghost s: Shape) returns (tok: Option<Token>)
    requires Holds(s) && !s.SAtom? && tree == PtrOf(s)
    ensures Rooted(Value(s)) ==> tok == Some(Value(s).car.tok)
    decreases s
  {
    if tree == null {
      return None;
    }
    match tree.car_ {
      case NIL => tok := None;
      case Tok(t) => tok := Some(t);
      case Branch(c) => tok := treToken(c, s.car);
    }
  }

  lemma {:induction false} LastFacts(s: Shape)
    requires s.SCons? && Distinct(s)
    ensures !LastCar(s).SNil? ==> SlotCell(LastCar(s)) == SlotCell(s)
    ensures LastCar(s).SNil? ==> SlotCell(s) == LastCell(s)
    ensures LastCell(s) in Cells(s) && LastCell(s) !in Cells(LastCar(s))
  {
    if s.cdr.SCons? { LastFacts(s.cdr); }
  }

  lemma {:induction false} LastHolds(s: Shape)
    requires s.SCons? && Holds(s)
    ensures Holds(LastCar(s)) && LastCell(s).car_ == CoreOf(LastCar(s)) && LastCell(s).cdr_ == null
  {
    if s.cdr.SCons? { LastHolds(s.cdr); }
  }

  lemma LastSplit(s: Shape)
    requires s.SCons? && Holds(s) && Distinct(s) && Last(Value(s)).Cons?
    ensures var r := LastCar(s);
            && Holds(r) && Distinct(r) && r.SCons? && Value(r) == Last(Value(s))
            && LastCell(s).car_ == Branch(r.cell) && SlotCell(r) == SlotCell(s)
            && LastCell(s) in Cells(s) && LastCell(s) !in Cells(r) && Cells(r) <= Cells(s)
    ensures forall c :: c in Cells(s) ==> allocated(c)
  {
    CellsAllocated(s);
    LastHolds(s);
    LastFacts(s);
  }
}
