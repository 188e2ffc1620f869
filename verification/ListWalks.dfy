/** Copying and destroying lists within lists, told by what walking along cars
    and cdrs meets. */
module ListWalks {
  import opened Cells
  import opened ListTrees

  /** What the list at `p` is, as a car. */
  function Start(p: Addr): Core { if p == NIL then Nil else Lst(p) }

  datatype Step = Car | Cdr

  /** Where a walk ends; walks past the end of a list or into an atom end at
      null. */
  function Walk(cells: Heap, x: Core, steps: seq<Step>): Core
    decreases steps
  {
    if steps == [] then x
    else if x.Lst? && x.p in cells then
      Walk(cells, if steps[0].Car? then cells[x.p].car else Start(cells[x.p].cdr), steps[1..])
    else Nil
  }

  // ----- copies

  /** The same atom, or null in both, or a list in both. */
  predicate Alike(x: Core, y: Core) { if x.Lst? then y.Lst? else y == x }

  lemma {:induction false} CopyWalk(c0: Heap, c1: Heap, sh: Shape, sh': Shape, steps: seq<Step>)
    requires Reaches(c0, sh) && Reaches(c1, sh') && Plain(sh') == Plain(sh)
    ensures Alike(Walk(c0, Start(Root(sh)), steps), Walk(c1, Start(Root(sh')), steps))
    decreases steps
  {
    if steps != [] && sh.At? {
      if steps[0].Cdr? {
        CopyWalk(c0, c1, sh.cdr, sh'.cdr, steps[1..]);
      } else if sh.car.Sub? {
        CopyWalk(c0, c1, sh.car.list, sh'.car.list, steps[1..]);
      } else {
        NoList(c0, c1, ItemCore(sh.car), steps[1..]);
      }
    }
  }

  lemma NoList(c0: Heap, c1: Heap, x: Core, steps: seq<Step>)
    requires !x.Lst?
    ensures Walk(c0, x, steps) == Walk(c1, x, steps) && !Walk(c0, x, steps).Lst?
  {}

  // ----- the cells of a list

  lemma {:induction false} WalkStays(cells: Heap, sh: Shape, steps: seq<Step>)
    requires Reaches(cells, sh)
    ensures var x := Walk(cells, Start(Root(sh)), steps); x.Lst? ==> x.p in Addrs(sh)
    decreases steps
  {
    if steps != [] && sh.At? {
      if steps[0].Cdr? {
        WalkStays(cells, sh.cdr, steps[1..]);
      } else if sh.car.Sub? {
        WalkStays(cells, sh.car.list, steps[1..]);
      } else {
        NoList(cells, cells, ItemCore(sh.car), steps[1..]);
      }
    }
  }

  lemma {:induction false} WalkTo(cells: Heap, sh: Shape, q: Addr) returns (steps: seq<Step>)
    requires Reaches(cells, sh) && q in Addrs(sh)
    ensures Walk(cells, Start(Root(sh)), steps) == Lst(q)
  {
    if q == sh.addr {
      steps := [];
    } else {
      var first, rest;
      if q in Addrs(sh.cdr) {
        first := Cdr;
        rest := WalkTo(cells, sh.cdr, q);
      } else {
        first := Car;
        rest := WalkTo(cells, sh.car.list, q);
      }
      steps := [first] + rest;
      assert steps[1..] == rest;
    }
  }

  /** A walk along the list at `p` meets the cell `q`. */
  ghost predicate Meets(cells: Heap, p: Addr, q: Addr) { exists steps :: Walk(cells, Start(p), steps) == Lst(q) }

  /** The cells counted as the list's are those that walks meet. */
  lemma AddrsAreMet(cells: Heap, sh: Shape, q: Addr)
    requires Reaches(cells, sh)
    ensures q in Addrs(sh) <==> Meets(cells, Root(sh), q)
  {
    if q in Addrs(sh) { var steps := WalkTo(cells, sh, q); }
    forall steps | Walk(cells, Start(Root(sh)), steps) == Lst(q) ensures q in Addrs(sh) {
      WalkStays(cells, sh, steps);
    }
  }

  ghost function Holding(cells: Heap, addrs: set<Addr>, a: AtomId): set<Addr> {
    set q | q in addrs && q in cells && cells[q].car == Atm(a)
  }

  lemma HoldingBoth(cells: Heap, s: set<Addr>, t: set<Addr>, a: AtomId)
    requires s !! t
    ensures |Holding(cells, s + t, a)| == |Holding(cells, s, a)| + |Holding(cells, t, a)|
  {
    assert Holding(cells, s + t, a) == Holding(cells, s, a) + Holding(cells, t, a);
  }

  lemma HoldingOne(cells: Heap, p: Addr, a: AtomId)
    requires p in cells
    ensures |Holding(cells, {p}, a)| == if cells[p].car == Atm(a) then 1 else 0
  {
    assert Holding(cells, {p}, a) == if cells[p].car == Atm(a) then {p} else {};
  }

  lemma HoldingNone(cells: Heap, a: AtomId)
    ensures |Holding(cells, {}, a)| == 0
  {
    assert Holding(cells, {}, a) == {};
  }

  /** In a list that meets no cell twice an atom counts once for each cell that
      holds it. */
  lemma {:induction false} AtomsAreHeld(cells: Heap, sh: Shape, a: AtomId)
    requires Reaches(cells, sh) && Tree(sh)
    ensures Atoms(sh)[a] == |Holding(cells, Addrs(sh), a)|
  {
    HoldingNone(cells, a);
    if sh.At? {
      AtomsAreHeld(cells, sh.cdr, a);
      if sh.car.Sub? { AtomsAreHeld(cells, sh.car.list, a); }
      HoldingOne(cells, sh.addr, a);
      HoldingBoth(cells, {sh.addr}, ItemAddrs(sh.car), a);
      HoldingBoth(cells, {sh.addr} + ItemAddrs(sh.car), Addrs(sh.cdr), a);
    }
  }

  /** How many cells that walks along the list at `p` meet hold an atom. */
  ghost function HeldFrom(cells: Heap, p: Addr, a: AtomId): nat { |Holders(cells, p, a)| }

  ghost function Holders(cells: Heap, p: Addr, a: AtomId): set<Addr> {
    set q | q in cells && cells[q].car == Atm(a) && Meets(cells, p, q)
  }

  lemma HeldFromList(cells: Heap, sh: Shape, a: AtomId)
    requires Reaches(cells, sh) && Tree(sh)
    ensures HeldFrom(cells, Root(sh), a) == Atoms(sh)[a]
  {
    AtomsAreHeld(cells, sh, a);
    forall q ensures q in Addrs(sh) <==> Meets(cells, Root(sh), q) { AddrsAreMet(cells, sh, q); }
    assert Holders(cells, Root(sh), a) == Holding(cells, Addrs(sh), a);
  }

  // ----- what copying and destroying do

  /** Whatever walk is taken, the copy has at its end what the list has, and its
      cells are new; each atom has got a reference for each cell holding it. */
  lemma CopyMeans(c0: Heap, r0: map<AtomId, int>, c1: Heap, r1: map<AtomId, int>, sh: Shape, sh': Shape)
    requires Reaches(c0, sh) && Copied(c0, c1, sh, sh') && Gained(r0, r1, Atoms(sh))
    ensures forall steps :: Alike(Walk(c0, Start(Root(sh)), steps), Walk(c1, Start(Root(sh')), steps))
    ensures forall q :: q in c1 <==> q in c0 || Meets(c1, Root(sh'), q)
    ensures forall q :: q in c0 ==> c1[q] == c0[q] && !Meets(c1, Root(sh'), q)
    ensures r1.Keys == r0.Keys && (Tree(sh) ==> forall a :: a in r0 ==> r1[a] == r0[a] + HeldFrom(c0, Root(sh), a))
  {
    forall steps ensures Alike(Walk(c0, Start(Root(sh)), steps), Walk(c1, Start(Root(sh')), steps)) {
      CopyWalk(c0, c1, sh, sh', steps);
    }
    forall q ensures q in Addrs(sh') <==> Meets(c1, Root(sh'), q) { AddrsAreMet(c1, sh', q); }
    if Tree(sh) {
      forall a | a in r0 ensures HeldFrom(c0, Root(sh), a) == Atoms(sh)[a] { HeldFromList(c0, sh, a); }
    }
  }

  /** Exactly the cells that walks meet are gone; an atom goes exactly when
      these held all its references, and else keeps the others; the result says
      whether each atom met had this one reference only. */
  lemma DestroyMeans(c0: Heap, r0: map<AtomId, int>, c1: Heap, r1: map<AtomId, int>, sh: Shape, ok: bool)
    requires Reaches(c0, sh) && Tree(sh) && Destroyed(c0, r0, c1, r1, Addrs(sh), Atoms(sh), ok)
    ensures forall q :: q in c1 <==> q in c0 && !Meets(c0, Root(sh), q)
    ensures forall q :: q in c1 ==> c1[q] == c0[q]
    ensures forall a :: a in r1 <==> a in r0 && (HeldFrom(c0, Root(sh), a) == 0 || HeldFrom(c0, Root(sh), a) != r0[a])
    ensures forall a :: a in r1 ==> r1[a] == r0[a] - HeldFrom(c0, Root(sh), a)
    ensures ok <==>
      forall a :: HeldFrom(c0, Root(sh), a) > 0 ==> HeldFrom(c0, Root(sh), a) == 1 && a in r0 && r0[a] == 1
  {
    forall q ensures q in Addrs(sh) <==> Meets(c0, Root(sh), q) { AddrsAreMet(c0, sh, q); }
    forall a ensures HeldFrom(c0, Root(sh), a) == Atoms(sh)[a] { HeldFromList(c0, sh, a); }
    ReleasedMeans(c0, r0, r1, Root(sh), Atoms(sh), ok);
  }

  lemma ReleasedMeans(c0: Heap, r0: map<AtomId, int>, r1: map<AtomId, int>, p: Addr, bag: multiset<AtomId>, ok: bool)
    requires Released(r0, r1, bag) && (forall a :: a in bag ==> a in r0) && (ok <==> AllLast(r0, bag))
    requires forall a :: HeldFrom(c0, p, a) == bag[a]
    ensures forall a :: a in r1 <==> a in r0 && (HeldFrom(c0, p, a) == 0 || HeldFrom(c0, p, a) != r0[a])
    ensures forall a :: a in r1 ==> r1[a] == r0[a] - HeldFrom(c0, p, a)
    ensures ok <==> forall a :: HeldFrom(c0, p, a) > 0 ==> HeldFrom(c0, p, a) == 1 && a in r0 && r0[a] == 1
  {
    forall a ensures a in bag <==> HeldFrom(c0, p, a) > 0 {}
  }

  // ----- the front of a list

  /** Destroying up to a cell leaves the list from there on: the first cells,
      none of them that one, are gone with what their cars reach. */
  lemma {:induction false} UntilMeans(sh: Shape, last: Addr) returns (k: nat)
    ensures k <= |Spine(sh)| && Spine(Until(sh, last)) == Spine(sh)[k..] && last !in Spine(sh)[..k]
    ensures Until(sh, last).Empty? || Until(sh, last).addr == last
  {
    if sh.Empty? || sh.addr == last {
      k := 0;
    } else {
      var j := UntilMeans(sh.cdr, last);
      k := j + 1;
      assert Spine(sh)[k..] == Spine(sh.cdr)[j..] && Spine(sh)[..k] == [sh.addr] + Spine(sh.cdr)[..j];
    }
  }

  lemma {:induction false} FrontIsRest(sh: Shape, last: Addr)
    ensures FrontAddrs(sh, last) + Addrs(Until(sh, last)) == Addrs(sh)
    ensures FrontAtoms(sh, last) + Atoms(Until(sh, last)) == Atoms(sh)
    ensures Tree(sh) ==> FrontAddrs(sh, last) !! Addrs(Until(sh, last))
  {
    if !(sh.Empty? || sh.addr == last) {
      FrontIsRest(sh.cdr, last);
      RestInside(sh.cdr, last);
    }
  }

  lemma {:induction false} RestInside(sh: Shape, last: Addr)
    ensures Addrs(Until(sh, last)) <= Addrs(sh)
  {
    if !(sh.Empty? || sh.addr == last) { RestInside(sh.cdr, last); }
  }
}
