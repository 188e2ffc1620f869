/** Lists whose cars may be lists: copying one cell by cell, and destroying one
    with the atoms that nothing else refers to. */
module ListTrees {
  import opened Cells
  import opened Memory
  import opened ListAlgebra

  /** What is reachable from a cell, with the addresses met on the way. */
  datatype Shape = Empty | At(addr: Addr, car: Item, cdr: Shape)

  datatype Item = Null | Atom(id: AtomId) | Sub(list: Shape)

  function Root(sh: Shape): Addr { if sh.Empty? then NIL else sh.addr }

  function ItemCore(x: Item): Core {
    match x
    case Null => Nil
    case Atom(a) => Atm(a)
    case Sub(sh) => Lst(Root(sh))
  }

  predicate Reaches(cells: Heap, sh: Shape) {
    match sh
    case Empty => true
    case At(p, x, d) => p != NIL && p in cells && cells[p] == Cell(ItemCore(x), Root(d)) && ItemReaches(cells, x) && Reaches(cells, d)
  }

  predicate ItemReaches(cells: Heap, x: Item) { x.Sub? ==> x.list.At? && Reaches(cells, x.list) }

  function Addrs(sh: Shape): set<Addr> {
    match sh
    case Empty => {}
    case At(p, x, d) => {p} + ItemAddrs(x) + Addrs(d)
  }

  function ItemAddrs(x: Item): set<Addr> { if x.Sub? then Addrs(x.list) else {} }

  /** No cell is met twice. */
  predicate Tree(sh: Shape) {
    match sh
    case Empty => true
    case At(p, x, d) =>
      p !in ItemAddrs(x) && p !in Addrs(d) && ItemAddrs(x) !! Addrs(d) && ItemTree(x) && Tree(d)
  }

  predicate ItemTree(x: Item) { x.Sub? ==> Tree(x.list) }

  /** The atoms, as often as cells hold them. */
  function Atoms(sh: Shape): multiset<AtomId> {
    match sh
    case Empty => multiset{}
    case At(_, x, d) => ItemAtoms(x) + Atoms(d)
  }

  function ItemAtoms(x: Item): multiset<AtomId> {
    match x
    case Null => multiset{}
    case Atom(a) => multiset{a}
    case Sub(sh) => Atoms(sh)
  }

  /** The same but for the addresses. */
  function Plain(sh: Shape): Shape {
    match sh
    case Empty => Empty
    case At(_, x, d) => At(NIL, if x.Sub? then Sub(Plain(x.list)) else x, Plain(d))
  }

  lemma {:induction false} ReachesFrame(c1: Heap, c2: Heap, sh: Shape)
    requires Reaches(c1, sh) && forall q :: q in Addrs(sh) ==> q in c1 && q in c2 && c2[q] == c1[q]
    ensures Reaches(c2, sh)
  {
    if sh.At? {
      assert ItemAddrs(sh.car) <= Addrs(sh) && Addrs(sh.cdr) <= Addrs(sh);
      ReachesFrame(c1, c2, sh.cdr);
      if sh.car.Sub? { ReachesFrame(c1, c2, sh.car.list); }
    }
  }

  lemma {:induction false} ReachesIn(cells: Heap, sh: Shape)
    requires Reaches(cells, sh)
    ensures forall q :: q in Addrs(sh) ==> q in cells && q != NIL
  {
    if sh.At? {
      assert Addrs(sh) == {sh.addr} + ItemAddrs(sh.car) + Addrs(sh.cdr);
      ReachesIn(cells, sh.cdr);
      if sh.car.Sub? { ReachesIn(cells, sh.car.list); }
    }
  }

  // ----- reference counts after releasing a bag of references

  /** `r1` is `r0` after the references `bag` are given up and atoms without
      references are gone. */
  ghost predicate Released(r0: map<AtomId, int>, r1: map<AtomId, int>, bag: multiset<AtomId>) {
    && (forall a :: a in r1 <==> a in r0 && !(bag[a] > 0 && r0[a] == bag[a]))
    && (forall a :: a in r1 ==> r1[a] == r0[a] - bag[a])
  }

  /** Every reference given up was the last one to its atom. */
  ghost predicate AllLast(r0: map<AtomId, int>, bag: multiset<AtomId>)
    requires forall a :: a in bag ==> a in r0
  {
    forall a :: a in bag ==> bag[a] == 1 && r0[a] == 1
  }

  lemma ReleasedBoth(r0: map<AtomId, int>, r1: map<AtomId, int>, r2: map<AtomId, int>, b1: multiset<AtomId>, b2: multiset<AtomId>)
    requires Released(r0, r1, b1) && Released(r1, r2, b2)
    requires (forall a :: a in b1 ==> a in r0) && (forall a :: a in b2 ==> a in r1)
    ensures Released(r0, r2, b1 + b2)
    ensures (forall a :: a in b1 + b2 ==> a in r0) && (AllLast(r0, b1 + b2) <==> AllLast(r0, b1) && AllLast(r1, b2))
  {
    if AllLast(r0, b1 + b2) {
      forall a | a in b1 ensures b1[a] == 1 && r0[a] == 1 { assert (b1 + b2)[a] == b1[a] + b2[a]; }
      forall a | a in b2 ensures b2[a] == 1 && r1[a] == 1 { assert (b1 + b2)[a] == b1[a] + b2[a]; }
    }
  }

  // ----- copying

  /** `sh'` is a copy of `sh` in new cells, and nothing else has changed. */
  ghost predicate Copied(c0: Heap, c1: Heap, sh: Shape, sh': Shape) {
    && Kept(c0, c1, []) && Reaches(c1, sh') && Tree(sh') && Plain(sh') == Plain(sh)
    && Addrs(sh') !! c0.Keys && c1.Keys == c0.Keys + Addrs(sh')
  }

  /** The atoms of the bag have got as many references more. */
  ghost predicate Gained(r0: map<AtomId, int>, r1: map<AtomId, int>, bag: multiset<AtomId>) {
    r1.Keys == r0.Keys && forall a :: a in r1 ==> r1[a] == r0[a] + bag[a]
  }

  ghost predicate ItemCopied(c0: Heap, c1: Heap, x: Item, y: Item) {
    if x.Sub? then y.Sub? && y.list.At? && Copied(c0, c1, x.list, y.list) else y == x && c1 == c0
  }

  function SubAtoms(x: Item): multiset<AtomId> { if x.Sub? then Atoms(x.list) else multiset{} }

  method LstDuplicate(m: Store, lst: Addr, ghost sh: Shape) returns (r: Addr, ghost sh': Shape)
    requires m.Valid() && lst == Root(sh) && Reaches(m.cells, sh)
    modifies m
    ensures m.Valid() && m.outside == old(m.outside) && r == Root(sh')
    ensures Copied(old(m.cells), m.cells, sh, sh') && Gained(old(m.nRefs), m.nRefs, Atoms(sh))
    decreases sh
  {
    r, sh' := NIL, Empty;
    if lst != NIL {
      ghost var c0, r0 := m.cells, m.nRefs;
      var dupCar, item := CopyCar(m, m.Car(lst), sh.car);
      ghost var c1, r1 := m.cells, m.nRefs;
      TailReached(c0, c1, sh, item);
      var rest, cdr := LstDuplicate(m, m.Cdr(lst), sh.cdr);
      ghost var c2, r2 := m.cells, m.nRefs;
      r := m.Cons(dupCar, rest);
      sh' := At(r, item, cdr);
      CopiedCell(c0, c1, c2, m.cells, sh, sh');
      GainedCell(r0, r1, r2, m.nRefs, sh, item);
    }
  }

  method CopyCar(m: Store, car: Core, ghost x: Item) returns (dupCar: Core, ghost y: Item)
    requires m.Valid() && car == ItemCore(x) && ItemReaches(m.cells, x) && m.Known(car)
    modifies m
    ensures m.Valid() && m.outside == old(m.outside) && dupCar == ItemCore(y) && m.Known(dupCar)
    ensures ItemCopied(old(m.cells), m.cells, x, y) && Gained(old(m.nRefs), m.nRefs, SubAtoms(x))
    decreases x
  {
    dupCar, y := car, x;
    if car.Lst? {
      var p, sh' := LstDuplicate(m, car.p, x.list);
      dupCar, y := Lst(p), Sub(sh');
    }
  }

  lemma TailReached(c0: Heap, c1: Heap, sh: Shape, y: Item)
    requires sh.At? && Reaches(c0, sh) && ItemCopied(c0, c1, sh.car, y)
    ensures Reaches(c1, sh.cdr) && sh.addr in c1 && c1[sh.addr] == c0[sh.addr]
  {
    ReachesIn(c0, sh.cdr);
    ReachesFrame(c0, c1, sh.cdr);
  }

  lemma CopiedCell(c0: Heap, c1: Heap, c2: Heap, c3: Heap, sh: Shape, sh': Shape)
    requires sh.At? && sh'.At? && ItemCopied(c0, c1, sh.car, sh'.car) && Copied(c1, c2, sh.cdr, sh'.cdr)
    requires sh'.addr != NIL && sh'.addr !in c2 && c3 == c2[sh'.addr := Cell(ItemCore(sh'.car), Root(sh'.cdr))]
    ensures Copied(c0, c3, sh, sh')
  {
    var y, d := sh'.car, sh'.cdr;
    ReachesIn(c2, d);
    ReachesFrame(c2, c3, d);
    if y.Sub? {
      ReachesIn(c1, y.list);
      ReachesFrame(c1, c3, y.list);
    }
  }

  lemma GainedCell(r0: map<AtomId, int>, r1: map<AtomId, int>, r2: map<AtomId, int>, r3: map<AtomId, int>, sh: Shape, y: Item)
    requires sh.At? && (if sh.car.Sub? then y.Sub? else y == sh.car)
    requires Gained(r0, r1, SubAtoms(sh.car)) && Gained(r1, r2, Atoms(sh.cdr)) && r3 == Bumped(r2, ItemCore(y), 1)
    ensures Gained(r0, r3, Atoms(sh))
  {
    if sh.car.Atom? && sh.car.id !in r2 {
      assert r3 == r2;
    }
  }

  // ----- destroying

  /** No null car, except where a list starts. */
  predicate Solid(sh: Shape) { sh.At? ==> ItemSolid(sh.car) && NoNulls(sh.cdr) }

  predicate NoNulls(sh: Shape) { sh.At? ==> sh.car != Null && ItemSolid(sh.car) && NoNulls(sh.cdr) }

  predicate ItemSolid(x: Item) { x.Sub? ==> Solid(x.list) }

  /** The references from outside to the atoms that are left. */
  ghost predicate SameOutside(o0: map<AtomId, nat>, o1: map<AtomId, nat>) {
    forall a :: a in o1 ==> a in o0 && o1[a] == o0[a]
  }

  /** What destroying a tree of cells that hold the atoms `bag` does. */
  ghost predicate Destroyed(c0: Heap, r0: map<AtomId, int>, c1: Heap, r1: map<AtomId, int>, addrs: set<Addr>,
                            bag: multiset<AtomId>, ok: bool)
  {
    && c1 == c0 - addrs && Released(r0, r1, bag)
    && (forall a :: a in bag ==> a in r0) && (ok <==> AllLast(r0, bag))
  }

  /** One cell, and what its car points at. */
  method DestroyCell(m: Store, p: Addr, ghost x: Item) returns (ok: bool)
    requires m.Valid() && p in m.cells && m.cells[p].car == ItemCore(x)
    requires ItemReaches(m.cells, x) && ItemTree(x) && ItemSolid(x) && p !in ItemAddrs(x)
    modifies m
    ensures m.Valid() && SameOutside(old(m.outside), m.outside)
    ensures Destroyed(old(m.cells), old(m.nRefs), m.cells, m.nRefs, {p} + ItemAddrs(x), ItemAtoms(x), ok)
    decreases x, 1
  {
    var first := m.Car(p);
    ghost var c0, r0 := m.cells, m.nRefs;
    m.Delete(p);
    ghost var c1, r1 := m.cells, m.nRefs;
    match first {
      case Nil =>
        ok := true;
        NothingHeld(c0, r0, c1, r1, p);
      case Atm(a) =>
        ok := m.DestroyAtom(a);
        AtomDestroyed(c0, r0, c1, m.nRefs, p, a, ok);
      case Lst(q) =>
        RestReached(c0, c1, x.list, {p});
        NothingHeld(c0, r0, c1, r1, p);
        ok := Destroy(m, q, x.list);
        DestroyedBoth(c0, r0, c1, r1, m.cells, m.nRefs, {p}, multiset{}, true, Addrs(x.list), Atoms(x.list), ok);
    }
  }

  lemma NothingHeld(c0: Heap, r0: map<AtomId, int>, c1: Heap, r1: map<AtomId, int>, p: Addr)
    requires c1 == c0 - {p} && r1 == r0
    ensures Destroyed(c0, r0, c1, r1, {p}, multiset{}, true)
    ensures {p} + {} == {p}
  {}

  lemma AtomDestroyed(c0: Heap, r0: map<AtomId, int>, c1: Heap, r1: map<AtomId, int>, p: Addr, a: AtomId, gone: bool)
    requires c1 == c0 - {p} && a in r0 && gone == (r0[a] == 1)
    requires r1 == var r := Bumped(r0, Atm(a), -1); if gone then r - {a} else r
    ensures Destroyed(c0, r0, c1, r1, {p} + {}, multiset{a}, gone)
  {
    assert {p} + {} == {p};
  }

  method Destroy(m: Store, p: Addr, ghost sh: Shape) returns (ok: bool)
    requires m.Valid() && sh.At? && p == sh.addr && Reaches(m.cells, sh) && Tree(sh) && Solid(sh)
    modifies m
    ensures m.Valid() && SameOutside(old(m.outside), m.outside)
    ensures Destroyed(old(m.cells), old(m.nRefs), m.cells, m.nRefs, Addrs(sh), Atoms(sh), ok)
    decreases sh, 2
  {
    ghost var c0, r0 := m.cells, m.nRefs;
    var rest := m.Cdr(p);
    ok := DestroyCell(m, p, sh.car);
    ghost var c1, r1, addrs := m.cells, m.nRefs, {p} + ItemAddrs(sh.car);
    RestReached(c0, c1, sh.cdr, addrs);
    var fine := DestroyRest(m, rest, sh.cdr);
    DestroyedBoth(c0, r0, c1, r1, m.cells, m.nRefs, addrs, ItemAtoms(sh.car), ok, Addrs(sh.cdr), Atoms(sh.cdr), fine);
    ok := ok && fine;
  }

  method DestroyRest(m: Store, p: Addr, ghost sh: Shape) returns (ok: bool)
    requires m.Valid() && p == Root(sh) && Reaches(m.cells, sh) && Tree(sh) && NoNulls(sh)
    modifies m
    ensures m.Valid() && SameOutside(old(m.outside), m.outside)
    ensures Destroyed(old(m.cells), old(m.nRefs), m.cells, m.nRefs, Addrs(sh), Atoms(sh), ok)
    decreases sh, 3
  {
    ok := true;
    var rest := p;
    ghost var c0, r0 := m.cells, m.nRefs;
    ghost var left, gone, bag: multiset<AtomId> := sh, {}, multiset{};
    assert DestroyedUpTo(c0, r0, c0, r0, sh, sh, gone, bag, ok);
    while rest != NIL
      invariant m.Valid() && SameOutside(old(m.outside), m.outside)
      invariant rest == Root(left) && Reaches(m.cells, left) && Tree(left) && NoNulls(left)
      invariant left == sh || left < sh
      invariant DestroyedUpTo(c0, r0, m.cells, m.nRefs, sh, left, gone, bag, ok)
      decreases left
    {
      ghost var c1, r1, x, addrs := m.cells, m.nRefs, left.car, {rest} + ItemAddrs(left.car);
      var rest_ := m.Cdr(rest);
      var fine := DestroyCell(m, rest, x);
      DestroyStep(c0, r0, c1, r1, m.cells, m.nRefs, sh, left, gone, bag, ok, fine);
      RestReached(c1, m.cells, left.cdr, addrs);
      ok := ok && fine;
      gone, bag, left := gone + addrs, bag + ItemAtoms(x), left.cdr;
      rest := rest_;
    }
    AllDestroyed(c0, r0, m.cells, m.nRefs, sh, gone, bag, ok);
  }

  /** The cells of `sh` in front of `left` are destroyed. */
  ghost predicate DestroyedUpTo(c0: Heap, r0: map<AtomId, int>, c1: Heap, r1: map<AtomId, int>, sh: Shape, left: Shape,
                                gone: set<Addr>, bag: multiset<AtomId>, ok: bool)
  {
    && gone + Addrs(left) == Addrs(sh) && bag + Atoms(left) == Atoms(sh)
    && Destroyed(c0, r0, c1, r1, gone, bag, ok)
  }

  lemma DestroyStep(c0: Heap, r0: map<AtomId, int>, c1: Heap, r1: map<AtomId, int>, c2: Heap, r2: map<AtomId, int>,
                    sh: Shape, left: Shape, gone: set<Addr>, bag: multiset<AtomId>, ok: bool, fine: bool)
    requires left.At? && DestroyedUpTo(c0, r0, c1, r1, sh, left, gone, bag, ok)
    requires Destroyed(c1, r1, c2, r2, {left.addr} + ItemAddrs(left.car), ItemAtoms(left.car), fine)
    ensures DestroyedUpTo(c0, r0, c2, r2, sh, left.cdr, gone + ({left.addr} + ItemAddrs(left.car)),
                          bag + ItemAtoms(left.car), ok && fine)
  {
    DestroyedBoth(c0, r0, c1, r1, c2, r2, gone, bag, ok, {left.addr} + ItemAddrs(left.car), ItemAtoms(left.car), fine);
  }

  lemma AllDestroyed(c0: Heap, r0: map<AtomId, int>, c1: Heap, r1: map<AtomId, int>, sh: Shape, gone: set<Addr>,
                     bag: multiset<AtomId>, ok: bool)
    requires DestroyedUpTo(c0, r0, c1, r1, sh, Empty, gone, bag, ok)
    ensures Destroyed(c0, r0, c1, r1, Addrs(sh), Atoms(sh), ok)
  {
    assert gone == Addrs(sh) && bag == Atoms(sh);
  }

  lemma RestReached(c0: Heap, c1: Heap, sh: Shape, gone: set<Addr>)
    requires Reaches(c0, sh) && Addrs(sh) !! gone && forall q :: q in c0 && q !in gone ==> q in c1 && c1[q] == c0[q]
    ensures Reaches(c1, sh)
  {
    ReachesIn(c0, sh);
    ReachesFrame(c0, c1, sh);
  }

  lemma DestroyedBoth(c0: Heap, r0: map<AtomId, int>, c1: Heap, r1: map<AtomId, int>, c2: Heap, r2: map<AtomId, int>,
                      g1: set<Addr>, b1: multiset<AtomId>, ok1: bool, g2: set<Addr>, b2: multiset<AtomId>, ok2: bool)
    requires Destroyed(c0, r0, c1, r1, g1, b1, ok1) && Destroyed(c1, r1, c2, r2, g2, b2, ok2)
    ensures Destroyed(c0, r0, c2, r2, g1 + g2, b1 + b2, ok1 && ok2)
  {
    ReleasedBoth(r0, r1, r2, b1, b2);
  }

  /** Destroying a fresh copy undoes making it: every count is what it was. */
  lemma DestroyUndoesDuplicate(c0: Heap, r0: map<AtomId, int>, c1: Heap, r1: map<AtomId, int>, c2: Heap, r2: map<AtomId, int>,
                               sh: Shape, sh': Shape, ok: bool)
    requires Copied(c0, c1, sh, sh') && Gained(r0, r1, Atoms(sh))
    requires Destroyed(c1, r1, c2, r2, Addrs(sh'), Atoms(sh'), ok)
    requires forall a :: a in Atoms(sh) ==> a in r0 && r0[a] > 0
    ensures c2 == c0 && r2 == r0
  {
    PlainAtoms(sh', sh);
    CountsUndone(r0, r1, r2, Atoms(sh));
    CellsUndone(c0, c1, c2, Addrs(sh'));
  }

  lemma CellsUndone(c0: Heap, c1: Heap, c2: Heap, addrs: set<Addr>)
    requires Kept(c0, c1, []) && c1.Keys == c0.Keys + addrs && addrs !! c0.Keys && c2 == c1 - addrs
    ensures c2 == c0
  {
    assert c2.Keys == c0.Keys;
  }

  lemma CountsUndone(r0: map<AtomId, int>, r1: map<AtomId, int>, r2: map<AtomId, int>, bag: multiset<AtomId>)
    requires Gained(r0, r1, bag) && Released(r1, r2, bag) && forall a :: a in bag ==> a in r0 && r0[a] > 0
    ensures r2 == r0
  {
    forall a ensures a in r2 <==> a in r0 {
      if bag[a] > 0 { assert a in bag; }
    }
  }

  /** A copy holds the same atoms. */
  lemma {:induction false} PlainAtoms(sh: Shape, sh': Shape)
    requires Plain(sh) == Plain(sh')
    ensures Atoms(sh) == Atoms(sh')
  {
    if sh.At? {
      PlainAtoms(sh.cdr, sh'.cdr);
      if sh.car.Sub? { PlainAtoms(sh.car.list, sh'.car.list); }
    }
  }

  // ----- destroying the front of a list

  function Until(sh: Shape, last: Addr): Shape {
    if sh.Empty? || sh.addr == last then sh else Until(sh.cdr, last)
  }

  function FrontAddrs(sh: Shape, last: Addr): set<Addr> {
    if sh.Empty? || sh.addr == last then {} else {sh.addr} + ItemAddrs(sh.car) + FrontAddrs(sh.cdr, last)
  }

  function FrontAtoms(sh: Shape, last: Addr): multiset<AtomId> {
    if sh.Empty? || sh.addr == last then multiset{} else ItemAtoms(sh.car) + FrontAtoms(sh.cdr, last)
  }

  predicate SolidCars(sh: Shape) { sh.At? ==> ItemSolid(sh.car) && SolidCars(sh.cdr) }

  /** The cells of `sh` in front of `left` are destroyed, on the way to `last`. */
  ghost predicate FrontDestroyed(c0: Heap, r0: map<AtomId, int>, c1: Heap, r1: map<AtomId, int>, sh: Shape, last: Addr,
                                 left: Shape, gone: set<Addr>, bag: multiset<AtomId>, ok: bool)
  {
    && Until(left, last) == Until(sh, last)
    && gone + FrontAddrs(left, last) == FrontAddrs(sh, last) && bag + FrontAtoms(left, last) == FrontAtoms(sh, last)
    && Destroyed(c0, r0, c1, r1, gone, bag, ok)
  }

  /** Cells are destroyed up to the cell `last`, which stays with those behind. */
  method LstDestroyUntil(m: Store, lst0: Addr, last: Addr, ghost sh: Shape) returns (lst: Addr, ghost ok: bool)
    requires m.Valid() && lst0 == Root(sh) && Reaches(m.cells, sh) && Tree(sh) && SolidCars(sh)
    modifies m
    ensures m.Valid() && SameOutside(old(m.outside), m.outside)
    ensures lst == Root(Until(sh, last)) && Reaches(m.cells, Until(sh, last))
    ensures Destroyed(old(m.cells), old(m.nRefs), m.cells, m.nRefs, FrontAddrs(sh, last), FrontAtoms(sh, last), ok)
  {
    lst, ok := lst0, true;
    ghost var c0, r0 := m.cells, m.nRefs;
    ghost var left, gone, bag: multiset<AtomId> := sh, {}, multiset{};
    assert FrontDestroyed(c0, r0, c0, r0, sh, last, sh, gone, bag, ok);
    while lst != NIL && lst != last
      invariant m.Valid() && SameOutside(old(m.outside), m.outside)
      invariant lst == Root(left) && Reaches(m.cells, left) && Tree(left) && SolidCars(left)
      invariant FrontDestroyed(c0, r0, m.cells, m.nRefs, sh, last, left, gone, bag, ok)
      decreases left
    {
      ghost var c1, r1, x, addrs := m.cells, m.nRefs, left.car, {lst} + ItemAddrs(left.car);
      var next := m.Cdr(lst);
      var fine := DestroyCell(m, lst, x);
      FrontStep(c0, r0, c1, r1, m.cells, m.nRefs, sh, last, left, gone, bag, ok, fine);
      RestReached(c1, m.cells, left.cdr, addrs);
      ok := ok && fine;
      gone, bag, left := gone + addrs, bag + ItemAtoms(x), left.cdr;
      lst := next;
    }
    FrontDone(c0, r0, m.cells, m.nRefs, sh, last, left, gone, bag, ok);
  }

  lemma FrontStep(c0: Heap, r0: map<AtomId, int>, c1: Heap, r1: map<AtomId, int>, c2: Heap, r2: map<AtomId, int>,
                  sh: Shape, last: Addr, left: Shape, gone: set<Addr>, bag: multiset<AtomId>, ok: bool, fine: bool)
    requires left.At? && left.addr != last && FrontDestroyed(c0, r0, c1, r1, sh, last, left, gone, bag, ok)
    requires Destroyed(c1, r1, c2, r2, {left.addr} + ItemAddrs(left.car), ItemAtoms(left.car), fine)
    ensures FrontDestroyed(c0, r0, c2, r2, sh, last, left.cdr, gone + ({left.addr} + ItemAddrs(left.car)),
                           bag + ItemAtoms(left.car), ok && fine)
  {
    DestroyedBoth(c0, r0, c1, r1, c2, r2, gone, bag, ok, {left.addr} + ItemAddrs(left.car), ItemAtoms(left.car), fine);
  }

  lemma FrontDone(c0: Heap, r0: map<AtomId, int>, c1: Heap, r1: map<AtomId, int>, sh: Shape, last: Addr, left: Shape,
                  gone: set<Addr>, bag: multiset<AtomId>, ok: bool)
    requires FrontDestroyed(c0, r0, c1, r1, sh, last, left, gone, bag, ok) && (left.Empty? || left.addr == last)
    ensures left == Until(sh, last) && Destroyed(c0, r0, c1, r1, FrontAddrs(sh, last), FrontAtoms(sh, last), ok)
  {
    assert gone == FrontAddrs(sh, last) && bag == FrontAtoms(sh, last);
  }

  // ----- concatenating

  /** The cells of the top level, and what their cars point at. */
  function Spine(sh: Shape): seq<Addr> { if sh.Empty? then [] else [sh.addr] + Spine(sh.cdr) }

  function Tops(sh: Shape): seq<Core> { if sh.Empty? then [] else [ItemCore(sh.car)] + Tops(sh.cdr) }

  lemma {:induction false} SpineIn(cells: Heap, sh: Shape)
    requires Reaches(cells, sh)
    ensures forall q :: q in Spine(sh) ==> q in Addrs(sh) && q in cells
  {
    if sh.At? { SpineIn(cells, sh.cdr); }
  }

  /** What is reachable from an address is one structure only. */
  lemma {:induction false} OneShape(cells: Heap, a: Shape, b: Shape)
    requires Reaches(cells, a) && Reaches(cells, b) && Root(a) == Root(b)
    ensures a == b
  {
    if a.At? && b.At? {
      OneShape(cells, a.cdr, b.cdr);
      if a.car.Sub? { OneShape(cells, a.car.list, b.car.list); }
    }
  }

  lemma {:induction false} NotBehind(cells: Heap, sh: Shape, d: Shape)
    requires Reaches(cells, sh) && Reaches(cells, d) && sh.At? && |Spine(d)| < |Spine(sh)|
    ensures sh.addr !in Spine(d)
  {
    if d.At? {
      if d.addr == sh.addr { OneShape(cells, sh, d); }
      NotBehind(cells, sh, d.cdr);
    }
  }

  /** A finite structure has no cycle. */
  lemma {:induction false} SpineIsList(cells: Heap, sh: Shape)
    requires Reaches(cells, sh)
    ensures ListAt(cells, Root(sh), Spine(sh), Tops(sh))
  {
    if sh.At? {
      SpineIsList(cells, sh.cdr);
      SpineIn(cells, sh);
      NotBehind(cells, sh, sh.cdr);
      assert Spine(sh)[1..] == Spine(sh.cdr);
    }
  }

  lemma {:induction false} OneChain(cells: Heap, p: Addr, a: seq<Addr>, b: seq<Addr>)
    requires IsChain(cells, p, a) && IsChain(cells, p, b)
    ensures a == b
    decreases |a|
  {
    if a != [] && b != [] {
      OneChain(cells, cells[p].cdr, a[1..], b[1..]);
      assert a == [p] + a[1..] && b == [p] + b[1..];
    }
  }

  lemma Behind(cells: Heap, p: Addr, path: seq<Addr>, k: nat)
    requires IsChain(cells, p, path) && k < |path|
    ensures IsChain(cells, path[k], path[k..])
  {
    assert path == path[..k] + path[k..];
    var q := LeadsSplit(cells, p, path[..k], path[k..], NIL);
  }

  /** Lists that share a cell share all cells from there on. */
  lemma ShareEnd(cells: Heap, p: Addr, a: seq<Addr>, q: Addr, b: seq<Addr>, x: Addr)
    requires IsChain(cells, p, a) && IsChain(cells, q, b) && x in a && x in b
    ensures Shared(a, b)
  {
    var i :| 0 <= i < |a| && a[i] == x;
    var j :| 0 <= j < |b| && b[j] == x;
    Behind(cells, p, a, i);
    Behind(cells, q, b, j);
    OneChain(cells, x, a[i..], b[j..]);
    assert a[|a| - 1] == a[i..][|a| - 1 - i] && b[|b| - 1] == b[j..][|b| - 1 - j];
  }

  /** The second list is linked behind the first; a list behind itself is copied
      first.  Linking a list behind one that ends in the same cells closes a
      cycle. */
  method LstConcat(m: Store, lstA: Addr, lstB: Addr, ghost a: Shape, ghost b: Shape) returns (r: Addr, ghost t: Shape)
    requires m.Valid() && lstA == Root(a) && lstB == Root(b) && Reaches(m.cells, a) && Reaches(m.cells, b)
    modifies m
    ensures m.Valid() && m.outside == old(m.outside) && Kept(old(m.cells), m.cells, Spine(a))
    ensures r == if a.Empty? then lstB else lstA
    ensures if a == b && a.At? then Plain(t) == Plain(a) && Addrs(t) !! old(m.cells).Keys else t == b
    ensures a == b || !Shared(Spine(a), Spine(b)) ==> ListAt(m.cells, r, Spine(a) + Spine(t), Tops(a) + Tops(t))
    ensures a != b && Shared(Spine(a), Spine(b)) ==>
      Leads(m.cells, lstA, Spine(a), lstB) && Leads(m.cells, lstB, Spine(b), lstB)
  {
    ghost var c0 := m.cells;
    SpineIsList(c0, a);
    SpineIsList(c0, b);
    var lastCons := LstLastCdr(m, lstA, Spine(a));
    r, t := lstA, b;
    if lastCons == NIL {
      r := lstB;
      assert Spine(a) + Spine(b) == Spine(b) && Tops(a) + Tops(b) == Tops(b);
    } else if lstA == lstB {
      OneShape(c0, a, b);
      t := LinkCopy(m, lstA, lastCons, a);
    } else {
      LinkOther(m, lstA, lastCons, lstB, a, b);
    }
  }

  /** A copy of the list behind itself. */
  method LinkCopy(m: Store, lstA: Addr, last: Addr, ghost a: Shape) returns (ghost t: Shape)
    requires m.Valid() && lstA == Root(a) && a.At? && Reaches(m.cells, a) && last == Spine(a)[|Spine(a)| - 1]
    modifies m
    ensures m.Valid() && m.outside == old(m.outside) && Kept(old(m.cells), m.cells, Spine(a))
    ensures Plain(t) == Plain(a) && Addrs(t) !! old(m.cells).Keys
    ensures ListAt(m.cells, lstA, Spine(a) + Spine(t), Tops(a) + Tops(t))
  {
    ghost var c0 := m.cells;
    SpineIsList(c0, a);
    var tail;
    tail, t := LstDuplicate(m, lstA, a);
    ghost var c1 := m.cells;
    SpineIn(c0, a);
    SpineIn(c1, t);
    ChainKept(c0, c1, lstA, Spine(a), Tops(a));
    SpineIsList(c1, t);
    m.PutCdr(last, tail);
    Concatenated(c1, m.cells, lstA, Spine(a), Tops(a), tail, Spine(t), Tops(t));
  }

  method LinkOther(m: Store, lstA: Addr, last: Addr, lstB: Addr, ghost a: Shape, ghost b: Shape)
    requires m.Valid() && lstA == Root(a) && lstB == Root(b) && a.At? && last == Spine(a)[|Spine(a)| - 1]
    requires Reaches(m.cells, a) && Reaches(m.cells, b)
    modifies m
    ensures m.Valid() && m.outside == old(m.outside) && Kept(old(m.cells), m.cells, Spine(a))
    ensures !Shared(Spine(a), Spine(b)) ==> ListAt(m.cells, lstA, Spine(a) + Spine(b), Tops(a) + Tops(b))
    ensures Shared(Spine(a), Spine(b)) ==>
      Leads(m.cells, lstA, Spine(a), lstB) && Leads(m.cells, lstB, Spine(b), lstB)
  {
    ghost var c0 := m.cells;
    SpineIsList(c0, a);
    SpineIsList(c0, b);
    SpineIn(c0, a);
    m.PutCdr(last, lstB);
    Relinked(c0, m.cells, lstA, Spine(a), lstB);
    if Shared(Spine(a), Spine(b)) {
      ChainEnds(c0, lstA, Spine(a));
      EndOfChain(c0, lstB, Spine(b), last);
      Relinked(c0, m.cells, lstB, Spine(b), lstB);
    } else {
      forall x | x in Spine(a) ensures x !in Spine(b) {
        if x in Spine(b) { ShareEnd(c0, lstA, Spine(a), lstB, Spine(b), x); }
      }
      Concatenated(c0, m.cells, lstA, Spine(a), Tops(a), lstB, Spine(b), Tops(b));
    }
  }

  lemma ChainKept(c0: Heap, c1: Heap, p: Addr, path: seq<Addr>, s: seq<Core>)
    requires ListAt(c0, p, path, s) && Kept(c0, c1, [])
    ensures ListAt(c1, p, path, s)
  {
    LeadsFrame(c0, c1, p, path, NIL);
    CarsFrame(c0, c1, path);
  }

  /** A list whose last cell is linked to `q` leads there. */
  lemma Relinked(c1: Heap, c2: Heap, p: Addr, path: seq<Addr>, q: Addr)
    requires IsChain(c1, p, path) && path != [] && path[|path| - 1] in c1
    requires c2 == c1[path[|path| - 1] := Cell(c1[path[|path| - 1]].car, q)]
    ensures Leads(c2, p, path, q)
  {
    var l, last := path[..|path| - 1], path[|path| - 1];
    assert path == l + [last];
    var x := LeadsSplit(c1, p, l, [last], NIL);
    LeadsIn(c1, p, l, x);
    LeadsFrame(c1, c2, p, l, last);
    assert [last][1..] == [] && Leads(c2, q, [], q);
    assert Leads(c2, last, [last], q);
    LeadsJoin(c2, p, l, last, [last], q);
  }

  lemma Concatenated(c1: Heap, c2: Heap, p: Addr, path: seq<Addr>, s: seq<Core>, q: Addr, path': seq<Addr>, s': seq<Core>)
    requires ListAt(c1, p, path, s) && ListAt(c1, q, path', s') && path != [] && forall x :: x in path ==> x !in path'
    requires c2 == c1[path[|path| - 1] := Cell(c1[path[|path| - 1]].car, q)]
    ensures ListAt(c2, p, path + path', s + s')
  {
    Relinked(c1, c2, p, path, q);
    LeadsFrame(c1, c2, q, path', NIL);
    LeadsJoin(c2, p, path, q, path', NIL);
    CarsFrame(c1, c2, path);
    CarsFrame(c1, c2, path');
    CarsConcat(c2, path, path');
  }
}
