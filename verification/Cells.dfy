/** Memory holding list cells and atoms: chains of cells, and how many cells
    point at an atom. */
module Cells {
  /** The address of a list cell; 0 is the null pointer. */
  type Addr = nat

  const NIL: Addr := 0

  type AtomId = nat

  /** What a car points at. */
  datatype Core = Nil | Atm(id: AtomId) | Lst(p: Addr)

  datatype Cell = Cell(car: Core, cdr: Addr)

  type Heap = map<Addr, Cell>

  // ----- chains

  /** Following cdrs from `p` visits the cells `path` once each and leads to `q`. */
  predicate Leads(cells: Heap, p: Addr, path: seq<Addr>, q: Addr)
    decreases |path|
  {
    if path == [] then p == q
    else p == path[0] && p != NIL && p in cells && p !in path[1..] && Leads(cells, cells[p].cdr, path[1..], q)
  }

  /** A proper list: it ends, and no cell occurs twice. */
  predicate IsChain(cells: Heap, p: Addr, path: seq<Addr>) { Leads(cells, p, path, NIL) }

  function Cars(cells: Heap, path: seq<Addr>): (s: seq<Core>)
    requires forall q :: q in path ==> q in cells
    ensures |s| == |path|
  {
    if path == [] then [] else [cells[path[0]].car] + Cars(cells, path[1..])
  }

  lemma {:induction false} LeadsIn(cells: Heap, p: Addr, path: seq<Addr>, q: Addr)
    requires Leads(cells, p, path, q)
    ensures forall x :: x in path ==> x in cells && x != NIL
    decreases |path|
  {
    if path != [] {
      LeadsIn(cells, cells[p].cdr, path[1..], q);
      forall x | x in path ensures x in cells && x != NIL {
        if x != path[0] { assert x in path[1..]; }
      }
    }
  }

  lemma {:induction false} LeadsFrame(c1: Heap, c2: Heap, p: Addr, path: seq<Addr>, q: Addr)
    requires Leads(c1, p, path, q) && forall x :: x in path ==> x in c1 && x in c2 && c2[x].cdr == c1[x].cdr
    ensures Leads(c2, p, path, q)
    decreases |path|
  {
    if path != [] { LeadsFrame(c1, c2, c1[p].cdr, path[1..], q); }
  }

  lemma {:induction false} LeadsJoin(cells: Heap, p: Addr, a: seq<Addr>, q: Addr, b: seq<Addr>, r: Addr)
    requires Leads(cells, p, a, q) && Leads(cells, q, b, r) && forall x :: x in a ==> x !in b
    ensures Leads(cells, p, a + b, r)
    decreases |a|
  {
    if a == [] {
      assert a + b == b;
    } else {
      LeadsJoin(cells, cells[p].cdr, a[1..], q, b, r);
      assert (a + b)[1..] == a[1..] + b;
    }
  }

  /** Where a chain stands after its first cells. */
  lemma {:induction false} LeadsSplit(cells: Heap, p: Addr, a: seq<Addr>, b: seq<Addr>, r: Addr) returns (q: Addr)
    requires Leads(cells, p, a + b, r)
    ensures Leads(cells, p, a, q) && Leads(cells, q, b, r) && forall x :: x in a ==> x !in b
    decreases |a|
  {
    if a == [] {
      assert a + b == b;
      q := p;
    } else {
      assert (a + b)[1..] == a[1..] + b;
      q := LeadsSplit(cells, cells[p].cdr, a[1..], b, r);
    }
  }

  lemma {:induction false} CarsFrame(c1: Heap, c2: Heap, path: seq<Addr>)
    requires forall x :: x in path ==> x in c1 && x in c2 && c2[x].car == c1[x].car
    ensures Cars(c1, path) == Cars(c2, path)
  {
    if path != [] { CarsFrame(c1, c2, path[1..]); }
  }

  lemma {:induction false} CarsConcat(cells: Heap, a: seq<Addr>, b: seq<Addr>)
    requires forall x :: x in a + b ==> x in cells
    ensures (forall x :: x in a ==> x in cells) && (forall x :: x in b ==> x in cells)
    ensures Cars(cells, a + b) == Cars(cells, a) + Cars(cells, b)
  {
    assert forall x :: x in a ==> x in a + b;
    assert forall x :: x in b ==> x in a + b;
    if a == [] {
      assert a + b == b;
    } else {
      assert (a + b)[1..] == a[1..] + b;
      CarsConcat(cells, a[1..], b);
    }
  }

  // ----- references from cells

  ghost function Holders(cells: Heap, a: AtomId): set<Addr> { set p | p in cells && cells[p].car == Atm(a) }

  ghost function Held(cells: Heap, a: AtomId): nat { |Holders(cells, a)| }

  function One(c: Core, a: AtomId): nat { if c == Atm(a) then 1 else 0 }

  lemma HeldAdd(cells: Heap, p: Addr, c: Cell, a: AtomId)
    requires p !in cells
    ensures Held(cells[p := c], a) == Held(cells, a) + One(c.car, a)
  {
    if c.car == Atm(a) {
      assert Holders(cells[p := c], a) == Holders(cells, a) + {p};
    } else {
      assert Holders(cells[p := c], a) == Holders(cells, a);
    }
  }

  lemma HeldRemove(cells: Heap, p: Addr, a: AtomId)
    requires p in cells
    ensures Held(cells, a) == Held(cells - {p}, a) + One(cells[p].car, a)
  {
    if cells[p].car == Atm(a) {
      assert Holders(cells, a) == Holders(cells - {p}, a) + {p};
    } else {
      assert Holders(cells, a) == Holders(cells - {p}, a);
    }
  }

  lemma HeldUpdate(cells: Heap, p: Addr, c: Cell, a: AtomId)
    requires p in cells
    ensures Held(cells[p := c], a) == Held(cells, a) - One(cells[p].car, a) + One(c.car, a)
  {
    var rest := cells - {p};
    HeldRemove(cells, p, a);
    HeldAdd(rest, p, c, a);
    assert cells[p := c] == rest[p := c];
  }

  /** An atom that some cell holds has a positive count. */
  lemma HeldPositive(cells: Heap, p: Addr, a: AtomId)
    requires p in cells && cells[p].car == Atm(a)
    ensures Held(cells, a) > 0
  {
    assert p in Holders(cells, a);
  }
}
