/** The memory that lists live in: allocated cells and atoms with their
    reference counts.  Only what is allocated can be read, written or freed. */
module Memory {
  import opened Cells

  function Bumped(refs: map<AtomId, int>, c: Core, step: int): (r: map<AtomId, int>)
    ensures r.Keys == refs.Keys
    ensures forall a :: a in refs ==> r[a] == refs[a] + step * One(c, a)
  {
    if c.Atm? && c.id in refs then refs[c.id := refs[c.id] + step] else refs
  }

  class Store {
    var cells: Heap
    /** `nRefs_` of each allocated atom. */
    var nRefs: map<AtomId, int>
    /** The references to atoms that do not come from cells. */
    ghost var outside: map<AtomId, nat>
    var top: Addr

    /** Every atom counts the references from outside and the cells that hold
        it; no cell holds an atom that is gone. */
    ghost predicate Valid()
      reads this
    {
      && top > 0 && outside.Keys == nRefs.Keys
      && (forall p :: p in cells ==> p < top) && NIL !in cells
      && (forall p :: p in cells && cells[p].car.Atm? ==> cells[p].car.id in nRefs)
      && (forall a {:trigger Held(cells, a)} :: a in nRefs ==> nRefs[a] == outside[a] + Held(cells, a))
    }

    constructor ()
      ensures Valid() && cells == map[] && nRefs == map[]
    {
      cells, nRefs, outside, top := map[], map[], map[], 1;
    }

    ghost predicate Known(c: Core)
      reads this
    {
      c.Atm? ==> c.id in nRefs
    }

    /** `new BList(a, b)`: the atom is counted. */
    method Cons(a: Core, b: Addr) returns (p: Addr)
      requires Valid() && Known(a)
      modifies this
      ensures Valid() && outside == old(outside)
      ensures p != NIL && p !in old(cells) && cells == old(cells)[p := Cell(a, b)]
      ensures nRefs == Bumped(old(nRefs), a, 1)
    {
      p := top;
      forall x | x in nRefs ensures Held(cells[p := Cell(a, b)], x) == Held(cells, x) + One(a, x) {
        HeldAdd(cells, p, Cell(a, b), x);
      }
      cells := cells[p := Cell(a, b)];
      nRefs := Bumped(nRefs, a, 1);
      top := top + 1;
    }

    /** `delete`: the atom is no longer counted, but stays. */
    method Delete(p: Addr)
      requires Valid() && p in cells
      modifies this
      ensures Valid() && outside == old(outside)
      ensures cells == old(cells) - {p} && nRefs == Bumped(old(nRefs), old(cells)[p].car, -1)
    {
      var car := cells[p].car;
      forall x | x in nRefs ensures Held(cells, x) == Held(cells - {p}, x) + One(car, x) {
        HeldRemove(cells, p, x);
      }
      cells := cells - {p};
      nRefs := Bumped(nRefs, car, -1);
    }

    method PutCar(p: Addr, c: Core)
      requires Valid() && p in cells && Known(c)
      modifies this
      ensures Valid() && outside == old(outside)
      ensures cells == old(cells)[p := Cell(c, old(cells)[p].cdr)]
      ensures nRefs == Bumped(Bumped(old(nRefs), old(cells)[p].car, -1), c, 1)
    {
      var cell := Cell(c, cells[p].cdr);
      forall x | x in nRefs ensures Held(cells[p := cell], x) == Held(cells, x) - One(cells[p].car, x) + One(c, x) {
        HeldUpdate(cells, p, cell, x);
      }
      nRefs := Bumped(nRefs, cells[p].car, -1);
      cells := cells[p := cell];
      nRefs := Bumped(nRefs, c, 1);
    }

    method PutCdr(p: Addr, b: Addr)
      requires Valid() && p in cells
      modifies this
      ensures Valid() && outside == old(outside) && nRefs == old(nRefs)
      ensures cells == old(cells)[p := Cell(old(cells)[p].car, b)]
    {
      var cell := Cell(cells[p].car, b);
      forall x | x in nRefs ensures Held(cells[p := cell], x) == Held(cells, x) {
        HeldUpdate(cells, p, cell, x);
      }
      cells := cells[p := cell];
    }

    function Car(p: Addr): Core
      reads this
      requires p == NIL || p in cells
    {
      if p == NIL then Nil else cells[p].car
    }

    function Cdr(p: Addr): Addr
      reads this
      requires p == NIL || p in cells
    {
      if p == NIL then NIL else cells[p].cdr
    }

    /** An atom goes when nothing refers to it. */
    method DestroyAtom(a: AtomId) returns (gone: bool)
      requires Valid() && a in nRefs
      modifies this`nRefs, this`outside
      ensures Valid() && gone == (old(nRefs)[a] == 0)
      ensures nRefs == if gone then old(nRefs) - {a} else old(nRefs)
      ensures outside == if gone then old(outside) - {a} else old(outside)
    {
      gone := nRefs[a] == 0;
      if gone {
        forall p | p in cells && cells[p].car == Atm(a) ensures false {
          HeldPositive(cells, p, a);
        }
        nRefs := nRefs - {a};
        outside := outside - {a};
      }
    }
  }
}
