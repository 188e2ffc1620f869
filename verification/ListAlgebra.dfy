/** The list operations, in place on the cells of a store.  A ghost path names
    the cells of a list in order; cells of no path given stay as they are. */
module ListAlgebra {
  import opened Cells
  import opened Memory
  import opened ListSpecs
  import opened Glob
  import opened StringMatch

  /** `path` is the list at `p`, with the cars `s`. */
  ghost predicate ListAt(cells: Heap, p: Addr, path: seq<Addr>, s: seq<Core>) {
    IsChain(cells, p, path) && (forall q :: q in path ==> q in cells) && Cars(cells, path) == s
  }

  /** Cells outside `path` are untouched. */
  ghost predicate Kept(c1: Heap, c2: Heap, path: seq<Addr>) {
    forall q :: q in c1 && q !in path ==> q in c2 && c2[q] == c1[q]
  }

  // ----- looking

  /** The cell whose car is `c`, and the cells from there on. */
  method LstFind(m: Store, lst: Addr, c: Core, ghost path: seq<Addr>, ghost s: seq<Core>)
    returns (at: Addr, ghost k: nat)
    requires ListAt(m.cells, lst, path, s)
    ensures k <= |path| && at == (if k < |path| then path[k] else NIL)
    ensures c !in s[..k] && (k < |s| ==> s[k] == c)
    ensures at != NIL <==> c in s
  {
    at, k := lst, 0;
    LeadsIn(m.cells, lst, path, NIL);
    while at != NIL && m.Car(at) != c
      invariant k <= |path| && Leads(m.cells, at, path[k..], NIL)
      invariant Cars(m.cells, path[k..]) == s[k..]
      invariant c !in s[..k]
      decreases |path| - k
    {
      assert path[k..][1..] == path[k + 1..] && s[k..][1..] == s[k + 1..];
      assert s[..k + 1] == s[..k] + [s[k]];
      at := m.Cdr(at);
      k := k + 1;
    }
    if at == NIL { assert k == |path| && s[..k] == s; } else { assert path[k..][0] == path[k] && s[k..][0] == s[k]; }
  }

  method LstLastCdr(m: Store, lst: Addr, ghost path: seq<Addr>) returns (last: Addr)
    requires IsChain(m.cells, lst, path)
    ensures last == if path == [] then NIL else path[|path| - 1]
  {
    last := lst;
    if last != NIL {
      ghost var k := 0;
      LeadsIn(m.cells, lst, path, NIL);
      while m.Cdr(last) != NIL
        invariant k < |path| && last == path[k] && Leads(m.cells, last, path[k..], NIL)
        decreases |path| - k
      {
        assert path[k..][1..] == path[k + 1..];
        last := m.Cdr(last);
        k := k + 1;
      }
    }
  }

  // ----- appending

  lemma OneCell(cells: Heap, n: Addr)
    requires n != NIL && n in cells && cells[n].cdr == NIL
    ensures ListAt(cells, n, [n], [cells[n].car])
  {
    assert [n][1..] == [] && Cars(cells, []) == [];
    assert Leads(cells, NIL, [], NIL);
  }

  /** What linking a new last cell does to a chain. */
  lemma Linked(c1: Heap, c2: Heap, p: Addr, path: seq<Addr>, s: seq<Core>, n: Addr, c: Core)
    requires ListAt(c1, p, path, s) && path != [] && n != NIL && n !in c1
    requires c2 == c1[n := Cell(c, NIL)][path[|path| - 1] := Cell(c1[path[|path| - 1]].car, n)]
    ensures ListAt(c2, p, path + [n], s + [c])
  {
    var l, last := path[..|path| - 1], path[|path| - 1];
    assert path == l + [last];
    var q := LeadsSplit(c1, p, l, [last], NIL);
    LeadsFrame(c1, c2, p, l, q);
    assert last != n && c2[last].cdr == n && c2[n].cdr == NIL;
    assert [last, n][1..] == [n] && [n][1..] == [];
    assert Leads(c2, last, [last, n], NIL);
    LeadsJoin(c2, p, l, last, [last, n], NIL);
    assert path + [n] == l + [last, n];
    CarsFrame(c1, c2, path);
    CarsConcat(c2, path, [n]);
  }

  /** The cells when `n`, with the car `c`, is linked behind `path`. */
  function Lengthened(cells: Heap, path: seq<Addr>, n: Addr, c: Core): Heap
    requires forall q :: q in path ==> q in cells
  {
    if path == [] then cells[n := Cell(c, NIL)]
    else cells[n := Cell(c, NIL)][path[|path| - 1] := Cell(cells[path[|path| - 1]].car, n)]
  }

  method LstAppend(m: Store, lst: Addr, c: Core, ghost path: seq<Addr>, ghost s: seq<Core>)
    returns (r: Addr, ghost n: Addr)
    requires m.Valid() && m.Known(c) && ListAt(m.cells, lst, path, s)
    modifies m
    ensures m.Valid() && m.outside == old(m.outside) && n != NIL && n !in old(m.cells)
    ensures m.cells == Lengthened(old(m.cells), path, n, c)
    ensures ListAt(m.cells, r, path + [n], s + [c]) && Kept(old(m.cells), m.cells, path)
  {
    r := lst;
    if lst != NIL {
      var last := LstLastCdr(m, lst, path);
      LeadsIn(m.cells, lst, path, NIL);
      var cell := m.Cons(c, NIL);
      m.PutCdr(last, cell);
      n := cell;
      Linked(old(m.cells), m.cells, lst, path, s, n, c);
    } else {
      r := m.Cons(c, NIL);
      n := r;
      assert path == [] && path + [n] == [n] && s + [c] == [c];
      OneCell(m.cells, n);
    }
  }

  ghost predicate Grows(c1: Heap, c2: Heap, path: seq<Addr>, path': seq<Addr>, n: Addr, c: Core) {
    && (forall q :: q in path ==> q in c1) && n != NIL && n !in c1
    && path' == path + [n] && c2 == Lengthened(c1, path, n, c)
  }

  method LstAppendUnique(m: Store, lst: Addr, c: Core, ghost path: seq<Addr>, ghost s: seq<Core>)
    returns (r: Addr, ghost path': seq<Addr>)
    requires m.Valid() && m.Known(c) && ListAt(m.cells, lst, path, s)
    modifies m
    ensures m.Valid() && m.outside == old(m.outside)
    ensures ListAt(m.cells, r, path', AppendedUnique(s, c)) && Kept(old(m.cells), m.cells, path)
    ensures forall q :: q in path' ==> q in path || q !in old(m.cells)
    ensures c in s ==> path' == path && m.cells == old(m.cells)
    ensures c !in s ==> exists n :: Grows(old(m.cells), m.cells, path, path', n, c)
  {
    r, path' := lst, path;
    var at, k := LstFind(m, lst, c, path, s);
    if at == NIL {
      ghost var n;
      r, n := LstAppend(m, lst, c, path, s);
      path' := path + [n];
      assert Grows(old(m.cells), m.cells, path, path', n, c);
    }
  }

  /** The code's fast append keeps the last cell at hand; it does what
      `LstAppend` does, one step after the other. */
  method LstFastAppend(m: Store, lst: Addr, con: Addr, c: Core, ghost path: seq<Addr>, ghost s: seq<Core>)
    returns (lst': Addr, con': Addr)
    requires m.Valid() && m.Known(c) && ListAt(m.cells, lst, path, s)
    requires path != [] ==> con == path[|path| - 1]
    modifies m
    ensures m.Valid() && m.outside == old(m.outside) && con' !in old(m.cells)
    ensures ListAt(m.cells, lst', path + [con'], s + [c]) && Kept(old(m.cells), m.cells, path)
  {
    lst', con' := lst, con;
    if lst == NIL {
      con' := m.Cons(Nil, NIL);
      lst' := con';
      m.PutCar(con', c);
      assert path == [] && path + [con'] == [con'] && s + [c] == [c];
      OneCell(m.cells, con');
    } else {
      LeadsIn(m.cells, lst, path, NIL);
      con' := LinkNew(m, con, c);
      Linked(old(m.cells), m.cells, lst, path, s, con', c);
    }
  }

  /** A new cell is linked behind `con` and then given its car. */
  method LinkNew(m: Store, con: Addr, c: Core) returns (auxCon: Addr)
    requires m.Valid() && m.Known(c) && con in m.cells
    modifies m
    ensures m.Valid() && m.outside == old(m.outside) && auxCon != NIL && auxCon !in old(m.cells)
    ensures m.cells == old(m.cells)[auxCon := Cell(c, NIL)][con := Cell(old(m.cells)[con].car, auxCon)]
  {
    auxCon := m.Cons(Nil, NIL);
    m.PutCdr(con, auxCon);
    m.PutCar(auxCon, c);
  }

  // ----- removing

  /** The cells of `path` whose car is not `c`. */
  function KeptPath(cells: Heap, path: seq<Addr>, c: Core): (r: seq<Addr>)
    requires forall q :: q in path ==> q in cells
    ensures |r| <= |path| && forall q :: q in r ==> q in path && cells[q].car != c
  {
    if path == [] then [] else (if cells[path[0]].car == c then [] else [path[0]]) + KeptPath(cells, path[1..], c)
  }

  method LstDestroyFirstCons(m: Store, lst: Addr) returns (r: Addr)
    requires m.Valid() && (lst == NIL || lst in m.cells)
    modifies m
    ensures m.Valid() && m.outside == old(m.outside)
    ensures lst == NIL ==> r == NIL && m.cells == old(m.cells)
    ensures lst != NIL ==> r == old(m.cells)[lst].cdr && m.cells == old(m.cells) - {lst}
  {
    r := lst;
    if lst != NIL {
      r := m.Cdr(lst);
      m.Delete(lst);
    }
  }

  ghost function Gone(path: seq<Addr>, path': seq<Addr>): set<Addr> { set q | q in path && q !in path' }

  lemma GoneCons(x: Addr, path: seq<Addr>, path': seq<Addr>)
    requires x !in path
    ensures x !in path' ==> Gone([x] + path, path') == {x} + Gone(path, path')
    ensures Gone([x] + path, [x] + path') == Gone(path, path')
  {
    assert forall q :: q in [x] + path <==> q == x || q in path;
    assert forall q :: q in [x] + path' <==> q == x || q in path';
  }

  /** Every cell of the list that holds `c` is freed, the others stay linked in
      order. */
  ghost predicate RemovedFrom(c1: Heap, c2: Heap, path: seq<Addr>, s: seq<Core>, c: Core, r: Addr, path': seq<Addr>)
    requires forall q :: q in path ==> q in c1
  {
    && path' == (if c == Nil then path else KeptPath(c1, path, c))
    && ListAt(c2, r, path', Removed(s, c))
    && Kept(c1, c2, path) && c2.Keys == c1.Keys - Gone(path, path')
  }

  method LstRemoveAtom(m: Store, lst: Addr, c: Core, ghost path: seq<Addr>, ghost s: seq<Core>)
    returns (r: Addr, ghost path': seq<Addr>)
    requires m.Valid() && ListAt(m.cells, lst, path, s)
    modifies m
    ensures m.Valid() && m.outside == old(m.outside)
    ensures RemovedFrom(old(m.cells), m.cells, path, s, c, r, path')
    decreases |path|
  {
    r, path' := lst, path;
    if lst != NIL && c != Nil {
      LeadsIn(m.cells, lst, path, NIL);
      ghost var c0 := m.cells;
      if m.Car(lst) == c {
        var rest := LstDestroyFirstCons(m, lst);
        ghost var c1 := m.cells;
        HeadFreed(c0, c1, lst, path, s);
        r, path' := LstRemoveAtom(m, rest, c, path[1..], s[1..]);
        RemovedHead(c0, c1, m.cells, lst, path, s, c, r, path');
      } else {
        TailIsList(c0, lst, path, s);
        var rest;
        rest, path' := LstRemoveAtom(m, m.Cdr(lst), c, path[1..], s[1..]);
        ghost var c1 := m.cells;
        m.PutCdr(lst, rest);
        KeptHead(c0, c1, m.cells, lst, path, s, c, rest, path');
        path' := [lst] + path';
      }
    } else if lst == NIL {
      assert Gone(path, path') == {};
    } else {
      assert Gone(path, path') == {};
    }
  }

  lemma TailIsList(cells: Heap, p: Addr, path: seq<Addr>, s: seq<Core>)
    requires ListAt(cells, p, path, s) && p != NIL
    ensures path != [] && p in cells && p !in path[1..] && path == [p] + path[1..]
    ensures s == [cells[p].car] + s[1..] && ListAt(cells, cells[p].cdr, path[1..], s[1..])
  {}

  lemma HeadFreed(c0: Heap, c1: Heap, p: Addr, path: seq<Addr>, s: seq<Core>)
    requires ListAt(c0, p, path, s) && p != NIL && c1 == c0 - {p}
    ensures ListAt(c1, c0[p].cdr, path[1..], s[1..])
  {
    LeadsFrame(c0, c1, c0[p].cdr, path[1..], NIL);
    CarsFrame(c0, c1, path[1..]);
  }

  lemma RemovedHead(c0: Heap, c1: Heap, c2: Heap, p: Addr, path: seq<Addr>, s: seq<Core>, c: Core, r: Addr, path': seq<Addr>)
    requires ListAt(c0, p, path, s) && p != NIL && c0[p].car == c != Nil && c1 == c0 - {p}
    requires (forall q :: q in path[1..] ==> q in c1) && RemovedFrom(c1, c2, path[1..], s[1..], c, r, path')
    ensures RemovedFrom(c0, c2, path, s, c, r, path')
  {
    TailIsList(c0, p, path, s);
    KeptSame(c0, c1, path[1..], c);
    GoneCons(p, path[1..], path');
  }

  lemma KeptHead(c0: Heap, c1: Heap, c2: Heap, p: Addr, path: seq<Addr>, s: seq<Core>, c: Core, rest: Addr, path': seq<Addr>)
    requires ListAt(c0, p, path, s) && p != NIL && c0[p].car != c && c != Nil
    requires (forall q :: q in path[1..] ==> q in c0) && RemovedFrom(c0, c1, path[1..], s[1..], c, rest, path')
    requires p in c1 && c2 == c1[p := Cell(c1[p].car, rest)]
    ensures RemovedFrom(c0, c2, path, s, c, p, [p] + path')
  {
    TailIsList(c0, p, path, s);
    Relinked(c1, c2, p, rest, path', Removed(s[1..], c));
    GoneCons(p, path[1..], path');
  }

  lemma {:induction false} KeptSame(c1: Heap, c2: Heap, path: seq<Addr>, c: Core)
    requires forall q :: q in path ==> q in c1 && q in c2 && c2[q].car == c1[q].car
    ensures KeptPath(c1, path, c) == KeptPath(c2, path, c)
  {
    if path != [] { KeptSame(c1, c2, path[1..], c); }
  }

  /** A cell put in front of a chain it does not belong to. */
  lemma Relinked(c1: Heap, c2: Heap, x: Addr, rest: Addr, path: seq<Addr>, s: seq<Core>)
    requires ListAt(c1, rest, path, s) && x in c1 && x != NIL && x !in path && c2 == c1[x := Cell(c1[x].car, rest)]
    ensures ListAt(c2, x, [x] + path, [c1[x].car] + s)
  {
    LeadsFrame(c1, c2, rest, path, NIL);
    CarsFrame(c1, c2, path);
    assert ([x] + path)[1..] == path;
  }

  // ----- compacting

  /** A chain whose tail behind `x` has been replaced. */
  lemma Spliced(c0: Heap, c1: Heap, c2: Heap, p: Addr, done: seq<Addr>, x: Addr, tail: seq<Addr>, d: seq<Core>, t: seq<Core>,
                r: Addr, path: seq<Addr>)
    requires ListAt(c0, p, done + ([x] + tail), d) && Kept(c0, c1, tail) && ListAt(c1, r, path, t)
    requires forall q :: q in path ==> q in tail || q !in c0
    requires x in c1 && c2 == c1[x := Cell(c1[x].car, r)]
    ensures x in c0 && ListAt(c2, p, done + ([x] + path), d[..|done|] + ([c0[x].car] + t))
  {
    var q := LeadsSplit(c0, p, done, [x] + tail, NIL);
    assert ([x] + tail)[0] == x && ([x] + tail)[1..] == tail;
    forall y | y in done ensures y in c0 && y !in tail && y != x && y in c2 && c2[y] == c0[y] {
      assert y in done + ([x] + tail) && y !in [x] + tail && x in [x] + tail;
      assert y in tail ==> y in [x] + tail;
    }
    LeadsFrame(c0, c2, p, done, x);
    Relinked(c1, c2, x, r, path, t);
    assert forall y :: y in [x] + path ==> y == x || y in path;
    LeadsJoin(c2, p, done, x, [x] + path, NIL);
    CarsConcat(c0, done, [x] + tail);
    CarsFrame(c0, c2, done);
    LeadsIn(c2, p, done + ([x] + path), NIL);
    CarsConcat(c2, done, [x] + path);
  }

  /** The cell `x` of a list, and the list behind it. */
  lemma AtCell(cells: Heap, p: Addr, done: seq<Addr>, x: Addr, tail: seq<Addr>, s: seq<Core>)
    requires ListAt(cells, p, done + ([x] + tail), s)
    ensures |s| == |done| + 1 + |tail| && x in cells && x != NIL && x !in tail && s[|done|] == cells[x].car
    ensures ListAt(cells, cells[x].cdr, tail, s[|done| + 1..])
  {
    var k := |done|;
    var q := LeadsSplit(cells, p, done, [x] + tail, NIL);
    assert ([x] + tail)[0] == x && ([x] + tail)[1..] == tail;
    LeadsIn(cells, p, done + ([x] + tail), NIL);
    CarsConcat(cells, done, [x] + tail);
    LeadsIn(cells, cells[x].cdr, tail, NIL);
    assert s[k..] == Cars(cells, [x] + tail) && s[k + 1..] == s[k..][1..];
  }

  lemma GoneMore(path: seq<Addr>, done: seq<Addr>, x: Addr, tail: seq<Addr>, rest: seq<Addr>)
    requires (forall q :: q in rest ==> q in tail) && (forall q :: q in tail ==> q in path && q !in done && q != x)
    ensures Gone(path, done + ([x] + rest)) == Gone(path, done + ([x] + tail)) + Gone(tail, rest)
  {
    forall q ensures q in done + ([x] + rest) <==> q in done || q == x || q in rest {
      assert q in [x] + rest <==> q == x || q in rest;
    }
    forall q ensures q in done + ([x] + tail) <==> q in done || q == x || q in tail {
      assert q in [x] + tail <==> q == x || q in tail;
    }
  }

  lemma CompactedStep(d: seq<Core>, k: nat)
    requires k < |d|
    ensures var e := d[..k + 1] + Removed(d[k + 1..], d[k]);
            d[..k] + Compacted(d[k..]) == e[..k + 1] + Compacted(e[k + 1..])
  {
    var r := Removed(d[k + 1..], d[k]);
    Prefixed(d, k, Compacted(r));
    Parts(d[..k + 1], r);
    assert d[k..][1..] == d[k + 1..];
  }

  lemma Parts<A>(a: seq<A>, b: seq<A>)
    ensures (a + b)[..|a|] == a && (a + b)[|a|..] == b
  {}

  /** What is left of a list after part of the work: its cells are among those
      of `path`, and the others of them are freed. */
  ghost predicate Thinned(c0: Heap, cells: Heap, path: seq<Addr>, left: seq<Addr>) {
    Kept(c0, cells, path) && (forall q :: q in left ==> q in path) && cells.Keys == c0.Keys - Gone(path, left)
  }

  /** Where the loop stands: `done` is compacted, `rest` from `aux` on is left
      to do, and `d` are the cars of both. */
  ghost predicate Compacting(c0: Heap, cells: Heap, p: Addr, path: seq<Addr>, s: seq<Core>, aux: Addr,
                             done: seq<Addr>, rest: seq<Addr>, d: seq<Core>)
  {
    && ListAt(cells, p, done + rest, d) && Leads(cells, aux, rest, NIL) && |d| == |done| + |rest|
    && Compacted(s) == d[..|done|] + Compacted(d[|done|..])
    && Thinned(c0, cells, path, done + rest)
  }

  /** One step of the loop: later copies of the car of `x` go. */
  method CompactStep(m: Store, lst: Addr, x: Addr, ghost c0: Heap, ghost path: seq<Addr>, ghost s: seq<Core>,
                     ghost done: seq<Addr>, ghost rest: seq<Addr>, ghost d: seq<Core>)
    returns (ghost next: seq<Addr>, ghost e: seq<Core>)
    requires m.Valid() && x != NIL && Compacting(c0, m.cells, lst, path, s, x, done, rest, d)
    modifies m
    ensures m.Valid() && m.outside == old(m.outside) && |next| < |rest| && x in m.cells
    ensures Compacting(c0, m.cells, lst, path, s, m.cells[x].cdr, done + [x], next, e)
  {
    ghost var c1, k, tail := m.cells, |done|, rest[1..];
    assert rest == [x] + tail;
    AtCell(c1, lst, done, x, tail, d);
    var r;
    r, next := LstRemoveAtom(m, m.Cdr(x), m.Car(x), tail, d[k + 1..]);
    ghost var c2 := m.cells;
    m.PutCdr(x, r);
    e := d[..k + 1] + Removed(d[k + 1..], d[k]);
    CompactAdvance(c0, c1, c2, m.cells, lst, path, s, x, done, tail, d, r, next);
  }

  lemma CompactAdvance(c0: Heap, c1: Heap, c2: Heap, c3: Heap, p: Addr, path: seq<Addr>, s: seq<Core>, x: Addr,
                       done: seq<Addr>, tail: seq<Addr>, d: seq<Core>, r: Addr, next: seq<Addr>)
    requires Compacting(c0, c1, p, path, s, x, done, [x] + tail, d) && x in c2 && x !in tail
    requires (forall q :: q in tail ==> q in c1) && RemovedFrom(c1, c2, tail, d[|done| + 1..], d[|done|], r, next)
    requires c3 == c2[x := Cell(c2[x].car, r)]
    ensures Compacting(c0, c3, p, path, s, r, done + [x], next, d[..|done| + 1] + Removed(d[|done| + 1..], d[|done|]))
  {
    var k := |done|;
    var e := d[..k + 1] + Removed(d[k + 1..], d[k]);
    AtCell(c1, p, done, x, tail, d);
    AdvanceList(c1, c2, c3, p, x, done, tail, d, r, next);
    AtCell(c3, p, done, x, next, e);
    CompactedStep(d, k);
    AdvanceCells(c1, c2, c3, x, tail, next);
    CompactThinned(c0, c1, c3, p, path, done, x, tail, next, d);
    MoveOver(done, x, next);
  }

  lemma AdvanceList(c1: Heap, c2: Heap, c3: Heap, p: Addr, x: Addr, done: seq<Addr>, tail: seq<Addr>, d: seq<Core>,
                    r: Addr, next: seq<Addr>)
    requires ListAt(c1, p, done + ([x] + tail), d) && |d| == |done| + 1 + |tail| && x in c2 && d[|done|] == c1[x].car
    requires (forall q :: q in tail ==> q in c1) && RemovedFrom(c1, c2, tail, d[|done| + 1..], d[|done|], r, next)
    requires c3 == c2[x := Cell(c2[x].car, r)]
    ensures ListAt(c3, p, done + ([x] + next), d[..|done| + 1] + Removed(d[|done| + 1..], d[|done|]))
  {
    var k := |done|;
    Spliced(c1, c2, c3, p, done, x, tail, d, Removed(d[k + 1..], d[k]), r, next);
    Prefixed(d, k, Removed(d[k + 1..], d[k]));
  }

  lemma AdvanceCells(c1: Heap, c2: Heap, c3: Heap, x: Addr, tail: seq<Addr>, next: seq<Addr>)
    requires Kept(c1, c2, tail) && c2.Keys == c1.Keys - Gone(tail, next) && x in c2 && x in c3 && c3 == c2[x := c3[x]]
    ensures Kept(c1, c3, [x] + tail) && c3.Keys == c1.Keys - Gone(tail, next)
  {
    assert forall y :: y in [x] + tail <==> y == x || y in tail;
  }

  lemma Prefixed<A>(s: seq<A>, k: nat, t: seq<A>)
    requires k < |s|
    ensures s[..k] + ([s[k]] + t) == s[..k + 1] + t
  {}

  lemma MoveOver<A>(s: seq<A>, x: A, t: seq<A>)
    ensures s + ([x] + t) == s + [x] + t
  {}

  method LstCompact(m: Store, lst: Addr, ghost path: seq<Addr>, ghost s: seq<Core>)
    returns (r: Addr, ghost left: seq<Addr>)
    requires m.Valid() && ListAt(m.cells, lst, path, s)
    modifies m
    ensures m.Valid() && m.outside == old(m.outside) && r == lst
    ensures ListAt(m.cells, r, left, Compacted(s)) && Thinned(old(m.cells), m.cells, path, left)
  {
    r := lst;
    var auxLst := lst;
    ghost var c0, done, rest, d := m.cells, [], path, s;
    StartCompacting(c0, lst, path, s);
    while auxLst != NIL
      invariant m.Valid() && m.outside == old(m.outside)
      invariant Compacting(c0, m.cells, lst, path, s, auxLst, done, rest, d)
      decreases |rest|
    {
      ghost var next, e := CompactStep(m, lst, auxLst, c0, path, s, done, rest, d);
      done, rest, d := done + [auxLst], next, e;
      auxLst := m.Cdr(auxLst);
    }
    left := done + rest;
    assert rest == [] && d[..|done|] == d && d[|done|..] == [] && d + [] == d;
  }

  lemma StartCompacting(c0: Heap, p: Addr, path: seq<Addr>, s: seq<Core>)
    requires ListAt(c0, p, path, s)
    ensures Compacting(c0, c0, p, path, s, p, [], path, s)
  {
    assert [] + path == path && s[..0] == [] && s[0..] == s && [] + Compacted(s) == Compacted(s);
    assert Gone(path, path) == {};
  }

  lemma CompactThinned(c0: Heap, c1: Heap, c2: Heap, p: Addr, path: seq<Addr>, done: seq<Addr>, x: Addr, tail: seq<Addr>,
                       rest: seq<Addr>, d: seq<Core>)
    requires Thinned(c0, c1, path, done + ([x] + tail)) && ListAt(c1, p, done + ([x] + tail), d)
    requires Kept(c1, c2, [x] + tail) && c2.Keys == c1.Keys - Gone(tail, rest) && forall q :: q in rest ==> q in tail
    ensures Thinned(c0, c2, path, done + ([x] + rest))
  {
    var q := LeadsSplit(c1, p, done, [x] + tail, NIL);
    assert ([x] + tail)[0] == x && ([x] + tail)[1..] == tail;
    forall y | y in tail ensures y in path && y !in done && y != x {
      assert y in [x] + tail && y in done + ([x] + tail);
    }
    assert x in [x] + tail && x in done + ([x] + tail);
    forall y | y in done + ([x] + rest) ensures y in path {
      assert y in done || y in [x] + rest;
      assert y in [x] + rest ==> y == x || y in rest;
      assert y in done ==> y in done + ([x] + tail);
    }
    assert forall y :: y in [x] + tail ==> y == x || y in tail;
    GoneMore(path, done, x, tail, rest);
  }

  // ----- joining

  lemma {:induction false} EndOfChain(cells: Heap, p: Addr, path: seq<Addr>, x: Addr)
    requires IsChain(cells, p, path) && x in path && x in cells && cells[x].cdr == NIL
    ensures x == path[|path| - 1]
    decreases |path|
  {
    if x == path[0] {
      assert Leads(cells, NIL, path[1..], NIL);
      assert path[1..] == [];
    } else {
      EndOfChain(cells, cells[p].cdr, path[1..], x);
    }
  }

  lemma {:induction false} ChainEnds(cells: Heap, p: Addr, path: seq<Addr>)
    requires IsChain(cells, p, path) && path != []
    ensures path[|path| - 1] in cells && cells[path[|path| - 1]].cdr == NIL
    decreases |path|
  {
    if |path| == 1 {
      assert path[1..] == [] && Leads(cells, cells[p].cdr, path[1..], NIL);
    } else {
      ChainEnds(cells, cells[p].cdr, path[1..]);
    }
  }

  /** What lengthening one list does to another: nothing, or the same when they
      share their last cell. */
  predicate Shared(path: seq<Addr>, left: seq<Addr>) { path != [] && path[|path| - 1] in left }

  lemma OtherList(c1: Heap, c2: Heap, p: Addr, path: seq<Addr>, s: seq<Core>, path': seq<Addr>, n: Addr, c: Core,
                  l: Addr, left: seq<Addr>, todo: seq<Core>)
    requires ListAt(c1, p, path, s) && ListAt(c1, l, left, todo) && Grows(c1, c2, path, path', n, c)
    ensures if Shared(path, left) then ListAt(c2, l, left + [n], todo + [c]) else ListAt(c2, l, left, todo)
  {
    if Shared(path, left) {
      ChainEnds(c1, p, path);
      EndOfChain(c1, l, left, path[|path| - 1]);
      Linked(c1, c2, l, left, todo, n, c);
    } else {
      LeadsFrame(c1, c2, l, left, NIL);
      CarsFrame(c1, c2, left);
    }
  }

  /** How many of the cars to come are not there yet. */
  function Missing(todo: seq<Core>, s: seq<Core>): nat {
    if todo == [] then 0 else (if todo[0] in s then 0 else 1) + Missing(todo[1..], s)
  }

  lemma {:induction false} MissingLess(todo: seq<Core>, s: seq<Core>, c: Core)
    ensures Missing(todo, s + [c]) <= Missing(todo, s)
    ensures Missing(todo + [c], s + [c]) <= Missing(todo, s)
  {
    if todo == [] {
      assert [] + [c] == [c] && [c][1..] == [];
    } else {
      MissingLess(todo[1..], s, c);
      assert (todo + [c])[1..] == todo[1..] + [c];
    }
  }

  /** One step of joining: the cars still to come, here or behind `c` again,
      give the same result. */
  lemma GatherNext(s: seq<Core>, todo: seq<Core>)
    requires todo != []
    ensures var c, rest, s' := todo[0], todo[1..], AppendedUnique(s, todo[0]);
            && GatherOnto(s', rest) == GatherOnto(s, todo) == GatherOnto(s', rest + [c])
            && Missing(rest, s') <= Missing(rest, s) && Missing(rest + [c], s') <= Missing(rest, s)
  {
    var c, rest, s' := todo[0], todo[1..], AppendedUnique(s, todo[0]);
    assert [c] + rest == todo;
    GatherCons(s, c, rest);
    GatherKeeps(s', rest, c);
    assert (rest + [c])[..|rest|] == rest;
    if c in s { MissingThere(rest, s, c); } else { MissingLess(rest, s, c); }
  }

  lemma {:induction false} MissingThere(todo: seq<Core>, s: seq<Core>, c: Core)
    requires c in s
    ensures Missing(todo + [c], s) == Missing(todo, s)
  {
    if todo == [] {
      assert [] + [c] == [c] && [c][1..] == [];
    } else {
      MissingThere(todo[1..], s, c);
      assert (todo + [c])[1..] == todo[1..] + [c];
    }
  }

  lemma FirstOfList(cells: Heap, l: Addr, left: seq<Addr>, todo: seq<Core>)
    requires ListAt(cells, l, left, todo) && l != NIL
    ensures left != [] && todo != [] && |left| == |todo| && l in cells && cells[l].car == todo[0]
    ensures ListAt(cells, cells[l].cdr, left[1..], todo[1..])
  {}

  /** A car appended to the first list, and what that makes of the second. */
  method AppendBeside(m: Store, lst: Addr, c: Core, ghost path: seq<Addr>, ghost s: seq<Core>, ghost c0: Heap,
                      ghost pa: seq<Addr>, ghost l: Addr, ghost left: seq<Addr>, ghost todo: seq<Core>)
    returns (r: Addr, ghost path': seq<Addr>, ghost left': seq<Addr>, ghost todo': seq<Core>)
    requires m.Valid() && m.Known(c) && ListAt(m.cells, lst, path, s) && GrownFrom(c0, m.cells, pa, path)
    requires ListAt(m.cells, l, left, todo)
    modifies m
    ensures m.Valid() && m.outside == old(m.outside)
    ensures ListAt(m.cells, r, path', AppendedUnique(s, c)) && GrownFrom(c0, m.cells, pa, path')
    ensures ListAt(m.cells, l, left', todo')
    ensures todo' == todo || (todo' == todo + [c] && c !in s)
  {
    ghost var c1 := m.cells;
    r, path' := LstAppendUnique(m, lst, c, path, s);
    left', todo' := left, todo;
    if c !in s {
      ghost var n :| Grows(c1, m.cells, path, path', n, c);
      OtherList(c1, m.cells, lst, path, s, path', n, c, l, left, todo);
      if Shared(path, left) { left', todo' := left + [n], todo + [c]; }
    }
  }

  /** How far joining two lists has come. */
  ghost predicate Joining(c0: Heap, cells: Heap, pa: seq<Addr>, goal: seq<Core>, p: Addr, path: seq<Addr>,
                          cur: seq<Core>, l: Addr, left: seq<Addr>, todo: seq<Core>) {
    && ListAt(cells, p, path, cur) && GrownFrom(c0, cells, pa, path)
    && ListAt(cells, l, left, todo) && GatherOnto(cur, todo) == goal
  }

  /** One turn of the loop over the second list. */
  method JoinNext(m: Store, lstA: Addr, l: Addr, ghost c0: Heap, ghost pa: seq<Addr>, ghost goal: seq<Core>,
                  ghost path: seq<Addr>, ghost cur: seq<Core>, ghost left: seq<Addr>, ghost todo: seq<Core>)
    returns (r: Addr, l': Addr, ghost path': seq<Addr>, ghost cur': seq<Core>, ghost left': seq<Addr>,
             ghost todo': seq<Core>)
    requires m.Valid() && l != NIL && Joining(c0, m.cells, pa, goal, lstA, path, cur, l, left, todo)
    modifies m
    ensures m.Valid() && m.outside == old(m.outside)
    ensures Joining(c0, m.cells, pa, goal, r, path', cur', l', left', todo')
    ensures |todo'| + Missing(todo', cur') < |todo| + Missing(todo, cur)
  {
    FirstOfList(m.cells, l, left, todo);
    GatherNext(cur, todo);
    ghost var c := todo[0];
    r, path', left', todo' := AppendBeside(m, lstA, m.Car(l), path, cur, c0, pa, l, left, todo);
    cur' := AppendedUnique(cur, c);
    assert todo'[1..] == todo[1..] || todo'[1..] == todo[1..] + [c];
    FirstOfList(m.cells, l, left', todo');
    l', left', todo' := m.Cdr(l), left'[1..], todo'[1..];
  }

  /** The cars of one list appended to another, each unless it is there.  The
      lists may share cells: then the second grows while it is walked. */
  method LstConcatUnique(m: Store, lstA: Addr, lstB: Addr, ghost pa: seq<Addr>, ghost a: seq<Core>,
                         ghost pb: seq<Addr>, ghost b: seq<Core>) returns (r: Addr, ghost path: seq<Addr>)
    requires m.Valid() && ListAt(m.cells, lstA, pa, a) && ListAt(m.cells, lstB, pb, b)
    modifies m
    ensures m.Valid() && m.outside == old(m.outside)
    ensures ListAt(m.cells, r, path, GatherOnto(a, b)) && Kept(old(m.cells), m.cells, pa)
    ensures forall q :: q in path ==> q in pa || q !in old(m.cells)
  {
    r, path := lstA, pa;
    var lst := lstB;
    ghost var c0, goal, cur, left, todo := m.cells, GatherOnto(a, b), a, pb, b;
    while lst != NIL
      invariant m.Valid() && m.outside == old(m.outside)
      invariant Joining(c0, m.cells, pa, goal, r, path, cur, lst, left, todo)
      decreases |todo| + Missing(todo, cur)
    {
      r, lst, path, cur, left, todo := JoinNext(m, r, lst, c0, pa, goal, path, cur, left, todo);
    }
    assert left == [] && todo == [];
  }

  /** A walk along a list begins with nothing seen and ends with all seen. */
  lemma WalkStart(cells: Heap, p: Addr, path: seq<Addr>, s: seq<Core>)
    requires ListAt(cells, p, path, s)
    ensures Leads(cells, p, path[0..], NIL) && s[..0] == []
    ensures ListAt(cells, NIL, [], []) && forall q :: q in path ==> q in cells && q != NIL
  {
    assert path[0..] == path;
    LeadsIn(cells, p, path, NIL);
  }

  lemma WalkEnd(cells: Heap, p: Addr, path: seq<Addr>, s: seq<Core>, k: nat)
    requires ListAt(cells, p, path, s) && k <= |path| && Leads(cells, NIL, path[k..], NIL)
    ensures s[..k] == s
  {}

  /** A list at first of the cells `pa`, longer by new cells only. */
  ghost predicate GrownFrom(c0: Heap, cells: Heap, pa: seq<Addr>, path: seq<Addr>) {
    Kept(c0, cells, pa) && forall q :: q in path ==> q in pa || q !in c0
  }

  lemma {:induction false} CarAt(cells: Heap, path: seq<Addr>, k: nat)
    requires (forall q :: q in path ==> q in cells) && k < |path|
    ensures Cars(cells, path)[k] == cells[path[k]].car
  {
    if k > 0 { CarAt(cells, path[1..], k - 1); }
  }

  /** The cell a walk along a list has come to. */
  lemma AtIndex(cells: Heap, p: Addr, path: seq<Addr>, s: seq<Core>, l: Addr, k: nat)
    requires ListAt(cells, p, path, s) && k <= |path| && l != NIL && Leads(cells, l, path[k..], NIL)
    ensures k < |path| == |s| && l == path[k] && l in path && l in cells && s[k] in s && cells[l].car == s[k]
    ensures Leads(cells, cells[l].cdr, path[k + 1..], NIL)
  {
    assert path[k..][1..] == path[k + 1..];
    CarAt(cells, path, k);
  }

  lemma MatchingStep(s: seq<Core>, k: nat, name: AtomId -> Name, cs: Case, pattern: CString)
    requires k < |s|
    ensures Matching(s[..k + 1], name, cs, pattern) ==
      Matching(s[..k], name, cs, pattern) + if Matches(cs, NameOf(s[k], name), pattern) then [s[k]] else []
  {
    assert s[..k + 1][..k] == s[..k];
  }

  /** A new list of the cars of both lists, without duplicates. */
  method LstJoint(m: Store, lstA: Addr, lstB: Addr, ghost pa: seq<Addr>, ghost a: seq<Core>,
                  ghost pb: seq<Addr>, ghost b: seq<Core>) returns (r: Addr, ghost path: seq<Addr>)
    requires m.Valid() && ListAt(m.cells, lstA, pa, a) && ListAt(m.cells, lstB, pb, b)
    modifies m
    ensures m.Valid() && m.outside == old(m.outside) && Kept(old(m.cells), m.cells, [])
    ensures ListAt(m.cells, r, path, Gathered(a + b)) && forall q :: q in path ==> q !in old(m.cells)
  {
    ghost var c0 := m.cells;
    LeadsIn(c0, lstA, pa, NIL);
    LeadsIn(c0, lstB, pb, NIL);
    r, path := LstConcatUnique(m, NIL, lstA, [], [], pa, a);
    LeadsFrame(c0, m.cells, lstB, pb, NIL);
    CarsFrame(c0, m.cells, pb);
    r, path := LstConcatUnique(m, r, lstB, path, GatherOnto([], a), pb, b);
    GatherConcat([], a);
    assert [] + a == a;
    GatherConcat(a, b);
  }

  /** Joining two lists is compacting a copy of one followed by the other,
      when no more than one car is null. */
  lemma JointIsCompacted(a: seq<Core>, b: seq<Core>)
    ensures Gathered(a + b) == Compacted(a + b) <==> NilCount(a + b) <= 1
  {
    CompactedIsGathered(a + b);
  }

  // ----- adding by name

  /** A cell put in front of a list. */
  lemma Prepended(c0: Heap, c1: Heap, p: Addr, path: seq<Addr>, s: seq<Core>, n: Addr, c: Core)
    requires ListAt(c0, p, path, s) && n != NIL && n !in c0 && c1 == c0[n := Cell(c, p)]
    ensures ListAt(c1, n, [n] + path, [c] + s)
  {
    LeadsFrame(c0, c1, p, path, NIL);
    CarsFrame(c0, c1, path);
    assert ([n] + path)[1..] == path;
  }

  /** The first cell whose name is not before `key`, the cell in front of it,
      and the last name looked at. */
  method FindPlace(m: Store, lst: Addr, key: Name, name: AtomId -> Name, ghost path: seq<Addr>, ghost s: seq<Core>)
    returns (penul: Addr, last: Addr, carName: Name, ghost k: nat)
    requires ListAt(m.cells, lst, path, s) && lst != NIL && forall c :: c in s ==> c.Atm?
    ensures k == Place(NamesOf(s, name), key) && ListAt(m.cells, last, path[k..], s[k..])
    ensures penul == if k == 0 then NIL else path[k - 1]
    ensures carName == key <==> k < |s| && NamesOf(s, name)[k] == key
  {
    ghost var names := NamesOf(s, name);
    k, last, penul, carName := 0, lst, NIL, [];
    assert path[0..] == path && s[0..] == s && names[0..] == names;
    LeadsIn(m.cells, lst, path, NIL);
    while last != NIL
      invariant k <= |path| && ListAt(m.cells, last, path[k..], s[k..])
      invariant penul == if k == 0 then NIL else path[k - 1]
      invariant Place(names, key) == k + Place(names[k..], key)
      invariant last == NIL ==> Before(carName, key)
      decreases |path| - k
    {
      TailIsList(m.cells, last, path[k..], s[k..]);
      assert path[k..][1..] == path[k + 1..] && s[k..][1..] == s[k + 1..] && names[k..][1..] == names[k + 1..];
      carName := name(m.Car(last).id);
      assert carName == names[k];
      if !Before(carName, key) { break; }
      penul, last := last, m.Cdr(last);
      k := k + 1;
    }
    BeforeTotal(key, key);
  }

  /** `t` is `s` with the atom at its place, unless its name is there. */
  ghost predicate Added(s: seq<Core>, atm: AtomId, name: AtomId -> Name, duplicate: bool, t: seq<Core>) {
    var k := Place(NamesOf(s, name), name(atm));
    && duplicate == (k < |s| && NamesOf(s, name)[k] == name(atm))
    && t == if duplicate then s else s[..k] + [Atm(atm)] + s[k..]
  }

  /** Insert an atom by its name into a list of atoms. */
  method LstAdd(m: Store, lst: Addr, atm: AtomId, name: AtomId -> Name, ghost path: seq<Addr>, ghost s: seq<Core>)
    returns (r: Addr, duplicate: bool, ghost path': seq<Addr>, ghost t: seq<Core>)
    requires m.Valid() && atm in m.nRefs && ListAt(m.cells, lst, path, s) && forall c :: c in s ==> c.Atm?
    modifies m
    ensures m.Valid() && m.outside == old(m.outside) && Kept(old(m.cells), m.cells, path)
    ensures ListAt(m.cells, r, path', t) && Added(s, atm, name, duplicate, t)
  {
    r, duplicate, path', t := lst, false, path, s;
    LeadsIn(m.cells, lst, path, NIL);
    if lst == NIL {
      r := m.Cons(Atm(atm), NIL);
      path', t := [r], [Atm(atm)];
      assert s[..0] + [Atm(atm)] + s[0..] == [Atm(atm)];
      OneCell(m.cells, r);
    } else {
      var penul, last, carName, k := FindPlace(m, lst, name(atm), name, path, s);
      t := s[..k] + [Atm(atm)] + s[k..];
      assert k > 0 ==> path[k - 1] in path;
      if carName == name(atm) {
        duplicate, t := true, s;
      } else if penul != NIL {
        path' := InsertBehind(m, lst, penul, last, atm, k, path, s);
      } else {
        assert t == [Atm(atm)] + s;
        r := m.Cons(Atm(atm), lst);
        path' := [r] + path;
        Prepended(old(m.cells), m.cells, lst, path, s, r, Atm(atm));
      }
    }
  }

  method InsertBehind(m: Store, lst: Addr, penul: Addr, last: Addr, atm: AtomId, ghost k: nat,
                      ghost path: seq<Addr>, ghost s: seq<Core>) returns (ghost path': seq<Addr>)
    requires m.Valid() && atm in m.nRefs && ListAt(m.cells, lst, path, s)
    requires 0 < k <= |path| && penul == path[k - 1] && ListAt(m.cells, last, path[k..], s[k..])
    modifies m
    ensures m.Valid() && m.outside == old(m.outside) && Kept(old(m.cells), m.cells, path)
    ensures ListAt(m.cells, lst, path', s[..k] + [Atm(atm)] + s[k..])
  {
    ghost var c0 := m.cells;
    assert penul in path && penul in c0;
    var n := m.Cons(Atm(atm), last);
    ghost var c1 := m.cells;
    m.PutCdr(penul, n);
    path' := path[..k] + [n] + path[k..];
    InsertedBehind(c0, c1, m.cells, lst, last, n, Atm(atm), k, path, s);
  }

  lemma InsertedBehind(c0: Heap, c1: Heap, c2: Heap, p: Addr, last: Addr, n: Addr, c: Core, k: nat,
                       path: seq<Addr>, s: seq<Core>)
    requires ListAt(c0, p, path, s) && 0 < k <= |path| && ListAt(c0, last, path[k..], s[k..])
    requires n != NIL && n !in c0 && c1 == c0[n := Cell(c, last)]
    requires path[k - 1] in c1 && c2 == c1[path[k - 1] := Cell(c1[path[k - 1]].car, n)]
    ensures ListAt(c2, p, path[..k] + [n] + path[k..], s[..k] + [c] + s[k..])
  {
    var done, x, tail := path[..k - 1], path[k - 1], path[k..];
    assert path == done + ([x] + tail);
    AtCell(c0, p, done, x, tail, s);
    Prepended(c0, c1, last, tail, s[k..], n, c);
    assert forall q :: q in [n] + tail ==> q in tail || q !in c0;
    Spliced(c0, c1, c2, p, done, x, tail, s, [c] + s[k..], n, [n] + tail);
    Rejoined(path, k, [n]);
    Rejoined(s, k, [c]);
  }

  lemma Rejoined<A>(s: seq<A>, k: nat, x: seq<A>)
    requires 0 < k <= |s|
    ensures s[..k - 1] + ([s[k - 1]] + (x + s[k..])) == s[..k] + x + s[k..]
  {}

  lemma NamesInserted(s: seq<Core>, k: nat, atm: AtomId, name: AtomId -> Name)
    requires k <= |s|
    ensures NamesOf(s[..k] + [Atm(atm)] + s[k..], name) == NamesOf(s, name)[..k] + [name(atm)] + NamesOf(s, name)[k..]
  {}

  /** A list sorted by name, without duplicates, stays so; the flag tells
      whether the name was there. */
  lemma AddKeepsSorted(s: seq<Core>, atm: AtomId, name: AtomId -> Name, duplicate: bool, t: seq<Core>)
    requires Sorted(NamesOf(s, name)) && Added(s, atm, name, duplicate, t)
    ensures duplicate <==> name(atm) in NamesOf(s, name)
    ensures Sorted(NamesOf(t, name))
  {
    PlaceInSorted(NamesOf(s, name), name(atm));
    NamesInserted(s, Place(NamesOf(s, name), name(atm)), atm, name);
  }

  // ----- matching names

  /** A list of new cells; the cells there were before are as they were. */
  ghost predicate NewChain(c0: Heap, cells: Heap, p: Addr, path: seq<Addr>) {
    Kept(c0, cells, []) && IsChain(cells, p, path) && forall q :: q in path ==> q !in c0
  }

  /** The first `k` atoms of the list `s` have been looked at, `l` is next, and
      those that match are listed behind `lstMatch`, up to the cell `con`. */
  ghost predicate MatchedUpTo(c0: Heap, cells: Heap, path: seq<Addr>, l: Addr, k: nat, lstMatch: Addr, con: Addr,
                              path': seq<Addr>, t: seq<Core>)
  {
    && k <= |path| && Leads(c0, l, path[k..], NIL)
    && NewChain(c0, cells, lstMatch, path') && ListAt(cells, lstMatch, path', t)
    && (path' != [] ==> con == path'[|path'| - 1])
  }

  /** A new list of the atoms whose names match the pattern, in order. */
  method LstMatch(m: Store, lst: Addr, pattern: CString, nocase: Case, name: AtomId -> Name,
                  ghost path: seq<Addr>, ghost s: seq<Core>) returns (lstMatch: Addr, ghost path': seq<Addr>)
    requires m.Valid() && ListAt(m.cells, lst, path, s) && forall c :: c in s ==> c.Atm?
    modifies m
    ensures m.Valid() && m.outside == old(m.outside) && NewChain(old(m.cells), m.cells, lstMatch, path')
    ensures ListAt(m.cells, lstMatch, path', Matching(s, name, nocase, pattern))
  {
    lstMatch, path' := NIL, [];
    var con, l := NIL, lst;
    ghost var k, c0, t := 0, m.cells, [];
    WalkStart(c0, lst, path, s);
    while l != NIL
      invariant m.Valid() && m.outside == old(m.outside)
      invariant MatchedUpTo(c0, m.cells, path, l, k, lstMatch, con, path', t)
      invariant t == Matching(s[..k], name, nocase, pattern)
      decreases |path| - k
    {
      lstMatch, con, path', t := MatchInto(m, l, lst, pattern, nocase, name, lstMatch, con, c0, path, s, k, path', t);
      l := m.Cdr(l);
      k := k + 1;
    }
    WalkEnd(c0, lst, path, s, k);
  }

  method MatchInto(m: Store, l: Addr, lst: Addr, pattern: CString, nocase: Case, name: AtomId -> Name,
                   lstMatch: Addr, con: Addr, ghost c0: Heap, ghost path: seq<Addr>, ghost s: seq<Core>, ghost k: nat,
                   ghost path': seq<Addr>, ghost t: seq<Core>)
    returns (lstMatch': Addr, con': Addr, ghost path'': seq<Addr>, ghost t': seq<Core>)
    requires m.Valid() && ListAt(c0, lst, path, s) && l != NIL && forall c :: c in s ==> c.Atm?
    requires MatchedUpTo(c0, m.cells, path, l, k, lstMatch, con, path', t) && t == Matching(s[..k], name, nocase, pattern)
    modifies m
    ensures m.Valid() && m.outside == old(m.outside) && l in m.cells && k < |path|
    ensures MatchedUpTo(c0, m.cells, path, m.cells[l].cdr, k + 1, lstMatch', con', path'', t')
    ensures t' == Matching(s[..k + 1], name, nocase, pattern)
  {
    lstMatch', con', path'', t' := lstMatch, con, path', t;
    AtIndex(c0, lst, path, s, l, k);
    MatchingStep(s, k, name, nocase, pattern);
    var atm := m.Car(l);
    var ok := StringCaseMatch(name(atm.id), pattern, nocase);
    if ok {
      lstMatch', con' := LstFastAppend(m, lstMatch, con, atm, path', t);
      path'', t' := path' + [con'], t + [atm];
    } else {
      assert t + [] == t;
    }
  }
}
