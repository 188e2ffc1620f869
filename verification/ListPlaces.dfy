/** Which places of a list its operations keep, one by one. */
module ListPlaces {
  import opened Cells
  import opened ListSpecs
  import opened ListAlgebra
  import Glob

  /** `t` is `s` at the places `at`, in order. */
  ghost predicate Picks<A(!new)>(s: seq<A>, t: seq<A>, at: seq<nat>) {
    && |at| == |t| && (forall k :: 0 <= k < |at| ==> at[k] < |s| && s[at[k]] == t[k])
    && (forall j, k :: 0 <= j < k < |at| ==> at[j] < at[k])
  }

  lemma PicksSnoc<A(!new)>(s: seq<A>, x: A, t: seq<A>, at: seq<nat>)
    requires Picks(s, t, at)
    ensures Picks(s + [x], t, at) && Picks(s + [x], t + [x], at + [|s|])
  {}

  /** One place more, behind all others. */
  lemma WithPlace(at: seq<nat>, n: nat, more: bool) returns (next: seq<nat>)
    requires forall i :: i in at ==> i < n
    ensures next == (if more then at + [n] else at) && forall i: nat :: i in next <==> i in at || (more && i == n)
  {
    next := if more then at + [n] else at;
  }

  // ----- removing

  lemma {:induction false} WithoutPlaces(s: seq<Core>, c: Core) returns (at: seq<nat>)
    ensures Picks(s, Without(s, c), at) && forall i: nat :: i in at <==> i < |s| && s[i] != c
  {
    at := [];
    if s != [] {
      var n := |s| - 1;
      at := WithoutPlaces(s[..n], c);
      WithoutSnoc(s[..n], s[n], c);
      assert s == s[..n] + [s[n]];
      PicksSnoc(s[..n], s[n], Without(s[..n], c), at);
      if s[n] != c { at := at + [n]; }
    }
  }

  /** Removing a car takes its places and no other; nothing removes null cars. */
  lemma RemovedPlaces(s: seq<Core>, c: Core) returns (at: seq<nat>)
    ensures Picks(s, Removed(s, c), at) && forall i: nat :: i in at <==> i < |s| && (c == Nil || s[i] != c)
  {
    if c == Nil {
      at := seq(|s|, i requires 0 <= i < |s| => i);
      forall i: nat | i < |s| ensures i in at { assert at[i] == i; }
    } else {
      at := WithoutPlaces(s, c);
    }
  }

  lemma {:induction false} KeptPathSnoc(cells: Heap, path: seq<Addr>, p: Addr, c: Core)
    requires p in cells && forall q :: q in path ==> q in cells
    ensures InCells(cells, path + [p])
    ensures KeptPath(cells, path + [p], c) == KeptPath(cells, path, c) + if cells[p].car == c then [] else [p]
  {
    var all := path + [p];
    assert InCells(cells, all);
    KeptPathFirst(cells, all, c);
    if path == [] {
      assert all[1..] == [] && all[0] == p;
    } else {
      assert all[1..] == path[1..] + [p] && all[0] == path[0];
      KeptPathSnoc(cells, path[1..], p, c);
      KeptPathFirst(cells, path, c);
      Joined(if cells[path[0]].car == c then [] else [path[0]], KeptPath(cells, path[1..], c),
             if cells[p].car == c then [] else [p]);
    }
  }

  predicate InCells(cells: Heap, path: seq<Addr>) { forall q :: q in path ==> q in cells }

  lemma Joined<A>(a: seq<A>, b: seq<A>, c: seq<A>)
    ensures a + (b + c) == a + b + c
  {}

  lemma KeptPathFirst(cells: Heap, path: seq<Addr>, c: Core)
    requires path != [] && forall q :: q in path ==> q in cells
    ensures KeptPath(cells, path, c) ==
      (if cells[path[0]].car == c then [] else [path[0]]) + KeptPath(cells, path[1..], c)
  {}

  /** The cells that stay are those whose car is another one. */
  lemma {:induction false} KeptPathPlaces(cells: Heap, path: seq<Addr>, c: Core) returns (at: seq<nat>)
    requires forall q :: q in path ==> q in cells
    ensures Picks(path, KeptPath(cells, path, c), at)
    ensures forall i: nat :: i in at <==> i < |path| && cells[path[i]].car != c
    decreases |path|
  {
    at := [];
    if path != [] {
      var n := |path| - 1;
      var l, x := path[..n], path[n];
      assert path == l + [x];
      at := KeptPathPlaces(cells, l, c);
      KeptPathSnoc(cells, l, x, c);
      PicksSnoc(l, x, KeptPath(cells, l, c), at);
      at := WithPlace(at, n, cells[x].car != c);
    }
  }

  // ----- compacting and joining

  /** The car of place `i` does not stand in front of it. */
  predicate FirstAt(s: seq<Core>, i: nat) { i < |s| && forall j :: 0 <= j < i ==> s[j] != s[i] }

  lemma FirstAtSnoc(s: seq<Core>, x: Core)
    ensures forall i: nat :: i < |s| ==> (FirstAt(s + [x], i) <==> FirstAt(s, i))
    ensures FirstAt(s + [x], |s|) <==> x !in s
  {
    var t := s + [x];
    assert t[|s|] == x && forall j :: 0 <= j < |s| ==> t[j] == s[j];
  }

  /** Compacting keeps the first place of each atom, and every null car. */
  lemma {:induction false} CompactedPlaces(s: seq<Core>) returns (at: seq<nat>)
    ensures Picks(s, Compacted(s), at)
    ensures forall i: nat :: i in at <==> i < |s| && (s[i] == Nil || FirstAt(s, i))
    decreases |s|
  {
    at := [];
    if s != [] {
      var n := |s| - 1;
      var l, x := s[..n], s[n];
      assert s == l + [x];
      at := CompactedPlaces(l);
      CompactedSnoc(l, x);
      PicksSnoc(l, x, Compacted(l), at);
      at := WithPlace(at, n, x == Nil || x !in l);
      FirstAtSnoc(l, x);
    }
  }

  /** Appending the missing cars leaves the first list as it is, and takes of
      the second the first place of each car that the first does not have. */
  lemma {:induction false} OntoPlaces(a: seq<Core>, b: seq<Core>) returns (tail: seq<Core>, at: seq<nat>)
    ensures GatherOnto(a, b) == a + tail && Picks(b, tail, at)
    ensures forall i: nat :: i in at <==> FirstAt(b, i) && b[i] !in a
    ensures forall c :: c in a + tail <==> c in a || c in b
    decreases |b|
  {
    tail, at := [], [];
    if b == [] {
      assert a + [] == a;
    } else {
      var n := |b| - 1;
      var l, x := b[..n], b[n];
      assert b == l + [x];
      tail, at := OntoPlaces(a, l);
      FirstAtSnoc(l, x);
      PicksSnoc(l, x, tail, at);
      var known := x in a + tail;
      at := WithPlace(at, n, !known);
      if !known {
        assert (a + tail) + [x] == a + (tail + [x]);
        tail := tail + [x];
      }
    }
  }

  lemma GatheredPlaces(s: seq<Core>) returns (at: seq<nat>)
    ensures Picks(s, Gathered(s), at) && forall i: nat :: i in at <==> FirstAt(s, i)
  {
    GatheredIsOnto(s);
    var tail;
    tail, at := OntoPlaces([], s);
    assert [] + tail == tail;
  }

  lemma GatheredIsOnto(s: seq<Core>)
    ensures Gathered(s) == GatherOnto([], s)
  {
    GatherConcat([], s);
    assert [] + s == s && Gathered([]) == [];
  }

  /** The joint of two lists: each car of them at the first place it has in the
      one list followed by the other. */
  lemma JointPlaces(a: seq<Core>, b: seq<Core>) returns (at: seq<nat>)
    ensures Picks(a + b, Gathered(a + b), at)
    ensures forall i: nat :: i in at <==> FirstAt(a + b, i)
  {
    at := GatheredPlaces(a + b);
  }

  // ----- matching

  /** The atoms listed are those whose names match, and no others. */
  lemma {:induction false} MatchingPlaces(s: seq<Core>, name: AtomId -> Name, cs: Glob.Case, pattern: Glob.CString)
    returns (at: seq<nat>)
    requires forall c :: c in s ==> c.Atm?
    ensures Picks(s, Matching(s, name, cs, pattern), at)
    ensures forall i: nat :: i in at <==> i < |s| && Glob.Matches(cs, name(s[i].id), pattern)
    decreases |s|
  {
    at := [];
    if s != [] {
      var n := |s| - 1;
      at := MatchingPlaces(s[..n], name, cs, pattern);
      assert s == s[..n] + [s[n]];
      PicksSnoc(s[..n], s[n], Matching(s[..n], name, cs, pattern), at);
      if Glob.Matches(cs, name(s[n].id), pattern) { at := at + [n]; }
    }
  }

  // ----- adding by name

  /** An atom is added behind all leading names before its own, unless its name
      stands there. */
  lemma AddedWhere(s: seq<Core>, atm: AtomId, name: AtomId -> Name, duplicate: bool, t: seq<Core>)
    requires Added(s, atm, name, duplicate, t) && forall c :: c in s ==> c.Atm?
    ensures exists k ::
      && 0 <= k <= |s| && (forall i :: 0 <= i < k ==> Before(name(s[i].id), name(atm)))
      && (k < |s| ==> !Before(name(s[k].id), name(atm)))
      && (duplicate <==> k < |s| && name(s[k].id) == name(atm))
      && t == if duplicate then s else s[..k] + [Atm(atm)] + s[k..]
  {
    var k := Place(NamesOf(s, name), name(atm));
    assert forall i :: 0 <= i < k ==> Before(NamesOf(s, name)[i], name(atm));
  }
}
