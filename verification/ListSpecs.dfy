/** What the list operations compute, on sequences of what the cars point at. */
module ListSpecs {
  import opened Cells
  import opened Glob

  // ----- removing and compacting

  function Without(s: seq<Core>, c: Core): (r: seq<Core>)
    ensures |r| <= |s|
  {
    if s == [] then [] else (if s[0] == c then [] else [s[0]]) + Without(s[1..], c)
  }

  /** Null cars are never removed. */
  function Removed(s: seq<Core>, c: Core): (r: seq<Core>)
    ensures |r| <= |s|
  {
    if c == Nil then s else Without(s, c)
  }

  /** From the front, each car removes its later copies. */
  function Compacted(s: seq<Core>): seq<Core>
    decreases |s|
  {
    if s == [] then [] else [s[0]] + Compacted(Removed(s[1..], s[0]))
  }

  /** From the front, each car is appended unless it is there already. */
  function Gathered(s: seq<Core>): seq<Core> {
    if s == [] then [] else
      var n := |s| - 1;
      AppendedUnique(Gathered(s[..n]), s[n])
  }

  function AppendedUnique(s: seq<Core>, c: Core): seq<Core> { if c in s then s else s + [c] }

  lemma {:induction false} WithoutSnoc(s: seq<Core>, x: Core, c: Core)
    ensures Without(s + [x], c) == Without(s, c) + (if x == c then [] else [x])
  {
    if s == [] {
      assert s + [x] == [x] && [x][1..] == [];
    } else {
      assert (s + [x])[1..] == s[1..] + [x];
      WithoutSnoc(s[1..], x, c);
    }
  }

  lemma {:induction false} WithoutIn(s: seq<Core>, c: Core)
    ensures forall x :: x in Without(s, c) <==> x in s && x != c
  {
    if s != [] {
      WithoutIn(s[1..], c);
      assert s == [s[0]] + s[1..];
    }
  }

  /** Compacting a longer list: the last car stays when it is new or null. */
  lemma {:induction false} CompactedSnoc(s: seq<Core>, x: Core)
    ensures Compacted(s + [x]) == if x != Nil && x in s then Compacted(s) else Compacted(s) + [x]
    decreases |s|
  {
    if s == [] {
      assert s + [x] == [x] && [x][1..] == [];
    } else {
      var c, t := s[0], s[1..];
      assert (s + [x])[0] == c && (s + [x])[1..] == t + [x] && s == [c] + t;
      var u := Removed(t, c);
      RemovedSnoc(t, x, c);
      if x != c || c == Nil { CompactedSnoc(u, x); }
    }
  }

  lemma RemovedSnoc(t: seq<Core>, x: Core, c: Core)
    ensures Removed(t + [x], c) == if x == c != Nil then Removed(t, c) else Removed(t, c) + [x]
    ensures x != c ==> (x in Removed(t, c) <==> x in t)
  {
    if c != Nil {
      WithoutSnoc(t, x, c);
      WithoutIn(t, c);
      assert Without(t, c) + [] == Without(t, c);
    }
  }

  function NilCount(s: seq<Core>): nat {
    if s == [] then 0 else NilCount(s[..|s| - 1]) + (if s[|s| - 1] == Nil then 1 else 0)
  }

  lemma {:induction false} GatheredIn(s: seq<Core>)
    ensures forall x :: x in Gathered(s) <==> x in s
  {
    if s != [] {
      GatheredIn(s[..|s| - 1]);
      assert s == s[..|s| - 1] + [s[|s| - 1]];
    }
  }

  lemma {:induction false} NilCountIn(s: seq<Core>)
    ensures NilCount(s) == 0 <==> Nil !in s
  {
    if s != [] {
      NilCountIn(s[..|s| - 1]);
      assert s == s[..|s| - 1] + [s[|s| - 1]];
    }
  }

  /** The two ways of dropping duplicates agree exactly on lists with at most
      one null car. */
  lemma {:induction false} CompactedIsGathered(s: seq<Core>)
    ensures NilCount(s) <= 1 ==> Compacted(s) == Gathered(s)
    ensures |Compacted(s)| == |Gathered(s)| + (if NilCount(s) <= 1 then 0 else NilCount(s) - 1)
  {
    if s != [] {
      var n := |s| - 1;
      var l, x := s[..n], s[n];
      assert s == l + [x];
      CompactedIsGathered(l);
      CompactedSnoc(l, x);
      GatheredIn(l);
      NilCountIn(l);
    }
  }

  /** `at` are the places of first occurrences, in order, one for each car of `t`. */
  ghost predicate FirstPlaces(s: seq<Core>, t: seq<Core>, at: seq<nat>) {
    && |at| == |t|
    && (forall k :: 0 <= k < |at| ==> at[k] < |s| && s[at[k]] == t[k] && s[at[k]] !in s[..at[k]])
    && (forall j, k :: 0 <= j < k < |at| ==> at[j] < at[k])
  }

  /** Each car once, in the order of the first occurrences. */
  lemma {:induction false} GatheredFirst(s: seq<Core>) returns (at: seq<nat>)
    ensures FirstPlaces(s, Gathered(s), at) && forall x :: x in s <==> x in Gathered(s)
  {
    GatheredIn(s);
    at := [];
    if s != [] {
      var n := |s| - 1;
      at := GatheredFirst(s[..n]);
      GatheredIn(s[..n]);
      PlacesSnoc(s[..n], s[n], Gathered(s[..n]), at);
      assert s == s[..n] + [s[n]];
      if s[n] !in Gathered(s[..n]) { at := at + [n]; }
    }
  }

  lemma PlacesSnoc(s: seq<Core>, x: Core, t: seq<Core>, at: seq<nat>)
    requires FirstPlaces(s, t, at)
    ensures FirstPlaces(s + [x], t, at)
    ensures x !in s ==> FirstPlaces(s + [x], t + [x], at + [|s|])
  {
    assert forall k :: 0 <= k <= |s| ==> (s + [x])[..k] == s[..k];
  }

  // ----- names

  type Name = CString

  function Unsigned(c: CChar): int { if c < 0 then c + 256 else c }

  /** The order of `strcmp`, which compares unsigned characters. */
  predicate Before(s: Name, t: Name) {
    t != [] && (s == [] || Unsigned(s[0]) < Unsigned(t[0]) || (s[0] == t[0] && Before(s[1..], t[1..])))
  }

  /** The names agree in front of `k`, where the first has ended or has the
      smaller character; a negative character is more than any positive one. */
  predicate LessAt(s: Name, t: Name, k: int) {
    && 0 <= k <= |s| && k < |t| && s[..k] == t[..k]
    && (k == |s| || (s[k] < t[k] && (s[k] > 0 <==> t[k] > 0)) || (s[k] > 0 && t[k] < 0))
  }

  lemma LessAtFirst(s: Name, t: Name)
    requires t != []
    ensures LessAt(s, t, 0) <==> s == [] || Unsigned(s[0]) < Unsigned(t[0])
  {}

  lemma LessAtNext(s: Name, t: Name, k: nat)
    requires s != [] && t != [] && s[0] == t[0]
    ensures LessAt(s, t, k + 1) <==> LessAt(s[1..], t[1..], k)
  {
    if k < |s| && k + 1 < |t| {
      assert s[..k + 1] == [s[0]] + s[1..][..k] && t[..k + 1] == [t[0]] + t[1..][..k];
      assert s[..k + 1][1..] == s[1..][..k] && t[..k + 1][1..] == t[1..][..k];
    }
  }

  lemma LessAtBehind(s: Name, t: Name, k: int)
    requires LessAt(s, t, k)
    ensures k > 0 ==> s[0] == t[0]
  {
    assert k > 0 ==> s[..k][0] == s[0] && t[..k][0] == t[0];
  }

  /** A name is before another where they first differ. */
  lemma {:induction false} BeforeMeans(s: Name, t: Name)
    ensures Before(s, t) <==> exists k :: LessAt(s, t, k)
  {
    if t != [] {
      LessAtFirst(s, t);
      if s != [] && s[0] == t[0] {
        BeforeMeans(s[1..], t[1..]);
        if Before(s, t) {
          var k :| LessAt(s[1..], t[1..], k);
          LessAtNext(s, t, k);
        }
        forall k | LessAt(s, t, k) ensures Before(s, t) {
          if k > 0 { LessAtNext(s, t, k - 1); }
        }
      } else {
        forall k | LessAt(s, t, k) ensures k == 0 {
          LessAtBehind(s, t, k);
        }
      }
    }
  }

  lemma {:induction false} BeforeTotal(s: Name, t: Name)
    ensures s != t ==> (Before(s, t) <==> !Before(t, s))
    ensures s == t ==> !Before(s, t)
  {
    if s != [] && t != [] {
      BeforeTotal(s[1..], t[1..]);
      assert s == [s[0]] + s[1..] && t == [t[0]] + t[1..];
    }
  }

  lemma {:induction false} BeforeTransitive(s: Name, t: Name, u: Name)
    requires Before(s, t) && Before(t, u)
    ensures Before(s, u)
  {
    if s != [] && s[0] == t[0] == u[0] { BeforeTransitive(s[1..], t[1..], u[1..]); }
  }

  predicate Sorted(names: seq<Name>) {
    forall i, j :: 0 <= i < j < |names| ==> Before(names[i], names[j])
  }

  /** Where a name belongs: behind all leading names before it. */
  function Place(names: seq<Name>, name: Name): (k: nat)
    ensures k <= |names|
    ensures forall i :: 0 <= i < k ==> Before(names[i], name)
    ensures k < |names| ==> !Before(names[k], name)
  {
    if names == [] || !Before(names[0], name) then 0 else 1 + Place(names[1..], name)
  }

  /** In a sorted list the place shows whether the name is there, and inserting
      at it keeps the list sorted. */
  lemma PlaceInSorted(names: seq<Name>, name: Name)
    requires Sorted(names)
    ensures var k := Place(names, name);
            && (name in names <==> k < |names| && names[k] == name)
            && (name !in names ==> Sorted(names[..k] + [name] + names[k..]))
  {
    var k := Place(names, name);
    var all := names[..k] + [name] + names[k..];
    if name in names {
      var i :| 0 <= i < |names| && names[i] == name;
      BeforeTotal(name, name);
      assert i >= k;
    } else {
      forall j | k <= j < |names| ensures Before(name, names[j]) {
        BeforeTotal(name, names[k]);
        if j > k { BeforeTransitive(name, names[k], names[j]); }
      }
      forall i, j | 0 <= i < j < |all| ensures Before(all[i], all[j]) {
        if i < k && j > k { BeforeTransitive(all[i], name, all[j]); }
      }
    }
  }

  function NameOf(c: Core, name: AtomId -> Name): Name { if c.Atm? then name(c.id) else [] }

  function NamesOf(s: seq<Core>, name: AtomId -> Name): (n: seq<Name>)
    ensures |n| == |s| && forall i :: 0 <= i < |s| ==> n[i] == NameOf(s[i], name)
  {
    seq(|s|, i requires 0 <= i < |s| => NameOf(s[i], name))
  }

  /** The atoms whose name matches a pattern. */
  ghost function Matching(s: seq<Core>, name: AtomId -> Name, cs: Case, pattern: CString): seq<Core> {
    if s == [] then [] else
      var n := |s| - 1;
      Matching(s[..n], name, cs, pattern) + (if Matches(cs, NameOf(s[n], name), pattern) then [s[n]] else [])
  }

  /** Appending the cars of `t`, each unless it is there. */
  function GatherOnto(s: seq<Core>, t: seq<Core>): seq<Core> {
    if t == [] then s else AppendedUnique(GatherOnto(s, t[..|t| - 1]), t[|t| - 1])
  }

  lemma {:induction false} GatherCons(s: seq<Core>, c: Core, t: seq<Core>)
    ensures GatherOnto(s, [c] + t) == GatherOnto(AppendedUnique(s, c), t)
    decreases |t|
  {
    if t == [] {
      assert [c] + t == [c] && [c][..0] == [];
    } else {
      var n := |t| - 1;
      GatherCons(s, c, t[..n]);
      assert ([c] + t)[..n + 1] == [c] + t[..n];
    }
  }

  lemma {:induction false} GatherKeeps(s: seq<Core>, t: seq<Core>, c: Core)
    requires c in s
    ensures c in GatherOnto(s, t)
    decreases |t|
  {
    if t != [] { GatherKeeps(s, t[..|t| - 1], c); }
  }

  lemma {:induction false} GatherConcat(s: seq<Core>, t: seq<Core>)
    ensures Gathered(s + t) == GatherOnto(Gathered(s), t)
    decreases |t|
  {
    if t == [] {
      assert s + t == s;
    } else {
      var n := |t| - 1;
      GatherConcat(s, t[..n]);
      assert (s + t)[..|s| + n] == s + t[..n] && (s + t)[|s| + n] == t[n];
    }
  }
}
