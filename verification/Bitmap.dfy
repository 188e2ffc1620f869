/** A map of bits packed into bytes, most significant bit first, and its
    agreement with a stack of the indices whose bit is clear. */
module Bitmap {
  const POW2: seq<bv8> := [128, 64, 32, 16, 8, 4, 2, 1]

  predicate Test(b: bv8, i: nat)
    requires i < 8
  {
    b & POW2[i] != 0
  }

  predicate Bit(v: seq<bv8>, k: nat)
    requires k / 8 < |v|
  {
    Test(v[k / 8], k % 8)
  }

  function With(v: seq<bv8>, k: nat): (w: seq<bv8>)
    requires k / 8 < |v|
    ensures |w| == |v|
  {
    v[k / 8 := v[k / 8] | POW2[k % 8]]
  }

  function Without(v: seq<bv8>, k: nat): (w: seq<bv8>)
    requires k / 8 < |v|
    ensures |w| == |v|
  {
    v[k / 8 := v[k / 8] & !POW2[k % 8]]
  }

  predicate OneBit(x: bv8) {
    x == 128 || x == 64 || x == 32 || x == 16 || x == 8 || x == 4 || x == 2 || x == 1
  }

  lemma BitsApart(b: bv8, x: bv8, y: bv8)
    requires OneBit(x) && OneBit(y)
    ensures (b | x) & y != 0 <==> x == y || b & y != 0
    ensures (b & !x) & y != 0 <==> x != y && b & y != 0
  {}

  lemma Powers(i: nat, j: nat)
    requires i < 8 && j < 8
    ensures OneBit(POW2[i]) && (POW2[i] == POW2[j] <==> i == j)
  {}

  lemma SetOne(b: bv8, i: nat, j: nat)
    requires i < 8 && j < 8
    ensures Test(b | POW2[i], j) <==> j == i || Test(b, j)
  {
    Powers(i, j);
    Powers(j, i);
    BitsApart(b, POW2[i], POW2[j]);
  }

  lemma ClearOne(b: bv8, i: nat, j: nat)
    requires i < 8 && j < 8
    ensures Test(b & !POW2[i], j) <==> j != i && Test(b, j)
  {
    Powers(i, j);
    Powers(j, i);
    BitsApart(b, POW2[i], POW2[j]);
  }

  /** Bit `k` is that of byte `k / 8` with the weight `128 >> k % 8`. */
  lemma BitMeans(v: seq<bv8>, k: nat)
    requires k / 8 < |v|
    ensures Bit(v, k) <==> (v[k / 8] >> (7 - k % 8)) & 1 == 1
  {
    TestMeans(v[k / 8], k % 8);
  }

  lemma TestMeans(b: bv8, i: nat)
    requires i < 8
    ensures Test(b, i) <==> (b >> (7 - i)) & 1 == 1
  {
    assert i == 0 || i == 1 || i == 2 || i == 3 || i == 4 || i == 5 || i == 6 || i == 7;
    WeightsMean(b);
  }

  lemma WeightsMean(b: bv8)
    ensures (b & 128 != 0 <==> (b >> 7) & 1 == 1) && (b & 64 != 0 <==> (b >> 6) & 1 == 1)
    ensures (b & 32 != 0 <==> (b >> 5) & 1 == 1) && (b & 16 != 0 <==> (b >> 4) & 1 == 1)
    ensures (b & 8 != 0 <==> (b >> 3) & 1 == 1) && (b & 4 != 0 <==> (b >> 2) & 1 == 1)
    ensures (b & 2 != 0 <==> (b >> 1) & 1 == 1) && (b & 1 != 0 <==> (b >> 0) & 1 == 1)
  {}

  lemma ByteAndBit(k: nat, j: nat)
    ensures k / 8 == j / 8 && k % 8 == j % 8 <==> k == j
  {}

  lemma TestWith(v: seq<bv8>, q: nat, i: nat, p: nat, j: nat)
    requires q < |v| && p < |v| && i < 8 && j < 8
    ensures Test(v[q := v[q] | POW2[i]][p], j) <==> (q == p && i == j) || Test(v[p], j)
  {
    SetOne(v[q], i, j);
  }

  lemma TestWithout(v: seq<bv8>, q: nat, i: nat, p: nat, j: nat)
    requires q < |v| && p < |v| && i < 8 && j < 8
    ensures Test(v[q := v[q] & !POW2[i]][p], j) <==> !(q == p && i == j) && Test(v[p], j)
  {
    ClearOne(v[q], i, j);
  }

  /** Setting a bit sets that bit and no other. */
  lemma BitWith(v: seq<bv8>, k: nat, j: nat)
    requires k / 8 < |v| && j / 8 < |v|
    ensures Bit(With(v, k), j) <==> j == k || Bit(v, j)
  {
    ByteAndBit(k, j);
    TestWith(v, k / 8, k % 8, j / 8, j % 8);
  }

  /** Clearing a bit clears that bit and no other. */
  lemma BitWithout(v: seq<bv8>, k: nat, j: nat)
    requires k / 8 < |v| && j / 8 < |v|
    ensures Bit(Without(v, k), j) <==> j != k && Bit(v, j)
  {
    ByteAndBit(k, j);
    TestWithout(v, k / 8, k % 8, j / 8, j % 8);
  }

  method GetBit(v: array<bv8>, k: nat) returns (bit: bool)
    requires k / 8 < v.Length
    ensures bit == Bit(v[..], k)
  {
    bit := v[k / 8] & POW2[k % 8] != 0;
  }

  method PutBitTrue(v: array<bv8>, k: nat)
    requires k / 8 < v.Length
    modifies v
    ensures v[..] == With(old(v[..]), k)
  {
    v[k / 8] := v[k / 8] | POW2[k % 8];
  }

  method PutBitFalse(v: array<bv8>, k: nat)
    requires k / 8 < v.Length
    modifies v
    ensures v[..] == Without(old(v[..]), k)
  {
    v[k / 8] := v[k / 8] & !POW2[k % 8];
  }

  // ----- the stack of free indices and the map

  /** The set indices below `n`. */
  function Marked(v: seq<bv8>, n: nat): (m: set<int>)
    requires n == 0 || (n - 1) / 8 < |v|
    ensures forall k :: k in m <==> 0 <= k < n && Bit(v, k)
  {
    if n == 0 then {} else if Bit(v, n - 1) then Marked(v, n - 1) + {n - 1} else Marked(v, n - 1)
  }

  lemma MarkedGrow(v: seq<bv8>, n: nat)
    requires n > 0 && (n - 1) / 8 < |v|
    ensures |Marked(v, n)| == |Marked(v, n - 1)| + if Bit(v, n - 1) then 1 else 0
  {
    assert n - 1 !in Marked(v, n - 1);
  }

  /** Is `k` among the first `m` entries? */
  predicate OnStack(s: seq<int>, m: nat, k: int)
    requires m <= |s|
  {
    m > 0 && (s[m - 1] == k || OnStack(s, m - 1, k))
  }

  /** The first `m` entries are different indices below `n`. */
  predicate Stack(s: seq<int>, m: nat, n: nat)
    requires m <= |s|
  {
    m == 0 || (0 <= s[m - 1] < n && !OnStack(s, m - 1, s[m - 1]) && Stack(s, m - 1, n))
  }

  /** Of the first `k` indices those on the stack are those whose bit is clear. */
  predicate ClearOnStack(s: seq<int>, m: nat, v: seq<bv8>, k: nat)
    requires m <= |s| && (k == 0 || (k - 1) / 8 < |v|)
  {
    k == 0 || ((OnStack(s, m, k - 1) <==> !Bit(v, k - 1)) && ClearOnStack(s, m, v, k - 1))
  }

  /** The stack of the first `m` entries holds each index below `n` whose bit is
      clear once, and nothing else. */
  predicate Agree(s: seq<int>, m: nat, v: seq<bv8>, n: nat) {
    m <= |s| && (n == 0 || (n - 1) / 8 < |v|) && Stack(s, m, n) && ClearOnStack(s, m, v, n)
  }

  lemma {:induction false} OnStackMeans(s: seq<int>, m: nat, k: int)
    requires m <= |s|
    ensures OnStack(s, m, k) <==> exists i :: 0 <= i < m && s[i] == k
  {
    if m > 0 { OnStackMeans(s, m - 1, k); }
  }

  lemma {:induction false} StackMeans(s: seq<int>, m: nat, n: nat)
    requires m <= |s|
    ensures Stack(s, m, n) <==>
      (forall i :: 0 <= i < m ==> 0 <= s[i] < n) && (forall i, j :: 0 <= i < j < m ==> s[i] != s[j])
  {
    if m > 0 {
      StackMeans(s, m - 1, n);
      OnStackMeans(s, m - 1, s[m - 1]);
    }
  }

  lemma {:induction false} ClearMeans(s: seq<int>, m: nat, v: seq<bv8>, n: nat)
    requires m <= |s| && (n == 0 || (n - 1) / 8 < |v|)
    ensures ClearOnStack(s, m, v, n) <==> forall k :: 0 <= k < n ==> (OnStack(s, m, k) <==> !Bit(v, k))
  {
    if n > 0 { ClearMeans(s, m, v, n - 1); }
  }

  /** The same, index by index. */
  lemma AgreeMeans(s: seq<int>, m: nat, v: seq<bv8>, n: nat)
    requires m <= |s| && (n == 0 || (n - 1) / 8 < |v|)
    ensures Agree(s, m, v, n) <==>
      && (forall i :: 0 <= i < m ==> 0 <= s[i] < n)
      && (forall i, j :: 0 <= i < j < m ==> s[i] != s[j])
      && (forall k :: 0 <= k < n ==> ((exists i :: 0 <= i < m && s[i] == k) <==> !Bit(v, k)))
  {
    StackMeans(s, m, n);
    ClearMeans(s, m, v, n);
    forall k | 0 <= k < n ensures OnStack(s, m, k) <==> exists i :: 0 <= i < m && s[i] == k {
      OnStackMeans(s, m, k);
    }
  }

  /** Popping an index and setting its bit. */
  lemma AgreePop(s: seq<int>, m: nat, v: seq<bv8>, n: nat)
    requires Agree(s, m + 1, v, n)
    ensures 0 <= s[m] < n && !Bit(v, s[m]) && Agree(s, m, With(v, s[m]), n)
  {
    var p := s[m];
    ClearMeans(s, m + 1, v, n);
    assert OnStack(s, m + 1, p);
    forall k | 0 <= k < n ensures OnStack(s, m, k) <==> !Bit(With(v, p), k) {
      BitWith(v, p, k);
    }
    ClearMeans(s, m, With(v, p), n);
  }

  lemma {:induction false} StackSame(s: seq<int>, t: seq<int>, m: nat, n: nat)
    requires m <= |s| && m <= |t| && forall i :: 0 <= i < m ==> s[i] == t[i]
    ensures Stack(s, m, n) == Stack(t, m, n)
    ensures forall k :: OnStack(s, m, k) == OnStack(t, m, k)
  {
    if m > 0 { StackSame(s, t, m - 1, n); }
  }

  /** Clearing a set bit and pushing its index. */
  lemma AgreePush(s: seq<int>, m: nat, p: int, v: seq<bv8>, n: nat)
    requires m < |s| && Agree(s, m, v, n) && 0 <= p < n && Bit(v, p)
    ensures Agree(s[m := p], m + 1, Without(v, p), n)
  {
    var t := s[m := p];
    StackSame(s, t, m, n);
    ClearMeans(s, m, v, n);
    forall k | 0 <= k < n ensures OnStack(t, m + 1, k) <==> !Bit(Without(v, p), k) {
      BitWithout(v, p, k);
    }
    ClearMeans(t, m + 1, Without(v, p), n);
  }

  /** Free indices and set bits add up to the size of the page. */
  lemma AgreeCount(s: seq<int>, m: nat, v: seq<bv8>, n: nat)
    requires Agree(s, m, v, n)
    ensures m + |Marked(v, n)| == n
  {
    StackMeans(s, m, n);
    StackCount(s, m, n);
    ClearMeans(s, m, v, n);
    SplitCount(Entries(s, m), Marked(v, n), n);
  }

  lemma SplitCount(a: set<int>, b: set<int>, n: nat)
    requires forall k :: k in a ==> 0 <= k < n
    requires forall k :: k in b <==> 0 <= k < n && k !in a
    ensures |a| + |b| == n
  {
    assert a + b == Indices(n);
  }

  function Entries(s: seq<int>, m: nat): (e: set<int>)
    requires m <= |s|
    ensures forall k :: k in e <==> OnStack(s, m, k)
  {
    if m == 0 then {} else Entries(s, m - 1) + {s[m - 1]}
  }

  lemma {:induction false} StackCount(s: seq<int>, m: nat, n: nat)
    requires m <= |s| && Stack(s, m, n)
    ensures |Entries(s, m)| == m && forall k :: k in Entries(s, m) ==> 0 <= k < n
  {
    if m > 0 { StackCount(s, m - 1, n); }
  }

  function Indices(n: nat): (m: set<int>)
    ensures |m| == n && forall k :: k in m <==> 0 <= k < n
  {
    if n == 0 then {} else Indices(n - 1) + {n - 1}
  }
}
