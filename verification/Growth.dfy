/** Sizes of successive pages, and the totals the handler keeps of them. */
module Growth {
  const PAGESIZE_MAX := 65535
  const GROWTH := 4

  function Min(a: int, b: int): int { if a < b then a else b }

  function SumTo(s: seq<int>, n: nat): int
    requires n <= |s|
  {
    if n == 0 then 0 else SumTo(s, n - 1) + s[n - 1]
  }

  function Sum(s: seq<int>): int { SumTo(s, |s|) }

  lemma {:induction false} SumSame(s: seq<int>, t: seq<int>, n: nat)
    requires n <= |s| && n <= |t| && forall i :: 0 <= i < n ==> s[i] == t[i]
    ensures SumTo(s, n) == SumTo(t, n)
  {
    if n > 0 { SumSame(s, t, n - 1); }
  }

  lemma SumSnoc(s: seq<int>, x: int)
    ensures Sum(s + [x]) == Sum(s) + x
  {
    SumSame(s, s + [x], |s|);
  }

  lemma {:induction false} SumUpdateTo(s: seq<int>, i: nat, x: int, n: nat)
    requires i < n <= |s|
    ensures SumTo(s[i := x], n) == SumTo(s, n) - s[i] + x
  {
    if i == n - 1 {
      SumSame(s, s[i := x], i);
    } else {
      SumUpdateTo(s, i, x, n - 1);
    }
  }

  lemma SumUpdate(s: seq<int>, i: nat, x: int)
    requires i < |s|
    ensures Sum(s[i := x]) == Sum(s) - s[i] + x
  {
    SumUpdateTo(s, i, x, |s|);
  }

  /** Something is positive when the sum is. */
  lemma {:induction false} SumPositive(s: seq<int>, n: nat)
    requires n <= |s| && SumTo(s, n) > 0
    ensures exists i :: 0 <= i < n && s[i] > 0
  {
    if s[n - 1] <= 0 { SumPositive(s, n - 1); }
  }

  // ----- page sizes

  function Next(size: int): int { if size * GROWTH >= PAGESIZE_MAX then PAGESIZE_MAX else size * GROWTH }

  function PageSize(init: int, i: nat): int {
    if i == 0 then init else Next(PageSize(init, i - 1))
  }

  function Power(b: int, n: nat): int { if n == 0 then 1 else b * Power(b, n - 1) }

  /** A page is four times as large as the one before, or of the largest size. */
  lemma PageSizeStep(init: int, i: nat)
    requires 1 <= init <= 65535
    ensures PageSize(init, 0) == init
    ensures 4 * PageSize(init, i) < 65535 ==> PageSize(init, i + 1) == 4 * PageSize(init, i)
    ensures 4 * PageSize(init, i) >= 65535 ==> PageSize(init, i + 1) == 65535
  {}

  /** Pages grow by a factor of four up to the largest size. */
  lemma {:induction false} PageSizeIsPower(init: int, i: nat)
    requires 1 <= init <= 65535
    ensures PageSize(init, i) == Min(65535, init * Power(4, i))
    ensures 1 <= PageSize(init, i) <= 65535
  {
    if i > 0 {
      PageSizeIsPower(init, i - 1);
      Regroup(init, Power(4, i - 1));
    }
  }

  lemma Regroup(a: int, b: int)
    ensures a * (4 * b) == 4 * (a * b)
  {}

  // ----- totals over the first n pages

  function Capacity(init: int, n: nat): int {
    if n == 0 then 0 else Capacity(init, n - 1) + PageSize(init, n - 1)
  }

  function Threshold(init: int, percent: int, n: nat): int {
    if n == 0 then 0 else Threshold(init, percent, n - 1) + PageSize(init, n - 1) * percent / 100
  }

  /** Rounding each page's share down loses less than one block a page; and
      each page keeps a block in reserve. */
  lemma {:induction false} ThresholdBounds(init: int, percent: int, n: nat)
    requires 1 <= init <= PAGESIZE_MAX && 50 <= percent <= 95 && n > 0
    ensures Capacity(init, n) * percent < 100 * (Threshold(init, percent, n) + n)
    ensures Threshold(init, percent, n) <= Capacity(init, n) - n
  {
    var s := PageSize(init, n - 1);
    PageSizeIsPower(init, n - 1);
    if n > 1 { ThresholdBounds(init, percent, n - 1); }
    Spread(Capacity(init, n - 1), s, percent);
    ShareOf(s, percent);
  }

  lemma ShareOf(size: int, percent: int)
    requires size > 0 && 50 <= percent <= 95
    ensures size * percent < 100 * (size * percent / 100 + 1) && size * percent / 100 <= size - 1
  {
    Least(size, 95 - percent);
    Spread(percent, 95 - percent, size);
  }

  lemma Least(a: int, b: int)
    requires a >= 0 && b >= 0
    ensures a * b >= 0
  {}

  lemma Spread(a: int, b: int, c: int)
    ensures (a + b) * c == a * c + b * c
  {}

  /** The newest page holds no more than four times all earlier ones. */
  lemma FivefoldAtMost(init: int, n: nat)
    requires 1 <= init <= PAGESIZE_MAX && n > 0
    ensures Capacity(init, n) < Capacity(init, n + 1) <= 5 * Capacity(init, n)
  {
    PageSizeIsPower(init, n - 1);
    PageSizeIsPower(init, n);
    CapacityPositive(init, n - 1);
  }

  lemma {:induction false} CapacityPositive(init: int, n: nat)
    requires 1 <= init <= PAGESIZE_MAX
    ensures n <= Capacity(init, n) <= PAGESIZE_MAX * n
  {
    if n > 0 {
      CapacityPositive(init, n - 1);
      PageSizeIsPower(init, n - 1);
    }
  }

  /** With 32768 pages at most the totals fit a 32-bit integer. */
  lemma TotalsFit(init: int, percent: int, n: nat)
    requires 1 <= init <= PAGESIZE_MAX && 50 <= percent <= 95 && n <= 32768
    ensures 0 <= Capacity(init, n) < 0x8000_0000 && Threshold(init, percent, n) < 0x8000_0000
  {
    CapacityPositive(init, n);
    if n > 0 { ThresholdBounds(init, percent, n); }
  }

  // ----- the totals, page by page

  /** The sizes of the first `n` pages, and the whole percents of each. */
  ghost predicate Shares(init: int, percent: int, sizes: seq<int>, shares: seq<int>) {
    && |shares| == |sizes|
    && (forall i :: 0 <= i < |sizes| ==> sizes[i] == PageSize(init, i))
    && (forall i :: 0 <= i < |sizes| ==> 100 * shares[i] <= sizes[i] * percent && sizes[i] * percent < 100 * (shares[i] + 1))
  }

  /** The capacity is the sum of the pages' sizes, the threshold that of their
      percents, rounded down page by page. */
  lemma {:induction false} TotalsMean(init: int, percent: int, sizes: seq<int>, shares: seq<int>, n: nat)
    requires n <= |sizes| && Shares(init, percent, sizes, shares)
    ensures Capacity(init, n) == SumTo(sizes, n) && Threshold(init, percent, n) == SumTo(shares, n)
  {
    if n > 0 {
      TotalsMean(init, percent, sizes, shares, n - 1);
      assert sizes[n - 1] == PageSize(init, n - 1);
      Whole(sizes[n - 1] * percent, shares[n - 1]);
    }
  }

  lemma Whole(x: int, q: int)
    requires 100 * q <= x < 100 * (q + 1)
    ensures x / 100 == q
  {}
}
