/** The growing array: its contents, and how many elements it copies while it
    grows one element at a time. */
module BArray {
  /** Six fifths of a size, rounded down. */
  function WithMargin(n: nat): nat { 6 * n / 5 }

  /** How many elements have been moved once the capacity is `max`. */
  predicate MovedAtMost(moved: nat, max: nat) {
    && (max <= 8 ==> 2 * moved <= max * (max - 1))
    && (max >= 8 ==> moved <= 9 * max - 44)
    && (max >= 19 ==> moved <= 6 * max + 13)
  }

  /** Growing a full array of `n` elements keeps the bound. */
  lemma GrowthIsPaidFor(moved: nat, max: nat, n: nat)
    requires MovedAtMost(moved, max) && n <= max <= n + 1 && max < WithMargin(n + 1)
    ensures MovedAtMost(moved + n, WithMargin(n + 1))
  {
    var m := WithMargin(n + 1);
    assert 5 * m <= 6 * n + 6 <= 5 * m + 4;
    if max < 8 { SmallGrowth(moved, max, n); }
  }

  lemma SmallGrowth(moved: nat, max: nat, n: nat)
    requires max < 8 && 2 * moved <= max * (max - 1) && n <= max <= n + 1 && max < WithMargin(n + 1)
    ensures MovedAtMost(moved + n, WithMargin(n + 1))
  {
    if max == 0 {} else if max == 1 {} else if max == 2 {} else if max == 3 {}
    else if max == 4 {} else if max == 5 {} else if max == 6 {} else {}
  }

  lemma NineEach(moved: nat, max: nat, n: nat)
    requires MovedAtMost(moved, max) && 5 * max <= 6 * n
    ensures moved <= 9 * n
  {
    if max <= 8 { assert max * (max - 1) <= 7 * max || max == 0; }
  }

  class BArray<Any(0,==)> {
    var buffer_: array<Any>
    var maxSize_: int
    var size_: int
    /** Elements copied so far from an old buffer to a new one. */
    ghost var moved: nat

    ghost predicate Valid()
      reads this
    {
      0 <= size_ <= maxSize_ == buffer_.Length
    }

    ghost function Contents(): seq<Any>
      reads this, buffer_
      requires Valid()
    {
      buffer_[..size_]
    }

    /** The array has been filled from empty by `Add` alone. */
    ghost predicate Added()
      reads this
    {
      5 * maxSize_ <= 6 * size_ && MovedAtMost(moved, buffer_.Length)
    }

    constructor ()
      ensures Valid() && Contents() == [] && fresh(buffer_) && moved == 0 && Added()
    {
      buffer_, maxSize_, size_, moved := new Any[0], 0, 0, 0;
    }

    method ReallocBuffer(size0: int)
      requires Valid()
      modifies this
      ensures Valid() && size_ == if size0 < 0 then 0 else size0
      ensures maxSize_ == if old(maxSize_) < size_ then size_ else old(maxSize_)
      ensures buffer_ == old(buffer_) || fresh(buffer_)
      ensures old(maxSize_) >= size_ ==> buffer_ == old(buffer_) && moved == old(moved)
      ensures old(maxSize_) < size_ ==> moved == old(moved) + old(size_)
      ensures forall i :: 0 <= i < old(size_) && i < maxSize_ ==> buffer_[i] == old(buffer_[i])
    {
      var size := size0;
      if size < 0 { size := 0; }
      if maxSize_ < size {
        var oldBuf := buffer_;
        buffer_, maxSize_ := new Any[size], size;
        var i := 0;
        while i < size_
          invariant 0 <= i <= size_ == old(size_) && size_ <= oldBuf.Length && maxSize_ == buffer_.Length == size
          invariant buffer_ != oldBuf && fresh(buffer_) && oldBuf[..] == old(buffer_[..]) && moved == old(moved) + i
          invariant forall j :: 0 <= j < i ==> buffer_[j] == oldBuf[j]
        {
          buffer_[i] := oldBuf[i];
          moved := moved + 1;
          i := i + 1;
        }
      }
      size_ := size;
    }

    /** Make room for one more than `n` items; when that leaves no room, six
        fifths of it, rounded down. */
    method Reserve(n: int)
      requires Valid() && n == size_
      modifies this
      ensures Valid() && n + 1 <= maxSize_ && (buffer_ == old(buffer_) || fresh(buffer_))
      ensures forall i :: 0 <= i < n ==> buffer_[i] == old(buffer_[i])
      ensures old(maxSize_) > n + 1 ==> maxSize_ == old(maxSize_)
      ensures old(maxSize_) <= n + 1 ==> 5 * maxSize_ <= 6 * (n + 1) < 5 * (maxSize_ + 1)
      ensures moved == old(moved) + if maxSize_ == old(maxSize_) then 0 else n
      ensures old(Added()) ==> 5 * maxSize_ <= 6 * (n + 1) && MovedAtMost(moved, maxSize_)
    {
      ghost var m := WithMargin(n + 1);
      assert 5 * m <= 6 * n + 6 <= 5 * m + 4;
      if maxSize_ <= n + 1 {
        if Added() && maxSize_ < m { GrowthIsPaidFor(moved, maxSize_, n); }
        ReallocBuffer(6 * (n + 1) / 5);
      }
    }

    method Add(obj: Any)
      requires Valid()
      modifies this, buffer_
      ensures Valid() && Contents() == old(Contents()) + [obj]
      ensures buffer_ == old(buffer_) || fresh(buffer_)
      ensures old(maxSize_) > size_ ==> maxSize_ == old(maxSize_)
      ensures old(maxSize_) <= size_ ==> 5 * maxSize_ <= 6 * size_ < 5 * (maxSize_ + 1)
      ensures moved == old(moved) + if maxSize_ == old(maxSize_) then 0 else old(size_)
      ensures old(Added()) ==> Added()
    {
      var n := size_;
      Reserve(n);
      ReallocBuffer(n + 1);
      buffer_[n] := obj;
    }

    /** The first item `same` as the one searched, or -1. */
    method Find(searched: Any, same: (Any, Any) -> bool) returns (found: int)
      requires Valid()
      ensures -1 <= found < size_ && (found >= 0 ==> same(Contents()[found], searched))
      ensures forall i :: 0 <= i < (if found >= 0 then found else size_) ==> !same(Contents()[i], searched)
    {
      found := -1;
      var n := 0;
      while n < size_ && found == -1
        invariant 0 <= n <= size_ && -1 <= found < n
        invariant found >= 0 ==> found == n - 1 && same(buffer_[found], searched)
        invariant forall i :: 0 <= i < (if found >= 0 then found else n) ==> !same(buffer_[i], searched)
        decreases size_ - n, found == -1
      {
        if same(buffer_[n], searched) { found := n; }
        n := n + 1;
      }
    }

    method AddUnique(obj: Any, same: (Any, Any) -> bool) returns (unique: bool)
      requires Valid()
      modifies this, buffer_
      ensures Valid() && unique == (forall i :: 0 <= i < |old(Contents())| ==> !same(old(Contents())[i], obj))
      ensures Contents() == if unique then old(Contents()) + [obj] else old(Contents())
      ensures old(Added()) ==> Added()
    {
      var found := Find(obj, same);
      unique := found < 0;
      if unique { Add(obj); }
    }

    /** Append the items of another array, or of this one. */
    method AutoConcat(arr: BArray<Any>)
      requires Valid() && arr.Valid() && (arr != this ==> arr.buffer_ != buffer_)
      modifies this, buffer_
      ensures Valid() && Contents() == old(Contents()) + old(arr.Contents())
      ensures arr != this ==> unchanged(arr) && unchanged(arr.buffer_)
    {
      if arr.size_ == 0 { return; }
      ghost var n, a, b := size_, arr.Contents(), Contents();
      var i, j := size_, 0;
      ReallocBuffer(size_ + arr.size_);
      while j < arr.size_ && i < size_
        invariant Valid() && size_ == n + |a| && 0 <= j <= |a| <= arr.size_ && i == n + j
        invariant buffer_ == old(buffer_) || fresh(buffer_)
        invariant arr.size_ <= arr.buffer_.Length && (arr != this ==> arr.buffer_ != buffer_ && arr.size_ == |a|)
        invariant forall k :: 0 <= k < |a| ==> arr.buffer_[k] == a[k]
        invariant forall k :: 0 <= k < n ==> buffer_[k] == b[k]
        invariant forall k :: 0 <= k < j ==> buffer_[n + k] == a[k]
        decreases |a| - j
      {
        buffer_[i] := arr.buffer_[j];
        i, j := i + 1, j + 1;
      }
      Joined(Contents(), b, a);
    }

    static lemma Joined(s: seq<Any>, b: seq<Any>, a: seq<Any>)
      requires |s| == |b| + |a| && (forall k :: 0 <= k < |b| ==> s[k] == b[k]) && forall k :: 0 <= k < |a| ==> s[|b| + k] == a[k]
      ensures s == b + a
    {
      forall i | |b| <= i < |s| ensures s[i] == a[i - |b|] { assert s[|b| + (i - |b|)] == a[i - |b|]; }
    }

    /** Any number of additions to an empty array: the items in order, and at
        most nine copies for each. */
    static method AddAll(items: seq<Any>) returns (arr: BArray<Any>)
      ensures fresh(arr) && arr.Valid() && arr.Contents() == items && arr.moved <= 9 * |items|
    {
      arr := new BArray<Any>();
      var n := 0;
      while n < |items|
        invariant 0 <= n <= |items| && fresh(arr) && fresh(arr.buffer_)
        invariant arr.Valid() && arr.Contents() == items[..n] && arr.Added()
      {
        arr.Add(items[n]);
        n := n + 1;
      }
      NineEach(arr.moved, arr.buffer_.Length, |items|);
    }
  }
}
