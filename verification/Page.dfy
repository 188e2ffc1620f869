/** A page of equally large memory blocks: a stack of free indices and a packed
    map of the assigned ones. */
module Page {
  import opened Bitmap

  type BYTE2 = x: int | 0 <= x < 65536

  const NULL: int := 0

  // ----- blocks and indices

  function BlockAt(pool: int, base: int, k: int): int { pool + k * base }

  lemma Distribute(j: int, k: int, base: int)
    ensures (k - j) * base == k * base - j * base
  {}

  lemma AtLeastOne(n: int, base: int)
    requires n > 0 && base > 0
    ensures n * base >= base
  {
    assert (n - 1) * base >= 0;
    Distribute(1, n, base);
  }

  lemma Apart(pool: int, base: int, j: int, k: int)
    requires base > 0 && j < k
    ensures BlockAt(pool, base, j) + base <= BlockAt(pool, base, k)
  {
    AtLeastOne(k - j, base);
    Distribute(j, k, base);
  }

  lemma IndexOfBlock(pool: int, base: int, k: int)
    requires base > 0
    ensures (BlockAt(pool, base, k) - pool) / base == k
  {
    var q := (BlockAt(pool, base, k) - pool) / base;
    assert q * base <= k * base < q * base + base;
    if q < k { Apart(0, base, q, k); }
    if k < q { Apart(0, base, k, q); }
  }

  lemma WithinPool(pool: int, base: int, k: nat, size: nat)
    requires base > 0 && k < size
    ensures pool <= BlockAt(pool, base, k) && BlockAt(pool, base, k) + base <= BlockAt(pool, base, size)
  {
    Apart(pool, base, k, size);
    if k > 0 { Apart(pool, base, 0, k); }
  }

  /** The addresses of the blocks below index `n` whose bit is set. */
  function BlocksBelow(pool: int, base: int, v: seq<bv8>, n: nat): set<int>
    requires n == 0 || (n - 1) / 8 < |v|
  {
    if n == 0 then {}
    else if Bit(v, n - 1) then BlocksBelow(pool, base, v, n - 1) + {BlockAt(pool, base, n - 1)}
    else BlocksBelow(pool, base, v, n - 1)
  }

  lemma {:induction false} BlockIn(pool: int, base: int, v: seq<bv8>, n: nat, k: int)
    requires base > 0 && (n == 0 || (n - 1) / 8 < |v|)
    ensures BlockAt(pool, base, k) in BlocksBelow(pool, base, v, n) <==> 0 <= k < n && Bit(v, k)
  {
    if n > 0 {
      BlockIn(pool, base, v, n - 1, k);
      if k < n - 1 { Apart(pool, base, k, n - 1); }
      if k > n - 1 { Apart(pool, base, n - 1, k); }
    }
  }

  lemma {:induction false} IndexOf(pool: int, base: int, v: seq<bv8>, n: nat, a: int) returns (k: nat)
    requires (n == 0 || (n - 1) / 8 < |v|) && a in BlocksBelow(pool, base, v, n)
    ensures k < n && Bit(v, k) && a == BlockAt(pool, base, k)
  {
    if Bit(v, n - 1) && a == BlockAt(pool, base, n - 1) {
      k := n - 1;
    } else {
      k := IndexOf(pool, base, v, n - 1, a);
    }
  }

  lemma BlocksWith(pool: int, base: int, v: seq<bv8>, n: nat, p: nat)
    requires base > 0 && p < n && (n - 1) / 8 < |v| && !Bit(v, p)
    ensures BlockAt(pool, base, p) !in BlocksBelow(pool, base, v, n)
    ensures BlocksBelow(pool, base, With(v, p), n) == BlocksBelow(pool, base, v, n) + {BlockAt(pool, base, p)}
  {
    BlockIn(pool, base, v, n, p);
    BlockIn(pool, base, With(v, p), n, p);
    BitWith(v, p, p);
    forall a | a in BlocksBelow(pool, base, v, n) ensures a in BlocksBelow(pool, base, With(v, p), n) {
      var k := IndexOf(pool, base, v, n, a);
      BitWith(v, p, k);
      BlockIn(pool, base, With(v, p), n, k);
    }
    forall a | a in BlocksBelow(pool, base, With(v, p), n)
      ensures a == BlockAt(pool, base, p) || a in BlocksBelow(pool, base, v, n)
    {
      var k := IndexOf(pool, base, With(v, p), n, a);
      BitWith(v, p, k);
      BlockIn(pool, base, v, n, k);
    }
  }

  lemma BlocksWithout(pool: int, base: int, v: seq<bv8>, n: nat, p: nat)
    requires base > 0 && p < n && (n - 1) / 8 < |v| && Bit(v, p)
    ensures BlocksBelow(pool, base, Without(v, p), n) == BlocksBelow(pool, base, v, n) - {BlockAt(pool, base, p)}
  {
    BlockIn(pool, base, Without(v, p), n, p);
    BitWithout(v, p, p);
    forall a | a in BlocksBelow(pool, base, Without(v, p), n) ensures a in BlocksBelow(pool, base, v, n) {
      var k := IndexOf(pool, base, Without(v, p), n, a);
      BitWithout(v, p, k);
      BlockIn(pool, base, v, n, k);
    }
    forall a | a in BlocksBelow(pool, base, v, n)
      ensures a == BlockAt(pool, base, p) || a in BlocksBelow(pool, base, Without(v, p), n)
    {
      var k := IndexOf(pool, base, v, n, a);
      BitWithout(v, p, k);
      BlockIn(pool, base, Without(v, p), n, k);
    }
  }

  lemma BlocksGrow(pool: int, base: int, v: seq<bv8>, n: nat)
    requires base > 0 && n > 0 && (n - 1) / 8 < |v|
    ensures |BlocksBelow(pool, base, v, n)| == |BlocksBelow(pool, base, v, n - 1)| + if Bit(v, n - 1) then 1 else 0
  {
    BlockIn(pool, base, v, n - 1, n - 1);
    OneMore(BlocksBelow(pool, base, v, n - 1), BlockAt(pool, base, n - 1));
  }

  lemma OneMore(s: set<int>, x: int)
    ensures x !in s ==> |s + {x}| == |s| + 1
  {}

  lemma {:induction false} BlocksCount(pool: int, base: int, v: seq<bv8>, n: nat)
    requires base > 0 && (n == 0 || (n - 1) / 8 < |v|)
    ensures |BlocksBelow(pool, base, v, n)| == |Marked(v, n)|
  {
    if n > 0 {
      BlocksCount(pool, base, v, n - 1);
      BlocksGrow(pool, base, v, n);
      MarkedGrow(v, n);
    }
  }

  lemma {:induction false} NoBlocks(pool: int, base: int, v: seq<bv8>, n: nat)
    requires (n == 0 || (n - 1) / 8 < |v|) && forall k :: 0 <= k < n ==> !Bit(v, k)
    ensures BlocksBelow(pool, base, v, n) == {}
  {
    if n > 0 { NoBlocks(pool, base, v, n - 1); }
  }

  class BPage {
    const baseSize_: BYTE2
    const pool_: int
    const poolLimit_: int
    const avail_: array<BYTE2>
    const isAssigned_: array<bv8>
    const pageSize_: BYTE2
    var available_: BYTE2
    /** The addresses of the assigned blocks. */
    ghost var blocks: set<int>

    ghost predicate Valid()
      reads this, avail_, isAssigned_
    {
      && 0 < baseSize_ && 0 < pageSize_ && NULL < pool_
      && poolLimit_ == BlockAt(pool_, baseSize_, pageSize_)
      && avail_.Length == pageSize_ && isAssigned_.Length == 1 + pageSize_ / 8
      && avail_ as object != isAssigned_ as object
      && available_ <= pageSize_
      && Agree(avail_[..], available_, isAssigned_[..], pageSize_)
      && blocks == BlocksBelow(pool_, baseSize_, isAssigned_[..], pageSize_)
    }

    /** All blocks of a new page are free. */
    constructor (baseSize: BYTE2, pageSize: BYTE2, pool: int)
      requires 0 < baseSize && 0 < pageSize && NULL < pool
      ensures Valid() && fresh(avail_) && fresh(isAssigned_)
      ensures baseSize_ == baseSize && pageSize_ == pageSize && pool_ == pool
      ensures blocks == {} && available_ == pageSize_ && poolLimit_ == pool + pageSize * baseSize
      ensures forall i :: 0 <= i < pageSize ==> avail_[i] == i
    {
      baseSize_, pageSize_, pool_ := baseSize, pageSize, pool;
      avail_ := new BYTE2[pageSize];
      isAssigned_ := new bv8[1 + pageSize / 8](_ => 0);
      poolLimit_ := pool + pageSize * baseSize;
      available_ := 0;
      new;
      while available_ < pageSize_
        invariant available_ <= pageSize_
        invariant forall i :: 0 <= i < available_ ==> avail_[i] == i
        invariant forall i :: 0 <= i < isAssigned_.Length ==> isAssigned_[i] == 0
      {
        avail_[available_] := available_;
        available_ := available_ + 1;
      }
      forall k | 0 <= k < pageSize ensures (exists i :: 0 <= i < pageSize && avail_[..][i] == k) && !Bit(isAssigned_[..], k) {
        assert avail_[..][k] == k;
      }
      AgreeMeans(avail_[..], pageSize, isAssigned_[..], pageSize);
      blocks := {};
      NoBlocks(pool, baseSize, isAssigned_[..], pageSize);
    }

    /** Pop a free block: the one on top of the stack. */
    method New() returns (address: int)
      requires Valid() && available_ > 0
      modifies this, isAssigned_
      ensures Valid() && available_ == old(available_) - 1
      ensures address !in old(blocks) && blocks == old(blocks) + {address}
      ensures pool_ <= address && address + baseSize_ <= poolLimit_
      ensures address == pool_ + avail_[available_] * baseSize_
    {
      ghost var v := isAssigned_[..];
      available_ := available_ - 1;
      var p := avail_[available_];
      AgreePop(avail_[..], available_, v, pageSize_);
      assert available_ < pageSize_;
      BlocksWith(pool_, baseSize_, v, pageSize_, p);
      PutBitTrue(isAssigned_, p);
      address := pool_ + p * baseSize_;
      blocks := blocks + {address};
      WithinPool(pool_, baseSize_, p, pageSize_);
    }

    /** Push an assigned block back on the stack. */
    method Delete(address: int)
      requires Valid() && address in blocks
      modifies this, avail_, isAssigned_
      ensures Valid() && available_ == old(available_) + 1
      ensures blocks == old(blocks) - {address}
      ensures address == pool_ + avail_[old(available_)] * baseSize_
      ensures forall i :: 0 <= i < pageSize_ && i != old(available_) ==> avail_[i] == old(avail_[i])
    {
      ghost var stack: seq<int>, v := avail_[..], isAssigned_[..];
      ghost var k := IndexOf(pool_, baseSize_, v, pageSize_, address);
      IndexOfBlock(pool_, baseSize_, k);
      var p: BYTE2 := (address - pool_) / baseSize_;
      RoomToPush(p);
      AgreePush(stack, available_, p, v, pageSize_);
      BlocksWithout(pool_, baseSize_, v, pageSize_, p);
      PutBitFalse(isAssigned_, p);
      avail_[available_] := p;
      available_ := available_ + 1;
      blocks := blocks - {address};
      assert avail_[..] == stack[available_ - 1 := p as int];
    }

    lemma RoomToPush(k: int)
      requires Valid() && 0 <= k < pageSize_ && Bit(isAssigned_[..], k)
      ensures available_ < pageSize_
    {
      AgreeCount(avail_[..], available_, isAssigned_[..], pageSize_);
      assert k in Marked(isAssigned_[..], pageSize_);
    }

    /** Is this the address of an assigned block?  Any address may be asked. */
    method IsAssigned(address: int) returns (r: bool)
      requires Valid()
      ensures r <==> address in blocks
    {
      ghost var v := isAssigned_[..];
      if address < pool_ || address >= poolLimit_ {
        if address in blocks { BlockInPool(address); }
        return false;
      }
      var dif := address - pool_;
      var pos := dif / baseSize_;
      if pos * baseSize_ != dif {
        if address in blocks {
          ghost var k := IndexOf(pool_, baseSize_, v, pageSize_, address);
          IndexOfBlock(pool_, baseSize_, k);
        }
        return false;
      }
      assert address == BlockAt(pool_, baseSize_, pos);
      BlockIn(pool_, baseSize_, v, pageSize_, pos);
      if pos > pageSize_ { Apart(pool_, baseSize_, pageSize_, pos); }
      r := GetBit(isAssigned_, pos);
    }

    /** Live blocks of a page do not overlap. */
    lemma BlocksApart(a: int, b: int)
      requires Valid() && a in blocks && b in blocks && a != b
      ensures a + baseSize_ <= b || b + baseSize_ <= a
    {
      var j := IndexOf(pool_, baseSize_, isAssigned_[..], pageSize_, a);
      var k := IndexOf(pool_, baseSize_, isAssigned_[..], pageSize_, b);
      if j < k { Apart(pool_, baseSize_, j, k); } else { Apart(pool_, baseSize_, k, j); }
    }

    lemma BlockInPool(a: int)
      requires Valid() && a in blocks
      ensures pool_ <= a && a + baseSize_ <= poolLimit_
    {
      var j := IndexOf(pool_, baseSize_, isAssigned_[..], pageSize_, a);
      WithinPool(pool_, baseSize_, j, pageSize_);
    }

    /** Free and live blocks add up to the page. */
    lemma PageCount()
      requires Valid()
      ensures available_ + |blocks| == pageSize_
    {
      AgreeCount(avail_[..], available_, isAssigned_[..], pageSize_);
      BlocksCount(pool_, baseSize_, isAssigned_[..], pageSize_);
    }
  }
}
