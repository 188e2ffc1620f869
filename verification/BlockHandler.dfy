/** The memory handler for blocks of one size: pages of growing size, two page
    hints, and a threshold below which no page is added. */
module BlockHandler {
  import opened Page
  import opened Growth

  const MAX_BASE_SIZE := 1024
  const DEF_INIT_PAGE_SIZE := 64
  const DEF_INIT_PAGE_NUM := 4
  const MAX_PAGES := 32768

  // ----- pages that share nothing

  /** Two pages share no object and no pool. */
  ghost predicate Disjoint(p: BPage, q: BPage) {
    && p != q && p.avail_ != q.avail_ && p.isAssigned_ != q.isAssigned_
    && p.avail_ as object != q.isAssigned_ as object && p.isAssigned_ as object != q.avail_ as object
    && (p.poolLimit_ <= q.pool_ || q.poolLimit_ <= p.pool_)
  }

  ghost predicate AllDisjoint(pages: seq<BPage>, p: BPage) { forall q :: q in pages ==> Disjoint(q, p) }

  ghost predicate Separate(pages: seq<BPage>) {
    forall i, j {:trigger Disjoint(pages[i], pages[j])} :: 0 <= i < |pages| && 0 <= j < |pages| && i != j ==>
      Disjoint(pages[i], pages[j])
  }

  lemma SeparateAdded(pages: seq<BPage>, p: BPage)
    requires Separate(pages) && AllDisjoint(pages, p)
    ensures Separate(pages + [p])
  {
    var all := pages + [p];
    forall i, j | 0 <= i < |all| && 0 <= j < |all| && i != j ensures Disjoint(all[i], all[j]) {
      if i < |pages| && j < |pages| {
        assert Disjoint(pages[i], pages[j]);
      } else if i < |pages| {
        assert Disjoint(pages[i], p);
      } else {
        assert Disjoint(pages[j], p);
      }
    }
  }

  /** The pages are sound, separate, of the sizes they should be, and have the
      free counts and live blocks given. */
  ghost predicate Paged(pages: seq<BPage>, avails: seq<int>, live: seq<set<int>>, base: int, init: int)
    reads pages, set p | p in pages :: p.avail_, set p | p in pages :: p.isAssigned_
  {
    && Separate(pages) && |avails| == |live| == |pages|
    && (forall i {:trigger pages[i].Valid()} :: 0 <= i < |pages| ==> pages[i].Valid())
    && (forall i :: 0 <= i < |pages| ==> pages[i].baseSize_ == base && pages[i].pageSize_ == PageSize(init, i))
    && (forall i :: 0 <= i < |pages| ==> avails[i] == pages[i].available_ && live[i] == pages[i].blocks)
  }

  /** Memory for `size` blocks of `base` bytes from `pool` on is not in use. */
  predicate FreshPool(pages: seq<BPage>, pool: int, base: int, size: int) {
    NULL < pool && forall p :: p in pages ==> BlockAt(pool, base, size) <= p.pool_ || p.poolLimit_ <= pool
  }

  /** The block stood on top of the page's free blocks. */
  ghost predicate Popped(p: BPage, address: int)
    reads p, p.avail_
  {
    p.available_ < p.avail_.Length && address == p.pool_ + p.avail_[p.available_] * p.baseSize_
  }

  /** The block stands there. */
  ghost predicate Pushed(p: BPage, address: int)
    reads p, p.avail_
  {
    0 < p.available_ <= p.avail_.Length && address == p.pool_ + p.avail_[p.available_ - 1] * p.baseSize_
  }

  /** Page `i` takes one of its blocks into use. */
  method NewOn(p: BPage, ghost pages: seq<BPage>, ghost avails: seq<int>, ghost live: seq<set<int>>, ghost i: nat,
               ghost base: int, ghost init: int) returns (address: int)
    requires Paged(pages, avails, live, base, init) && i < |pages| && p == pages[i] && p.available_ > 0
    modifies p, p.isAssigned_
    ensures Paged(pages, avails[i := avails[i] - 1], live[i := live[i] + {address}], base, init)
    ensures address !in live[i] && address != NULL && Popped(p, address)
  {
    assert pages[i].Valid();
    address := p.New();
    forall j | 0 <= j < |pages| && j != i ensures pages[j] != p && pages[j].Valid() {
      assert old(pages[j].Valid());
      assert Disjoint(pages[i], pages[j]);
    }
  }

  /** Page `i` gets one of its blocks back. */
  method DeleteOn(p: BPage, address: int, ghost pages: seq<BPage>, ghost avails: seq<int>, ghost live: seq<set<int>>,
                  ghost i: nat, ghost base: int, ghost init: int)
    requires Paged(pages, avails, live, base, init) && i < |pages| && p == pages[i] && address in live[i]
    modifies p, p.avail_, p.isAssigned_
    ensures Paged(pages, avails[i := avails[i] + 1], live[i := live[i] - {address}], base, init)
    ensures Pushed(p, address)
  {
    assert pages[i].Valid();
    p.Delete(address);
    forall j | 0 <= j < |pages| && j != i ensures pages[j] != p && pages[j].Valid() {
      assert old(pages[j].Valid());
      assert Disjoint(pages[i], pages[j]);
    }
  }

  /** A new page, with all its blocks free, behind the others. */
  method NewPage(base: BYTE2, size: BYTE2, pool: int, ghost pages: seq<BPage>, ghost avails: seq<int>,
                 ghost live: seq<set<int>>, ghost init: int) returns (p: BPage)
    requires Paged(pages, avails, live, base, init) && 0 < base && 0 < size == PageSize(init, |pages|)
    requires FreshPool(pages, pool, base, size)
    ensures fresh(p) && fresh(p.avail_) && fresh(p.isAssigned_)
    ensures p.available_ == p.pageSize_ == size && p.pool_ == pool
    ensures Paged(pages + [p], avails + [size as int], live + [{}], base, init)
  {
    p := new BPage(base, size, pool);
    SeparateAdded(pages, p);
    var all := pages + [p];
    forall i | 0 <= i < |all| ensures all[i].Valid() {
      if i < |pages| { assert old(pages[i].Valid()); }
    }
  }

  /** No two live blocks overlap, on one page or on two. */
  lemma LiveApart(pages: seq<BPage>, avails: seq<int>, live: seq<set<int>>, base: int, init: int,
                  i: nat, a: int, j: nat, b: int)
    requires Paged(pages, avails, live, base, init) && i < |live| && j < |live| && a in live[i] && b in live[j]
    requires i != j || a != b
    ensures a + base <= b || b + base <= a
  {
    assert pages[i].Valid() && pages[j].Valid();
    if i == j {
      pages[i].BlocksApart(a, b);
    } else {
      assert Disjoint(pages[i], pages[j]);
      pages[i].BlockInPool(a);
      pages[j].BlockInPool(b);
    }
  }

  function Clamp(x: int, low: int, high: int): int { if x < low then low else if x > high then high else x }

  /** Blocks on the first page, by their size. */
  function FirstSize(baseSize: int): (size: int)
    requires 0 < baseSize
    ensures 1 <= size <= 64
  {
    Clamp(DEF_INIT_PAGE_SIZE / baseSize, 1, PAGESIZE_MAX)
  }

  /** The first page is as large as 64 bytes allow, but has a block. */
  lemma FirstFits(baseSize: int)
    requires 0 < baseSize
    ensures baseSize <= 64 ==> FirstSize(baseSize) * baseSize <= 64 < (FirstSize(baseSize) + 1) * baseSize
    ensures baseSize > 64 ==> FirstSize(baseSize) == 1
  {
    var q := 64 / baseSize;
    assert 64 == baseSize * q + 64 % baseSize;
    assert (q + 1) * baseSize == baseSize * q + baseSize && q * baseSize == baseSize * q;
    if baseSize <= 64 {
      assert q >= 1 by { if q <= 0 { Least(baseSize, -q); } }
      assert q <= 64 by { if q > 64 { Least(q, baseSize - 1); } }
    }
  }

  lemma FirstTotals(size: int, percent: int)
    ensures Sum([size]) == Capacity(size, 1) == size && Threshold(size, percent, 1) == size * percent / 100
  {
    SumSnoc([], size);
    assert [] + [size] == [size];
    assert Capacity(size, 1) == Capacity(size, 0) + PageSize(size, 0);
    assert Threshold(size, percent, 1) == Threshold(size, percent, 0) + PageSize(size, 0) * percent / 100;
  }

  lemma LastUpdated<A>(s: seq<A>, x: A, y: A)
    ensures (s + [x])[|s| := y] == s + [y]
  {}

  class BFixedSizeMemoryHandler {
    const baseSize_: BYTE2
    const growingFactor_: int
    const initPageNum_: int
    const initPageSize_: int
    const percentThreshold_: int
    /** The pages in use; `lastAllocPg_` is the room for them. */
    var page__: seq<BPage>
    var lastAllocPg_: BYTE2
    var lastPage_: BYTE2
    var pgNm_: int
    var lastDelPgNm_: int
    var maxAllowed_: int
    var assigned_: int
    var threshold_: int
    /** The free blocks and the addresses of the live blocks, page by page. */
    ghost var avails: seq<int>
    ghost var live: seq<set<int>>

    // ----- invariant

    ghost predicate Sized()
      reads this
    {
      && 0 < baseSize_ <= MAX_BASE_SIZE && growingFactor_ == GROWTH
      && 1 <= initPageSize_ <= PAGESIZE_MAX && 50 <= percentThreshold_ <= 95
      && 1 <= lastPage_ == |page__| <= MAX_PAGES && lastPage_ <= lastAllocPg_
      && 0 <= pgNm_ < lastPage_ && 0 <= lastDelPgNm_ < lastPage_
    }

    /** The totals of the pages; `assigned_` is counted separately. */
    ghost predicate Totalled()
      reads this
    {
      && maxAllowed_ == Capacity(initPageSize_, lastPage_)
      && threshold_ == Threshold(initPageSize_, percentThreshold_, lastPage_)
    }

    ghost predicate Backed()
      reads this, page__, set p | p in page__ :: p.avail_, set p | p in page__ :: p.isAssigned_
    {
      Paged(page__, avails, live, baseSize_, initPageSize_)
    }

    ghost predicate Valid()
      reads this, page__, set p | p in page__ :: p.avail_, set p | p in page__ :: p.isAssigned_
    {
      Sized() && Backed() && Totalled() && assigned_ + Sum(avails) == maxAllowed_
    }

    /** A block is counted as assigned and not yet taken from its page. */
    ghost predicate Owing()
      reads this, page__, set p | p in page__ :: p.avail_, set p | p in page__ :: p.isAssigned_
    {
      Sized() && Backed() && Totalled() && assigned_ + Sum(avails) == maxAllowed_ + 1
    }

    /** Only a new page can serve the next request. */
    ghost predicate NeedsPage()
      requires Sized()
      reads this, page__
    {
      assigned_ + 1 >= threshold_ && page__[pgNm_].available_ == page__[lastDelPgNm_].available_ == 0
    }

    // ----- construction

    constructor (baseSize: BYTE2, percentThreshold: int, pool: int)
      requires 0 < baseSize <= MAX_BASE_SIZE && 0 <= percentThreshold < 256 && NULL < pool
      ensures Valid() && assigned_ == 0 && lastPage_ == 1 && live == [{}]
      ensures baseSize_ == baseSize && page__[0].pool_ == pool && fresh(page__[0])
      ensures baseSize <= 64 ==> initPageSize_ * baseSize <= 64 < (initPageSize_ + 1) * baseSize
      ensures baseSize > 64 ==> initPageSize_ == 1
      ensures page__[0].pageSize_ == maxAllowed_ == initPageSize_
      ensures 50 <= percentThreshold <= 95 ==> percentThreshold_ == percentThreshold
      ensures percentThreshold < 50 ==> percentThreshold_ == 50
      ensures percentThreshold > 95 ==> percentThreshold_ == 95
      ensures growingFactor_ == 4 && initPageNum_ == lastAllocPg_ == 4
    {
      var size, percent := FirstSize(baseSize), Clamp(percentThreshold, 50, 95);
      var num := Clamp(DEF_INIT_PAGE_NUM, 1, 256);
      baseSize_, growingFactor_, initPageNum_ := baseSize, Clamp(GROWTH, 1, 10), num;
      initPageSize_, percentThreshold_ := size, percent;
      lastAllocPg_ := num;
      var first := NewPage(baseSize, size, pool, [], [], [], size);
      page__, avails, live := [first], [size], [{}];
      lastPage_, pgNm_, lastDelPgNm_, assigned_ := 1, 0, 0, 0;
      threshold_ := size * percent / 100;
      maxAllowed_ := size;
      FirstTotals(size, percent);
      FirstFits(baseSize);
      assert [first] == [] + [first] && [size] == [] + [size];
    }

    // ----- choosing a page

    /** Page `i` is the last one with as many free blocks as there are pages,
        else the last of those with most free blocks. */
    ghost predicate Fullest(i: int)
      reads `page__, page__
    {
      var n := |page__|;
      && 0 <= i < n && page__[i].available_ > 0
      && (forall j :: i < j < n ==> page__[j].available_ < n && page__[j].available_ < page__[i].available_)
      && (page__[i].available_ >= n || forall j :: 0 <= j < i ==> page__[j].available_ <= page__[i].available_)
    }

    /** The page that serves a request if none is added: the current one, the
        one of the last deletion, or the fullest of free blocks. */
    ghost predicate Serves(i: int)
      reads `page__, `pgNm_, `lastDelPgNm_, page__
    {
      && 0 <= pgNm_ < |page__| && 0 <= lastDelPgNm_ < |page__|
      && if page__[pgNm_].available_ > 0 then i == pgNm_
         else if page__[lastDelPgNm_].available_ > 0 then i == lastDelPgNm_
         else Fullest(i)
    }

    /** The search from the last page to the first; -1 when every page is full. */
    method FullestPage() returns (maxAvailPage: int)
      requires Sized() && Backed()
      ensures maxAvailPage == -1 ==> Sum(avails) <= 0
      ensures maxAvailPage != -1 ==> Fullest(maxAvailPage)
    {
      var i, maxAvail := lastPage_ - 1, 0;
      maxAvailPage := -1;
      while i >= 0
        invariant -1 <= i < lastPage_ && (maxAvailPage == -1 || i < maxAvailPage < lastPage_)
        invariant maxAvailPage == -1 ==> maxAvail == 0 && forall j :: i < j < lastPage_ ==> page__[j].available_ == 0
        invariant maxAvailPage >= 0 ==> page__[maxAvailPage].available_ == maxAvail > 0 && maxAvail < lastPage_
        invariant forall j :: i < j < maxAvailPage ==> page__[j].available_ <= maxAvail
        invariant forall j :: maxAvailPage >= 0 && maxAvailPage < j < lastPage_ ==> page__[j].available_ < maxAvail
      {
        if page__[i].available_ > maxAvail {
          maxAvail := page__[i].available_;
          maxAvailPage := i;
          if maxAvail >= lastPage_ { break; }
        }
        i := i - 1;
      }
      if maxAvailPage == -1 && Sum(avails) > 0 { SumPositive(avails, |avails|); }
    }

    /** Count the request and choose the current page, the page of the last
        deletion or, below the threshold, the fullest of free blocks; the search
        for one cannot fail. */
    method ChoosePage() returns (i: int)
      requires Valid()
      modifies `assigned_
      ensures Owing() && assigned_ == old(assigned_) + 1
      ensures -1 <= i < lastPage_ && (i >= 0 ==> page__[i].available_ > 0)
      ensures i == -1 <==> old(NeedsPage())
      ensures i == -1 ==> assigned_ >= threshold_
      ensures i >= 0 ==> old(Serves(i))
    {
      assigned_ := assigned_ + 1;
      if page__[pgNm_].available_ > 0 { return pgNm_; }
      if page__[lastDelPgNm_].available_ > 0 { return lastDelPgNm_; }
      if assigned_ >= threshold_ { return -1; }
      ThresholdBounds(initPageSize_, percentThreshold_, lastPage_);
      i := FullestPage();
    }

    // ----- adding a page

    method NextPageSize() returns (newPageSize: BYTE2)
      requires Sized() && page__[lastPage_ - 1].pageSize_ == PageSize(initPageSize_, lastPage_ - 1)
      ensures newPageSize == PageSize(initPageSize_, lastPage_) > 0
    {
      PageSizeIsPower(initPageSize_, lastPage_ - 1);
      var oldPageSize := page__[lastPage_ - 1].pageSize_;
      var size := oldPageSize * growingFactor_;
      if size >= PAGESIZE_MAX { size := PAGESIZE_MAX; }
      newPageSize := size;
    }

    /** Enter a page into the list; the room for pages doubles when it is full. */
    method Register(p: BPage)
      requires Sized() && lastPage_ < MAX_PAGES
      modifies this`page__, this`lastPage_, this`lastAllocPg_, this`pgNm_, this`avails, this`live
      ensures Sized() && page__ == old(page__) + [p]
      ensures pgNm_ == old(lastPage_) && lastPage_ == old(lastPage_) + 1
      ensures lastAllocPg_ == if old(lastPage_) == old(lastAllocPg_) then 2 * old(lastAllocPg_) else old(lastAllocPg_)
      ensures avails == old(avails) + [p.pageSize_ as int] && live == old(live) + [{}]
    {
      if lastPage_ == lastAllocPg_ {
        lastAllocPg_ := lastAllocPg_ * 2;
      }
      page__ := page__ + [p];
      pgNm_ := lastPage_;
      lastPage_ := lastPage_ + 1;
      avails := avails + [p.pageSize_ as int];
      live := live + [{}];
    }

    /** Enter the newest page into the totals. */
    method Account()
      requires Sized() && page__[pgNm_].pageSize_ == PageSize(initPageSize_, lastPage_ - 1)
      requires maxAllowed_ == Capacity(initPageSize_, lastPage_ - 1)
      requires threshold_ == Threshold(initPageSize_, percentThreshold_, lastPage_ - 1)
      modifies this`threshold_, this`maxAllowed_
      ensures Totalled() && maxAllowed_ == old(maxAllowed_) + page__[pgNm_].pageSize_
    {
      threshold_ := threshold_ + page__[pgNm_].pageSize_ * percentThreshold_ / 100;
      maxAllowed_ := maxAllowed_ + page__[pgNm_].pageSize_;
    }

    /** Append a page of the next size. */
    method AddPage(pool: int)
      requires Sized() && Backed() && lastPage_ < MAX_PAGES
      requires FreshPool(page__, pool, baseSize_, PageSize(initPageSize_, lastPage_))
      modifies this`page__, this`lastPage_, this`lastAllocPg_, this`pgNm_, this`avails, this`live
      ensures Sized() && Backed()
      ensures lastPage_ == old(lastPage_) + 1 && pgNm_ == lastPage_ - 1
      ensures page__[..pgNm_] == old(page__) && fresh(page__[pgNm_]) && fresh(page__[pgNm_].isAssigned_)
      ensures page__[pgNm_].pageSize_ == PageSize(initPageSize_, pgNm_) > 0
      ensures avails == old(avails) + [page__[pgNm_].pageSize_ as int] && live == old(live) + [{}]
    {
      var newPageSize := NextPageSize();
      var p := NewPage(baseSize_, newPageSize, pool, page__, avails, live, initPageSize_);
      ghost var all, counts, sets := page__ + [p], avails + [newPageSize as int], live + [{}];
      label before:
      Register(p);
      assert old@before(Paged(all, counts, sets, baseSize_, initPageSize_));
      assert Paged(all, counts, sets, baseSize_, initPageSize_);
    }

    // ----- operations

    /** Take a block from page `i`, which becomes the current page. */
    method NewOnPage(i: int) returns (address: int)
      requires Owing() && 0 <= i < lastPage_ && page__[i].available_ > 0
      modifies this`pgNm_, this`avails, this`live, page__[i], page__[i].isAssigned_
      ensures Valid() && pgNm_ == i && address != NULL
      ensures address !in old(live[i]) && live == old(live)[i := old(live[i]) + {address}]
      ensures Popped(page__[i], address)
    {
      ghost var counts := avails[i := avails[i] - 1];
      SumUpdate(avails, i, avails[i] - 1);
      pgNm_ := i;
      address := NewOn(page__[i], page__, avails, live, i, baseSize_, initPageSize_);
      avails := counts;
      live := live[i := live[i] + {address}];
    }

    /** Add a page and count its blocks. */
    method Extend(pool: int)
      requires Owing() && lastPage_ < MAX_PAGES
      requires FreshPool(page__, pool, baseSize_, PageSize(initPageSize_, lastPage_))
      modifies this`page__, this`lastPage_, this`lastAllocPg_, this`pgNm_, this`avails, this`live
      modifies this`threshold_, this`maxAllowed_
      ensures Owing() && lastPage_ == old(lastPage_) + 1 && pgNm_ == old(lastPage_)
      ensures page__[..pgNm_] == old(page__) && fresh(page__[pgNm_]) && fresh(page__[pgNm_].isAssigned_)
      ensures page__[pgNm_].available_ > 0 && live == old(live) + [{}]
    {
      ghost var counts := avails;
      AddPage(pool);
      Account();
      SumSnoc(counts, page__[pgNm_].pageSize_);
    }

    /** Take a block from a new page, which becomes the current page. */
    method NewOnAdded(pool: int) returns (address: int)
      requires Owing() && lastPage_ < MAX_PAGES
      requires FreshPool(page__, pool, baseSize_, PageSize(initPageSize_, lastPage_)) && assigned_ >= threshold_
      modifies this`page__, this`lastPage_, this`lastAllocPg_, this`pgNm_, this`avails, this`live
      modifies this`threshold_, this`maxAllowed_
      ensures Valid() && address != NULL
      ensures old(maxAllowed_) * percentThreshold_ < 100 * (assigned_ + old(lastPage_))
      ensures old(maxAllowed_) < maxAllowed_ <= 5 * old(maxAllowed_)
      ensures lastPage_ == old(lastPage_) + 1 && pgNm_ == old(lastPage_)
      ensures page__[..pgNm_] == old(page__) && fresh(page__[pgNm_])
      ensures live == old(live) + [{address}] && Popped(page__[pgNm_], address)
    {
      ghost var sets := live;
      assert |sets| == lastPage_;
      CreationBounds();
      Extend(pool);
      assert live[pgNm_] == {};
      address := NewOnPage(pgNm_);
      LastUpdated(sets, {}, {address});
      assert {} + {address} == {address};
    }

    /** A block on the page it reports.  `pool` is where the system puts a new
        page, if one is needed. */
    method New(size: int, pool: int) returns (address: int, pageNum: BYTE2)
      requires Valid() && size == baseSize_
      requires NeedsPage() ==>
        lastPage_ < MAX_PAGES && FreshPool(page__, pool, baseSize_, PageSize(initPageSize_, lastPage_))
      modifies this, page__, set p | p in page__ :: p.isAssigned_
      ensures Valid() && assigned_ == old(assigned_) + 1 && address != NULL
      ensures pageNum == pgNm_ < lastPage_ && lastDelPgNm_ == old(lastDelPgNm_) && Popped(page__[pageNum], address)
      ensures !old(NeedsPage()) ==> old(Serves(pageNum))
      ensures !old(NeedsPage()) ==>
        && page__ == old(page__) && maxAllowed_ == old(maxAllowed_) && threshold_ == old(threshold_)
        && address !in old(live[pageNum]) && live == old(live)[pageNum := old(live[pageNum]) + {address}]
      ensures old(NeedsPage()) ==>
        && lastPage_ == old(lastPage_) + 1 && pageNum == old(lastPage_)
        && page__[..pageNum] == old(page__) && fresh(page__[pageNum])
        && live == old(live) + [{address}]
      ensures old(NeedsPage()) ==>
        && old(maxAllowed_) * percentThreshold_ < 100 * (assigned_ + old(lastPage_))
        && old(maxAllowed_) < maxAllowed_ <= 5 * old(maxAllowed_)
    {
      var i := ChoosePage();
      if i >= 0 {
        address := NewOnPage(i);
      } else {
        address := NewOnAdded(pool);
      }
      pageNum := pgNm_;
    }

    /** A page is added only when about the threshold's share of all blocks is
        live, and makes the capacity at most five times as large. */
    lemma CreationBounds()
      requires Sized() && Totalled() && assigned_ >= threshold_
      ensures maxAllowed_ * percentThreshold_ < 100 * (assigned_ + lastPage_)
      ensures maxAllowed_ < Capacity(initPageSize_, lastPage_ + 1) <= 5 * maxAllowed_
    {
      ThresholdBounds(initPageSize_, percentThreshold_, lastPage_);
      FivefoldAtMost(initPageSize_, lastPage_);
    }

    /** Give a live block back to the page it came from. */
    method Delete(obj: int, pageNum: BYTE2)
      requires Valid() && pageNum < lastPage_ && obj in live[pageNum]
      modifies this`assigned_, this`lastDelPgNm_, this`avails, this`live
      modifies page__[pageNum], page__[pageNum].avail_, page__[pageNum].isAssigned_
      ensures Valid() && assigned_ == old(assigned_) - 1 && lastDelPgNm_ == pageNum
      ensures live == old(live)[pageNum := old(live)[pageNum] - {obj}] && Pushed(page__[pageNum], obj)
    {
      ghost var counts := avails[pageNum := avails[pageNum] + 1];
      SumUpdate(avails, pageNum, avails[pageNum] + 1);
      assigned_ := assigned_ - 1;
      lastDelPgNm_ := pageNum;
      DeleteOn(page__[lastDelPgNm_], obj, page__, avails, live, pageNum, baseSize_, initPageSize_);
      avails := counts;
      live := live[pageNum := live[pageNum] - {obj}];
    }

    /** Is this a live block of that page?  Any address and number may be asked. */
    method IsAssigned(obj: int, pageNum: BYTE2) returns (r: bool)
      requires Valid()
      ensures r <==> pageNum < lastPage_ && obj in live[pageNum]
    {
      if pageNum >= lastPage_ { return false; }
      assert page__[pageNum].Valid();
      r := page__[pageNum].IsAssigned(obj);
    }

    /** No two live blocks overlap, so neither does a block just allocated with
        any allocated before. */
    lemma NoOverlap(i: nat, a: int, j: nat, b: int)
      requires Valid() && i < |live| && j < |live| && a in live[i] && b in live[j] && (i != j || a != b)
      ensures a + baseSize_ <= b || b + baseSize_ <= a
    {
      LiveApart(page__, avails, live, baseSize_, initPageSize_, i, a, j, b);
    }

    /** `assigned_` is the number of live blocks. */
    lemma AssignedIsLive()
      requires Valid()
      ensures assigned_ == Sum(Counts(live))
    {
      forall i | 0 <= i < |page__| ensures avails[i] + |live[i]| == PageSize(initPageSize_, i) {
        assert page__[i].Valid();
        page__[i].PageCount();
      }
      CapacityIsSum(avails, Counts(live), initPageSize_, |live|);
    }

    /** The capacity is the number of blocks on all pages, the threshold the sum
        of the pages' percents, each rounded down. */
    lemma TotalsAreSums(sizes: seq<int>, shares: seq<int>)
      requires Valid() && |shares| == |sizes| == |page__|
      requires forall i :: 0 <= i < |page__| ==> sizes[i] == page__[i].pageSize_ as int
      requires forall i :: 0 <= i < |page__| ==>
        100 * shares[i] <= sizes[i] * percentThreshold_ && sizes[i] * percentThreshold_ < 100 * (shares[i] + 1)
      ensures maxAllowed_ == Sum(sizes) && threshold_ == Sum(shares)
    {
      TotalsMean(initPageSize_, percentThreshold_, sizes, shares, |sizes|);
    }

    /** The totals and the page numbers fit the machine's integers. */
    lemma NumbersFit()
      requires Valid()
      ensures 0 <= maxAllowed_ < 0x8000_0000 && threshold_ < 0x8000_0000
      ensures 0 <= pgNm_ < 0x8000 && 0 <= lastDelPgNm_ < 0x8000
    {
      TotalsFit(initPageSize_, percentThreshold_, lastPage_);
    }
  }

  function Counts(live: seq<set<int>>): (c: seq<int>)
    ensures |c| == |live| && forall i :: 0 <= i < |c| ==> c[i] == |live[i]|
  {
    seq(|live|, i requires 0 <= i < |live| => |live[i]|)
  }

  lemma {:induction false} CapacityIsSum(s: seq<int>, t: seq<int>, init: int, n: nat)
    requires n <= |s| && n <= |t| && forall i :: 0 <= i < n ==> s[i] + t[i] == PageSize(init, i)
    ensures SumTo(s, n) + SumTo(t, n) == Capacity(init, n)
  {
    if n > 0 { CapacityIsSum(s, t, init, n - 1); }
  }
}
