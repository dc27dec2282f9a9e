/** The heap's live objects as byte ranges, and that they never overlap. */
module HeapRanges {
  import opened Bits
  import opened Lists
  import opened Buddy
  import opened BuddyTheory
  import opened Pmm
  import opened Slab
  import opened SlabLists

  datatype Range = Range(start: nat, len: nat)

  ghost predicate Disjoint(a: Range, b: Range) {
    a.start + a.len <= b.start || b.start + b.len <= a.start
  }

  function SlotRange(p: nat, c: nat, i: nat): Range
    requires c < CACHES
  {
    Range(Addr(p, c, i), ObjectSize(c))
  }

  function BlockRange(b: Block): Range {
    Range(b.pfn * PAGE_SIZE, Pow2(b.order) * PAGE_SIZE)
  }

  /** The objects handed out by the slabs. */
  ghost function SlabAllocs(h: Slabs): set<Range>
    requires Good(h)
  {
    set p, i | p in h.free && 0 <= i < Capacity(h.headers[p].cache) && i !in h.free[p] ::
      SlotRange(p, h.headers[p].cache, i)
  }

  /** The blocks handed out whole. */
  ghost function DirectAllocs(direct: set<nat>, live: map<nat, nat>): set<Range> {
    set p | p in direct && p in live :: BlockRange(Block(p, live[p]))
  }

  /** What a successful allocation adds: one new range of len bytes at ptr. */
  ghost predicate Granted(before: set<Range>, after: set<Range>, ptr: nat, len: nat) {
    Range(ptr, len) !in before && after == before + {Range(ptr, len)}
  }

  /** Cache c is the one with the smallest objects that hold size bytes. */
  ghost predicate SmallestFit(c: nat, size: nat) {
    c < CACHES && 0 < size <= SIZES[c] && forall k :: 0 <= k < c ==> SIZES[k] < size
  }

  lemma SmallestFitUnique(c: nat, d: nat, size: nat)
    requires SmallestFit(c, size) && SmallestFit(d, size)
    ensures c == d
  {
  }

  /** Exactly page p leaves the page allocator. */
  ghost predicate TookPage(s: State, s': State, p: nat) {
    p in FreePages(s) && FreePages(s') == FreePages(s) - {p} && Count(s'.lists) == Count(s.lists) - 1
  }

  /** Where an object of cache c comes from: the first on the free list of the slab
      preferred, at no cost in pages; without such a slab the first slot of a page just
      taken, which then holds as many objects as fit behind the header. */
  ghost predicate ObjectFrom(preferred: int, h: Slabs, h': Slabs, s: State, s': State, ptr: nat, c: nat)
    requires c < CACHES
  {
    var p := ptr / PAGE_SIZE;
    if preferred != NIL then
      && s' == s && p == preferred && p < |h.headers| == |h'.headers| && ptr == h.headers[p].freeList
      && h'.headers[p].freeCount == h.headers[p].freeCount - 1
    else
      && TookPage(s, s', p) && ptr == p * PAGE_SIZE + HEADER_SIZE && p < |h'.headers|
      && FillsPage(h'.headers[p].freeCount + 1, SIZES[c])
  }

  /** What a large allocation takes: a whole block of the least power of two of pages. */
  ghost predicate BlockFrom(before: set<Range>, after: set<Range>, s: State, s': State, ptr: nat, pages: nat) {
    && ptr % PAGE_SIZE == 0
    && exists t :: LeastOrder(pages, t) && Allocated(s, s', ptr / PAGE_SIZE, t)
                   && Granted(before, after, ptr, Pow2(t) * PAGE_SIZE)
  }

  /** What giving back the object at ptr does: a slab object heads its slab's free list
      and no page moves; a whole block returns to the page allocator. */
  ghost predicate Returned(h: Slabs, h': Slabs, s: State, s': State, ptr: nat) {
    var p := ptr / PAGE_SIZE;
    if p in h.free then
      && s' == s && p < |h.headers| == |h'.headers|
      && h'.headers[p] == Header(ptr, h.headers[p].freeCount + 1, h.headers[p].cache)
    else
      && h' == h && p in s.live && s'.live == s.live - {p}
      && FreePages(s') == FreePages(s) + Pages(Block(p, s.live[p]))
      && Count(s'.lists) == Count(s.lists) + Pow2(s.live[p])
  }

  /** A slot's address determines its slab and the slot. */
  lemma SlotRangeUnique(p: nat, c: nat, i: nat, q: nat, d: nat, j: nat)
    requires c < CACHES && d < CACHES && i < Capacity(c) && j < Capacity(d)
    requires Addr(p, c, i) == Addr(q, d, j)
    ensures p == q && (c == d ==> i == j)
  {
    SlotBounds(c, i);
    SlotBounds(d, j);
    CapacityValues(c);
    CapacityValues(d);
    assert p == q;
    if c == d {
      SlotWords(c);
    }
  }

  lemma PopAllocs(h: Slabs, home: map<nat, nat>, q: nat)
    requires Good(h) && Homed(h, home, q) && q in h.free && h.free[q] != []
    requires Word(h.headers[q].cache, h.free[q][0]) < |h.pages[q]| && Good(Pop(h, q))
    ensures var r := SlotRange(q, h.headers[q].cache, h.free[q][0]);
      r !in SlabAllocs(h) && SlabAllocs(Pop(h, q)) == SlabAllocs(h) + {r}
  {
    hide Capacity, Addr;
    var c, i, h' := h.headers[q].cache, h.free[q][0], Pop(h, q);
    var r := SlotRange(q, c, i);
    assert SlabOk(h, q);
    assert i < Capacity(c) && i !in h'.free[q] by {
      ChainPop(h.pages[q], q, c, h.headers[q].freeList, h.free[q]);
    }
    forall p, j | p in h.free && 0 <= j < Capacity(h.headers[p].cache) && j !in h.free[p]
      ensures SlotRange(p, h.headers[p].cache, j) != r && SlotRange(p, h.headers[p].cache, j) in SlabAllocs(h')
    {
      assert SlabOk(h, p);
      if SlotRange(p, h.headers[p].cache, j) == r {
        SlotRangeUnique(p, h.headers[p].cache, j, q, c, i);
        assert false;
      }
      assert p in h'.free && j !in h'.free[p];
    }
    forall p, j | p in h'.free && 0 <= j < Capacity(h'.headers[p].cache) && j !in h'.free[p]
      ensures SlotRange(p, h'.headers[p].cache, j) in SlabAllocs(h) + {r}
    {
      if !(p == q && j == i) {
        assert p in h.free && j !in h.free[p] by {
          assert p == q ==> h.free[q] == [i] + h'.free[q];
        }
      }
    }
  }

  /** Slab pages and directly allocated blocks are different live blocks. */
  ghost predicate Owned(h: Slabs, direct: set<nat>, live: map<nat, nat>) {
    && (forall p :: p in h.free ==> p in live && live[p] == 0)
    && (forall p :: p in direct ==> p in live && p !in h.free)
  }

  lemma PushAllocs(h: Slabs, home: map<nat, nat>, q: nat, i: nat)
    requires Good(h) && Homed(h, home, q) && q in h.free && i < Capacity(h.headers[q].cache) && i !in h.free[q]
    requires Word(h.headers[q].cache, i) < |h.pages[q]| && Good(Push(h, q, i))
    ensures SlabAllocs(Push(h, q, i)) == SlabAllocs(h) - {SlotRange(q, h.headers[q].cache, i)}
  {
    hide Capacity, Addr, FreeChain, Word;
    var c, h' := h.headers[q].cache, Push(h, q, i);
    var r := SlotRange(q, c, i);
    assert SlabOk(h, q);
    forall p, j | p in h'.free && 0 <= j < Capacity(h'.headers[p].cache) && j !in h'.free[p]
      ensures SlotRange(p, h'.headers[p].cache, j) in SlabAllocs(h) - {r}
    {
      assert SlabOk(h', p);
      assert p in h.free && j !in h.free[p] && h'.headers[p].cache == h.headers[p].cache;
      if SlotRange(p, h'.headers[p].cache, j) == r {
        SlotRangeUnique(p, h'.headers[p].cache, j, q, c, i);
        assert false;
      }
    }
    forall p, j | p in h.free && 0 <= j < Capacity(h.headers[p].cache) && j !in h.free[p] && !(p == q && j == i)
      ensures SlotRange(p, h.headers[p].cache, j) in SlabAllocs(h')
    {
      assert p in h'.free && j !in h'.free[p];
    }
  }

  lemma CreateAllocs(h: Slabs, q: nat, c: nat, page: seq<nat>)
    requires Good(h) && q !in h.free && q < |h.headers| && c < CACHES && Good(Create(h, q, c, page))
    ensures SlabAllocs(Create(h, q, c, page)) == SlabAllocs(h)
  {
    hide Capacity, Addr;
    var h' := Create(h, q, c, page);
    forall j | 0 <= j < Capacity(c)
      ensures j in h'.free[q]
    {
      assert h'.free[q][j] == j;
    }
    forall p, j | p in h'.free && 0 <= j < Capacity(h'.headers[p].cache) && j !in h'.free[p]
      ensures SlotRange(p, h'.headers[p].cache, j) in SlabAllocs(h)
    {
      assert p != q && p in h.free && h'.free[p] == h.free[p];
    }
    forall p, j | p in h.free && 0 <= j < Capacity(h.headers[p].cache) && j !in h.free[p]
      ensures SlotRange(p, h.headers[p].cache, j) in SlabAllocs(h')
    {
      assert SlabOk(h, p);
      assert p != q && p in h'.free && h'.free[p] == h.free[p];
    }
  }

  /** A page fresh from the allocator becomes a slab: no allocation is affected. */
  lemma OwnedCreate(h: Slabs, direct: set<nat>, live: map<nat, nat>, q: nat, c: nat, page: seq<nat>)
    requires Good(h) && Owned(h, direct, live) && q !in live && q < |h.headers| && c < CACHES
    ensures q !in h.free
    ensures Owned(Create(h, q, c, page), direct, live[q := 0])
    ensures DirectAllocs(direct, live[q := 0]) == DirectAllocs(direct, live)
  {
    assert forall p :: p in direct ==> p != q;
    forall r | r in DirectAllocs(direct, live)
      ensures r in DirectAllocs(direct, live[q := 0])
    {
      var p :| p in direct && p in live && r == BlockRange(Block(p, live[p]));
      assert live[q := 0][p] == live[p];
    }
  }

  lemma OwnedPop(h: Slabs, direct: set<nat>, live: map<nat, nat>, q: nat)
    requires Good(h) && Owned(h, direct, live) && q in h.free && h.free[q] != []
    requires Word(h.headers[q].cache, h.free[q][0]) < |h.pages[q]|
    ensures Owned(Pop(h, q), direct, live)
  {
  }

  lemma OwnedPush(h: Slabs, direct: set<nat>, live: map<nat, nat>, q: nat, i: nat)
    requires Good(h) && Owned(h, direct, live) && q in h.free
    requires Word(h.headers[q].cache, i) < |h.pages[q]|
    ensures Owned(Push(h, q, i), direct, live)
  {
  }

  /** An object's range is no directly allocated block's. */
  lemma SlotNotDirect(q: nat, c: nat, i: nat, direct: set<nat>, live: map<nat, nat>)
    requires c < CACHES && i < Capacity(c)
    ensures SlotRange(q, c, i) !in DirectAllocs(direct, live)
  {
    forall p | p in direct && p in live
      ensures SlotRange(q, c, i) != BlockRange(Block(p, live[p]))
    {
      AddrOffPage(q, c, i, p);
    }
  }

  /** A block handed out whole joins the allocations. */
  lemma OwnedDirect(h: Slabs, direct: set<nat>, live: map<nat, nat>, p: nat, t: nat)
    requires Good(h) && Owned(h, direct, live) && p !in live
    ensures var r := BlockRange(Block(p, t));
      && Owned(h, direct + {p}, live[p := t])
      && DirectAllocs(direct + {p}, live[p := t]) == DirectAllocs(direct, live) + {r}
      && r !in SlabAllocs(h) + DirectAllocs(direct, live)
  {
    hide Capacity;
    var live', r := live[p := t], BlockRange(Block(p, t));
    assert forall q :: q in direct ==> q != p;
    forall d | d in DirectAllocs(direct, live)
      ensures d in DirectAllocs(direct + {p}, live') && d != r
    {
      var q :| q in direct && q in live && d == BlockRange(Block(q, live[q]));
      assert q in direct + {p} && live'[q] == live[q];
    }
    assert r in DirectAllocs(direct + {p}, live') by {
      assert p in direct + {p} && live'[p] == t;
    }
    SlabAllocsOffPage(h, p);
  }

  lemma AddrOffPage(q: nat, c: nat, i: nat, p: nat)
    requires c < CACHES && i < Capacity(c)
    ensures Addr(q, c, i) != p * PAGE_SIZE
  {
    hide Capacity, Word;
    SlotBounds(c, i);
    assert 0 < 8 * Word(c, i) < PAGE_SIZE;
  }

  /** No object starts at a page boundary. */
  lemma SlabAllocsOffPage(h: Slabs, p: nat)
    requires Good(h)
    ensures forall r :: r in SlabAllocs(h) ==> r.start != p * PAGE_SIZE
  {
    hide Capacity, Addr;
    forall r | r in SlabAllocs(h)
      ensures r.start != p * PAGE_SIZE
    {
      var q, i :| q in h.free && 0 <= i < Capacity(h.headers[q].cache) && i !in h.free[q] &&
        r == SlotRange(q, h.headers[q].cache, i);
      assert SlabOk(h, q);
      AddrOffPage(q, h.headers[q].cache, i, p);
    }
  }

  /** A block given back whole leaves the allocations. */
  lemma OwnedRelease(h: Slabs, direct: set<nat>, live: map<nat, nat>, p: nat)
    requires Good(h) && Owned(h, direct, live) && p in direct
    ensures Owned(h, direct - {p}, live - {p})
    ensures DirectAllocs(direct - {p}, live - {p}) + {BlockRange(Block(p, live[p]))} == DirectAllocs(direct, live)
    ensures BlockRange(Block(p, live[p])) !in DirectAllocs(direct - {p}, live - {p})
  {
    var live' := live - {p};
    forall q | q in direct && q != p
      ensures q in live' && live'[q] == live[q] && BlockRange(Block(q, live[q])) in DirectAllocs(direct - {p}, live')
    {
      assert q in direct - {p} && q in live';
    }
  }

  // ---------------------------------------------------------------------------
  // No overlap

  /** Everything the heap has handed out. */
  ghost function Allocs(h: Slabs, direct: set<nat>, live: map<nat, nat>): set<Range>
    requires Good(h)
  {
    SlabAllocs(h) + DirectAllocs(direct, live)
  }

  ghost predicate Inside(a: Range, b: Range) {
    b.start <= a.start && a.start + a.len <= b.start + b.len
  }

  lemma ApartRanges(b: Block, c: Block)
    requires Apart(b, c)
    ensures Disjoint(BlockRange(b), BlockRange(c))
  {
  }

  /** Two different live blocks occupy disjoint byte ranges. */
  lemma LiveApart(cfg: Config, s: State, p: nat, q: nat)
    requires Inv(cfg, s) && p in s.live && q in s.live && p != q
    ensures Disjoint(BlockRange(Block(p, s.live[p])), BlockRange(Block(q, s.live[q])))
  {
    var b, c := Block(p, s.live[p]), Block(q, s.live[q]);
    assert b in LiveBlocks(s.live) && c in LiveBlocks(s.live);
    assert Apart(b, c);
    ApartRanges(b, c);
  }

  /** An object lies in its own page, past the slab header. */
  lemma SlotInside(p: nat, c: nat, i: nat)
    requires c < CACHES && i < Capacity(c)
    ensures Inside(SlotRange(p, c, i), BlockRange(Block(p, 0)))
    ensures Disjoint(SlotRange(p, c, i), Range(p * PAGE_SIZE, HEADER_SIZE))
  {
    SlotBounds(c, i);
    CapacityValues(c);
  }

  /** The live block an allocation lies in. */
  ghost predicate From(h: Slabs, direct: set<nat>, live: map<nat, nat>, r: Range, p: nat)
    requires Good(h)
  {
    p in live && Inside(r, BlockRange(Block(p, live[p]))) &&
    if p in h.free then exists i :: 0 <= i < Capacity(h.headers[p].cache) && r == SlotRange(p, h.headers[p].cache, i)
    else p in direct && r == BlockRange(Block(p, live[p]))
  }

  lemma Origin(h: Slabs, direct: set<nat>, live: map<nat, nat>, r: Range) returns (p: nat)
    requires Good(h) && Owned(h, direct, live) && r in Allocs(h, direct, live)
    ensures From(h, direct, live, r, p)
  {
    hide Capacity, Addr;
    if r in DirectAllocs(direct, live) {
      p :| p in direct && p in live && r == BlockRange(Block(p, live[p]));
    } else {
      var q, i :| q in h.free && 0 <= i < Capacity(h.headers[q].cache) && i !in h.free[q] &&
        r == SlotRange(q, h.headers[q].cache, i);
      assert SlabOk(h, q);
      SlotInside(q, h.headers[q].cache, i);
      p := q;
    }
  }

  lemma SlotsDisjoint(p: nat, c: nat, i: nat, j: nat)
    requires c < CACHES && i != j
    ensures Disjoint(SlotRange(p, c, i), SlotRange(p, c, j))
  {
    CapacityValues(c);
    if i < j {
      SlotsApart(c, i, j);
    } else {
      SlotsApart(c, j, i);
    }
  }

  /** Live objects never overlap each other. */
  lemma ObjectsDisjoint(cfg: Config, s: State, h: Slabs, direct: set<nat>, r: Range, r': Range)
    requires Inv(cfg, s) && Good(h) && Owned(h, direct, s.live)
    requires r in Allocs(h, direct, s.live) && r' in Allocs(h, direct, s.live) && r != r'
    ensures Disjoint(r, r')
  {
    hide Capacity, Addr, Inv;
    var p := Origin(h, direct, s.live, r);
    var p' := Origin(h, direct, s.live, r');
    if p != p' {
      LiveApart(cfg, s, p, p');
    } else if p in h.free {
      var c := h.headers[p].cache;
      var i :| 0 <= i < Capacity(c) && r == SlotRange(p, c, i);
      var j :| 0 <= j < Capacity(c) && r' == SlotRange(p, c, j);
      SlotsDisjoint(p, c, i, j);
    }
  }

  /** Live objects never overlap a slab header, nor any live block that is not the heap's. */
  lemma ObjectsClear(cfg: Config, s: State, h: Slabs, direct: set<nat>, r: Range, q: nat)
    requires Inv(cfg, s) && Good(h) && Owned(h, direct, s.live) && r in Allocs(h, direct, s.live)
    requires q in s.live && q !in direct
    ensures q in h.free ==> Disjoint(r, Range(q * PAGE_SIZE, HEADER_SIZE))
    ensures q !in h.free ==> Disjoint(r, BlockRange(Block(q, s.live[q])))
  {
    var p := Origin(h, direct, s.live, r);
    if p != q {
      LiveApart(cfg, s, p, q);
    } else {
      var i :| 0 <= i < Capacity(h.headers[p].cache) && r == SlotRange(p, h.headers[p].cache, i);
      SlotInside(p, h.headers[p].cache, i);
    }
  }

  lemma NonEmpty(h: Slabs, direct: set<nat>, live: map<nat, nat>, r: Range)
    requires Good(h) && r in Allocs(h, direct, live)
    ensures r.len > 0
  {
    if r in SlabAllocs(h) {
      var q, i :| q in h.free && 0 <= i < Capacity(h.headers[q].cache) && i !in h.free[q] &&
        r == SlotRange(q, h.headers[q].cache, i);
      assert SlabOk(h, q);
      CapacityValues(h.headers[q].cache);
    }
  }

  /** An allocation is known by its address. */
  lemma ByAddress(cfg: Config, s: State, h: Slabs, direct: set<nat>, r: Range)
    requires Inv(cfg, s) && Good(h) && Owned(h, direct, s.live) && r in Allocs(h, direct, s.live)
    ensures (set a | a in Allocs(h, direct, s.live) && a.start != r.start) == Allocs(h, direct, s.live) - {r}
  {
    forall a | a in Allocs(h, direct, s.live) && a != r
      ensures a.start != r.start
    {
      ObjectsDisjoint(cfg, s, h, direct, a, r);
      NonEmpty(h, direct, s.live, a);
      NonEmpty(h, direct, s.live, r);
    }
  }

  /** The slabs after storing v at address a. */
  function Written(h: Slabs, a: nat, v: nat): Slabs
    requires a / PAGE_SIZE < |h.pages| && |h.pages[a / PAGE_SIZE]| == 512
  {
    var page: seq<nat> := h.pages[a / PAGE_SIZE][(a % PAGE_SIZE) / 8 := v];
    h.(pages := h.pages[a / PAGE_SIZE := page])
  }

  /** Writing a word inside a live object leaves every slab intact: what the owner
      of an object stores in it cannot disturb the free lists. */
  lemma WriteGood(cfg: Config, s: State, h: Slabs, home: map<nat, nat>, direct: set<nat>, r: Range, a: nat, v: nat,
                  h': Slabs)
    requires Inv(cfg, s) && Good(h) && Homed(h, home, NIL) && Owned(h, direct, s.live) && r in Allocs(h, direct, s.live)
    requires a % 8 == 0 && r.start <= a && a + 8 <= r.start + r.len
    requires a / PAGE_SIZE < |h.pages| && |h.pages[a / PAGE_SIZE]| == 512
    requires h' == Written(h, a, v)
    ensures Good(h') && Homed(h', home, NIL) && SlabAllocs(h') == SlabAllocs(h) && Owned(h', direct, s.live)
  {
    hide Capacity, Addr, Inv, FreeChain, SlabAllocs, Allocs;
    forall x | x in h'.free
      ensures SlabOk(h', x)
    {
      assert SlabOk(h, x);
      if x == a / PAGE_SIZE {
        WriteChain(cfg, s, h, direct, r, a, v);
      }
    }
    SameAllocs(h, h');
  }

  lemma SameAllocs(h: Slabs, h': Slabs)
    requires Good(h) && Good(h') && h'.free == h.free && h'.headers == h.headers
    ensures SlabAllocs(h') == SlabAllocs(h)
  {
  }

  lemma WriteChain(cfg: Config, s: State, h: Slabs, direct: set<nat>, r: Range, a: nat, v: nat)
    requires Inv(cfg, s) && Good(h) && Owned(h, direct, s.live) && r in Allocs(h, direct, s.live)
    requires a % 8 == 0 && r.start <= a && a + 8 <= r.start + r.len
    requires a / PAGE_SIZE in h.free
    ensures var x := a / PAGE_SIZE;
      var header := h.headers[x];
      && x < |h.pages| && |h.pages[x]| == 512
      && FreeChain(h.pages[x][(a % PAGE_SIZE) / 8 := v], x, header.cache, header.freeList, h.free[x])
  {
    hide Capacity, FreeChain, Inv;
    var x := a / PAGE_SIZE;
    assert SlabOk(h, x);
    var c := h.headers[x].cache;
    ChainPage(h.pages[x], x, c, h.headers[x].freeList, h.free[x]);
    if r in SlabAllocs(h) {
      var q, i :| q in h.free && 0 <= i < Capacity(h.headers[q].cache) && i !in h.free[q] &&
        r == SlotRange(q, h.headers[q].cache, i);
      assert SlabOk(h, q);
      var d := h.headers[q].cache;
      WordOfSlot(q, d, i, a);
      ChainFrame(h.pages[q], q, d, h.headers[q].freeList, h.free[q], (a % PAGE_SIZE) / 8, v, i);
    } else {
      var p :| p in direct && p in s.live && r == BlockRange(Block(p, s.live[p]));
      assert BlockRange(Block(x, 0)) == Range(x * PAGE_SIZE, PAGE_SIZE);
      LiveApart(cfg, s, p, x);
      assert false;
    }
  }

  lemma ChainPage(page: seq<nat>, p: nat, c: nat, head: nat, s: seq<nat>)
    requires FreeChain(page, p, c, head, s)
    ensures |page| == 512
  {
  }

  /** A word address inside slot i of slab q. */
  lemma WordOfSlot(q: nat, c: nat, i: nat, a: nat)
    requires c < CACHES && i < Capacity(c) && a % 8 == 0
    requires Addr(q, c, i) <= a && a + 8 <= Addr(q, c, i) + ObjectSize(c)
    ensures a / PAGE_SIZE == q
    ensures Word(c, i) <= (a % PAGE_SIZE) / 8 < Word(c, i) + ObjectWords(c)
  {
    hide Capacity, Word, ObjectSize, ObjectWords;
    SlotBounds(c, i);
    CapacityValues(c);
    var w, n := Word(c, i), ObjectWords(c);
    var off := a - q * 4096;
    assert 8 * w <= off && off + 8 <= 8 * w + 8 * n <= 4096;
    assert a / 4096 == q && a % 4096 == off;
  }

  /** Where an allocation lies in memory. */
  lemma AllocBounds(cfg: Config, s: State, h: Slabs, direct: set<nat>, r: Range, a: nat)
    requires Inv(cfg, s) && Good(h) && Owned(h, direct, s.live) && r in Allocs(h, direct, s.live)
    requires r.start <= a < r.start + r.len
    ensures 0 < a / PAGE_SIZE < cfg.total
  {
    hide Capacity, Addr;
    var p := Origin(h, direct, s.live, r);
    var b := Block(p, s.live[p]);
    assert b in LiveBlocks(s.live);
    HeadIsCovered(LiveBlocks(s.live), b);
    FreeIsRest(s.lists, LiveBlocks(s.live), cfg.usable);
    PageOfByte(b, a);
  }

  lemma PageOfByte(b: Block, a: nat)
    requires b.pfn * PAGE_SIZE <= a < b.pfn * PAGE_SIZE + Pow2(b.order) * PAGE_SIZE
    ensures a / PAGE_SIZE in Pages(b)
  {
    assert Between(b.pfn, a / PAGE_SIZE, b.pfn + Pow2(b.order));
  }

  /** kfree's test tells objects from whole blocks: the frame of the address records
      a slab exactly when the address is an object's. */
  lemma AtAddress(h: Slabs, direct: set<nat>, live: map<nat, nat>, r: Range) returns (q: nat, i: nat)
    requires Good(h) && Owned(h, direct, live) && r in Allocs(h, direct, live) && r.start / PAGE_SIZE < |h.slabOf|
    ensures q == r.start / PAGE_SIZE
    ensures h.slabOf[q].Some? ==>
      && q in h.free && i < Capacity(h.headers[q].cache) && i !in h.free[q] && r == SlotRange(q, h.headers[q].cache, i)
    ensures h.slabOf[q].None? ==> q in direct && q in live && r == BlockRange(Block(q, live[q]))
  {
    hide Capacity, Addr;
    q, i := r.start / PAGE_SIZE, 0;
    if r in SlabAllocs(h) {
      var p, j :| p in h.free && 0 <= j < Capacity(h.headers[p].cache) && j !in h.free[p] &&
        r == SlotRange(p, h.headers[p].cache, j);
      assert SlabOk(h, p);
      SlotBounds(h.headers[p].cache, j);
      AddrParts(p, h.headers[p].cache, j);
      i := j;
    } else {
      var p :| p in direct && p in live && r == BlockRange(Block(p, live[p]));
      assert p == q;
    }
  }

  /** Rounding a size up to pages may wrap around 64 bits; the wrapped count fits no
      better than the true one. */
  lemma WrappedCount(s: State, size: nat)
    requires 2048 < size < 0x1_0000_0000_0000_0000
    ensures var count := ((size + PAGE_SIZE - 1) % 0x1_0000_0000_0000_0000) / PAGE_SIZE;
      && count < 0x10_0000_0000_0000
      && (NoFit(s, count) <==> NoFit(s, (size + PAGE_SIZE - 1) / PAGE_SIZE))
      && (!NoFit(s, count) ==> count == (size + PAGE_SIZE - 1) / PAGE_SIZE)
  {
    if size + PAGE_SIZE - 1 >= 0x1_0000_0000_0000_0000 {
      Pow2Small();
    }
  }

  // ---------------------------------------------------------------------------
  // What a call leaves alone

  /** The live blocks that are not the heap's, as other callers of the page allocator
      hold them. */
  ghost function Others(h: Slabs, direct: set<nat>, live: map<nat, nat>): map<nat, nat> {
    map p | p in live && p !in h.free && p !in direct :: live[p]
  }

  lemma OthersCreate(h: Slabs, direct: set<nat>, live: map<nat, nat>, q: nat, c: nat, page: seq<nat>)
    requires q < |h.headers| == |h.pages| == |h.slabOf| && c < CACHES && q !in live
    ensures Others(Create(h, q, c, page), direct, live[q := 0]) == Others(h, direct, live)
  {
  }

  lemma OthersDirect(h: Slabs, direct: set<nat>, live: map<nat, nat>, p: nat, t: nat)
    requires p !in live
    ensures Others(h, direct + {p}, live[p := t]) == Others(h, direct, live)
  {
  }

  lemma OthersRelease(h: Slabs, direct: set<nat>, live: map<nat, nat>, p: nat)
    requires p in direct
    ensures Others(h, direct - {p}, live - {p}) == Others(h, direct, live)
  {
  }

  lemma OthersSame(h: Slabs, h': Slabs, direct: set<nat>, live: map<nat, nat>)
    requires h'.free.Keys == h.free.Keys
    ensures Others(h', direct, live) == Others(h, direct, live)
  {
    assert forall p :: p in h'.free <==> p in h'.free.Keys;
    assert forall p :: p in h.free <==> p in h.free.Keys;
  }

  /** The contents of these pages did not change. */
  ghost predicate PagesKept(before: seq<seq<nat>>, after: seq<seq<nat>>, pages: set<nat>) {
    |before| == |after| && forall p :: p in pages && p < |before| ==> after[p] == before[p]
  }

  /** A free page is in no live block. */
  lemma FreeNotLive(cfg: Config, s: State, p: nat)
    requires Inv(cfg, s) && p in FreePages(s)
    ensures p !in LivePages(s)
  {
    FreeIsRest(s.lists, LiveBlocks(s.live), cfg.usable);
  }

  /** Every word but the one at address a is as before. */
  ghost predicate OnlyWord(before: seq<seq<nat>>, after: seq<seq<nat>>, a: nat) {
    && |before| == |after|
    && forall p :: 0 <= p < |before| ==>
         && |after[p]| == |before[p]|
         && forall w :: 0 <= w < |before[p]| && p * PAGE_SIZE + 8 * w != a ==> after[p][w] == before[p][w]
  }

  lemma PopKeeps(h: Slabs, q: nat)
    requires Good(h) && q in h.free && h.free[q] != [] && Word(h.headers[q].cache, h.free[q][0]) < |h.pages[q]|
    ensures Pop(h, q).free.Keys == h.free.Keys && Pop(h, q).pages == h.pages
  {
  }

  lemma PopFrom(preferred: int, h0: Slabs, h: Slabs, s: State, s': State, q: nat, c: nat, ptr: nat)
    requires Good(h) && q < |h.headers| && q in h.free && h.free[q] != []
    requires h.headers[q] == Header(ptr, h.headers[q].freeCount, c) && c < CACHES
    requires Word(c, h.free[q][0]) < |h.pages[q]| && ptr / PAGE_SIZE == q
    requires preferred != NIL ==> q == preferred && h0 == h && s' == s
    requires preferred == NIL ==>
      TookPage(s, s', q) && ptr == q * PAGE_SIZE + HEADER_SIZE && FillsPage(h.headers[q].freeCount, SIZES[c])
    ensures ObjectFrom(preferred, h0, Pop(h, q), s, s', ptr, c)
  {
    hide Capacity, Word, Addr, TookPage, FillsPage;
    assert SlabOk(h, q);
  }

  lemma PushReturned(h: Slabs, q: nat, i: nat, s: State)
    requires q < |h.headers| == |h.pages| && q in h.free && h.headers[q].cache < CACHES
    requires i < Capacity(h.headers[q].cache) && Word(h.headers[q].cache, i) < |h.pages[q]|
    ensures Returned(h, Push(h, q, i), s, s, Addr(q, h.headers[q].cache, i))
  {
    hide Capacity, Word, Addr;
    SlotBounds(h.headers[q].cache, i);
    AddrParts(q, h.headers[q].cache, i);
  }

  lemma CreateFills(h: Slabs, q: nat, c: nat, page: seq<nat>)
    requires q < |h.headers| == |h.pages| == |h.slabOf| && c < CACHES
    ensures var header := Create(h, q, c, page).headers[q];
      FillsPage(header.freeCount, SIZES[c]) && header.freeList == q * PAGE_SIZE + HEADER_SIZE
  {
    hide FillsPage, Capacity;
    CapacityValues(c);
  }

  lemma PushKeeps(h: Slabs, q: nat, i: nat)
    requires q < |h.headers| == |h.pages| && q in h.free
    requires h.headers[q].cache < CACHES && Word(h.headers[q].cache, i) < |h.pages[q]|
    ensures Push(h, q, i).free.Keys == h.free.Keys
  {
  }

  lemma PushWord(h: Slabs, q: nat, i: nat)
    requires q < |h.headers| == |h.pages| && q in h.free
    requires h.headers[q].cache < CACHES && Word(h.headers[q].cache, i) < |h.pages[q]|
    ensures OnlyWord(h.pages, Push(h, q, i).pages, Addr(q, h.headers[q].cache, i))
  {
  }

  lemma WrittenWord(h: Slabs, a: nat, v: nat)
    requires a / PAGE_SIZE < |h.pages| && |h.pages[a / PAGE_SIZE]| == 512 && a % 8 == 0
    ensures OnlyWord(h.pages, Written(h, a, v).pages, a)
  {
    var p, w := a / PAGE_SIZE, (a % PAGE_SIZE) / 8;
    assert p * PAGE_SIZE + 8 * w == a;
  }
}
