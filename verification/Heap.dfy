/** The kernel heap of heap.cpp: nine slab caches over the page allocator. Addresses
    are physical; a null pointer is 0. */
module Heap {
  import opened Lists
  import opened Buddy
  import opened Options
  import opened BuddyTheory
  import opened Pmm
  import opened Slab
  import opened SlabLists
  import opened HeapRanges

  class KernelHeap {
    const pmm: PageAllocator
    const pool: ListPool
    const headers: array<Header>
    const pages: array<seq<nat>>
    const slabOf: array<Option<nat>>
    ghost var free: map<nat, seq<nat>>
    ghost var home: map<nat, nat>
    ghost var direct: set<nat>

    ghost function Abs(): Slabs
      reads `free, headers, pages, slabOf
    {
      Slabs(headers[..], pages[..], slabOf[..], free)
    }

    /** The heap shares no storage with the page allocator. */
    ghost predicate Separated() {
      pool != pmm.pool && {pool.heads, pool.next, pool.prev} !! {pmm.pool.heads, pmm.pool.next, pmm.pool.prev}
    }

    /** The slabs are well formed and listed; slab q is for the moment on list home[q]. */
    ghost predicate SlabsOk(q: int)
      reads `free, `home, headers, pages, slabOf, pool, pool.heads, pool.next, pool.prev
    {
      && pool.Valid() && |pool.lists| == 3 * CACHES && pool.next.Length == headers.Length
      && (forall p :: 0 <= p < pages.Length ==> |pages[p]| == 512)
      && Good(Abs()) && Homed(Abs(), home, q) && Listed(pool.lists, home)
    }

    ghost predicate Valid()
      reads this, headers, pages, slabOf, pool, pool.heads, pool.next, pool.prev,
            pmm, pmm.frames, pmm.pool, pmm.pool.heads, pmm.pool.next, pmm.pool.prev
    {
      && Separated() && headers.Length == pmm.frames.Length
      && SlabsOk(NIL) && pmm.Valid() && Owned(Abs(), direct, pmm.live)
    }

    /** A heap over a page allocator none of whose frames records a slab. */
    constructor (pmm: PageAllocator, memory: seq<seq<nat>>)
      requires pmm.Valid() && |memory| == pmm.frames.Length && forall p :: 0 <= p < |memory| ==> |memory[p]| == 512
      ensures Valid() && this.pmm == pmm && free == map[] && direct == {}
      ensures fresh(pool) && fresh(pool.heads) && fresh(pool.next) && fresh(pool.prev)
      ensures fresh(headers) && fresh(pages) && fresh(slabOf)
    {
      hide Good, Homed, Listed, ListPool.Valid, PageAllocator.Valid;
      this.pmm := pmm;
      var n := pmm.frames.Length;
      pool := new ListPool(3 * CACHES, n);
      headers := new Header[n](i => Header(0, 0, 0));
      pages := new seq<nat>[n](i requires 0 <= i < |memory| => memory[i]);
      slabOf := new Option<nat>[n](i => None);
      free, home, direct := map[], map[], {};
      new;
      NoSlabs(Abs(), n, pool.lists);
    }

    /** Thread a page's objects into a free list in address order. */
    method BuildFreeList(p: nat, c: nat)
      requires p < pages.Length && c < CACHES && |pages[p]| == 512
      modifies pages
      ensures pages[..] == old(pages[..])[p := pages[p]] && |pages[p]| == 512
      ensures FreeChain(pages[p], p, c, Addr(p, c, 0), Ascending(Capacity(c)))
    {
      hide Word, Addr, Capacity;
      CapacityValues(c);
      SlotWords(c);
      var n := Capacity(c);
      var i := 0;
      while i < n - 1
        invariant 0 <= i <= n - 1 && |pages[p]| == 512
        invariant pages[..] == old(pages[..])[p := pages[p]]
        invariant forall k :: 0 <= k < i ==> pages[p][Word(c, k)] == Addr(p, c, k + 1)
      {
        pages[p] := pages[p][Word(c, i) := Addr(p, c, i + 1)];
        i := i + 1;
      }
      pages[p] := pages[p][Word(c, i) := 0];
      ghost var s := Ascending(n);
      assert forall k :: 0 <= k < n ==> s[k] == k;
    }

    /** Move slab q from the list it is on to the front of another. */
    method Move(q: nat, from: nat, to: nat)
      requires SlabsOk(q) && q in free && home[q] == from && to < 3 * CACHES
      modifies `home, pool, pool.heads, pool.next, pool.prev
      ensures SlabsOk(q) && home == old(home)[q := to]
    {
      hide Good, Homed, Listed, SlabOk, ListPool.Valid;
      SlabFacts(Abs(), home, pool.lists, q, q);
      pool.HeadIs(from);
      HomedElsewhere(Abs(), home, q, to);
      ListedMove(pool.lists, home, q, to);
      pool.Remove(from, q);
      pool.PushFront(to, q);
      home := home[q := to];
    }

    /** The word a pointer points at. */
    function Load(a: nat): nat
      requires a / PAGE_SIZE < pages.Length && |pages[a / PAGE_SIZE]| == 512
      reads pages
    {
      pages[a / PAGE_SIZE][(a % PAGE_SIZE) / 8]
    }

    method Store(a: nat, v: nat)
      requires a / PAGE_SIZE < pages.Length && |pages[a / PAGE_SIZE]| == 512
      modifies pages
      ensures pages[..] == old(pages[..])[a / PAGE_SIZE := old(pages[a / PAGE_SIZE])[(a % PAGE_SIZE) / 8 := v]]
    {
      var p := a / PAGE_SIZE;
      pages[p] := pages[p][(a % PAGE_SIZE) / 8 := v];
    }

    /** Unlink the first free object of slab q, which is on its cache's partial list. */
    method TakeObject(q: nat, c: nat) returns (obj: nat)
      requires SlabsOk(q) && q in free && free[q] != [] && q < headers.Length
      requires headers[q].cache == c < CACHES && home[q] == Partial(c)
      modifies `free, `home, headers, pool, pool.heads, pool.next, pool.prev
      ensures SlabsOk(NIL) && Word(c, old(free[q])[0]) < |old(Abs()).pages[q]|
      ensures obj == Addr(q, c, old(free[q])[0])
      ensures Abs() == Pop(old(Abs()), q) && Good(old(Abs()))
    {
      hide Good, Homed, Listed, SlabOk, ListPool.Valid, Word, Addr, Capacity, ListFor;
      ghost var h := Abs();
      SlabFacts(h, home, pool.lists, q, q);
      PopGood(h, home, q);
      PopHome(h, home, q);
      AddrParts(q, c, free[q][0]);
      obj := headers[q].freeList;
      headers[q] := Header(Load(obj), headers[q].freeCount - 1, c);
      free := free[q := free[q][1..]];
      assert Abs() == Pop(h, q);
      if headers[q].freeCount == 0 {
        Move(q, Partial(c), Full(c));
      }
      Settle(Abs(), home, q);
    }

    /** Return the object at ptr, slot i of slab q, to its slab. */
    method GiveBack(ptr: nat, ghost q: nat, ghost i: nat)
      requires SlabsOk(NIL) && q in free && q < headers.Length && headers[q].cache < CACHES
      requires i < Capacity(headers[q].cache) && i !in free[q] && ptr == Addr(q, headers[q].cache, i)
      modifies `free, `home, headers, pages, pool, pool.heads, pool.next, pool.prev
      ensures SlabsOk(NIL) && Word(old(headers[q]).cache, i) < |old(Abs()).pages[q]|
      ensures Abs() == Push(old(Abs()), q, i) && Good(old(Abs()))
    {
      hide Good, Homed, Listed, SlabOk, ListPool.Valid, Word, Addr, Capacity, ListFor;
      ghost var h := Abs();
      SlabFacts(h, home, pool.lists, q, NIL);
      Settle(h, home, q);
      PushGood(h, home, q, i);
      PushHome(h, home, q, i);
      AddrParts(q, headers[q].cache, i);
      var slab := slabOf[ptr / PAGE_SIZE].value;
      var c := headers[slab].cache;
      Store(ptr, headers[slab].freeList);
      headers[slab] := Header(ptr, headers[slab].freeCount + 1, c);
      free := free[q := [i] + free[q]];
      assert Abs() == Push(h, q, i);
      if headers[slab].freeCount == 1 {
        Move(slab, Full(c), Partial(c));
      }
      if headers[slab].freeCount >= Capacity(c) {
        Move(slab, Partial(c), Empty(c));
      }
      Settle(Abs(), home, q);
    }

    /** Turn page q into a slab of cache c and push it on the partial list. */
    method MakeSlab(q: nat, c: nat)
      requires SlabsOk(NIL) && q < headers.Length && q !in free && c < CACHES
      modifies `free, `home, headers, pages, slabOf, pool, pool.heads, pool.next, pool.prev
      ensures SlabsOk(q) && home == old(home)[q := Partial(c)] && Good(old(Abs()))
      ensures Abs() == Create(old(Abs()), q, c, pages[q])
    {
      hide Good, Homed, Listed, SlabOk, ListPool.Valid, Word, Addr, Capacity, FreeChain;
      ghost var h := Abs();
      KnownSlabs(h, home, q);
      headers[q] := Header(Addr(q, c, 0), Capacity(c), c);
      BuildFreeList(q, c);
      slabOf[q] := Some(q);
      free := free[q := Ascending(Capacity(c))];
      assert Abs() == Create(h, q, c, pages[q]);
      CreateGood(h, home, q, c, pages[q], Partial(c));
      ListedPush(pool.lists, home, q, Partial(c));
      pool.PushFront(Partial(c), q);
      home := home[q := Partial(c)];
    }

    /** slab_create on a page from the allocator, pushed on the partial list. */
    method NewSlab(c: nat) returns (slab: int)
      requires Valid() && c < CACHES
      modifies `free, `home, headers, pages, slabOf, pool, pool.heads, pool.next, pool.prev,
               pmm, pmm.frames, pmm.pool, pmm.pool.heads, pmm.pool.next, pmm.pool.prev
      ensures pmm.Valid() && pmm.cfg == old(pmm.cfg)
      ensures slab == NIL <==> old(pmm.freePages == 0)
      ensures slab == NIL ==> SlabsOk(NIL) && Abs() == old(Abs()) && pmm.Abs() == old(pmm.Abs())
      ensures slab != NIL ==>
        && SlabsOk(slab) && slab in free && free[slab] != [] && slab < headers.Length
        && headers[slab].cache == c && home[slab] == Partial(c) && slab !in old(free)
        && TookPage(old(pmm.Abs()), pmm.Abs(), slab) && FillsPage(headers[slab].freeCount, SIZES[c])
        && headers[slab].freeList == slab * PAGE_SIZE + HEADER_SIZE
      ensures Good(Abs()) && Good(old(Abs())) && SlabAllocs(Abs()) == SlabAllocs(old(Abs()))
      ensures Owned(Abs(), direct, pmm.live) && DirectAllocs(direct, pmm.live) == DirectAllocs(direct, old(pmm.live))
      ensures Others(Abs(), direct, pmm.live) == Others(old(Abs()), direct, old(pmm.live))
      ensures PagesKept(old(pages[..]), pages[..], LivePages(old(pmm.Abs())))
    {
      hide Good, Homed, Listed, SlabOk, ListPool.Valid, Capacity, ListFor, PageAllocator.Valid, Owned, SlabAllocs,
           DirectAllocs, Others, LivePages, FreePages, Inv, FillsPage, Count;
      ghost var h := Abs();
      pmm.StateKnown();
      ghost var cfg, s := pmm.cfg, pmm.Abs();
      var phys := pmm.AllocPage();
      if phys == 0 {
        return NIL;
      }
      slab := phys / PAGE_SIZE;
      pmm.StateKnown();
      ghost var live := old(pmm.live);
      KnownSlabs(h, home, slab);
      CapacityValues(c);
      OwnedCreate(h, direct, live, slab, c, pages[slab]);
      MakeSlab(slab, c);
      OwnedCreate(h, direct, live, slab, c, pages[slab]);
      CreateFills(h, slab, c, pages[slab]);
      CreateAllocs(h, slab, c, pages[slab]);
      OthersCreate(h, direct, live, slab, c, pages[slab]);
      FreeNotLive(cfg, s, slab);
    }

    /** The slab an object of cache c comes from: the first partial one, else the first
        empty one. */
    ghost function Preferred(c: nat): int
      requires c < CACHES && |pool.lists| == 3 * CACHES
      reads pool
    {
      if pool.lists[Partial(c)] != [] then pool.lists[Partial(c)][0] else At(pool.lists[Empty(c)], 0)
    }

    /** Find a slab of cache c with a free object: the first partial one, else the
        first empty one, else a new one; NIL when the page allocator has no page. */
    method PickSlab(c: nat) returns (slab: int)
      requires Valid() && c < CACHES
      modifies `free, `home, headers, pages, slabOf, pool, pool.heads, pool.next, pool.prev,
               pmm, pmm.frames, pmm.pool, pmm.pool.heads, pmm.pool.next, pmm.pool.prev
      ensures pmm.Valid() && pmm.cfg == old(pmm.cfg)
      ensures slab == NIL <==> old(pool.lists[Partial(c)] == [] && pool.lists[Empty(c)] == [] && pmm.freePages == 0)
      ensures slab == NIL || old(Preferred(c)) != NIL ==> Abs() == old(Abs()) && pmm.Abs() == old(pmm.Abs())
      ensures old(Preferred(c)) != NIL ==> slab == old(Preferred(c))
      ensures slab == NIL ==> SlabsOk(NIL)
      ensures slab != NIL ==>
        && SlabsOk(slab) && slab in free && free[slab] != [] && slab < headers.Length
        && headers[slab].cache == c && home[slab] == Partial(c)
      ensures slab != NIL && old(Preferred(c)) == NIL ==>
        && TookPage(old(pmm.Abs()), pmm.Abs(), slab) && FillsPage(headers[slab].freeCount, SIZES[c])
        && headers[slab].freeList == slab * PAGE_SIZE + HEADER_SIZE
      ensures Good(Abs()) && Good(old(Abs())) && SlabAllocs(Abs()) == SlabAllocs(old(Abs()))
      ensures Owned(Abs(), direct, pmm.live) && DirectAllocs(direct, pmm.live) == DirectAllocs(direct, old(pmm.live))
      ensures Others(Abs(), direct, pmm.live) == Others(old(Abs()), direct, old(pmm.live))
      ensures PagesKept(old(pages[..]), pages[..], LivePages(old(pmm.Abs())))
    {
      hide Good, Homed, Listed, SlabOk, ListPool.Valid, Capacity, ListFor, PageAllocator.Valid, Owned, SlabAllocs,
           Others, LivePages, TookPage, FillsPage;
      ghost var h := Abs();
      pool.HeadIs(Partial(c));
      pool.HeadIs(Empty(c));
      slab := pool.heads[Partial(c)];
      if slab != NIL {
        ListMember(h, home, pool.lists, slab, Partial(c));
        return;
      }
      slab := pool.heads[Empty(c)];
      if slab != NIL {
        ListMember(h, home, pool.lists, slab, Empty(c));
        Move(slab, Empty(c), Partial(c));
        return;
      }
      slab := NewSlab(c);
    }

    ghost function Handed(): set<Range>
      reads `free, `direct, headers, pages, slabOf, pmm
      requires Good(Abs())
    {
      Allocs(Abs(), direct, pmm.live)
    }

    /** The smallest cache whose objects hold size bytes; CACHES when none does. */
    method CacheFor(size: nat) returns (c: nat)
      requires size > 0
      ensures if size > 2048 then c == CACHES else SmallestFit(c, size)
    {
      c := 0;
      while c < CACHES && size > SIZES[c]
        invariant c <= CACHES && forall k :: 0 <= k < c ==> SIZES[k] < size
      {
        c := c + 1;
      }
      assert c == CACHES ==> SIZES[8] < size;
    }

    /** The large-object branch of kmalloc: whole pages from the page allocator. A size
        whose rounding wraps around 64 bits asks for no page, and is refused. */
    method AllocDirect(size: nat) returns (ptr: nat)
      requires Valid() && 2048 < size < 0x1_0000_0000_0000_0000
      modifies `direct, pmm, pmm.frames, pmm.pool, pmm.pool.heads, pmm.pool.next, pmm.pool.prev
      ensures Valid() && Abs() == old(Abs()) && pmm.cfg == old(pmm.cfg) && Good(old(Abs()))
      ensures ptr == 0 <==> NoFit(old(pmm.Abs()), (size + PAGE_SIZE - 1) / PAGE_SIZE)
      ensures ptr == 0 ==> Handed() == old(Handed()) && pmm.Abs() == old(pmm.Abs())
      ensures ptr != 0 ==>
        BlockFrom(old(Handed()), Handed(), old(pmm.Abs()), pmm.Abs(), ptr, (size + PAGE_SIZE - 1) / PAGE_SIZE)
      ensures Others(Abs(), direct, pmm.live) == Others(old(Abs()), old(direct), old(pmm.live))
    {
      hide Good, SlabsOk, ListPool.Valid, PageAllocator.Valid, Owned, SlabAllocs, DirectAllocs, Inv, Alloc, NoFit,
           Others, Count, FreePages;
      SlabsAreGood();
      pmm.StateKnown();
      var count := ((size + PAGE_SIZE - 1) % 0x1_0000_0000_0000_0000) / PAGE_SIZE;
      WrappedCount(pmm.Abs(), size);
      AllocView(pmm.cfg, pmm.Abs(), count);
      ptr := pmm.AllocPages(count);
      if ptr != 0 {
        ghost var p, t := ptr / PAGE_SIZE, OrderFor(count, 0);
        OwnedDirect(Abs(), direct, old(pmm.live), p, t);
        OthersDirect(Abs(), direct, old(pmm.live), p, t);
        direct := direct + {p};
        ghost var r := BlockRange(Block(p, t));
        assert Handed() == old(Handed()) + {r};
      }
    }

    lemma SlabsAreGood()
      requires SlabsOk(NIL)
      ensures Good(Abs()) && |pool.lists| == 3 * CACHES
      ensures headers.Length == pages.Length == slabOf.Length && forall p :: 0 <= p < pages.Length ==> |pages[p]| == 512
    {
    }

    /** Whether cache c can serve an object: it has a slab with a free object, or the
        page allocator has a page to make one from. */
    ghost predicate CanServe(c: nat)
      requires c < CACHES && |pool.lists| == 3 * CACHES
      reads pool, pmm
    {
      pool.lists[Partial(c)] != [] || pool.lists[Empty(c)] != [] || pmm.freePages != 0
    }

    /** The small-object branch of kmalloc. */
    method AllocObject(c: nat) returns (ptr: nat)
      requires Valid() && c < CACHES
      modifies `free, `home, headers, pages, slabOf, pool, pool.heads, pool.next, pool.prev,
               pmm, pmm.frames, pmm.pool, pmm.pool.heads, pmm.pool.next, pmm.pool.prev
      ensures Valid() && pmm.cfg == old(pmm.cfg) && Good(old(Abs())) && |old(pool.lists)| == 3 * CACHES
      ensures ptr != 0 <==> old(CanServe(c))
      ensures ptr == 0 ==> Handed() == old(Handed()) && pmm.Abs() == old(pmm.Abs())
      ensures ptr != 0 ==> Granted(old(Handed()), Handed(), ptr, SIZES[c])
      ensures ptr != 0 ==> ObjectFrom(old(Preferred(c)), old(Abs()), Abs(), old(pmm.Abs()), pmm.Abs(), ptr, c)
      ensures Others(Abs(), direct, pmm.live) == Others(old(Abs()), direct, old(pmm.live))
      ensures PagesKept(old(pages[..]), pages[..], LivePages(old(pmm.Abs())))
    {
      hide Good, Homed, Listed, SlabOk, ListPool.Valid, Capacity, ListFor, PageAllocator.Valid, Owned, SlabAllocs,
           DirectAllocs, Addr, Pop, Others, LivePages, ObjectFrom, TookPage, FillsPage, PagesKept;
      SlabsAreGood();
      var slab := PickSlab(c);
      if slab == NIL {
        return 0;
      }
      ghost var h := Abs();
      ghost var i := free[slab][0];
      PopGood(h, home, slab);
      PopAllocs(h, home, slab);
      ptr := TakeObject(slab, c);
      OwnedPop(h, direct, pmm.live, slab);
      PopKeeps(h, slab);
      OthersSame(h, Abs(), direct, pmm.live);
      AddrParts(slab, c, i);
      PopFrom(old(Preferred(c)), old(Abs()), h, old(pmm.Abs()), pmm.Abs(), slab, c, ptr);
      ghost var r := SlotRange(slab, c, i);
      SlabAllocsOffPage(h, 0);
      assert Handed() == old(Handed()) + {r};
      SlotNotDirect(slab, c, i, direct, pmm.live);
    }

    /** kmalloc: on success exactly one new object of at least size bytes, disjoint
        from every other; on failure nothing changes. No page of a block that was live,
        the heap's or another's, is written, and no other block changes hands. */
    method Kmalloc(size: nat) returns (ptr: nat)
      requires Valid() && size < 0x1_0000_0000_0000_0000
      modifies `free, `home, `direct, headers, pages, slabOf, pool, pool.heads, pool.next, pool.prev,
               pmm, pmm.frames, pmm.pool, pmm.pool.heads, pmm.pool.next, pmm.pool.prev
      ensures Valid() && pmm.cfg == old(pmm.cfg) && Good(old(Abs())) && |old(pool.lists)| == 3 * CACHES
      ensures size == 0 ==> ptr == 0
      ensures forall c: nat :: SmallestFit(c, size) ==> (ptr != 0 <==> old(CanServe(c)))
      ensures ptr != 0 && size <= 2048 ==> exists c: nat ::
        && SmallestFit(c, size) && Granted(old(Handed()), Handed(), ptr, SIZES[c])
        && ObjectFrom(old(Preferred(c)), old(Abs()), Abs(), old(pmm.Abs()), pmm.Abs(), ptr, c)
      ensures size > 2048 ==> (ptr == 0 <==> NoFit(old(pmm.Abs()), (size + PAGE_SIZE - 1) / PAGE_SIZE))
      ensures ptr != 0 && size > 2048 ==>
        BlockFrom(old(Handed()), Handed(), old(pmm.Abs()), pmm.Abs(), ptr, (size + PAGE_SIZE - 1) / PAGE_SIZE)
      ensures ptr == 0 ==> Handed() == old(Handed()) && pmm.Abs() == old(pmm.Abs())
      ensures Others(Abs(), direct, pmm.live) == Others(old(Abs()), old(direct), old(pmm.live))
      ensures PagesKept(old(pages[..]), pages[..], LivePages(old(pmm.Abs())))
    {
      hide Good, SlabsOk, Homed, Listed, ListPool.Valid, PageAllocator.Valid, Owned, Allocs, NoFit, Others, LivePages,
           ObjectFrom, BlockFrom, Granted;
      SlabsAreGood();
      if size == 0 {
        return 0;
      }
      var c := CacheFor(size);
      if c == CACHES {
        ptr := AllocDirect(size);
      } else {
        ptr := AllocObject(c);
        forall d: nat | SmallestFit(d, size)
          ensures d == c
        {
          SmallestFitUnique(c, d, size);
        }
      }
    }

    /** The slab branch of kfree. */
    method FreeObject(ptr: nat, ghost q: nat, ghost i: nat)
      requires Valid() && q in free && q < headers.Length && headers[q].cache < CACHES
      requires i < Capacity(headers[q].cache) && i !in free[q] && ptr == Addr(q, headers[q].cache, i)
      modifies `free, `home, headers, pages, pool, pool.heads, pool.next, pool.prev
      ensures Valid() && Good(old(Abs()))
      ensures Handed() == old(Handed()) - {SlotRange(q, old(headers[q]).cache, i)}
      ensures Others(Abs(), direct, pmm.live) == Others(old(Abs()), direct, pmm.live)
      ensures OnlyWord(old(pages[..]), pages[..], ptr)
      ensures Returned(old(Abs()), Abs(), pmm.Abs(), pmm.Abs(), ptr)
    {
      hide Good, Homed, Listed, SlabOk, ListPool.Valid, Capacity, ListFor, PageAllocator.Valid, Owned, SlabAllocs,
           DirectAllocs, Addr, Push, Others, OnlyWord, Returned;
      SlabsAreGood();
      ghost var h := Abs();
      SlabFacts(h, home, pool.lists, q, NIL);
      Settle(h, home, q);
      PushGood(h, home, q, i);
      PushAllocs(h, home, q, i);
      OwnedPush(h, direct, pmm.live, q, i);
      SlotNotDirect(q, headers[q].cache, i, direct, pmm.live);
      PushWord(h, q, i);
      PushKeeps(h, q, i);
      PushReturned(h, q, i, pmm.Abs());
      GiveBack(ptr, q, i);
      OthersSame(h, Abs(), direct, pmm.live);
    }

    /** The whole-block branch of kfree. */
    method FreeDirect(ptr: nat)
      requires Valid() && ptr != 0 && ptr / PAGE_SIZE in direct && ptr / PAGE_SIZE in pmm.live
      modifies `direct, pmm, pmm.frames, pmm.pool, pmm.pool.heads, pmm.pool.next, pmm.pool.prev
      ensures Valid() && pmm.cfg == old(pmm.cfg) && Good(old(Abs()))
      ensures Handed() == old(Handed()) - {BlockRange(Block(ptr / PAGE_SIZE, old(pmm.live)[ptr / PAGE_SIZE]))}
      ensures Others(Abs(), direct, pmm.live) == Others(old(Abs()), old(direct), old(pmm.live))
      ensures Returned(old(Abs()), Abs(), old(pmm.Abs()), pmm.Abs(), ptr)
    {
      hide Good, SlabsOk, ListPool.Valid, PageAllocator.Valid, Owned, SlabAllocs, DirectAllocs, Inv, Free, Others;
      SlabsAreGood();
      pmm.StateKnown();
      ghost var p := ptr / PAGE_SIZE;
      FreeEffect(pmm.cfg, pmm.Abs(), p);
      OwnedRelease(Abs(), direct, pmm.live, p);
      OthersRelease(Abs(), direct, pmm.live, p);
      SlabAllocsOffPage(Abs(), p);
      pmm.Release(ptr);
      direct := direct - {p};
    }

    /** kfree: exactly the object at ptr is given back. No word but the one at ptr itself
        is written, and no block of another caller changes hands. */
    method Kfree(ptr: nat)
      requires Valid() && Good(Abs())
      requires ptr == 0 || ptr / PAGE_SIZE >= pmm.frames.Length || exists r :: r in Handed() && r.start == ptr
      modifies `free, `home, `direct, headers, pages, pool, pool.heads, pool.next, pool.prev,
               pmm, pmm.frames, pmm.pool, pmm.pool.heads, pmm.pool.next, pmm.pool.prev
      ensures Valid() && pmm.cfg == old(pmm.cfg)
      ensures if ptr == 0 || ptr / PAGE_SIZE >= pmm.frames.Length
              then Abs() == old(Abs()) && pmm.Abs() == old(pmm.Abs())
              else Returned(old(Abs()), Abs(), old(pmm.Abs()), pmm.Abs(), ptr)
      ensures Handed() == set r | r in old(Handed()) && r.start != ptr
      ensures Others(Abs(), direct, pmm.live) == Others(old(Abs()), old(direct), old(pmm.live))
      ensures OnlyWord(old(pages[..]), pages[..], ptr)
    {
      hide Good, SlabsOk, ListPool.Valid, PageAllocator.Valid, Owned, Allocs, Inv, Capacity, Addr, Others;
      pmm.StateKnown();
      SlabsAreGood();
      if ptr == 0 || ptr / PAGE_SIZE >= pmm.frames.Length {
        forall r | r in Handed()
          ensures r.start != ptr
        {
          NonEmpty(Abs(), direct, pmm.live, r);
          AllocBounds(pmm.cfg, pmm.Abs(), Abs(), direct, r, r.start);
        }
        return;
      }
      ghost var r :| r in Handed() && r.start == ptr;
      ghost var q, i := AtAddress(Abs(), direct, pmm.live, r);
      ByAddress(pmm.cfg, pmm.Abs(), Abs(), direct, r);
      if slabOf[ptr / PAGE_SIZE].Some? {
        SlabFactsOf(q);
        FreeObject(ptr, q, i);
      } else {
        FreeDirect(ptr);
      }
    }

    lemma SlabFactsOf(q: nat)
      requires SlabsOk(NIL) && q in free
      ensures q < headers.Length && headers[q].cache < CACHES
    {
    }

    /** The owner of a live object stores a word in it. */
    method ClientWrite(a: nat, v: nat)
      requires Valid() && Good(Abs()) && a % 8 == 0
      requires exists r :: r in Handed() && r.start <= a && a + 8 <= r.start + r.len
      modifies pages
      ensures Valid() && Good(Abs()) && Handed() == old(Handed())
      ensures a / PAGE_SIZE < pages.Length && |pages[a / PAGE_SIZE]| == 512 && Load(a) == v
      ensures OnlyWord(old(pages[..]), pages[..], a)
    {
      hide Good, Homed, Listed, ListPool.Valid, PageAllocator.Valid, Owned, SlabAllocs, DirectAllocs, Inv, Capacity,
           Addr, OnlyWord;
      pmm.StateKnown();
      ghost var r :| r in Handed() && r.start <= a && a + 8 <= r.start + r.len;
      ghost var h := Abs();
      SlabsAreGood();
      AllocBounds(pmm.cfg, pmm.Abs(), h, direct, r, a);
      WriteGood(pmm.cfg, pmm.Abs(), h, home, direct, r, a, v, Written(h, a, v));
      WrittenWord(h, a, v);
      Store(a, v);
      assert Abs() == Written(h, a, v);
    }
  }
}
