/** The segment loader of elf.cpp: page by page, clipped to the segment, against one
    straight copy of each segment's file bytes. */
module Elf {
  import opened Buddy
  import opened BuddyTheory
  import opened Pmm
  import opened Paging
  import opened Bytes
  import opened Vmm
  import opened Needs
  import opened PageFault

  const PT_LOAD: nat := 1
  const MACHINE_X86_64: nat := 0x3E

  datatype Phdr = Phdr(ptype: nat, pflags: nat, offset: nat, vaddr: nat, filesz: nat, memsz: nat)

  datatype Image = Image(ident: seq<Byte>, machine: nat, entry: nat, phdrs: seq<Phdr>, file: seq<Byte>)

  predicate Loads(h: Phdr) {
    h.ptype == PT_LOAD
  }

  predicate Writable(h: Phdr) {
    (h.pflags / 2) % 2 == 1
  }

  /** The pages a segment occupies: [FirstPage, EndPage). */
  function FirstPage(h: Phdr): nat { h.vaddr / PAGE_SIZE }
  function EndPage(h: Phdr): nat { (h.vaddr + h.memsz + PAGE_SIZE - 1) / PAGE_SIZE }

  /** Page v holds memory of the segment, or its start inside the page. */
  predicate Overlaps(h: Phdr, v: nat) {
    v * PAGE_SIZE < h.vaddr + h.memsz && h.vaddr < (v + 1) * PAGE_SIZE
  }

  /** Those are the pages the loader goes through. */
  lemma PageRange(h: Phdr, v: nat)
    ensures FirstPage(h) <= v < EndPage(h) <==> Overlaps(h, v)
  {
  }

  function PageCount(h: Phdr): (n: nat)
    ensures n == EndPage(h) - FirstPage(h)
  {
    EndPage(h) - FirstPage(h)
  }

  /** The segment lies in user space and its bytes in the file. */
  predicate Fits(h: Phdr, file: seq<Byte>) {
    h.vaddr + h.memsz <= USER_ADDR_MAX + 1 && h.offset + h.filesz <= |file|
  }

  /** What the loader makes of byte o of page v: the file's byte where the segment has one,
      else what the frame held. */
  function FilledByte(before: seq<Word>, h: Phdr, file: seq<Byte>, v: nat, o: nat): Byte
    requires |before| == 512 && h.offset + h.filesz <= |file| && o < PAGE_SIZE
  {
    var a := v * PAGE_SIZE + o;
    if h.vaddr <= a < h.vaddr + h.filesz then file[h.offset + (a - h.vaddr)] else PageByte(before, o)
  }

  /** The frame of page v after loading, and before. */
  ghost predicate PageFilled(row: seq<Word>, before: seq<Word>, h: Phdr, file: seq<Byte>, v: nat)
    requires |row| == 512 && |before| == 512 && h.offset + h.filesz <= |file|
  {
    forall o :: 0 <= o < PAGE_SIZE ==> PageByte(row, o) == FilledByte(before, h, file, v, o)
  }

  /** The copy of one page: the part of the file bytes that falls into page v, and
      nothing else of the frame. */
  method CopyPage(mach: Machine, p: nat, h: Phdr, file: seq<Byte>, v: nat)
    requires ValidMem(mach.mem) && p < |mach.mem| && h.offset + h.filesz <= |file|
    modifies mach`mem
    ensures ValidMem(mach.mem) && |mach.mem| == |old(mach.mem)| && mach.mem == old(mach.mem)[p := mach.mem[p]]
    ensures PageFilled(mach.mem[p], old(mach.mem)[p], h, file, v)
  {
    hide PageByte;
    var pageStart, segStart, segEnd := v * PAGE_SIZE, h.vaddr, h.vaddr + h.filesz;
    if pageStart + PAGE_SIZE <= segStart || pageStart >= segEnd {
      return;
    }
    var copyStart := if pageStart < segStart then segStart else pageStart;
    var copyEnd := if pageStart + PAGE_SIZE > segEnd then segEnd else pageStart + PAGE_SIZE;
    var src := h.offset + (copyStart - segStart);
    var dst := copyStart - pageStart;
    var size := copyEnd - copyStart;
    var j := 0;
    while j < size
      invariant 0 <= j <= size && ValidMem(mach.mem) && |mach.mem| == |old(mach.mem)|
      invariant mach.mem == old(mach.mem)[p := mach.mem[p]]
      invariant forall o :: dst <= o < dst + j ==> PageByte(mach.mem[p], o) == file[src + (o - dst)]
      invariant forall o :: 0 <= o < PAGE_SIZE && !(dst <= o < dst + j) ==>
        PageByte(mach.mem[p], o) == PageByte(old(mach.mem)[p], o)
    {
      mach.mem := mach.mem[p := PutByte(mach.mem[p], dst + j, file[src + j])];
      j := j + 1;
    }
  }

  // ---------------------------------------------------------------------------
  // The pages loaded so far

  /** The loaded pages and their entries: each page's frame is in use, is no other page's
      and none of the space's tables, so neither mapping nor allocating touches it. */
  ghost predicate Placed(m: Mem, root: nat, tables: map<nat, seq<nat>>, free: set<nat>, pages: map<nat, Entry>)
    requires ValidMem(m) && root < |m|
  {
    forall v :: v in pages ==>
      && v < USER_PAGES && Decode(Flat(m, root, v)) == pages[v]
      && pages[v].pfn < |m| && pages[v].pfn !in tables && pages[v].pfn !in free
      && forall u :: u in pages && u != v ==> pages[u].pfn != pages[v].pfn
  }

  /** Pages [lo, hi) of the segment, but for the page `lost`, are loaded with the segment's
      permissions into frames that held what they did in memory m0. */
  ghost predicate SegmentLoaded(m0: Mem, m: Mem, pages: map<nat, Entry>, h: Phdr, file: seq<Byte>, lo: nat, hi: nat,
                                lost: int)
    requires ValidMem(m0) && ValidMem(m) && |m| == |m0| && h.offset + h.filesz <= |file|
  {
    forall v :: lo <= v < hi && v != lost ==>
      && v in pages && pages[v].pfn < |m| && pages[v] == Entry(true, Writable(h), true, 0, pages[v].pfn, 0)
      && PageFilled(m[pages[v].pfn], m0[pages[v].pfn], h, file, v)
  }

  /** Loading pages [lo, hi) leaves the other pages already loaded as they are. */
  ghost predicate Preserves(m: Mem, pages: map<nat, Entry>, m': Mem, pages': map<nat, Entry>, lo: nat, hi: nat)
  {
    && |m| == |m'|
    && forall v :: v in pages && !(lo <= v < hi) ==>
         v in pages' && pages'[v] == pages[v] && (pages[v].pfn < |m| ==> m'[pages[v].pfn] == m[pages[v].pfn])
  }

  lemma PreservesLoaded(m0: Mem, m: Mem, pages: map<nat, Entry>, m': Mem, pages': map<nat, Entry>, h: Phdr,
                        file: seq<Byte>, a: nat, b: nat, lost: int, lo: nat, hi: nat)
    requires ValidMem(m0) && ValidMem(m) && ValidMem(m') && |m| == |m0| && h.offset + h.filesz <= |file|
    requires Preserves(m, pages, m', pages', lo, hi) && (b <= lo || hi <= a)
    requires SegmentLoaded(m0, m, pages, h, file, a, b, lost)
    ensures SegmentLoaded(m0, m', pages', h, file, a, b, lost)
  {
    hide PageFilled;
  }

  function SegmentFlags(h: Phdr): U12 {
    if Writable(h) then 6 else 4
  }

  lemma SegmentMapping(h: Phdr, p: nat)
    requires p < 0x100_0000_0000
    ensures Decode(Encode(Mapping(p * PAGE_SIZE, SegmentFlags(h)))) == Entry(true, Writable(h), true, 0, p, 0)
  {
    PlainMapping(p, SegmentFlags(h));
  }

  /** Taking frame p for page v and filling it leaves the other pages as they are, whether
      or not the page could be mapped. */
  lemma PlacedRest(m0: Mem, m1: Mem, m2: Mem, root: nat, tables: map<nat, seq<nat>>, free0: set<nat>,
                   tables1: map<nat, seq<nat>>, free1: set<nat>, pages: map<nat, Entry>, v: nat, p: nat)
    requires ValidMem(m0) && ValidMem(m1) && ValidMem(m2) && |m0| == |m1| == |m2| && root < |m0| && v < USER_PAGES
    requires p < |m0| && Placed(m0, root, tables, free0, pages) && tables.Keys !! free0
    requires p in free0 && p !in free1 && Tree(m1, root, tables1)
    requires Confined(m0, tables, free0 - {p}, m1, tables1, free1)
    requires forall u :: 0 <= u < USER_PAGES && u != v ==> Flat(m1, root, u) == Flat(m0, root, u)
    requires m2 == m1[p := m2[p]]
    ensures p !in tables1 && p !in free1 && Placed(m2, root, tables1, free1, pages - {v})
    ensures forall u :: u in pages ==> pages[u].pfn != p
    ensures Preserves(m0, pages, m2, pages - {v}, v, v + 1)
    ensures m1[p] == m0[p] && forall f :: f in free1 && f < |m0| ==> m2[f] == m0[f]
  {
    hide Decode, Encode, Flat, Tree;
    assert p !in tables.Keys;
    OutsideFlat(m1, m2, root, tables1);
  }

  /** When it could, page v is placed too. */
  lemma PlacedNext(m1: Mem, m2: Mem, root: nat, tables1: map<nat, seq<nat>>, free1: set<nat>, pages: map<nat, Entry>,
                   v: nat, p: nat, e: Entry)
    requires ValidMem(m1) && ValidMem(m2) && |m1| == |m2| && root < |m1| && v < USER_PAGES && p < |m1| && e.pfn == p
    requires Placed(m2, root, tables1, free1, pages - {v}) && p !in tables1 && p !in free1 && Tree(m1, root, tables1)
    requires Flat(m1, root, v) == Encode(e) && m2 == m1[p := m2[p]] && forall u :: u in pages ==> pages[u].pfn != p
    ensures Placed(m2, root, tables1, free1, pages[v := e])
  {
    hide Decode, Encode, Flat, Tree;
    OutsideFlat(m1, m2, root, tables1);
    assert forall u :: u in pages && u != v ==> u in pages - {v};
  }

  /** What loading pages has kept since memory m0 with the free pages free0: the loaded
      pages are on frames that were free, and free pages hold what they did. */
  ghost predicate Started(m0: Mem, free0: set<nat>, m: Mem, free: set<nat>, pages: map<nat, Entry>) {
    && |m| == |m0| && free <= free0
    && (forall f :: f in free && f < |m| ==> m[f] == m0[f])
    && (forall v :: v in pages ==> pages[v].pfn in free0)
  }

  /** And nothing but the space's tables and pages that were free is written. */
  ghost predicate SoFar(mach: Machine, space: AddressSpace, pages: map<nat, Entry>, m0: Mem,
                        tables0: map<nat, seq<nat>>, free0: set<nat>)
    requires ValidMem(mach.mem) && space.root < |mach.mem|
    reads mach, space, mach.pmm, mach.pmm.pool
  {
    && Placed(mach.mem, space.root, space.tables, mach.pmm.FreeSet(), pages)
    && Started(m0, free0, mach.mem, mach.pmm.FreeSet(), pages)
    && Confined(m0, tables0, free0, mach.mem, space.tables, mach.pmm.FreeSet())
  }

  /** One turn of the page loop: allocate, map, copy. False when no page is free. Whether
      the page could be mapped is not tested; it is exactly when there was a free page
      for it and for every missing table. */
  method LoadPage(mach: Machine, space: AddressSpace, h: Phdr, file: seq<Byte>, v: nat, ghost pages: map<nat, Entry>,
                  ghost m0: Mem, ghost tables0: map<nat, seq<nat>>, ghost free0: set<nat>)
    returns (ok: bool, ghost pages': map<nat, Entry>)
    requires mach.Holds(space) && space.root < |mach.mem| && Fits(h, file) && v < USER_PAGES
    requires ValidMem(m0) && |m0| == |mach.mem| && SoFar(mach, space, pages, m0, tables0, free0)
    modifies mach`mem, space, mach.pmm, mach.pmm.frames, mach.pmm.pool, mach.pmm.pool.heads, mach.pmm.pool.next,
             mach.pmm.pool.prev
    ensures mach.Holds(space) && ValidMem(old(mach.mem)) && |mach.mem| == |old(mach.mem)|
    ensures LoadedOne(old(mach.mem), old(mach.pmm.freePages), mach.mem, mach.pmm.freePages, space.root, v, ok)
    ensures SoFar(mach, space, pages', m0, tables0, free0)
    ensures Preserves(old(mach.mem), pages, mach.mem, pages', v, v + 1)
    ensures old(mach.pmm.freePages) > TablesNeeded(old(mach.mem), space.root, v) ==>
      SegmentLoaded(m0, mach.mem, pages', h, file, v, v + 1, NO_PAGE)
  {
    hide Decode, Encode, PageAllocator.Valid, Tree, Placed, Flat, Confined, FlatWritten, PageFilled, Mapping,
         TablesNeeded, Inv, Count, Preserves, SegmentLoaded, PathOf, GainedPath, LoadedOne, Started;
    pages' := pages;
    ghost var m1, tables, free1, count0 := mach.mem, space.tables, mach.pmm.FreeSet(), mach.pmm.freePages;
    mach.pmm.StateKnown();
    var phys := mach.pmm.AllocPage();
    mach.pmm.StateKnown();
    if phys == 0 {
      NotLoaded(m1, space.root, v);
      SamePages(m1, pages, v);
      return false, pages;
    }
    var p := phys / PAGE_SIZE;
    var mapped := mach.MapPage(space, v * PAGE_SIZE, phys, SegmentFlags(h));
    ghost var m2 := mach.mem;
    TablesOf(m1, tables, free1 - {p}, m2, space.tables, mach.pmm.FreeSet());
    CopyPage(mach, p, h, file, v);
    OutsideFlat(m2, mach.mem, space.root, space.tables);
    ConfinedNext(m0, tables0, free0, m1, tables, free1, m2, space.tables, mach.pmm.FreeSet(), p, mach.mem);
    SegmentMapping(h, p);
    ok := true;
    ghost var w := Encode(Mapping(phys, SegmentFlags(h)));
    OneLoaded(m1, m2, mach.mem, space.root, space.tables, v, w, mapped, count0, mach.pmm.freePages);
    OthersSame(m1, m2, space.root, v, w, mapped);
    PlacedRest(m1, m2, mach.mem, space.root, tables, free1, space.tables, mach.pmm.FreeSet(), pages, v, p);
    pages' := pages - {v};
    if mapped {
      ghost var e := Entry(true, Writable(h), true, 0, p, 0);
      EncodeUnique(w, e);
      WrittenAt(m1, m2, space.root, v, w);
      PlacedNext(m2, mach.mem, space.root, space.tables, mach.pmm.FreeSet(), pages, v, p, e);
      pages' := pages[v := e];
      AddedPreserves(m1, pages, mach.mem, v, e);
      FrameAsBefore(m0, free0, m1, free1, pages, p);
      OnePageLoaded(m0, mach.mem, pages', h, file, v);
    }
    StartedNext(m0, free0, m1, free1, mach.mem, mach.pmm.FreeSet(), pages, pages', v);
  }

  lemma OthersSame(m: Mem, m': Mem, root: nat, v: nat, w: Word, mapped: bool)
    requires ValidMem(m) && ValidMem(m') && |m| == |m'| && root < |m| && v < USER_PAGES
    requires mapped ==> FlatWritten(m, m', root, v, w)
    requires !mapped ==> forall u :: 0 <= u < USER_PAGES ==> Flat(m', root, u) == Flat(m, root, u)
    ensures forall u :: 0 <= u < USER_PAGES && u != v ==> Flat(m', root, u) == Flat(m, root, u)
  {
    hide Flat;
  }

  lemma WrittenAt(m: Mem, m': Mem, root: nat, v: nat, w: Word)
    requires ValidMem(m) && ValidMem(m') && |m| == |m'| && root < |m| && v < USER_PAGES
    requires FlatWritten(m, m', root, v, w)
    ensures Flat(m', root, v) == w
  {
    hide Flat;
  }

  lemma AddedPreserves(m: Mem, pages: map<nat, Entry>, m': Mem, v: nat, e: Entry)
    requires Preserves(m, pages, m', pages - {v}, v, v + 1)
    ensures Preserves(m, pages, m', pages[v := e], v, v + 1)
  {
  }

  lemma FrameAsBefore(m0: Mem, free0: set<nat>, m: Mem, free: set<nat>, pages: map<nat, Entry>, p: nat)
    requires Started(m0, free0, m, free, pages) && p in free && p < |m|
    ensures p in free0 && m[p] == m0[p]
  {
  }

  lemma StartedNext(m0: Mem, free0: set<nat>, m: Mem, free: set<nat>, m': Mem, free': set<nat>,
                    pages: map<nat, Entry>, pages': map<nat, Entry>, v: nat)
    requires Started(m0, free0, m, free, pages) && |m'| == |m| && free' <= free
    requires forall f :: f in free' && f < |m| ==> m'[f] == m[f]
    requires pages' == pages - {v} || (v in pages' && pages' == pages[v := pages'[v]] && pages'[v].pfn in free)
    ensures Started(m0, free0, m', free', pages')
  {
  }

  lemma SamePages(m: Mem, pages: map<nat, Entry>, v: nat)
    ensures Preserves(m, pages, m, pages, v, v + 1)
  {
  }

  lemma NotLoaded(m: Mem, root: nat, v: nat)
    requires ValidMem(m) && root < |m| && v < USER_PAGES
    ensures LoadedOne(m, 0, m, 0, root, v, false)
  {
    hide Flat, GainedPath, TablesNeeded, PathOf;
  }

  /** From m0 the map led to m1, and filling a frame that is no table to m2. */
  lemma OneLoaded(m0: Mem, m1: Mem, m2: Mem, root: nat, tables: map<nat, seq<nat>>, v: nat, w: Word, mapped: bool,
                  count0: nat, count: nat)
    requires ValidMem(m0) && ValidMem(m1) && ValidMem(m2) && |m0| == |m1| == |m2| && root < |m0| && v < USER_PAGES
    requires count0 > 0
    requires Tree(m1, root, tables) && forall t :: t in tables && t < |m1| ==> m2[t] == m1[t]
    requires mapped <==> count0 - 1 >= TablesNeeded(m0, root, v)
    requires count == if mapped then count0 - 1 - TablesNeeded(m0, root, v) else 0
    requires mapped ==> FlatWritten(m0, m1, root, v, w) && GainedPath(m0, m1, root, PathOf(v * PAGE_SIZE), 3)
    requires !mapped ==> forall u :: 0 <= u < USER_PAGES ==> Flat(m1, root, u) == Flat(m0, root, u)
    requires forall u :: 0 <= u < USER_PAGES ==> Flat(m2, root, u) == Flat(m1, root, u)
    requires SameRights(m0, m1, root) && SameRights(m1, m2, root)
    ensures LoadedOne(m0, count0, m2, count, root, v, true)
  {
    hide Flat, TablesNeeded, PathOf, Tree, Reached, Follow, Decode, Passes;
    RootPosition(m1, root, tables);
    forall r | Position(r)
      ensures Reached(m2, root, r) == Reached(m1, root, r)
    {
      assert [] + r == r;
      ReachedSame(m1, m2, root, tables, root, r);
    }
  }

  lemma OnePageLoaded(m0: Mem, m: Mem, pages: map<nat, Entry>, h: Phdr, file: seq<Byte>, v: nat)
    requires ValidMem(m0) && ValidMem(m) && |m| == |m0| && h.offset + h.filesz <= |file|
    requires v in pages && pages[v].pfn < |m| && pages[v] == Entry(true, Writable(h), true, 0, pages[v].pfn, 0)
    requires PageFilled(m[pages[v].pfn], m0[pages[v].pfn], h, file, v)
    ensures SegmentLoaded(m0, m, pages, h, file, v, v + 1, NO_PAGE)
  {
  }

  lemma EncodeUnique(w: Word, e: Entry)
    requires Decode(w) == e
    ensures w == Encode(e)
  {
    EncodeDecode(w);
  }

  lemma TablesOf(m: Mem, tables: map<nat, seq<nat>>, free: set<nat>, m': Mem, tables': map<nat, seq<nat>>,
                 free': set<nat>)
    requires Confined(m, tables, free, m', tables', free')
    ensures free' <= free && forall x :: x in tables' ==> x in tables || x in free
  {
  }

  // ---------------------------------------------------------------------------
  // Segments and images

  /** The pages of a segment, in the order they are loaded. */
  function SegmentPages(h: Phdr): (vs: seq<nat>)
    ensures |vs| == PageCount(h) && forall i :: 0 <= i < |vs| ==> vs[i] == FirstPage(h) + i
  {
    seq(PageCount(h), i => FirstPage(h) + i)
  }

  /** The pages loaded once the segment's pages before page v are, and those after. */
  function LoadedBefore(before: seq<nat>, h: Phdr, v: nat): seq<nat>
    requires FirstPage(h) <= v <= EndPage(h)
  {
    before + SegmentPages(h)[..v - FirstPage(h)]
  }

  function LoadedAfter(h: Phdr, v: nat): seq<nat>
    requires FirstPage(h) <= v <= EndPage(h)
  {
    SegmentPages(h)[v - FirstPage(h)..]
  }

  lemma LoadedEnds(before: seq<nat>, h: Phdr, file: seq<Byte>)
    requires Fits(h, file) && UserPages(before)
    ensures FirstPage(h) <= EndPage(h) && LoadedBefore(before, h, FirstPage(h)) == before
    ensures LoadedBefore(before, h, EndPage(h)) == before + SegmentPages(h) && UserPages(before + SegmentPages(h))
  {
    assert SegmentPages(h)[..PageCount(h)] == SegmentPages(h);
  }

  lemma LoadedStep(before: seq<nat>, h: Phdr, file: seq<Byte>, v: nat)
    requires Fits(h, file) && UserPages(before) && FirstPage(h) <= v < EndPage(h)
    ensures v < USER_PAGES && UserPages(LoadedBefore(before, h, v)) && UserPages(LoadedAfter(h, v + 1))
    ensures LoadedBefore(before, h, v + 1) == LoadedBefore(before, h, v) + [v]
    ensures LoadedBefore(before, h, v + 1) + LoadedAfter(h, v + 1) == before + SegmentPages(h)
  {
    var k := v - FirstPage(h);
    assert SegmentPages(h)[..k + 1] == SegmentPages(h)[..k] + [v];
    assert SegmentPages(h)[..k + 1] + SegmentPages(h)[k + 1..] == SegmentPages(h);
  }

  /** The page loop of one segment, after the pages `before` from memory m0 with count0
      free pages. */
  method LoadSegment(mach: Machine, space: AddressSpace, h: Phdr, file: seq<Byte>, ghost pages: map<nat, Entry>,
                     ghost m0: Mem, ghost tables0: map<nat, seq<nat>>, ghost free0: set<nat>, ghost count0: nat,
                     ghost before: seq<nat>)
    returns (ok: bool, ghost pages': map<nat, Entry>)
    requires mach.Holds(space) && space.root < |mach.mem| && Fits(h, file)
    requires ValidMem(m0) && |m0| == |mach.mem| && UserPages(before) && SoFar(mach, space, pages, m0, tables0, free0)
    requires Outcome(m0, count0, mach.mem, mach.pmm.freePages, space.root, before, true)
    modifies mach`mem, space, mach.pmm, mach.pmm.frames, mach.pmm.pool, mach.pmm.pool.heads, mach.pmm.pool.next,
             mach.pmm.pool.prev
    ensures mach.Holds(space) && ValidMem(old(mach.mem)) && |mach.mem| == |old(mach.mem)|
    ensures UserPages(before + SegmentPages(h))
    ensures Outcome(m0, count0, mach.mem, mach.pmm.freePages, space.root, before + SegmentPages(h), ok)
    ensures SoFar(mach, space, pages', m0, tables0, free0)
    ensures ok ==>
      LoadedTo(m0, old(mach.mem), pages, mach.mem, pages', h, file, EndPage(h),
               Lost(m0, count0, space.root, before + SegmentPages(h)))
  {
    hide SoFar, LoadedTo, Preserves, SegmentLoaded, PageAllocator.Valid, Tree, Outcome, LoadedOne, LoadCost, Fits,
         TablesNeeded, UserPages, LoadedBefore, LoadedAfter, SegmentPages, Lost;
    ghost var start := mach.mem;
    pages' := pages;
    var v, end := FirstPage(h), EndPage(h);
    LoadedEnds(before, h, file);
    FitsFile(h, file);
    NoneLoaded(m0, start, pages, h, file, Lost(m0, count0, space.root, before));
    while v < end
      invariant FirstPage(h) <= v <= end && mach.Holds(space) && |mach.mem| == |m0| && space.root < |m0|
      invariant UserPages(LoadedBefore(before, h, v)) && SoFar(mach, space, pages', m0, tables0, free0)
      invariant Outcome(m0, count0, mach.mem, mach.pmm.freePages, space.root, LoadedBefore(before, h, v), true)
      invariant LoadedTo(m0, start, pages, mach.mem, pages', h, file, v,
                         Lost(m0, count0, space.root, LoadedBefore(before, h, v)))
    {
      LoadedStep(before, h, file, v);
      ghost var done := LoadedBefore(before, h, v);
      ghost var m1, pages1, count1 := mach.mem, pages', mach.pmm.freePages;
      ok, pages' := LoadPage(mach, space, h, file, v, pages1, m0, tables0, free0);
      OutcomeNext(m0, count0, m1, count1, mach.mem, mach.pmm.freePages, space.root, done, v, ok);
      if !ok {
        OutcomeStopped(m0, count0, mach.mem, mach.pmm.freePages, space.root, done + [v], LoadedAfter(h, v + 1));
        return;
      }
      LostNext(m0, count0, m1, count1, mach.mem, mach.pmm.freePages, space.root, done, v);
      LoadedOneMore(m0, start, pages, m1, pages1, mach.mem, pages', h, file, v,
                    Lost(m0, count0, space.root, done + [v]));
      v := v + 1;
    }
    ok := true;
  }

  /** The segment's pages before page v, but for `lost`, are loaded, and the pages of no
      concern to it kept. */
  ghost predicate LoadedTo(m0: Mem, start: Mem, pages: map<nat, Entry>, m: Mem, pages': map<nat, Entry>, h: Phdr,
                           file: seq<Byte>, v: nat, lost: int)
    requires ValidMem(m0) && ValidMem(m) && |m| == |m0| && h.offset + h.filesz <= |file|
  {
    && Preserves(start, pages, m, pages', FirstPage(h), v)
    && SegmentLoaded(m0, m, pages', h, file, FirstPage(h), v, lost)
  }

  lemma NoneLoaded(m0: Mem, m: Mem, pages: map<nat, Entry>, h: Phdr, file: seq<Byte>, lost: int)
    requires ValidMem(m0) && ValidMem(m) && |m| == |m0| && h.offset + h.filesz <= |file|
    ensures LoadedTo(m0, m, pages, m, pages, h, file, FirstPage(h), lost)
  {
  }

  /** A load that went on was preceded by loads that all could be paid for, and it lost its
      page exactly when it could not. */
  lemma LostNext(m0: Mem, count0: nat, m: Mem, count: nat, m': Mem, count': nat, root: nat, vs: seq<nat>, v: nat)
    requires ValidMem(m0) && ValidMem(m) && ValidMem(m') && |m| == |m0| == |m'| && root < |m0| && UserPages(vs)
    requires v < USER_PAGES && UserPages(vs + [v]) && Outcome(m0, count0, m, count, root, vs, true)
    requires LoadedOne(m, count, m', count', root, v, true)
    ensures Lost(m0, count0, root, vs) == NO_PAGE
    ensures Lost(m0, count0, root, vs + [v]) == if count > TablesNeeded(m, root, v) then NO_PAGE else v
  {
    hide Flat, TablesFor, TablesNeeded;
    NextCost(m0, count0, m, count, root, vs, v);
  }

  lemma LoadedOneMore(m0: Mem, start: Mem, pages: map<nat, Entry>, m1: Mem, pages1: map<nat, Entry>,
                      m2: Mem, pages2: map<nat, Entry>, h: Phdr, file: seq<Byte>, v: nat, lost: int)
    requires ValidMem(m0) && ValidMem(m1) && ValidMem(m2) && |m0| == |m1| == |m2| && h.offset + h.filesz <= |file|
    requires FirstPage(h) <= v && LoadedTo(m0, start, pages, m1, pages1, h, file, v, NO_PAGE)
    requires Preserves(m1, pages1, m2, pages2, v, v + 1)
    requires lost == v || SegmentLoaded(m0, m2, pages2, h, file, v, v + 1, NO_PAGE)
    ensures LoadedTo(m0, start, pages, m2, pages2, h, file, v + 1, lost)
  {
    hide Preserves, PageFilled;
    PreservesLoaded(m0, m1, pages1, m2, pages2, h, file, FirstPage(h), v, NO_PAGE, v, v + 1);
    PreservesTrans(start, pages, m1, pages1, m2, pages2, FirstPage(h), v, v + 1);
  }

  lemma FitsFile(h: Phdr, file: seq<Byte>)
    requires Fits(h, file)
    ensures h.offset + h.filesz <= |file|
  {
  }

  lemma PreservesTrans(m: Mem, pages: map<nat, Entry>, m1: Mem, pages1: map<nat, Entry>,
                       m2: Mem, pages2: map<nat, Entry>, lo: nat, mid: nat, hi: nat)
    requires Preserves(m, pages, m1, pages1, lo, mid) && Preserves(m1, pages1, m2, pages2, mid, hi) && lo <= mid <= hi
    ensures Preserves(m, pages, m2, pages2, lo, hi)
  {
  }

  predicate Recognised(img: Image) {
    |img.ident| >= 4 && img.ident[..4] == [0x7F, 'E' as int, 'L' as int, 'F' as int] && img.machine == MACHINE_X86_64
  }

  /** All pages of an image, in the order they are loaded. */
  function LoadList(phdrs: seq<Phdr>): seq<nat> {
    if phdrs == [] then []
    else LoadList(phdrs[..|phdrs| - 1]) + if Loads(phdrs[|phdrs| - 1]) then SegmentPages(phdrs[|phdrs| - 1]) else []
  }

  lemma LoadListNext(phdrs: seq<Phdr>, i: nat)
    requires i < |phdrs|
    ensures LoadList(phdrs[..i + 1]) == LoadList(phdrs[..i]) + if Loads(phdrs[i]) then SegmentPages(phdrs[i]) else []
  {
    assert phdrs[..i + 1][..i] == phdrs[..i];
  }

  lemma {:induction false} LoadListUser(phdrs: seq<Phdr>, file: seq<Byte>)
    requires forall h :: h in phdrs && Loads(h) ==> Fits(h, file)
    ensures UserPages(LoadList(phdrs))
  {
    if phdrs != [] {
      var rest, h := phdrs[..|phdrs| - 1], phdrs[|phdrs| - 1];
      assert h in phdrs && forall g :: g in rest ==> g in phdrs;
      LoadListUser(rest, file);
      if Loads(h) {
        SegmentUser(h, file);
      }
    }
  }

  /** The pages of the headers from i on. */
  lemma {:induction false} LoadListSplit(phdrs: seq<Phdr>, i: nat, file: seq<Byte>) returns (more: seq<nat>)
    requires i <= |phdrs| && forall h :: h in phdrs && Loads(h) ==> Fits(h, file)
    ensures UserPages(more) && LoadList(phdrs) == LoadList(phdrs[..i]) + more
    decreases |phdrs|
  {
    hide SegmentPages, Fits;
    if i == |phdrs| {
      assert phdrs[..i] == phdrs;
      more := [];
    } else {
      var rest, h := phdrs[..|phdrs| - 1], phdrs[|phdrs| - 1];
      assert h in phdrs && (forall g :: g in rest ==> g in phdrs) && rest[..i] == phdrs[..i];
      more := LoadListSplit(rest, i, file);
      if Loads(h) {
        SegmentUser(h, file);
        assert LoadList(phdrs[..i]) + (more + SegmentPages(h)) == LoadList(phdrs[..i]) + more + SegmentPages(h);
        more := more + SegmentPages(h);
      }
    }
  }

  /** The byte a user address reads through the page tables. */
  ghost function UserByte(m: Mem, root: nat, a: nat): Byte
    requires ValidMem(m) && root < |m| && a <= USER_ADDR_MAX && a / PAGE_SIZE < USER_PAGES
    requires FrameOf(m, root, a / PAGE_SIZE) < |m|
  {
    PageByte(m[FrameOf(m, root, a / PAGE_SIZE)], a % PAGE_SIZE)
  }

  /** The loader's frame for page v, mapped for user mode and writable exactly when the
      segment is; the frame was free before. */
  ghost predicate OnFrame(m: Mem, root: nat, free0: set<nat>, h: Phdr, v: nat)
    requires ValidMem(m) && root < |m|
  {
    && v < USER_PAGES && FrameOf(m, root, v) < |m| && FrameOf(m, root, v) in free0
    && Decode(Flat(m, root, v)) == Entry(true, Writable(h), true, 0, FrameOf(m, root, v), 0)
  }

  /** Address a, on a page of the segment, reads the file's byte where the segment has one,
      else what the page's frame held in memory m0. */
  ghost predicate AddressLoaded(m0: Mem, free0: set<nat>, m: Mem, root: nat, h: Phdr, file: seq<Byte>, a: nat)
    requires ValidMem(m0) && ValidMem(m) && |m| == |m0| && root < |m| && h.offset + h.filesz <= |file|
  {
    && OnFrame(m, root, free0, h, a / PAGE_SIZE) && a <= USER_ADDR_MAX
    && UserByte(m, root, a)
    == FilledByte(m0[FrameOf(m, root, a / PAGE_SIZE)], h, file, a / PAGE_SIZE, a % PAGE_SIZE)
  }

  lemma SegmentBytes(m0: Mem, free0: set<nat>, m: Mem, root: nat, tables: map<nat, seq<nat>>, free: set<nat>,
                     pages: map<nat, Entry>, h: Phdr, file: seq<Byte>, a: nat)
    requires ValidMem(m0) && ValidMem(m) && |m| == |m0| && root < |m| && h.offset + h.filesz <= |file|
    requires Placed(m, root, tables, free, pages) && Started(m0, free0, m, free, pages)
    requires SegmentLoaded(m0, m, pages, h, file, a / PAGE_SIZE, a / PAGE_SIZE + 1, NO_PAGE)
    ensures AddressLoaded(m0, free0, m, root, h, file, a)
  {
    hide PageByte, Decode, Flat, FilledByte;
    var v, o := a / PAGE_SIZE, a % PAGE_SIZE;
    assert v in pages && v < USER_PAGES;
    assert PageFilled(m[pages[v].pfn], m0[pages[v].pfn], h, file, v);
  }

  /** Among the first n headers, j is the last whose segment has page v: later segments
      replace the pages they share with earlier ones. */
  ghost predicate Owner(phdrs: seq<Phdr>, n: nat, j: nat, v: nat)
    requires n <= |phdrs|
  {
    && j < n && Loads(phdrs[j]) && Overlaps(phdrs[j], v)
    && forall i :: j < i < n && Loads(phdrs[i]) ==> !Overlaps(phdrs[i], v)
  }

  /** Every page of the first n headers, but for `lost`, is loaded as its owner wants it. */
  ghost predicate ImageLoaded(m0: Mem, m: Mem, pages: map<nat, Entry>, phdrs: seq<Phdr>, n: nat, file: seq<Byte>,
                              lost: int)
    requires ValidMem(m0) && ValidMem(m) && |m| == |m0| && n <= |phdrs|
  {
    forall j: nat, v: nat :: Owner(phdrs, n, j, v) && v != lost ==>
      Fits(phdrs[j], file) && SegmentLoaded(m0, m, pages, phdrs[j], file, v, v + 1, NO_PAGE)
  }

  lemma ImageStart(mach: Machine, space: AddressSpace, img: Image)
    requires ValidMem(mach.mem) && space.root < |mach.mem|
    ensures SoFar(mach, space, map[], mach.mem, space.tables, mach.pmm.FreeSet())
    ensures ImageLoaded(mach.mem, mach.mem, map[], img.phdrs, 0, img.file, NO_PAGE)
  {
  }

  lemma ImageSkip(m0: Mem, m: Mem, pages: map<nat, Entry>, phdrs: seq<Phdr>, n: nat, file: seq<Byte>, lost: int)
    requires ValidMem(m0) && ValidMem(m) && |m| == |m0| && n < |phdrs| && !Loads(phdrs[n])
    requires ImageLoaded(m0, m, pages, phdrs, n, file, lost)
    ensures ImageLoaded(m0, m, pages, phdrs, n + 1, file, lost)
  {
    hide SegmentLoaded, Overlaps;
    var next := n + 1;
    forall j: nat, v: nat | Owner(phdrs, next, j, v)
      ensures Owner(phdrs, n, j, v)
    {
    }
  }

  lemma ImageNext(m0: Mem, m: Mem, pages: map<nat, Entry>, m': Mem, pages': map<nat, Entry>, phdrs: seq<Phdr>, n: nat,
                  file: seq<Byte>, lost: int, lost': int)
    requires ValidMem(m0) && ValidMem(m) && ValidMem(m') && |m| == |m0| == |m'| && n < |phdrs|
    requires ImageLoaded(m0, m, pages, phdrs, n, file, lost) && Loads(phdrs[n]) && Fits(phdrs[n], file)
    requires lost == NO_PAGE || (lost' == lost && EndPage(phdrs[n]) <= FirstPage(phdrs[n]))
    requires LoadedTo(m0, m, pages, m', pages', phdrs[n], file, EndPage(phdrs[n]), lost')
    ensures ImageLoaded(m0, m', pages', phdrs, n + 1, file, lost')
  {
    hide SegmentLoaded, Preserves, FirstPage, EndPage, Overlaps;
    var next := n + 1;
    forall j: nat, v: nat | Owner(phdrs, next, j, v) && v != lost'
      ensures Fits(phdrs[j], file) && SegmentLoaded(m0, m', pages', phdrs[j], file, v, v + 1, NO_PAGE)
    {
      PageRange(phdrs[n], v);
      if j < n {
        assert Owner(phdrs, n, j, v);
        PreservesLoaded(m0, m, pages, m', pages', phdrs[j], file, v, v + 1, NO_PAGE,
                        FirstPage(phdrs[n]), EndPage(phdrs[n]));
      } else {
        LoadedAt(m0, m', pages', phdrs[n], file, v, lost');
      }
    }
  }

  lemma LoadedAt(m0: Mem, m: Mem, pages: map<nat, Entry>, h: Phdr, file: seq<Byte>, v: nat, lost: int)
    requires ValidMem(m0) && ValidMem(m) && |m| == |m0| && h.offset + h.filesz <= |file|
    requires FirstPage(h) <= v < EndPage(h) && v != lost
    requires SegmentLoaded(m0, m, pages, h, file, FirstPage(h), EndPage(h), lost)
    ensures SegmentLoaded(m0, m, pages, h, file, v, v + 1, NO_PAGE)
  {
    hide PageFilled;
  }

  /** Address a is on a page of segment i, and no later segment has that page. */
  ghost predicate Owns(img: Image, i: nat, a: nat) {
    Owner(img.phdrs, |img.phdrs|, i, a / PAGE_SIZE)
  }

  /** Every address on a page of the image, but for the page `lost`, reads what the last
      segment that has the page makes of it. */
  ghost predicate Contents(m0: Mem, free0: set<nat>, m: Mem, root: nat, img: Image, lost: int)
    requires ValidMem(m0) && ValidMem(m) && |m| == |m0| && root < |m|
  {
    forall i: nat, a: nat :: Owns(img, i, a) && a / PAGE_SIZE != lost ==>
      Fits(img.phdrs[i], img.file) && AddressLoaded(m0, free0, m, root, img.phdrs[i], img.file, a)
  }

  lemma ImageDone(mach: Machine, space: AddressSpace, pages: map<nat, Entry>, img: Image, m0: Mem,
                  tables0: map<nat, seq<nat>>, free0: set<nat>, lost: int)
    requires ValidMem(m0) && ValidMem(mach.mem) && |mach.mem| == |m0| && space.root < |mach.mem|
    requires SoFar(mach, space, pages, m0, tables0, free0)
    requires ImageLoaded(m0, mach.mem, pages, img.phdrs, |img.phdrs|, img.file, lost)
    ensures Contents(m0, free0, mach.mem, space.root, img, lost)
  {
    hide SegmentLoaded, Placed, Started, AddressLoaded;
    var phdrs, file := img.phdrs, img.file;
    forall i: nat, a: nat | Owns(img, i, a) && a / PAGE_SIZE != lost
      ensures Fits(phdrs[i], file) && AddressLoaded(m0, free0, mach.mem, space.root, phdrs[i], file, a)
    {
      assert Owner(phdrs, |phdrs|, i, a / PAGE_SIZE);
      SegmentBytes(m0, free0, mach.mem, space.root, space.tables, mach.pmm.FreeSet(), pages, phdrs[i], file, a);
    }
  }

  /** elf_load: 0 for an unknown image or when a page allocation fails, else the entry
      address. Pages are needed for the pages of the segments and for the distinct tables
      missing on the way to them. With enough for all, every page of the image is what the
      last segment that has it makes of it; with enough for all but the tables that only
      the last page needs, the entry address is returned and so is every other page, while
      that page is not mapped; with fewer, the load fails. */
  method Load(mach: Machine, space: AddressSpace, img: Image) returns (entry: nat)
    requires mach.Holds(space) && space.root < |mach.mem| && |img.ident| >= 4
    requires forall h :: h in img.phdrs && Loads(h) ==> Fits(h, img.file)
    modifies mach`mem, space, mach.pmm, mach.pmm.frames, mach.pmm.pool, mach.pmm.pool.heads, mach.pmm.pool.next,
             mach.pmm.pool.prev
    ensures mach.Holds(space) && ValidMem(old(mach.mem)) && |mach.mem| == |old(mach.mem)|
    ensures UserPages(LoadList(img.phdrs))
    ensures Confined(old(mach.mem), old(space.tables), old(mach.pmm.FreeSet()), mach.mem, space.tables,
                     mach.pmm.FreeSet())
    ensures !Recognised(img) ==>
      && entry == 0
      && Unmoved(old(mach.mem), old(space.tables), old(mach.pmm.Abs()), mach.mem, space.tables, mach.pmm.Abs())
    ensures Recognised(img) ==>
      if old(mach.pmm.freePages) >= LoadCostButLast(old(mach.mem), space.root, LoadList(img.phdrs))
      then entry == img.entry else entry == 0 && mach.pmm.freePages == 0
    ensures Recognised(img) && old(mach.pmm.freePages) >= LoadCost(old(mach.mem), space.root, LoadList(img.phdrs)) ==>
      mach.pmm.freePages == old(mach.pmm.freePages) - LoadCost(old(mach.mem), space.root, LoadList(img.phdrs))
    ensures (Recognised(img) &&
             old(mach.pmm.freePages) >= LoadCostButLast(old(mach.mem), space.root, LoadList(img.phdrs))) ==>
      Contents(old(mach.mem), old(mach.pmm.FreeSet()), mach.mem, space.root, img,
               Lost(old(mach.mem), old(mach.pmm.freePages), space.root, LoadList(img.phdrs)))
    ensures Recognised(img) && old(mach.pmm.freePages) >= LoadCost(old(mach.mem), space.root, LoadList(img.phdrs)) ==>
      AllMapped(old(mach.pmm.FreeSet()), mach.mem, space.root, img.phdrs)
    ensures OthersKept(old(mach.mem), mach.mem, space.root, img.phdrs)
    ensures Recognised(img) && Between(old(mach.mem), space.root, img, old(mach.pmm.freePages)) ==>
      && LoadList(img.phdrs) != [] && mach.pmm.freePages == 0
      && Untouched(old(mach.mem), mach.mem, space.root, LoadList(img.phdrs)[..|LoadList(img.phdrs)| - 1])
  {
    hide SoFar, ImageLoaded, LoadedTo, Contents, PageAllocator.Valid, Tree, Fits, LoadList, Outcome, LoadCost,
         LoadCostButLast, UserPages, Untouched, Lost, AllMapped, OthersKept, Confined;
    LoadListUser(img.phdrs, img.file);
    NothingLoaded(mach.mem, space.root, img.phdrs);
    ConfinedRefl(mach.mem, space.tables, mach.pmm.FreeSet());
    if img.ident[0] != 0x7F || img.ident[1] != 'E' as int || img.ident[2] != 'L' as int || img.ident[3] != 'F' as int {
      return 0;
    }
    if img.machine != MACHINE_X86_64 {
      return 0;
    }
    ghost var pages: map<nat, Entry> := map[];
    ghost var m0, tables0, free0, count0 := mach.mem, space.tables, mach.pmm.FreeSet(), mach.pmm.freePages;
    ghost var all := LoadList(img.phdrs);
    ghost var done: seq<nat> := [];
    OutcomeStart(m0, count0, space.root);
    NoPages(img.phdrs);
    NoneLost(m0, count0, space.root);
    ImageStart(mach, space, img);
    var i := 0;
    while i < |img.phdrs|
      invariant 0 <= i <= |img.phdrs| && mach.Holds(space) && |mach.mem| == |m0| && space.root < |mach.mem|
      invariant UserPages(done) && done == LoadList(img.phdrs[..i])
      invariant Outcome(m0, count0, mach.mem, mach.pmm.freePages, space.root, done, true)
      invariant SoFar(mach, space, pages, m0, tables0, free0)
      invariant ImageLoaded(m0, mach.mem, pages, img.phdrs, i, img.file, Lost(m0, count0, space.root, done))
    {
      var h := img.phdrs[i];
      LoadListNext(img.phdrs, i);
      if Loads(h) {
        assert h in img.phdrs;
        ghost var m1, pages1, before := mach.mem, pages, done;
        var ok;
        ok, pages := LoadSegment(mach, space, h, img.file, pages1, m0, tables0, free0, count0, done);
        SegmentUser(h, img.file);
        done := done + SegmentPages(h);
        if !ok {
          ghost var more := LoadListSplit(img.phdrs, i + 1, img.file);
          OutcomeStopped(m0, count0, mach.mem, mach.pmm.freePages, space.root, done, more);
          OutcomeMeans(m0, count0, mach.mem, mach.pmm.freePages, space.root, all, false);
          OthersUntouched(m0, mach.mem, space.root, img.phdrs);
          SoFarConfined(mach, space, pages, m0, tables0, free0);
          return 0;
        }
        OutcomeMeans(m0, count0, mach.mem, mach.pmm.freePages, space.root, done, true);
        LostBefore(m0, count0, space.root, before, h);
        ImageNext(m0, m1, pages1, mach.mem, pages, img.phdrs, i, img.file, Lost(m0, count0, space.root, before),
                  Lost(m0, count0, space.root, done));
      } else {
        ImageSkip(m0, mach.mem, pages, img.phdrs, i, img.file, Lost(m0, count0, space.root, done));
      }
      i := i + 1;
    }
    assert img.phdrs[..i] == img.phdrs;
    OutcomeMeans(m0, count0, mach.mem, mach.pmm.freePages, space.root, all, true);
    ImageDone(mach, space, pages, img, m0, tables0, free0, Lost(m0, count0, space.root, all));
    OthersUntouched(m0, mach.mem, space.root, img.phdrs);
    SoFarConfined(mach, space, pages, m0, tables0, free0);
    if count0 >= LoadCost(m0, space.root, all) {
      NoPageLost(m0, count0, space.root, all);
      MappedBy(mach, space, pages, img, m0, tables0, free0);
    }
    entry := img.entry;
  }

  lemma SoFarConfined(mach: Machine, space: AddressSpace, pages: map<nat, Entry>, m0: Mem,
                      tables0: map<nat, seq<nat>>, free0: set<nat>)
    requires ValidMem(mach.mem) && space.root < |mach.mem| && SoFar(mach, space, pages, m0, tables0, free0)
    ensures Confined(m0, tables0, free0, mach.mem, space.tables, mach.pmm.FreeSet())
  {
  }

  lemma NoneLost(m0: Mem, count0: nat, root: nat)
    requires ValidMem(m0) && root < |m0|
    ensures UserPages([]) && Lost(m0, count0, root, []) == NO_PAGE
  {
  }

  /** A segment's pages go on being loaded only while no page is lost. */
  lemma LostBefore(m0: Mem, count0: nat, root: nat, before: seq<nat>, h: Phdr)
    requires ValidMem(m0) && root < |m0| && UserPages(before) && UserPages(SegmentPages(h))
    requires UserPages(before + SegmentPages(h)) && count0 >= LoadCostButLast(m0, root, before + SegmentPages(h))
    ensures Lost(m0, count0, root, before) == NO_PAGE ||
      (&& EndPage(h) <= FirstPage(h)
       && Lost(m0, count0, root, before + SegmentPages(h)) == Lost(m0, count0, root, before))
  {
    hide LoadCost, LoadCostButLast;
    var vs := SegmentPages(h);
    if vs == [] {
      assert before + vs == before;
    } else {
      var rest, v := vs[..|vs| - 1], vs[|vs| - 1];
      assert before + vs == (before + rest) + [v];
      CostGrows(m0, root, before, rest);
      TablesNext(m0, root, before + rest, v);
    }
  }

  // ---------------------------------------------------------------------------
  // What that means for the file's bytes

  /** File byte k of a segment is found at p_vaddr + k, on a page mapped for user mode
      that is writable exactly when the segment is. */
  ghost predicate ByteInPlace(m: Mem, root: nat, h: Phdr, file: seq<Byte>, k: nat)
    requires ValidMem(m) && root < |m| && k < h.filesz && h.offset + h.filesz <= |file|
  {
    var a := h.vaddr + k;
    && a <= USER_ADDR_MAX && a / PAGE_SIZE < USER_PAGES && FrameOf(m, root, a / PAGE_SIZE) < |m|
    && Decode(Flat(m, root, a / PAGE_SIZE)) == Entry(true, Writable(h), true, 0, FrameOf(m, root, a / PAGE_SIZE), 0)
    && UserByte(m, root, a) == file[h.offset + k]
  }

  /** Byte k of segment j, on a page whose owner is segment i, is in place exactly when the
      owner has the same permission and makes the same byte of the address: its own file
      byte if it has one there, else the byte that the page's frame held before. */
  lemma InPlaceExactly(m0: Mem, free0: set<nat>, m: Mem, root: nat, img: Image, lost: int, i: nat, j: nat, k: nat)
    requires ValidMem(m0) && ValidMem(m) && |m| == |m0| && root < |m| && Contents(m0, free0, m, root, img, lost)
    requires j < |img.phdrs| && k < img.phdrs[j].filesz && Fits(img.phdrs[j], img.file)
    requires Owns(img, i, img.phdrs[j].vaddr + k) && PageOfByte(img.phdrs[j], k) != lost
    ensures Fits(img.phdrs[i], img.file)
    ensures var v := PageOfByte(img.phdrs[j], k);
      && OnFrame(m, root, free0, img.phdrs[i], v)
      && (ByteInPlace(m, root, img.phdrs[j], img.file, k) <==>
            && Writable(img.phdrs[j]) == Writable(img.phdrs[i])
            && img.file[img.phdrs[j].offset + k]
            == FilledByte(m0[FrameOf(m, root, v)], img.phdrs[i], img.file, v, (img.phdrs[j].vaddr + k) % PAGE_SIZE))
  {
    hide PageByte, Decode, Flat, FilledByte;
    assert AddressLoaded(m0, free0, m, root, img.phdrs[i], img.file, img.phdrs[j].vaddr + k);
  }

  function PageOfByte(h: Phdr, k: nat): nat {
    (h.vaddr + k) / PAGE_SIZE
  }

  /** So a segment's bytes are in place on the pages that no later segment has. */
  lemma OwnInPlace(m0: Mem, free0: set<nat>, m: Mem, root: nat, img: Image, lost: int, i: nat, k: nat)
    requires ValidMem(m0) && ValidMem(m) && |m| == |m0| && root < |m| && Contents(m0, free0, m, root, img, lost)
    requires i < |img.phdrs| && k < img.phdrs[i].filesz && Owns(img, i, img.phdrs[i].vaddr + k)
    requires PageOfByte(img.phdrs[i], k) != lost
    ensures Fits(img.phdrs[i], img.file) && ByteInPlace(m, root, img.phdrs[i], img.file, k)
  {
    hide ByteInPlace, OnFrame, AddressLoaded, Owner, Decode, Flat, PageByte;
    assert Fits(img.phdrs[i], img.file);
    InPlaceExactly(m0, free0, m, root, img, lost, i, i, k);
  }

  /** No page belongs to two loadable segments. */
  ghost predicate PagesApart(phdrs: seq<Phdr>) {
    forall i, j :: 0 <= i < j < |phdrs| && Loads(phdrs[i]) && Loads(phdrs[j]) ==>
      EndPage(phdrs[i]) <= FirstPage(phdrs[j]) || EndPage(phdrs[j]) <= FirstPage(phdrs[i])
  }

  /** Then every file byte of every loadable segment is in place. */
  lemma ApartInPlace(m0: Mem, free0: set<nat>, m: Mem, root: nat, img: Image, lost: int, i: nat, k: nat)
    requires ValidMem(m0) && ValidMem(m) && |m| == |m0| && root < |m| && Contents(m0, free0, m, root, img, lost)
    requires PagesApart(img.phdrs) && i < |img.phdrs| && Loads(img.phdrs[i])
    requires k < img.phdrs[i].filesz <= img.phdrs[i].memsz && PageOfByte(img.phdrs[i], k) != lost
    ensures Fits(img.phdrs[i], img.file) && ByteInPlace(m, root, img.phdrs[i], img.file, k)
  {
    hide ByteInPlace, Contents;
    OwnInPlace(m0, free0, m, root, img, lost, i, k);
  }

  /** Whatever the frame held, an address reads byte b exactly when b is the owner's file
      byte there. */
  lemma WhateverHeld(h: Phdr, file: seq<Byte>, v: nat, o: nat, b: Byte)
    requires h.offset + h.filesz <= |file| && o < PAGE_SIZE
    ensures (forall before: seq<Word> :: |before| == 512 ==> FilledByte(before, h, file, v, o) == b) <==>
      && h.vaddr <= v * PAGE_SIZE + o < h.vaddr + h.filesz
      && file[h.offset + (v * PAGE_SIZE + o - h.vaddr)] == b
  {
    hide PageByte;
    var zero := Zeros();
    var other := PutByte(zero, o, if b == 0 then 1 else 0);
    assert FilledByte(other, h, file, v, o) == b ==> h.vaddr <= v * PAGE_SIZE + o < h.vaddr + h.filesz;
  }

  /** With zeroed free pages, a byte on a page that another segment replaced, where that
      segment has no file byte, is in place exactly when it is zero and the permissions
      are the same. */
  lemma ZeroedInPlace(m0: Mem, free0: set<nat>, m: Mem, root: nat, img: Image, lost: int, i: nat, j: nat, k: nat)
    requires ValidMem(m0) && ValidMem(m) && |m| == |m0| && root < |m| && Contents(m0, free0, m, root, img, lost)
    requires forall f :: f in free0 && f < |m0| ==> m0[f] == Zeros()
    requires j < |img.phdrs| && k < img.phdrs[j].filesz && Fits(img.phdrs[j], img.file)
    requires Owns(img, i, img.phdrs[j].vaddr + k) && PageOfByte(img.phdrs[j], k) != lost
    requires var h, a := img.phdrs[i], img.phdrs[j].vaddr + k; !(h.vaddr <= a < h.vaddr + h.filesz)
    ensures ByteInPlace(m, root, img.phdrs[j], img.file, k) <==>
      img.file[img.phdrs[j].offset + k] == 0 && Writable(img.phdrs[j]) == Writable(img.phdrs[i])
  {
    hide PageByte, Decode, Flat, Owner, ByteInPlace, AddressLoaded;
    InPlaceExactly(m0, free0, m, root, img, lost, i, j, k);
    ZeroByte((img.phdrs[j].vaddr + k) % PAGE_SIZE);
  }

  lemma ZeroByte(o: nat)
    requires o < PAGE_SIZE
    ensures PageByte(Zeros(), o) == 0
  {
    ByteOfZero(o % 8);
  }

  /** Page v holds memory of a loadable segment, or the start of one. */
  ghost predicate Wanted(phdrs: seq<Phdr>, v: nat) {
    exists i :: 0 <= i < |phdrs| && phdrs[i].ptype == PT_LOAD && Overlaps(phdrs[i], v)
  }

  /** Segment i is the last loadable one with memory on page v. */
  ghost predicate IsLast(phdrs: seq<Phdr>, i: int, v: int) {
    && 0 <= i < |phdrs| && 0 <= v && phdrs[i].ptype == PT_LOAD && Overlaps(phdrs[i], v)
    && forall j :: i < j < |phdrs| && phdrs[j].ptype == PT_LOAD ==> !Overlaps(phdrs[j], v)
  }

  /** Every such page, whether it has file bytes or not, is mapped for user mode on a frame
      of its own that was free, and is writable exactly when bit 1 of the flags of the last
      segment there is set. */
  ghost predicate AllMapped(free0: set<nat>, m: Mem, root: nat, phdrs: seq<Phdr>)
    requires ValidMem(m) && root < |m|
  {
    && (forall v: nat :: Wanted(phdrs, v) ==>
          && v < USER_PAGES && Decode(Flat(m, root, v)).present && Decode(Flat(m, root, v)).user
          && FrameOf(m, root, v) in free0)
    && (forall v: nat, u: nat :: Wanted(phdrs, v) && Wanted(phdrs, u) && u != v ==>
          FrameOf(m, root, u) != FrameOf(m, root, v))
    && (forall i, v :: IsLast(phdrs, i, v) ==>
          v < USER_PAGES && (Decode(Flat(m, root, v)).write <==> (phdrs[i].pflags / 2) % 2 == 1))
  }

  /** Every other page keeps its translation, and every path passes what it did. */
  ghost predicate OthersKept(m0: Mem, m: Mem, root: nat, phdrs: seq<Phdr>)
    requires ValidMem(m0) && ValidMem(m) && |m| == |m0| && root < |m|
  {
    && SameRights(m0, m, root)
    && forall v :: 0 <= v < USER_PAGES && !Wanted(phdrs, v) ==> Flat(m, root, v) == Flat(m0, root, v)
  }

  lemma NothingLoaded(m: Mem, root: nat, phdrs: seq<Phdr>)
    requires ValidMem(m) && root < |m|
    ensures OthersKept(m, m, root, phdrs)
  {
    hide Flat, Passes;
  }

  lemma NoPageLost(m0: Mem, count0: nat, root: nat, vs: seq<nat>)
    requires ValidMem(m0) && root < |m0| && UserPages(vs) && count0 >= LoadCost(m0, root, vs)
    ensures Lost(m0, count0, root, vs) == NO_PAGE
  {
    hide LoadCost;
  }

  /** The pages to load are those that hold memory of a loadable segment. */
  lemma {:induction false} LoadListExactly(phdrs: seq<Phdr>, v: nat)
    ensures v in LoadList(phdrs) <==> exists i :: 0 <= i < |phdrs| && Loads(phdrs[i]) && Overlaps(phdrs[i], v)
  {
    hide Overlaps;
    if phdrs != [] {
      var rest, h := phdrs[..|phdrs| - 1], phdrs[|phdrs| - 1];
      LoadListExactly(rest, v);
      PageRange(h, v);
      InSegment(h, v);
      assert forall i :: 0 <= i < |rest| ==> rest[i] == phdrs[i];
    }
  }

  lemma InSegment(h: Phdr, v: nat)
    ensures v in SegmentPages(h) <==> FirstPage(h) <= v < EndPage(h)
  {
    if FirstPage(h) <= v < EndPage(h) {
      assert SegmentPages(h)[v - FirstPage(h)] == v;
    }
  }

  lemma OthersUntouched(m0: Mem, m: Mem, root: nat, phdrs: seq<Phdr>)
    requires ValidMem(m0) && ValidMem(m) && |m| == |m0| && root < |m| && Untouched(m0, m, root, LoadList(phdrs))
    ensures OthersKept(m0, m, root, phdrs)
  {
    hide Flat, Passes, LoadList, Overlaps;
    forall v | 0 <= v < USER_PAGES && !Wanted(phdrs, v)
      ensures Flat(m, root, v) == Flat(m0, root, v)
    {
      LoadListExactly(phdrs, v);
    }
  }

  /** The last loadable segment with memory on page v. */
  lemma {:induction false} LastOwner(phdrs: seq<Phdr>, n: nat, v: nat, i: nat) returns (j: nat)
    requires i < n <= |phdrs| && Loads(phdrs[i]) && Overlaps(phdrs[i], v)
    ensures Owner(phdrs, n, j, v) && i <= j
  {
    hide Overlaps;
    if Loads(phdrs[n - 1]) && Overlaps(phdrs[n - 1], v) {
      j := n - 1;
    } else {
      j := LastOwner(phdrs, n - 1, v, i);
    }
  }

  lemma OwnedEntry(m0: Mem, m: Mem, root: nat, tables: map<nat, seq<nat>>, free: set<nat>, pages: map<nat, Entry>,
                   phdrs: seq<Phdr>, file: seq<Byte>, free0: set<nat>, i: nat, v: nat)
    requires ValidMem(m0) && ValidMem(m) && |m| == |m0| && root < |m| && i < |phdrs|
    requires Placed(m, root, tables, free, pages) && Started(m0, free0, m, free, pages)
    requires ImageLoaded(m0, m, pages, phdrs, |phdrs|, file, NO_PAGE) && Loads(phdrs[i]) && Overlaps(phdrs[i], v)
    ensures v in pages && v < USER_PAGES && Decode(Flat(m, root, v)) == pages[v] && pages[v].pfn in free0
    ensures pages[v].present && pages[v].user
    ensures IsLast(phdrs, i, v) ==> (pages[v].write <==> (phdrs[i].pflags / 2) % 2 == 1)
  {
    hide PageFilled, Decode, Flat, Overlaps;
    var j := LastOwner(phdrs, |phdrs|, v, i);
    assert SegmentLoaded(m0, m, pages, phdrs[j], file, v, v + 1, NO_PAGE);
  }

  lemma MappedBy(mach: Machine, space: AddressSpace, pages: map<nat, Entry>, img: Image, m0: Mem,
                 tables0: map<nat, seq<nat>>, free0: set<nat>)
    requires ValidMem(m0) && ValidMem(mach.mem) && |mach.mem| == |m0| && space.root < |mach.mem|
    requires SoFar(mach, space, pages, m0, tables0, free0)
    requires ImageLoaded(m0, mach.mem, pages, img.phdrs, |img.phdrs|, img.file, NO_PAGE)
    ensures AllMapped(free0, mach.mem, space.root, img.phdrs)
  {
    hide ImageLoaded, Decode, Flat, Overlaps, Started;
    var phdrs, m, root := img.phdrs, mach.mem, space.root;
    forall i, v: nat | 0 <= i < |phdrs| && phdrs[i].ptype == PT_LOAD && Overlaps(phdrs[i], v)
      ensures v in pages && v < USER_PAGES && Decode(Flat(m, root, v)) == pages[v] && pages[v].pfn in free0
      ensures pages[v].present && pages[v].user
      ensures IsLast(phdrs, i, v) ==> (Decode(Flat(m, root, v)).write <==> (phdrs[i].pflags / 2) % 2 == 1)
    {
      OwnedEntry(m0, m, root, space.tables, mach.pmm.FreeSet(), pages, phdrs, img.file, free0, i, v);
    }
    forall v: nat | Wanted(phdrs, v)
      ensures v in pages && v < USER_PAGES && FrameOf(m, root, v) == pages[v].pfn && pages[v].pfn in free0
      ensures Decode(Flat(m, root, v)).present && Decode(Flat(m, root, v)).user
    {
      var i :| 0 <= i < |phdrs| && phdrs[i].ptype == PT_LOAD && Overlaps(phdrs[i], v);
    }
    forall v: nat, u: nat | Wanted(phdrs, v) && Wanted(phdrs, u) && u != v
      ensures FrameOf(m, root, u) != FrameOf(m, root, v)
    {
      assert pages[u].pfn != pages[v].pfn;
    }
  }

  /** Enough for all but the tables that only the last page needs. */
  ghost predicate Between(m: Mem, root: nat, img: Image, count: nat)
    requires ValidMem(m) && root < |m| && UserPages(LoadList(img.phdrs))
  {
    LoadCostButLast(m, root, LoadList(img.phdrs)) <= count < LoadCost(m, root, LoadList(img.phdrs))
  }

  lemma NoPages(phdrs: seq<Phdr>)
    ensures LoadList(phdrs[..0]) == []
  {
  }

  lemma SegmentUser(h: Phdr, file: seq<Byte>)
    requires Fits(h, file)
    ensures UserPages(SegmentPages(h))
  {
  }

  lemma OutcomeMeans(m0: Mem, count0: nat, m: Mem, count: nat, root: nat, vs: seq<nat>, ok: bool)
    requires ValidMem(m0) && ValidMem(m) && |m| == |m0| && root < |m0| && UserPages(vs)
    requires Outcome(m0, count0, m, count, root, vs, ok)
    ensures ok <==> count0 >= LoadCostButLast(m0, root, vs)
    ensures Untouched(m0, m, root, vs) && (!ok ==> count == 0)
    ensures count0 >= LoadCost(m0, root, vs) ==> ok && count == count0 - LoadCost(m0, root, vs)
    ensures LoadCostButLast(m0, root, vs) <= count0 < LoadCost(m0, root, vs) ==>
      vs != [] && count == 0 && Untouched(m0, m, root, vs[..|vs| - 1])
  {
    hide Flat, TablesFor;
    LastNotMore(m0, root, vs);
  }
}
