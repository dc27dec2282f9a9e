/** The copy-on-write branch of the page fault handler in pf.cpp. */
module PageFault {
  import opened Buddy
  import opened BuddyTheory
  import opened Pmm
  import opened Paging
  import opened Vmm

  /** PAGE_WRITE and PAGE_USER. */
  const WRITABLE_USER: U12 := 6

  lemma WritableMapping(p: nat)
    requires p < 0x100_0000_0000
    ensures Decode(Encode(Mapping(p * PAGE_SIZE, WRITABLE_USER))) == Entry(true, true, true, 0, p, 0)
  {
    PlainMapping(p, WRITABLE_USER);
  }

  /** Copy the 512 words of one frame to another. */
  method CopyFrame(mach: Machine, from: nat, to: nat)
    requires ValidMem(mach.mem) && from < |mach.mem| && to < |mach.mem|
    modifies mach`mem
    ensures mach.mem == old(mach.mem)[to := old(mach.mem)[from]]
  {
    ghost var m := mach.mem;
    var i := 0;
    while i < 512
      invariant 0 <= i <= 512 && ValidMem(mach.mem) && |mach.mem| == |m| && mach.mem == m[to := mach.mem[to]]
      invariant forall k :: 0 <= k < 512 ==> mach.mem[to][k] == if k < i then m[from][k] else m[to][k]
    {
      mach.mem := PutWord(mach.mem, to, i, mach.mem[from][i]);
      i := i + 1;
    }
    assert mach.mem[to] == m[from];
  }

  /** The frame the tables name for user page v. */
  function FrameOf(m: Mem, root: nat, v: nat): nat
    requires ValidMem(m) && root < |m| && v < USER_PAGES
  {
    Decode(Flat(m, root, v)).pfn
  }

  lemma FrameNonZero(m: Mem, root: nat, v: nat)
    requires ValidMem(m) && root < |m| && v < USER_PAGES && FrameOf(m, root, v) != 0
    ensures Flat(m, root, v) != 0
  {
  }

  /** The faulting page's frame, if any, exists and is neither free nor one of the
      space's own tables; frame 0 is not one of the tables. */
  ghost predicate Private(m: Mem, root: nat, tables: map<nat, seq<nat>>, free: set<nat>, v: nat)
    requires ValidMem(m) && root < |m| && v < USER_PAGES
  {
    && FrameOf(m, root, v) < |m| && FrameOf(m, root, v) !in free && FrameOf(m, root, v) !in tables && 0 !in tables
  }

  lemma OutsideFlat(m: Mem, m': Mem, root: nat, tables: map<nat, seq<nat>>)
    requires ValidMem(m) && ValidMem(m') && |m| == |m'| && Tree(m, root, tables)
    requires forall t :: t in tables && t < |m| ==> m'[t] == m[t]
    ensures Tree(m', root, tables) && root < |m|
    ensures forall v :: 0 <= v < USER_PAGES ==> Flat(m', root, v) == Flat(m, root, v)
    ensures SameRights(m, m', root)
  {
    hide Lookup, PathOf, Tree, Passes;
    OutsideTree(m, m', root, tables);
    forall v | 0 <= v < USER_PAGES
      ensures Flat(m', root, v) == Flat(m, root, v)
    {
      PathIsPage(v * PAGE_SIZE);
    }
  }

  lemma SamePageRights(m: Mem, m': Mem, root: nat)
    requires ValidMem(m) && ValidMem(m') && |m| == |m'| && root < |m| && SameRights(m, m', root)
    ensures forall v :: 0 <= v < USER_PAGES ==> PageRights(m', root, v) == PageRights(m, root, v)
  {
    hide Passes, PathOf;
    forall v | 0 <= v < USER_PAGES
      ensures PageRights(m', root, v) == PageRights(m, root, v)
    {
      PathIsPage(v * PAGE_SIZE);
    }
  }

  /** What a handled write fault leaves: page v on `frame`, writable, with the old
      frame's contents; every other translation, what paths pass, and everything but
      `frame` and the last-level table of the page as before. */
  ghost predicate Resolved(m0: Mem, m1: Mem, root: nat, tables: map<nat, seq<nat>>, v: nat, frame: nat)
    requires ValidMem(m0) && ValidMem(m1) && |m0| == |m1| && root < |m0| && v < USER_PAGES
  {
    && frame < |m1| && Decode(Flat(m1, root, v)) == Entry(true, true, true, 0, frame, 0)
    && (FrameOf(m0, root, v) < |m0| ==>
          && m1[frame] == m0[FrameOf(m0, root, v)]
          && (frame != FrameOf(m0, root, v) ==> m1[FrameOf(m0, root, v)] == m0[FrameOf(m0, root, v)]))
    && (forall u :: 0 <= u < USER_PAGES && u != v ==> Flat(m1, root, u) == Flat(m0, root, u))
    && SameRights(m0, m1, root)
    && (forall f :: 0 <= f < |m0| && f != frame && !IsLeafOf(tables, f, v) ==> m1[f] == m0[f])
  }

  lemma ResolvedBy(m0: Mem, m1: Mem, m2: Mem, root: nat, tables: map<nat, seq<nat>>, free0: set<nat>, v: nat, p: nat)
    requires ValidMem(m0) && ValidMem(m1) && ValidMem(m2) && |m0| == |m1| == |m2| && root < |m0| && v < USER_PAGES
    requires p < |m0| && p !in tables
    requires Private(m0, root, tables, free0, v) && FrameOf(m0, root, v) != 0
    requires m1 == m0[p := m0[FrameOf(m0, root, v)]]
    requires forall u :: 0 <= u < USER_PAGES ==> Flat(m1, root, u) == Flat(m0, root, u)
    requires FlatWritten(m1, m2, root, v, Encode(Mapping(p * PAGE_SIZE, WRITABLE_USER)))
    requires OnlyLeaf(m1, m2, tables, v) && SameRights(m0, m1, root) && SameRights(m1, m2, root)
    ensures Resolved(m0, m2, root, tables, v, p)
  {
    hide Decode, Encode, Flat, Mapping, PathOf, Passes;
    WritableMapping(p);
  }

  /** Allocate a frame, copy the page to it and map it writable. */
  method ReplaceFrame(mach: Machine, space: AddressSpace, virt: nat, oldFrame: nat) returns (p: nat)
    requires mach.Holds(space) && virt <= USER_ADDR_MAX && virt / PAGE_SIZE < USER_PAGES && space.root < |mach.mem|
    requires oldFrame == FrameOf(mach.mem, space.root, virt / PAGE_SIZE) != 0
    requires Private(mach.mem, space.root, space.tables, mach.pmm.FreeSet(), virt / PAGE_SIZE)
    modifies mach`mem, space, mach.pmm, mach.pmm.frames, mach.pmm.pool, mach.pmm.pool.heads, mach.pmm.pool.next,
             mach.pmm.pool.prev
    ensures mach.Holds(space) && ValidMem(old(mach.mem)) && |mach.mem| == |old(mach.mem)|
    ensures Resolved(old(mach.mem), mach.mem, space.root, space.tables, virt / PAGE_SIZE, p)
    ensures space.tables == old(space.tables)
    ensures mach.pmm.FreeSet() == old(mach.pmm.FreeSet()) - {p}
    ensures old(mach.pmm.freePages) > 0 ==> p != 0 && p in old(mach.pmm.FreeSet())
    ensures old(mach.pmm.freePages) == 0 ==> p == 0
    ensures mach.pmm.freePages == if old(mach.pmm.freePages) == 0 then 0 else old(mach.pmm.freePages) - 1
  {
    hide Decode, Encode, PageAllocator.Valid, Tree, Lookup, PathOf, Mapping, Resolved, Flat, Confined, FlatWritten,
         OnlyLeaf;
    ghost var m0, tables, free0, v := mach.mem, space.tables, mach.pmm.FreeSet(), virt / PAGE_SIZE;
    FrameNonZero(m0, space.root, v);
    mach.pmm.StateKnown();
    ZeroNotFree(mach.pmm.cfg, mach.pmm.Abs());
    var newPhys := mach.pmm.AllocPage();
    p := newPhys / PAGE_SIZE;
    mach.pmm.StateKnown();
    ghost var free1 := mach.pmm.FreeSet();
    CopyFrame(mach, oldFrame, p);
    ghost var m1 := mach.mem;
    OutsideFlat(m0, m1, space.root, tables);
    var ok := mach.MapPage(space, virt, newPhys, WRITABLE_USER);
    ResolvedBy(m0, m1, mach.mem, space.root, tables, free0, v, p);
  }

  /** page_fault_handler; false stands for the panic. A write fault from user mode is
      handled exactly when the page names a frame. The page ends on a fresh frame
      exactly when a page was free: the handler does not test the allocation, and
      otherwise frame 0 is overwritten and mapped. */
  method HandleFault(mach: Machine, space: AddressSpace, cr2: nat, present: bool, write: bool, user: bool)
    returns (handled: bool, ghost frame: nat)
    requires mach.Holds(space) && cr2 <= USER_ADDR_MAX && cr2 / PAGE_SIZE < USER_PAGES && space.root < |mach.mem|
    requires FrameOf(mach.mem, space.root, cr2 / PAGE_SIZE) != 0 ==>
      Private(mach.mem, space.root, space.tables, mach.pmm.FreeSet(), cr2 / PAGE_SIZE)
    modifies mach`mem, space, mach.pmm, mach.pmm.frames, mach.pmm.pool, mach.pmm.pool.heads, mach.pmm.pool.next,
             mach.pmm.pool.prev
    ensures mach.Holds(space) && ValidMem(old(mach.mem)) && |mach.mem| == |old(mach.mem)|
    ensures handled <==> present && write && user && FrameOf(old(mach.mem), space.root, cr2 / PAGE_SIZE) != 0
    ensures !(present && write && user) ==>
      Unmoved(old(mach.mem), old(space.tables), old(mach.pmm.Abs()), mach.mem, space.tables, mach.pmm.Abs())
    ensures !handled ==>
      && Extends(old(mach.mem), old(space.tables), old(mach.pmm.FreeSet()), mach.mem, space.tables, mach.pmm.FreeSet())
      && SameRights(old(mach.mem), mach.mem, space.root)
      && forall v :: 0 <= v < USER_PAGES ==> Flat(mach.mem, space.root, v) == Flat(old(mach.mem), space.root, v)
    ensures present && write && user && !handled ==>
      var need := TablesNeeded(old(mach.mem), space.root, cr2 / PAGE_SIZE);
      mach.pmm.freePages == if old(mach.pmm.freePages) < need then 0 else old(mach.pmm.freePages) - need
    ensures handled ==>
      && Resolved(old(mach.mem), mach.mem, space.root, space.tables, cr2 / PAGE_SIZE, frame)
      && space.tables == old(space.tables) && mach.pmm.FreeSet() == old(mach.pmm.FreeSet()) - {frame}
      && (old(mach.pmm.freePages) > 0 ==> frame != 0 && frame in old(mach.pmm.FreeSet()))
      && (old(mach.pmm.freePages) == 0 ==> frame == 0)
      && mach.pmm.freePages == if old(mach.pmm.freePages) == 0 then 0 else old(mach.pmm.freePages) - 1
  {
    hide Decode, PageAllocator.Valid, Tree, Lookup, PathOf, Resolved, Flat, Confined, Private, Extends, TablesNeeded,
         Passes;
    ExtendsRefl(mach.mem, space.tables, mach.pmm.FreeSet());
    frame := 0;
    if !(present && write && user) {
      return false, 0;
    }
    ghost var v := cr2 / PAGE_SIZE;
    var virt := cr2 / PAGE_SIZE * PAGE_SIZE;
    if FrameOf(mach.mem, space.root, v) != 0 {
      FrameNonZero(mach.mem, space.root, v);
    }
    mach.pmm.StateKnown();
    var oldPhys := mach.WalkPageTable(space, virt);
    if oldPhys == 0 {
      return false, 0;
    }
    mach.pmm.StateKnown();
    var p := ReplaceFrame(mach, space, virt, oldPhys / PAGE_SIZE);
    handled, frame := true, p;
  }

  /** Page 0 is never free. */
  lemma ZeroNotFree(cfg: Config, s: State)
    requires Inv(cfg, s)
    ensures 0 !in FreePages(s)
  {
    FreeIsRest(s.lists, LiveBlocks(s.live), cfg.usable);
  }
}
