/** Fork and a write fault taken together: copy-on-write isolation between a parent and
    its child, across vmm.cpp and pf.cpp, whichever of the two writes first. */
module Cow {
  import opened Lists
  import opened BuddyTheory
  import opened Pmm
  import opened Paging
  import opened Vmm
  import opened Clone
  import opened Fork
  import opened PageFault

  /** User frames exist and are neither free nor tables of the space. */
  ghost predicate FramesApart(m: Mem, root: nat, tables: map<nat, seq<nat>>, free: set<nat>)
    requires ValidMem(m) && root < |m|
  {
    && 0 !in tables
    && forall u :: 0 <= u < USER_PAGES && Decode(Flat(m, root, u)).present ==>
         FrameOf(m, root, u) < |m| && FrameOf(m, root, u) !in tables && FrameOf(m, root, u) !in free
  }

  /** The pages that a clone write-protects. */
  ghost predicate Protected(m: Mem, root: nat, u: nat)
    requires ValidMem(m) && root < |m|
  {
    u < USER_PAGES && Decode(Flat(m, root, u)).present && Low(PathOf(u * PAGE_SIZE))
  }

  /** Handling a fault of one space leaves a translation of another as it was, when the
      other's walk reads none of the first one's tables. */
  lemma OtherUntouched(m1: Mem, m2: Mem, writer: nat, tables: map<nat, seq<nat>>, free: set<nat>, v: nat, frame: nat,
                       other: nat, u: nat)
    requires ValidMem(m1) && ValidMem(m2) && |m1| == |m2| && writer < |m1| && other < |m1|
    requires v < USER_PAGES && u < USER_PAGES && OwnWalk(m1, other, tables, free, u)
    requires Resolved(m1, m2, writer, tables, v, frame) && frame in free
    ensures Flat(m2, other, u) == Flat(m1, other, u)
  {
    hide Decode, Lookup, Trail, PathOf;
    PathIsPage(u * PAGE_SIZE);
    LookupFrame(m1, m2, other, PathOf(u * PAGE_SIZE));
  }

  /** The writer has page v on a frame of its own, writable, with the contents from
      before the fork; every page that the parent mapped with low indices is still
      where it was in the other space, write-protected, and its frame still holds what
      it held before the fork. */
  ghost predicate Isolated(m0: Mem, m2: Mem, root: nat, writer: nat, other: nat, v: nat)
    requires ValidMem(m0) && ValidMem(m2) && |m0| == |m2| && root < |m0| && writer < |m0| && other < |m0|
    requires v < USER_PAGES
    requires FrameOf(m0, root, v) < |m0| && FrameOf(m2, writer, v) < |m0|
  {
    && Decode(Flat(m2, writer, v)) == Entry(true, true, true, 0, FrameOf(m2, writer, v), 0)
    && FrameOf(m2, writer, v) != FrameOf(m0, root, v) && m2[FrameOf(m2, writer, v)] == m0[FrameOf(m0, root, v)]
    && forall u :: 0 <= u < USER_PAGES && Protected(m0, root, u) ==>
         && Flat(m2, other, u) == Protect(Flat(m0, root, u))
         && FrameOf(m0, root, u) < |m0| && m2[FrameOf(m0, root, u)] == m0[FrameOf(m0, root, u)]
  }

  /** Before the fork m0, after it m1, after the writer's fault m2. */
  lemma ForkThenFault(m0: Mem, m1: Mem, m2: Mem, root: nat, tables: map<nat, seq<nat>>, child: nat, free0: set<nat>,
                      free1: set<nat>, writer: nat, owned: map<nat, seq<nat>>, other: nat, v: nat, frame: nat)
    requires ValidMem(m0) && ValidMem(m1) && ValidMem(m2) && |m0| == |m1| == |m2| && root < |m0| && child < |m0|
    requires FramesApart(m0, root, tables, free0) && free1 <= free0 && v < USER_PAGES
    requires Decode(Flat(m0, root, v)).present
    requires ChildPages(m0, m1, root, child) && {writer, other} == {root, child}
    requires forall f :: 0 <= f < |m0| && f !in tables && f !in free0 ==> m1[f] == m0[f]
    requires forall t :: t in owned ==> t in tables || t in free0
    requires forall u :: 0 <= u < USER_PAGES && Protected(m0, root, u) ==> OwnWalk(m1, other, owned, free1, u)
    requires Resolved(m1, m2, writer, owned, v, frame) && frame in free1
    ensures FrameOf(m0, root, v) < |m0| && FrameOf(m2, writer, v) == frame < |m0|
    ensures Isolated(m0, m2, root, writer, other, v)
  {
    hide Decode, Flat, Protect, Low, OwnWalk, PathOf;
    assert writer in {root, child} && other in {root, child};
    assert FrameOf(m1, writer, v) == FrameOf(m0, root, v);
    forall u | 0 <= u < USER_PAGES && Protected(m0, root, u)
      ensures Flat(m2, other, u) == Protect(Flat(m0, root, u))
      ensures FrameOf(m0, root, u) < |m0| && m2[FrameOf(m0, root, u)] == m0[FrameOf(m0, root, u)]
    {
      OtherUntouched(m1, m2, writer, owned, free1, v, frame, other, u);
    }
  }

  /** The parent reaches its protected pages over tables that are not the child's. */
  lemma ParentOwnWalk(m: Mem, root: nat, tables: map<nat, seq<nat>>, childTables: map<nat, seq<nat>>,
                      free0: set<nat>, free1: set<nat>, u: nat)
    requires ValidMem(m) && Tree(m, root, tables) && root < |m| && u < USER_PAGES && Low(PathOf(u * PAGE_SIZE))
    requires ChildShape(tables, childTables, free0, free1) && tables.Keys !! free1
    ensures OwnWalk(m, root, childTables, free1, u)
  {
    hide Decode, Tree, Trail, PathOf;
    PathIsPage(u * PAGE_SIZE);
    RootPosition(m, root, tables);
    NotFreeTables(tables, free1);
    var q := PathOf(u * PAGE_SIZE);
    assert [] + q == q;
    forall x | x in Trail(m, root, q)
      ensures x !in childTables && x !in free1
    {
      TrailPositions(m, root, tables, root, q, x);
      assert forall i :: 0 <= i < |tables[x]| ==> tables[x][i] == q[i];
    }
  }

  lemma StillPrivate(m0: Mem, m1: Mem, root: nat, tables: map<nat, seq<nat>>, free0: set<nat>, free1: set<nat>,
                     space: nat, owned: map<nat, seq<nat>>, v: nat)
    requires ValidMem(m0) && ValidMem(m1) && |m0| == |m1| && root < |m0| && space < |m0| && v < USER_PAGES
    requires free1 <= free0
    requires FramesApart(m0, root, tables, free0) && Decode(Flat(m0, root, v)).present && 0 !in free0
    requires FrameOf(m1, space, v) == FrameOf(m0, root, v) && forall t :: t in owned ==> t in tables || t in free0
    ensures Private(m1, space, owned, free1, v)
  {
    hide Decode, Flat;
  }

  /** Fork, then a write fault of the parent at a mapped page. The fork succeeds exactly
      when there are pages enough for it. With one page more, parent and child are
      isolated; with none left, the parent's page ends on frame 0. */
  method ParentWrites(mach: Machine, space: AddressSpace, current: nat, slabReady: bool, slabPage: seq<Word>, virt: nat)
    returns (child: int, handled: bool)
    requires mach.Holds(space) && current < |mach.mem| && current !in mach.pmm.FreeSet() && |slabPage| == 512
    requires space.root < |mach.mem| && virt <= USER_ADDR_MAX && virt / PAGE_SIZE < USER_PAGES
    requires FramesApart(mach.mem, space.root, space.tables, mach.pmm.FreeSet())
    requires Decode(Flat(mach.mem, space.root, virt / PAGE_SIZE)).present
    requires FrameOf(mach.mem, space.root, virt / PAGE_SIZE) != 0
    modifies mach`mem, space, mach.pmm, mach.pmm.frames, mach.pmm.pool, mach.pmm.pool.heads, mach.pmm.pool.next,
             mach.pmm.pool.prev
    ensures mach.Holds(space) && ValidMem(old(mach.mem)) && |mach.mem| == |old(mach.mem)|
    ensures child != NIL <==> old(mach.pmm.freePages) >= CloneCost(old(mach.mem), space.root, slabReady)
    ensures child != NIL ==> handled && 0 <= child < |mach.mem|
    ensures old(mach.pmm.freePages) > CloneCost(old(mach.mem), space.root, slabReady) ==>
      && FrameOf(old(mach.mem), space.root, virt / PAGE_SIZE) < |mach.mem|
      && FrameOf(mach.mem, space.root, virt / PAGE_SIZE) < |mach.mem|
      && Isolated(old(mach.mem), mach.mem, space.root, space.root, child, virt / PAGE_SIZE)
    ensures old(mach.pmm.freePages) == CloneCost(old(mach.mem), space.root, slabReady) ==>
      FrameOf(mach.mem, space.root, virt / PAGE_SIZE) == 0
  {
    hide Decode, Flat, PageAllocator.Valid, Tree, ParentPages, ChildPages, ExtraPages, OwnWalks, KernelHalf, SameMapped,
         FreeBlank, ChildShape, Resolved, Isolated, FramesApart, Private, CloneCost, Inv;
    ghost var m0, free0, tables, v := mach.mem, mach.pmm.FreeSet(), space.tables, virt / PAGE_SIZE;
    mach.pmm.StateKnown();
    ZeroNotFree(mach.pmm.cfg, mach.pmm.Abs());
    handled := false;
    ghost var childTables;
    child, childTables := CloneAddressSpace(mach, space, current, slabReady, slabPage);
    if child == NIL {
      return;
    }
    ghost var m1, free1 := mach.mem, mach.pmm.FreeSet();
    ghost var left := mach.pmm.freePages;
    SameFrame(m0, m1, space.root, child, v);
    StillPrivate(m0, m1, space.root, tables, free0, free1, space.root, tables, v);
    ghost var frame;
    handled, frame := HandleFault(mach, space, virt, true, true, true);
    ResolvedFrame(m1, mach.mem, space.root, tables, v, frame);
    if left > 0 {
      OwnWalksOf(m0, m1, space.root, child, tables, free0, free1);
      ForkThenFault(m0, m1, mach.mem, space.root, tables, child, free0, free1, space.root, tables, child, v, frame);
    }
  }

  lemma SameFrame(m0: Mem, m1: Mem, root: nat, child: nat, v: nat)
    requires ValidMem(m0) && ValidMem(m1) && |m0| == |m1| && root < |m0| && child < |m0| && v < USER_PAGES
    requires ChildPages(m0, m1, root, child) && Decode(Flat(m0, root, v)).present
    ensures FrameOf(m1, root, v) == FrameOf(m1, child, v) == FrameOf(m0, root, v)
  {
    hide Decode, Flat;
  }

  lemma ResolvedFrame(m1: Mem, m2: Mem, root: nat, tables: map<nat, seq<nat>>, v: nat, frame: nat)
    requires ValidMem(m1) && ValidMem(m2) && |m1| == |m2| && root < |m1| && v < USER_PAGES
    requires Resolved(m1, m2, root, tables, v, frame)
    ensures FrameOf(m2, root, v) == frame
  {
    hide Decode, Flat;
  }

  lemma OwnWalksOf(m0: Mem, m1: Mem, root: nat, child: nat, tables: map<nat, seq<nat>>, free0: set<nat>,
                   free1: set<nat>)
    requires ValidMem(m0) && ValidMem(m1) && |m0| == |m1| && root < |m0| && child < |m0|
    requires OwnWalks(m0, m1, root, child, tables, free0, free1)
    ensures forall u :: 0 <= u < USER_PAGES && Protected(m0, root, u) ==> OwnWalk(m1, child, tables, free1, u)
  {
    hide Decode, Flat, OwnWalk;
  }

  /** Fork, then a write fault of the child. With blank free pages the child's tables are
      tree-shaped, and the same holds with the roles exchanged. */
  method ChildWrites(mach: Machine, space: AddressSpace, current: nat, slabReady: bool, slabPage: seq<Word>, virt: nat)
    returns (child: int, handled: bool)
    requires mach.Holds(space) && current < |mach.mem| && current !in mach.pmm.FreeSet() && |slabPage| == 512
    requires space.root < |mach.mem| && virt <= USER_ADDR_MAX && virt / PAGE_SIZE < USER_PAGES
    requires FramesApart(mach.mem, space.root, space.tables, mach.pmm.FreeSet())
    requires FreeBlank(mach.mem, mach.pmm.FreeSet())
    requires Decode(Flat(mach.mem, space.root, virt / PAGE_SIZE)).present
    requires FrameOf(mach.mem, space.root, virt / PAGE_SIZE) != 0
    modifies mach`mem, mach.pmm, mach.pmm.frames, mach.pmm.pool, mach.pmm.pool.heads, mach.pmm.pool.next,
             mach.pmm.pool.prev
    ensures ValidMem(mach.mem) && ValidMem(old(mach.mem)) && |mach.mem| == |old(mach.mem)|
    ensures child != NIL <==> old(mach.pmm.freePages) >= CloneCost(old(mach.mem), space.root, slabReady)
    ensures child != NIL ==> handled && 0 <= child < |mach.mem|
    ensures old(mach.pmm.freePages) > CloneCost(old(mach.mem), space.root, slabReady) ==>
      && FrameOf(old(mach.mem), space.root, virt / PAGE_SIZE) < |mach.mem|
      && FrameOf(mach.mem, child, virt / PAGE_SIZE) < |mach.mem|
      && Isolated(old(mach.mem), mach.mem, space.root, child, space.root, virt / PAGE_SIZE)
    ensures old(mach.pmm.freePages) == CloneCost(old(mach.mem), space.root, slabReady) ==>
      FrameOf(mach.mem, child, virt / PAGE_SIZE) == 0
  {
    hide Decode, Flat, PageAllocator.Valid, Tree, ParentPages, ChildPages, ExtraPages, OwnWalks, KernelHalf, SameMapped,
         FreeBlank, ChildShape, Resolved, Isolated, FramesApart, Private, CloneCost, Inv;
    ghost var m0, free0, tables, v := mach.mem, mach.pmm.FreeSet(), space.tables, virt / PAGE_SIZE;
    mach.pmm.StateKnown();
    ZeroNotFree(mach.pmm.cfg, mach.pmm.Abs());
    handled := false;
    ghost var childTables;
    child, childTables := CloneAddressSpace(mach, space, current, slabReady, slabPage);
    if child == NIL {
      return;
    }
    ghost var m1, free1 := mach.mem, mach.pmm.FreeSet();
    ghost var left := mach.pmm.freePages;
    SameFrame(m0, m1, space.root, child, v);
    ShapeParts(tables, childTables, free0, free1);
    StillPrivate(m0, m1, space.root, tables, free0, free1, child, childTables, v);
    var forked := new AddressSpace(child, childTables);
    ghost var frame;
    handled, frame := HandleFault(mach, forked, virt, true, true, true);
    ResolvedFrame(m1, mach.mem, child, childTables, v, frame);
    if left > 0 {
      forall u | 0 <= u < USER_PAGES && Protected(m0, space.root, u)
        ensures OwnWalk(m1, space.root, childTables, free1, u)
      {
        ParentOwnWalk(m1, space.root, tables, childTables, free0, free1, u);
      }
      ForkThenFault(m0, m1, mach.mem, space.root, tables, child, free0, free1, child, childTables, space.root, v,
                    frame);
    }
  }

  lemma ShapeParts(tables: map<nat, seq<nat>>, childTables: map<nat, seq<nat>>, free0: set<nat>, free1: set<nat>)
    requires ChildShape(tables, childTables, free0, free1)
    ensures childTables.Keys !! free1 && forall t :: t in childTables ==> t in tables || t in free0
  {
  }
}
