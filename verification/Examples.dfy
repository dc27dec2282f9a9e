/** Inputs on which the code does not do what it seems to promise, one for each of the
    exact conditions proved elsewhere. */
module Examples {
  import opened Options
  import Bits
  import Buddy
  import BuddyTheory
  import Pmm
  import opened Paging
  import Vmm
  import Clone
  import Fork
  import PageFault
  import Needs
  import Elf
  import ReadyQueues
  import CompletionRing
  import Paths
  import Vfs
  import Bytes
  import Tmpfs
  import Checksum

  // ---------------------------------------------------------------------------
  // The page allocator

  /** Pages 2 and 3 as one free block of order 1; only its head lost PAGE_RESERVED. */
  const TWO_PAGES: Buddy.Config := Buddy.Config(4, {0, 1, 3}, {2, 3})
  const ONE_BLOCK: seq<seq<nat>> := [[], [2], [], [], [], [], [], [], [], [], []]

  lemma OneBlockInv()
    ensures BuddyTheory.Inv(TWO_PAGES, Buddy.State(ONE_BLOCK, map[]))
  {
    var b := Buddy.Block(2, 1);
    assert Buddy.FreeBlocks(ONE_BLOCK) == {b} by {
      assert 2 in ONE_BLOCK[1];
    }
    assert Buddy.LiveBlocks(map[]) == {};
    assert Bits.Pow2(1) == 2;
    assert Buddy.Covered({b}) == {2, 3} by {
      assert Buddy.Pages(b) == {2, 3};
    }
  }

  /** Allocating one page and freeing it leaves two blocks of order 0 instead. */
  lemma ListsNotRestored()
    ensures var (s1, r) := Buddy.Alloc(Buddy.State(ONE_BLOCK, map[]), 1);
      && r == Some(2) && 2 in s1.live && s1.live[2] == 0
      && Buddy.Free(TWO_PAGES, s1, 2).lists == [[2, 3], [], [], [], [], [], [], [], [], [], []] != ONE_BLOCK
  {
    assert Buddy.OrderFor(1, 0) == 0;
    assert Buddy.FirstFit(ONE_BLOCK, 1) == 1 == Buddy.FirstFit(ONE_BLOCK, 0);
    var taken := ONE_BLOCK[1 := []];
    assert ONE_BLOCK[1][1..] == [] && [3] + taken[0] == [3] && [2] + [3] == [2, 3];
    assert Buddy.BuddyOf(2, 0) == 3 by {
      assert Bits.Xor(1, 0) == 1;
    }
    var split := taken[0 := [3]];
    assert Buddy.SplitDown(taken, 2, 1, 0) == Buddy.SplitDown(split, 2, 0, 0) == split;
    assert Buddy.MergeUp(TWO_PAGES, split, 2, 0) == (split, Buddy.Block(2, 0));
    assert split[0 := [2] + split[0]] == [[2, 3], [], [], [], [], [], [], [], [], [], []];
  }

  // ---------------------------------------------------------------------------
  // Page tables

  /** The entry for frame f: present, writable, user. */
  function Link(f: U40): (w: Word)
    ensures Decode(w) == Entry(true, true, true, 0, f, 0)
  {
    Encode(Entry(true, true, true, 0, f, 0))
  }

  function ChainWord(slot: nat, rest: Word, p: nat, j: nat): Word {
    if p in {1, 2, 3} && j == 0 then Link(p + 1)
    else if p == 4 && j == slot then Link(5)
    else if p >= 5 then rest
    else 0
  }

  /** Sixteen pages: the tables 1 to 4 map user page `slot` to frame 5 and nothing else;
      all words from frame 5 on are `rest`. */
  function Chain(slot: nat, rest: Word): (m: Mem)
    ensures ValidMem(m) && |m| == 16
    ensures forall p, j :: 0 <= p < 16 && 0 <= j < 512 ==> m[p][j] == ChainWord(slot, rest, p, j)
  {
    seq(16, p requires 0 <= p => seq(512, j requires 0 <= j => ChainWord(slot, rest, p, j)))
  }

  const CHAIN_TABLES: map<nat, seq<nat>> := map[1 := [], 2 := [0], 3 := [0, 0], 4 := [0, 0, 0]]

  lemma ChainTree(slot: nat, rest: Word)
    ensures Tree(Chain(slot, rest), 1, CHAIN_TABLES)
  {
    hide Decode, Encode;
    var m := Chain(slot, rest);
    ZeroAbsent();
    forall t: nat, i: nat | t in CHAIN_TABLES && Inner(CHAIN_TABLES[t], i) && Get(m, t, i).present
      ensures ChildAt(m, CHAIN_TABLES, t, i)
    {
      assert m[t][i] == ChainWord(slot, rest, t, i);
    }
  }

  lemma FirstPages(v: nat)
    requires v < 512
    ensures v < Vmm.USER_PAGES && Vmm.PathOf(v * Pmm.PAGE_SIZE) == [0, 0, 0, v]
  {
  }

  lemma ChainFlat(slot: nat, rest: Word, v: nat)
    requires v < 512
    ensures v < Vmm.USER_PAGES && Vmm.Flat(Chain(slot, rest), 1, v) == if v == slot then Link(5) else 0
    ensures IsPath([0, 0, 0, v]) && Depth(Chain(slot, rest), 1, [0, 0, 0, v]) == 3
  {
    hide Decode, Encode, Vmm.PathOf;
    FirstPages(v);
    var m := Chain(slot, rest);
    assert m[1][0] == Link(2) && m[2][0] == Link(3) && m[3][0] == Link(4);
    assert [0, 0, 0, v][1..] == [0, 0, v] && [0, 0, v][1..] == [0, v] && [0, v][1..] == [v];
    assert Lookup(m, 4, [v]) == Lookup(m, 3, [0, v]) == Lookup(m, 2, [0, 0, v]);
    assert Depth(m, 3, [0, v]) == 1 && Depth(m, 2, [0, 0, v]) == 2;
  }

  /** Every clone of this address space shares frame 5, and it stays writable in both
      exactly for the slots from 256 on. */
  lemma SharedWritable(slot: nat, rest: Word, m1: Mem, child: nat, childTables: map<nat, seq<nat>>,
                       free0: set<nat>, free1: set<nat>)
    requires slot < 512 && ValidMem(m1) && |m1| == 16
    requires Fork.CloneDone(Chain(slot, rest), m1, 1, CHAIN_TABLES, child, childTables, free0, free1, 1)
    ensures child < 16 && slot < Vmm.USER_PAGES && Vmm.Flat(m1, 1, slot) == Vmm.Flat(m1, child, slot)
    ensures Decode(Vmm.Flat(m1, child, slot)).pfn == 5
    ensures Decode(Vmm.Flat(m1, child, slot)).write <==> slot >= 256
  {
    hide Decode, Encode, Vmm.Flat, Fork.OwnWalks, Fork.ExtraPages, Fork.KernelHalf;
    ChainFlat(slot, rest, slot);
    FirstPages(slot);
    assert Clone.Low([0, 0, 0, slot]) <==> slot < 256 by {
      assert [0, 0, 0, slot][3] == slot;
    }
  }

  /** Every clone of this address space into pages full of present words maps page 1,
      which the parent does not. */
  lemma LeakedPage(m1: Mem, child: nat, childTables: map<nat, seq<nat>>, free0: set<nat>, free1: set<nat>)
    requires ValidMem(m1) && |m1| == 16 && forall f :: f in free0 ==> 6 <= f < 16
    requires Fork.CloneDone(Chain(0, Link(9)), m1, 1, CHAIN_TABLES, child, childTables, free0, free1, 1)
    ensures 1 < Vmm.USER_PAGES && !Decode(Vmm.Flat(Chain(0, Link(9)), 1, 1)).present
    ensures Decode(Vmm.Flat(m1, child, 1)).present
  {
    hide Decode, Encode, Vmm.Flat, Fork.ChildPages, Fork.KernelHalf, Vmm.PathOf, Trail, Follow, Depth;
    var m0 := Chain(0, Link(9));
    ChainFlat(0, Link(9), 0);
    ChainFlat(0, Link(9), 1);
    ZeroAbsent();
    FirstPages(0);
    FirstPages(1);
    assert Fork.FreshWalk(m1, child, free0, 0);
    FollowInTrail(m1, child, [0, 0, 0, 0]);
    var e := Follow(m1, child, [0, 0, 0]);
    assert [0, 0, 0, 0][..3] == [0, 0, 0] == [0, 0, 0, 1][..3] && [0, 0, 0, 1][4..] == [];
    assert m0[e][1] == Link(9);
    assert Fork.PageLeaks(m0, m1, 1, child, 1);
  }

  lemma {:induction false} NoneAfter(slot: nat, rest: Word, t: nat, height: nat, i: nat)
    requires 1 <= t <= 3 && 1 <= i <= 256
    ensures Clone.PagesNeeded(Chain(slot, rest), t, height, i) == 0
    decreases 256 - i
  {
    hide Decode, Encode;
    ZeroAbsent();
    if i < 256 {
      NoneAfter(slot, rest, t, height, i + 1);
    }
  }

  /** A clone takes a root and three tables. */
  lemma ChainCost(slot: nat, rest: Word)
    ensures Fork.CloneCost(Chain(slot, rest), 1, true) == 4
  {
    hide Decode, Encode;
    var m := Chain(slot, rest);
    NoneAfter(slot, rest, 1, 3, 1);
    NoneAfter(slot, rest, 2, 2, 1);
    NoneAfter(slot, rest, 3, 1, 1);
    assert m[1][0] == Link(2) && m[2][0] == Link(3) && m[3][0] == Link(4);
    assert Clone.PagesNeeded(m, 4, 0, 0) == 0;
    assert Clone.PagesNeeded(m, 3, 1, 0) == 1;
    assert Clone.PagesNeeded(m, 2, 2, 0) == 2;
  }

  /** Both happen in any machine of sixteen frames with four pages free. */
  method CloneChain(pmm: Pmm.PageAllocator, slot: nat, rest: Word) returns (mach: Vmm.Machine, child: int)
    requires pmm.Valid() && pmm.frames.Length == 16 && pmm.freePages >= 4 && slot < 512
    requires forall f :: f in pmm.FreeSet() ==> 6 <= f < 16
    modifies pmm, pmm.frames, pmm.pool, pmm.pool.heads, pmm.pool.next, pmm.pool.prev
    ensures ValidMem(mach.mem) && 0 <= child < |mach.mem| == 16
    ensures slot < Vmm.USER_PAGES && Decode(Vmm.Flat(mach.mem, child, slot)).pfn == 5
    ensures Vmm.Flat(mach.mem, 1, slot) == Vmm.Flat(mach.mem, child, slot)
    ensures Decode(Vmm.Flat(mach.mem, child, slot)).write <==> slot >= 256
    ensures rest == Link(9) && slot == 0 ==> Decode(Vmm.Flat(mach.mem, child, 1)).present
  {
    hide Decode, Encode, Vmm.Flat, Tree, Pmm.PageAllocator.Valid, Fork.CloneDone, Fork.CloneCost;
    mach := new Vmm.Machine(pmm, Chain(slot, rest));
    var space := new Vmm.AddressSpace(1, CHAIN_TABLES);
    ChainTree(slot, rest);
    ChainCost(slot, rest);
    ghost var free0 := pmm.FreeSet();
    ghost var childTables;
    child, childTables := Fork.CloneAddressSpace(mach, space, 1, true, Zeros());
    SharedWritable(slot, rest, mach.mem, child, childTables, free0, pmm.FreeSet());
    if slot == 0 && rest == Link(9) {
      LeakedPage(mach.mem, child, childTables, free0, pmm.FreeSet());
    }
  }

  /** The allocator with no page at all. */
  const NO_PAGES: seq<seq<nat>> := [[], [], [], [], [], [], [], [], [], [], []]

  /** A write fault with no free page: there is nothing to allocate, and what the handler
      then leaves is page 0 on frame 0, whose contents are lost. */
  lemma FrameZeroLost(m1: Mem)
    requires ValidMem(m1) && |m1| == 16
    requires PageFault.Resolved(Chain(0, 1), m1, 1, CHAIN_TABLES, 0, 0)
    ensures Buddy.Alloc(Buddy.State(NO_PAGES, map[]), 1) == (Buddy.State(NO_PAGES, map[]), None)
    ensures PageFault.FrameOf(m1, 1, 0) == 0 && m1[0] != Chain(0, 1)[0]
  {
    hide Decode, Encode, Vmm.Flat;
    ChainFlat(0, 1, 0);
    assert m1[0][0] == Chain(0, 1)[5][0] == 1 != Chain(0, 1)[0][0];
    assert Buddy.OrderFor(1, 0) == 0;
    assert Buddy.FirstFit(NO_PAGES, 0) > Buddy.MAX_ORDER;
  }

  /** The handler does that in any machine of sixteen frames with no page free. */
  method FaultChain(pmm: Pmm.PageAllocator) returns (mach: Vmm.Machine, handled: bool)
    requires pmm.Valid() && pmm.frames.Length == 16 && pmm.freePages == 0
    requires forall f :: f in pmm.FreeSet() ==> 6 <= f < 16
    modifies pmm, pmm.frames, pmm.pool, pmm.pool.heads, pmm.pool.next, pmm.pool.prev
    ensures handled && ValidMem(mach.mem) && |mach.mem| == 16
    ensures PageFault.FrameOf(mach.mem, 1, 0) == 0 && mach.mem[0] != Chain(0, 1)[0]
  {
    hide Decode, Encode, Vmm.Flat, Tree, Pmm.PageAllocator.Valid, PageFault.Resolved;
    mach := new Vmm.Machine(pmm, Chain(0, 1));
    var space := new Vmm.AddressSpace(1, CHAIN_TABLES);
    ChainTree(0, 1);
    ChainFlat(0, 1, 0);
    ghost var frame;
    handled, frame := PageFault.HandleFault(mach, space, 0, true, true, true);
    FrameZeroLost(mach.mem);
  }

  // ---------------------------------------------------------------------------
  // The ELF loader

  /** Sixteen blank pages. */
  function Blank(): (m: Mem)
    ensures ValidMem(m) && |m| == 16 && forall p, j :: 0 <= p < 16 && 0 <= j < 512 ==> m[p][j] == 0
  {
    seq(16, p => seq(512, j => 0))
  }

  lemma BlankTree()
    ensures Tree(Blank(), 1, map[1 := []])
  {
    hide Decode;
    ZeroAbsent();
  }

  /** Loading page 0 below a blank root takes four pages, and once more one more. */
  lemma BlankCost()
    ensures Needs.UserPages([0]) && Needs.UserPages([0, 0]) && Vmm.Flat(Blank(), 1, 0) == 0
    ensures Needs.LoadCost(Blank(), 1, [0]) == 4 && Needs.LoadCostButLast(Blank(), 1, [0]) == 1
    ensures Needs.LoadCost(Blank(), 1, [0, 0]) == 5 && Needs.LoadCostButLast(Blank(), 1, [0, 0]) == 5
  {
    hide Decode, Vmm.PathOf, Needs.MissingAt;
    FirstPages(0);
    ZeroAbsent();
    assert [0][..0] == [] && [0, 0][..1] == [0];
    var missing := Needs.MissingAt(Blank(), 1, 0);
    assert Needs.TablesFor(Blank(), 1, []) == {};
    assert Needs.TablesFor(Blank(), 1, [0]) == missing;
    assert Needs.TablesFor(Blank(), 1, [0, 0]) == missing;
    Needs.MissingCount(Blank(), 1, 0);
    assert Depth(Blank(), 1, [0, 0, 0, 0]) == 0;
  }

  function Segment(offset: nat, vaddr: nat): Elf.Phdr {
    Elf.Phdr(1, 4, offset, vaddr, 1, 1)
  }

  /** An executable with these segments, in a file of the bytes 1 and 2. */
  function Executable(phdrs: seq<Elf.Phdr>): Elf.Image {
    Elf.Image([0x7F, 'E' as int, 'L' as int, 'F' as int], 0x3E, 0x400000, phdrs, [1, 2])
  }

  lemma OnPageZero(offset: nat, vaddr: nat)
    requires vaddr < Pmm.PAGE_SIZE
    ensures Elf.Loads(Segment(offset, vaddr)) && Elf.SegmentPages(Segment(offset, vaddr)) == [0]
    ensures Elf.FirstPage(Segment(offset, vaddr)) == 0 && Elf.EndPage(Segment(offset, vaddr)) == 1
  {
  }

  lemma SegmentFits(offset: nat, vaddr: nat)
    requires vaddr < Pmm.PAGE_SIZE && offset < 2
    ensures Elf.Fits(Segment(offset, vaddr), [1, 2])
  {
  }

  lemma OneLoad()
    ensures Elf.LoadList([Segment(0, 0)]) == [0]
  {
    hide Elf.Loads, Elf.SegmentPages, Segment, Elf.FirstPage, Elf.EndPage;
    OnPageZero(0, 0);
    assert [Segment(0, 0)][..0] == [];
  }

  lemma TwoLoads(second: nat)
    requires second < Pmm.PAGE_SIZE
    ensures Elf.LoadList([Segment(0, 0), Segment(1, second)]) == [0, 0]
  {
    hide Elf.Loads, Elf.SegmentPages, Segment, Elf.FirstPage, Elf.EndPage;
    OneLoad();
    OnPageZero(1, second);
    assert [Segment(0, 0), Segment(1, second)][..1] == [Segment(0, 0)];
  }

  /** With one to three pages free, the loader returns the entry address of the image with
      one segment, and does not map its page. */
  method LoadedUnmapped(pmm: Pmm.PageAllocator) returns (mach: Vmm.Machine, entry: nat)
    requires pmm.Valid() && pmm.frames.Length == 16 && 1 <= pmm.freePages <= 3 && 1 !in pmm.FreeSet()
    modifies pmm, pmm.frames, pmm.pool, pmm.pool.heads, pmm.pool.next, pmm.pool.prev
    ensures entry == 0x400000 && ValidMem(mach.mem) && |mach.mem| == 16 && Vmm.Flat(mach.mem, 1, 0) == 0
  {
    hide Decode, Vmm.Flat, Tree, Pmm.PageAllocator.Valid, Elf.Contents, Needs.LoadCost, Needs.LoadCostButLast,
         Elf.LoadList, Needs.Untouched, Elf.Fits, Elf.Loads, Segment, Needs.UserPages, Needs.Lost;
    mach := new Vmm.Machine(pmm, Blank());
    var space := new Vmm.AddressSpace(1, map[1 := []]);
    BlankTree();
    BlankCost();
    OneLoad();
    SegmentFits(0, 0);
    entry := Elf.Load(mach, space, Executable([Segment(0, 0)]));
    StillUnmapped(mach.mem);
  }

  lemma StillUnmapped(m: Mem)
    requires ValidMem(m) && |m| == 16 && Needs.Untouched(Blank(), m, 1, [0][..0])
    ensures Vmm.Flat(m, 1, 0) == 0
  {
    hide Vmm.Flat;
    BlankCost();
  }

  /** With five pages free, an image whose second segment is on the page of the first is
      loaded, but the first segment's byte is not in place. */
  method FirstReplaced(pmm: Pmm.PageAllocator, second: nat) returns (mach: Vmm.Machine, entry: nat)
    requires pmm.Valid() && pmm.frames.Length == 16 && pmm.freePages >= 5 && 1 !in pmm.FreeSet()
    requires second < Pmm.PAGE_SIZE
    modifies pmm, pmm.frames, pmm.pool, pmm.pool.heads, pmm.pool.next, pmm.pool.prev
    ensures entry == 0x400000 && ValidMem(mach.mem) && |mach.mem| == 16
    ensures !Elf.ByteInPlace(mach.mem, 1, Segment(0, 0), [1, 2], 0)
    ensures Elf.ByteInPlace(mach.mem, 1, Segment(1, second), [1, 2], 0)
  {
    hide Decode, Vmm.Flat, Tree, Pmm.PageAllocator.Valid, Elf.Contents, Needs.LoadCost, Needs.LoadCostButLast,
         Elf.LoadList, Elf.ByteInPlace, Elf.Fits, Elf.Loads, Needs.UserPages, Needs.Untouched, Needs.Lost, Segment;
    mach := new Vmm.Machine(pmm, Blank());
    var space := new Vmm.AddressSpace(1, map[1 := []]);
    BlankTree();
    BlankCost();
    TwoLoads(second);
    SegmentFits(0, 0);
    SegmentFits(1, second);
    ghost var free0 := pmm.FreeSet();
    NoneLost(pmm.freePages);
    entry := Elf.Load(mach, space, Executable([Segment(0, 0), Segment(1, second)]));
    Replaced(mach.mem, free0, second);
  }

  lemma NoneLost(count: nat)
    requires count >= 5
    ensures Needs.UserPages([0, 0]) && Needs.Lost(Blank(), count, 1, [0, 0]) == Needs.NO_PAGE
  {
    hide Needs.LoadCost, Needs.LoadCostButLast;
    BlankCost();
  }

  lemma SecondOwns(second: nat, a: nat)
    requires second < Pmm.PAGE_SIZE && a < Pmm.PAGE_SIZE
    ensures Elf.Owns(Executable([Segment(0, 0), Segment(1, second)]), 1, a)
  {
    OnPageZero(1, second);
  }

  lemma Replaced(m: Mem, free0: set<nat>, second: nat)
    requires ValidMem(m) && |m| == 16 && second < Pmm.PAGE_SIZE
    requires Elf.Contents(Blank(), free0, m, 1, Executable([Segment(0, 0), Segment(1, second)]), Needs.NO_PAGE)
    ensures Elf.Fits(Segment(0, 0), [1, 2]) && Elf.Fits(Segment(1, second), [1, 2])
    ensures !Elf.ByteInPlace(m, 1, Segment(0, 0), [1, 2], 0)
    ensures Elf.ByteInPlace(m, 1, Segment(1, second), [1, 2], 0)
  {
    hide Decode, Vmm.Flat, Elf.Contents, Elf.ByteInPlace, Elf.Owns, Elf.AddressLoaded, Bytes.PageByte, Elf.FilledByte,
         Blank, ValidMem, Elf.PageOfByte, Elf.EndPage;
    SegmentFits(0, 0);
    SegmentFits(1, second);
    SecondOwns(second, 0);
    SecondOwns(second, second);
    PageZero(0, 0);
    PageZero(1, second);
    var img := Executable([Segment(0, 0), Segment(1, second)]);
    Elf.OwnInPlace(Blank(), free0, m, 1, img, Needs.NO_PAGE, 1, 0);
    Elf.InPlaceExactly(Blank(), free0, m, 1, img, Needs.NO_PAGE, 1, 0, 0);
    NotOne(PageFault.FrameOf(m, 1, 0), second);
  }

  lemma PageZero(offset: nat, vaddr: nat)
    requires vaddr < Pmm.PAGE_SIZE
    ensures Elf.PageOfByte(Segment(offset, vaddr), 0) == 0
  {
  }

  lemma NotOne(f: nat, second: nat)
    requires f < 16 && second < Pmm.PAGE_SIZE
    ensures Elf.FilledByte(Blank()[f], Segment(1, second), [1, 2], 0, 0) != 1
  {
    assert Bytes.PageByte(Blank()[f], 0) == 0;
  }

  // ---------------------------------------------------------------------------
  // The scheduler

  /** The idle thread and a thread of level 100. */
  const THREADS: seq<ReadyQueues.Params> := [
    ReadyQueues.Params(0, ReadyQueues.NORMAL, 0), ReadyQueues.Params(100, ReadyQueues.NORMAL, 0)]

  /** Idle runs, the other is ready. */
  function OneWaiting(): ReadyQueues.State {
    ReadyQueues.State(seq(ReadyQueues.LEVELS, p => if p == 100 then [1] else []),
                      [ReadyQueues.RUNNING, ReadyQueues.READY], 0)
  }

  /** schedule() picks idle again. */
  lemma IdleAgain()
    ensures ReadyQueues.Inv(THREADS, 0, OneWaiting())
    ensures ReadyQueues.AllThreads(THREADS, ReadyQueues.InOrder(ReadyQueues.Reenqueued(THREADS, OneWaiting()).queues))
    ensures ReadyQueues.Schedule(THREADS, 0, OneWaiting()).current == 0
  {
    hide ReadyQueues.InOrder, ReadyQueues.Schedule;
    ReadyQueues.NormalChosen(THREADS, 0, OneWaiting());
    assert ReadyQueues.Reenqueued(THREADS, OneWaiting()).queues[0] != [];
  }

  // ---------------------------------------------------------------------------
  // The NVMe driver

  /** The completion of command 0 comes after its call has timed out. */
  const LATE: seq<seq<seq<CompletionRing.Cqe>>> := [[[]], [[CompletionRing.Cqe(1, 0)]]]

  /** So it is what the call that submits command 1 takes. */
  lemma OthersCompletion()
    ensures CompletionRing.Results(CompletionRing.Session(CompletionRing.Create(2), 0, 0), LATE)
         == [None, Some(CompletionRing.Cqe(1, 0))]
  {
    var r0 := CompletionRing.Create(2);
    var c := CompletionRing.Cqe(1, 0);
    assert CompletionRing.Serve(r0, 1, [[]]) == (r0, None);
    var r1 := CompletionRing.PostAll(r0, 2, [c]);
    assert r1 == CompletionRing.Post(r0, c);
    assert CompletionRing.Serve(r0, 2, [[c]]).1 == Some(c);
  }

  // ---------------------------------------------------------------------------
  // The file system

  lemma DevTokens()
    ensures Paths.Tokens("/dev/..") == ["dev", ".."]
  {
    assert "/dev/.."[1..] == "dev/..";
    assert Paths.RunLength("dev/..", 255) == 3;
    assert "dev/.."[..3] == "dev" && "dev/.."[3..] == "/.." && "/.."[1..] == "..";
    assert Paths.RunLength("..", 255) == 2;
    assert ".."[..2] == ".." && ".."[2..] == "";
    assert Paths.Tokens("..") == [".."] + Paths.Tokens("") == [".."];
    assert Paths.Tokens("/..") == [".."];
    assert ["dev"] + [".."] == ["dev", ".."];
  }

  /** In the tree that vfs_init builds, "/dev/.." is the covered directory. */
  lemma UpIntoCovered()
    ensures Paths.Valid(Vfs.INITIAL) && Paths.Resolve(Vfs.INITIAL, 0, Paths.Tokens("/dev/..")) == Some(1)
  {
    hide Paths.Tokens, Paths.Resolve, Paths.Valid, Vfs.Parented;
    DevTokens();
    var fs := Vfs.INITIAL;
    Vfs.InitialParented();
    assert Paths.FindChild(fs.nodes, [1], "dev") == Some(1);
    Vfs.UpAgain(fs, 0, "dev", 1);
  }

  /** And not the root, where it started. */
  method OpenUp() returns (root: nat, up: Option<nat>)
    ensures up == Some(1) != Some(root)
  {
    UpIntoCovered();
    var fs := Vfs.FileSystem.Init();
    root := fs.root;
    up := fs.Open("/dev/..");
  }

  /** A name of n characters. */
  function LongName(n: nat): (name: string)
    ensures |name| == n
  {
    seq(n, i => 'a')
  }

  /** A root with a directory of a name of 255 characters. */
  function LongTree(): Paths.Fs {
    Paths.Fs([Paths.Node("/", true, true, Some(0), [1]), Paths.Node(LongName(255), true, true, Some(0), [])], [])
  }

  /** Making a directory of 256 such characters hides it. */
  lemma Hidden()
    ensures Paths.Valid(LongTree()) && Vfs.CanMkdir(LongTree(), 0, LongName(256))
    ensures Paths.Valid(Vfs.Mkdir(LongTree(), 0, LongName(256)))
    ensures Paths.Step(LongTree(), 0, LongName(255)) == Some(1)
    ensures Paths.Step(Vfs.Mkdir(LongTree(), 0, LongName(256)), 0, LongName(255)) == Some(2)
  {
    assert LongName(256)[..255] == LongName(255);
    Vfs.MkdirValid(LongTree(), 0, LongName(256));
  }

  /** Writing one byte at offset 4097 of an empty file clears byte 4096 of memory, which
      is not the file's. */
  lemma BeyondPage()
    ensures var ones: seq<Bytes.Byte> := seq(4100, i => 1);
      ones[4096] == 1 && Tmpfs.AfterWrite(ones, 0, 4097, [7])[4096] == 0
  {
    var ones: seq<Bytes.Byte> := seq(4100, i => 1);
    assert Tmpfs.AfterWrite(ones, 0, 4097, [7])[4096] == Tmpfs.ByteAfter(ones, 0, 4097, [7], 4096);
  }

  // ---------------------------------------------------------------------------
  // Checksums

  /** A header with a correct checksum field of 0xFFFF. */
  const ALL_ONES_FIELD: seq<Bytes.Byte> :=
    [0x45, 0, 0xBA, 0xFF, 0, 0, 0, 0, 0, 0, 0xFF, 0xFF, 0, 0, 0, 0, 0, 0, 0, 0]

  lemma AllOnesTotal()
    ensures Checksum.Total(ALL_ONES_FIELD) == 0x1FFFE
  {
    hide Checksum.Rep;
    var h := ALL_ONES_FIELD;
    assert Checksum.WordSum(h, 2) == 0xFFFF;
    assert Checksum.WordSum(h, 4) == 0xFFFF;
    assert Checksum.WordSum(h, 6) == 0x1FFFE;
    assert Checksum.WordSum(h, 8) == 0x1FFFE;
  }

  /** It passes the sum test and is rejected. */
  lemma CorrectRejected(after: seq<Bytes.Byte>)
    requires |after| >= 40
    ensures Checksum.RfcTotal(ALL_ONES_FIELD) == 0xFFFF && !Checksum.Accepts(ALL_ONES_FIELD, after)
  {
    hide Checksum.RfcTotal, Checksum.Total, Checksum.Accepts, Checksum.Checked;
    Checksum.AcceptsExactly(ALL_ONES_FIELD, after);
    Checksum.RfcTotalIsRep(ALL_ONES_FIELD);
    AllOnesTotal();
  }

  /** A header of six words, with a correct checksum, and its options. */
  const SIX_WORDS: seq<Bytes.Byte> :=
    [0x46, 0, 0, 0x18, 0, 0, 0, 0, 0, 0, 0xB7, 0xE6, 0, 0, 0, 0, 0, 0, 0, 0]
  const OPTIONS: seq<Bytes.Byte> := [1, 1, 1, 0]

  lemma SixWordsTotal()
    ensures Checksum.Total(SIX_WORDS) == 0xFDFE && Checksum.Total(OPTIONS) == 0x201
  {
    hide Checksum.Rep;
    var h := SIX_WORDS;
    assert Checksum.WordSum(h, 2) == 0x4618;
    assert Checksum.WordSum(h, 4) == 0x4618;
    assert Checksum.WordSum(h, 6) == 0xFDFE;
    assert Checksum.WordSum(h, 8) == 0xFDFE;
  }

  /** It passes the sum test and is rejected when zeros follow the copy of its first 20
      bytes. */
  lemma OptionsRejected(after: seq<Bytes.Byte>)
    requires |after| >= 40 && forall i :: 0 <= i < 4 ==> after[i] == 0
    ensures Checksum.RfcTotal(SIX_WORDS + OPTIONS) == 0xFFFF && !Checksum.Accepts(SIX_WORDS, after)
  {
    hide Checksum.RfcTotal, Checksum.Total, Checksum.Accepts;
    SixWordsTotal();
    Checksum.SumTest(SIX_WORDS, OPTIONS);
    ZeroTotal(after[..4]);
    Checksum.OptionsExactly(SIX_WORDS, OPTIONS, after);
  }

  lemma ZeroTotal(data: seq<Bytes.Byte>)
    requires |data| == 4 && forall i :: 0 <= i < 4 ==> data[i] == 0
    ensures Checksum.Total(data) == 0
  {
    assert Checksum.WordSum(data, 1) == 0;
  }

  function Ones(n: nat): (data: seq<Bytes.Byte>)
    ensures |data| == n && forall i :: 0 <= i < n ==> data[i] == 255
  {
    seq(n, i => 255)
  }

  lemma {:induction false} OnesSum(n: nat, k: nat)
    requires 2 * k <= n
    ensures Checksum.WordSum(Ones(n), k) == 65535 * k
  {
    if k > 0 {
      OnesSum(n, k - 1);
    }
  }

  /** The sum of 128 KiB and four bytes of ones loses a carry out of 32 bits. */
  lemma CarryLost()
    ensures !Checksum.HarmlessWrap(Checksum.Total(Ones(0x2_0004)))
  {
    OnesSum(0x2_0004, 0x1_0002);
  }
}
