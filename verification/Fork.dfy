/** copy_page_table_level and vmm_clone_address_space of vmm.cpp, in place. */
module Fork {
  import opened Lists
  import opened Pmm
  import opened Paging
  import opened Vmm
  import opened Clone
  import opened Child

  /** The machine's memory and page allocator fit together. */
  ghost predicate Booted(mach: Machine)
    reads mach`mem, mach.pmm, mach.pmm.frames, mach.pmm.pool, mach.pmm.pool.heads, mach.pmm.pool.next,
          mach.pmm.pool.prev
  {
    mach.pmm.Valid() && ValidMem(mach.mem) && |mach.mem| == mach.pmm.frames.Length
  }

  // ---------------------------------------------------------------------------
  // Copying the tables

  /** What copying one level leaves, whether or not it succeeded. */
  ghost predicate LevelKept(m0: Mem, m1: Mem, tables: map<nat, seq<nat>>, src: nat, dst: nat,
                            free0: set<nat>, free1: set<nat>)
    requires ValidMem(m0) && ValidMem(m1) && |m0| == |m1| && src in tables
  {
    ParentKept(m0, m1, tables, tables[src], 512) && OthersKept(m0, m1, tables, dst, free0, free1)
  }

  lemma CopiedKept(m0: Mem, m1: Mem, tables: map<nat, seq<nat>>, src: nat, dst: nat, n: nat,
                   free0: set<nat>, free1: set<nat>, copies: Copies)
    requires ValidMem(m0) && ValidMem(m1) && |m0| == |m1| && src < |m0| && dst < |m0| && src in tables && n <= 512
    requires Copied(m0, m1, tables, src, dst, n, free0, free1, copies)
    ensures LevelKept(m0, m1, tables, src, dst, free0, free1) && free1 <= free0
    ensures n < 512 ==> m1[src][n] == m0[src][n]
  {
    hide EntryCopied, FreshCopy;
    KeptMore(m0, m1, tables, tables[src], n, 512);
    if n < 512 {
      AheadKept(m0, m1, tables, src, n, n);
    }
  }

  lemma StillReady(m0: Mem, m1: Mem, root: nat, tables: map<nat, seq<nat>>, src: nat, dst: nat,
                   free0: set<nat>, free1: set<nat>)
    requires ValidMem(m0) && ValidMem(m1) && |m0| == |m1| && Ready(m0, root, tables, src, dst, free0)
    requires LevelKept(m0, m1, tables, src, dst, free0, free1)
    ensures Ready(m1, root, tables, src, dst, free1)
  {
    KeptTree(m0, m1, root, tables, tables[src], 512);
  }

  /** A copy that stopped inside the table at entry n. */
  lemma StoppedBelow(m0: Mem, m1: Mem, m2: Mem, tables: map<nat, seq<nat>>, src: nat, dst: nat, n: nat, p: nat,
                     free0: set<nat>, free1: set<nat>, free2: set<nat>, copies: Copies)
    requires ValidMem(m0) && ValidMem(m1) && ValidMem(m2) && |m0| == |m1| == |m2|
    requires src < |m0| && dst < |m0| && src in tables && n < 256
    requires Copied(m0, m1, tables, src, dst, n, free0, free1, copies) && p in free1 && ChildAt(m1, tables, src, n)
    requires LevelKept(m1, m2, tables, Next(m1, src, n), p, free1 - {p}, free2)
    ensures LevelKept(m0, m2, tables, src, dst, free0, free2)
  {
    hide EntryCopied, FreshCopy, Decode;
    KeptCompose(m0, m1, m2, tables, src, n);
    KeptMore(m0, m2, tables, tables[src], n + 1, 512);
    OthersCompose(m0, m1, m2, tables, dst, p, free0, free1, free2);
  }

  /** The pages still needed once the entries before i are copied. */
  ghost function LeftFrom(m: Mem, t: nat, level: nat, i: nat): nat
    requires ValidMem(m) && t < |m| && level <= 3
  {
    PagesNeeded(m, t, 3 - level, if i < 256 then i else 256)
  }

  /** An entry that is absent, shared or a page takes no page. */
  lemma TakesNone(m0: Mem, m1: Mem, root: nat, tables: map<nat, seq<nat>>, src: nat, level: nat, i: nat)
    requires ValidMem(m0) && ValidMem(m1) && |m0| == |m1| && Tree(m0, root, tables) && src in tables && src < |m0|
    requires level == |tables[src]| <= 3 && i < 512 && m1[src][i] == m0[src][i]
    requires !Decode(m1[src][i]).present || i >= 256 || level == 3
    ensures LeftFrom(m0, src, level, i + 1) == LeftFrom(m0, src, level, i)
  {
    hide Decode;
  }

  /** A lower table takes its own page and what is needed below it. */
  lemma TakesTable(m0: Mem, m1: Mem, root: nat, tables: map<nat, seq<nat>>, src: nat, level: nat, i: nat)
    requires ValidMem(m0) && ValidMem(m1) && |m0| == |m1| && Tree(m0, root, tables) && src in tables && src < |m0|
    requires level == |tables[src]| < 3 && i < 256 && m1[src][i] == m0[src][i] && ChildAt(m1, tables, src, i)
    ensures LeftFrom(m0, src, level, i)
         == LeftFrom(m0, src, level, i + 1) + 1 + LeftFrom(m0, Next(m1, src, i), level + 1, 0)
  {
    hide Decode;
  }

  /** Copying the table at src into the page dst, and everything below it. It succeeds
      exactly when there is a free page for every lower table reached by indices below
      256, and takes exactly those pages. */
  method CopyLevel(mach: Machine, ghost root: nat, ghost tables: map<nat, seq<nat>>, src: nat, dst: nat, level: nat)
    returns (ok: bool, ghost copies: Copies)
    requires Booted(mach) && Ready(mach.mem, root, tables, src, dst, mach.pmm.FreeSet()) && level == |tables[src]| <= 3
    modifies mach`mem, mach.pmm, mach.pmm.frames, mach.pmm.pool, mach.pmm.pool.heads, mach.pmm.pool.next,
             mach.pmm.pool.prev
    ensures Booted(mach) && mach.pmm.cfg == old(mach.pmm.cfg)
    ensures ValidMem(old(mach.mem)) && |mach.mem| == |old(mach.mem)| && src < |mach.mem|
    ensures mach.pmm.FreeSet() <= old(mach.pmm.FreeSet())
    ensures LevelKept(old(mach.mem), mach.mem, tables, src, dst, old(mach.pmm.FreeSet()), mach.pmm.FreeSet())
    ensures ok ==>
      Copied(old(mach.mem), mach.mem, tables, src, dst, 512, old(mach.pmm.FreeSet()), mach.pmm.FreeSet(), copies)
    ensures ok <==> old(mach.pmm.freePages) >= LeftFrom(old(mach.mem), src, level, 0)
    ensures mach.pmm.freePages == if ok then old(mach.pmm.freePages) - LeftFrom(old(mach.mem), src, level, 0) else 0
    decreases 3 - level
  {
    hide PageAllocator.Valid, Tree, Decode, Copied, LevelKept, TableEntry, Protect, LeftFrom;
    ghost var m0, free0, count0 := mach.mem, mach.pmm.FreeSet(), mach.pmm.freePages;
    InTree(mach.mem, root, tables, src);
    copies := map[dst := src];
    CopyNone(m0, tables, src, dst, free0);
    var i := 0;
    while i < 512
      invariant 0 <= i <= 512 && Booted(mach) && mach.pmm.cfg == old(mach.pmm.cfg) && |mach.mem| == |m0|
      invariant Copied(m0, mach.mem, tables, src, dst, i, free0, mach.pmm.FreeSet(), copies)
      invariant mach.pmm.freePages + LeftFrom(m0, src, level, 0) == count0 + LeftFrom(m0, src, level, i)
    {
      ghost var m1, free1 := mach.mem, mach.pmm.FreeSet();
      CopiedKept(m0, m1, tables, src, dst, i, free0, free1, copies);
      StillReady(m0, m1, root, tables, src, dst, free0, free1);
      if !Decode(mach.mem[src][i]).present {
        TakesNone(m0, m1, root, tables, src, level, i);
        CopySkip(m0, m1, tables, src, dst, i, free0, free1, copies);
      } else if i >= 256 {
        TakesNone(m0, m1, root, tables, src, level, i);
        CopyShare(m0, m1, root, tables, src, dst, i, free0, free1, copies);
        mach.mem := PutWord(mach.mem, dst, i, mach.mem[src][i]);
      } else if level == 3 {
        TakesNone(m0, m1, root, tables, src, level, i);
        CopyProtect(m0, m1, root, tables, src, dst, i, free0, free1, copies);
        mach.mem := PutWord(mach.mem, dst, i, Protect(mach.mem[src][i]));
        mach.mem := PutWord(mach.mem, src, i, Protect(mach.mem[src][i]));
      } else {
        PresentChild(mach.mem, root, tables, src, i);
        TakesTable(m0, m1, root, tables, src, level, i);
        ok, copies := CopyChild(mach, root, tables, src, dst, level, i, m0, free0, copies);
        if !ok {
          return;
        }
      }
      i := i + 1;
    }
    CopiedKept(m0, mach.mem, tables, src, dst, i, free0, mach.pmm.FreeSet(), copies);
    NothingLeft(m0, src, level);
    ok := true;
  }

  lemma NothingLeft(m: Mem, t: nat, level: nat)
    requires ValidMem(m) && t < |m| && level <= 3
    ensures LeftFrom(m, t, level, 512) == 0
  {
  }

  lemma LeftSame(m0: Mem, m1: Mem, root: nat, tables: map<nat, seq<nat>>, src: nat, dst: nat, n: nat,
                 free0: set<nat>, free1: set<nat>, copies: Copies, t: nat, level: nat)
    requires ValidMem(m0) && ValidMem(m1) && |m0| == |m1| && src < |m0| && dst < |m0| && src in tables
    requires Tree(m0, root, tables) && Copied(m0, m1, tables, src, dst, n, free0, free1, copies)
    requires t in tables && t < |m0| && level == |tables[t]| <= 3
    ensures LeftFrom(m1, t, level, 0) == LeftFrom(m0, t, level, 0)
  {
    hide EntryCopied, FreshCopy, Decode, Tree, PagesNeeded;
    KeptAbove(m0, m1, tables, tables[src], n);
    NeededSame(m0, m1, root, tables, t, 3 - level, 0);
  }

  /** The turn of the loop that copies the table at entry i to a new page. */
  method CopyChild(mach: Machine, ghost root: nat, ghost tables: map<nat, seq<nat>>, src: nat, dst: nat, level: nat,
                   i: nat,
                   ghost m0: Mem, ghost free0: set<nat>, ghost copies: Copies)
    returns (ok: bool, ghost grown: Copies)
    requires Booted(mach) && ValidMem(m0) && |m0| == |mach.mem| && level < 3 && i < 256
    requires Ready(m0, root, tables, src, dst, free0) && level == |tables[src]| && src < |m0|
    requires Ready(mach.mem, root, tables, src, dst, mach.pmm.FreeSet()) && ChildAt(mach.mem, tables, src, i)
    requires Copied(m0, mach.mem, tables, src, dst, i, free0, mach.pmm.FreeSet(), copies)
    modifies mach`mem, mach.pmm, mach.pmm.frames, mach.pmm.pool, mach.pmm.pool.heads, mach.pmm.pool.next,
             mach.pmm.pool.prev
    ensures Booted(mach) && mach.pmm.cfg == old(mach.pmm.cfg) && |mach.mem| == |m0|
    ensures mach.pmm.FreeSet() <= old(mach.pmm.FreeSet())
    ensures ValidMem(old(mach.mem)) && ChildAt(old(mach.mem), tables, src, i)
    ensures ok ==> Copied(m0, mach.mem, tables, src, dst, i + 1, free0, mach.pmm.FreeSet(), grown)
    ensures !ok ==> LevelKept(m0, mach.mem, tables, src, dst, free0, mach.pmm.FreeSet())
    ensures var need := 1 + LeftFrom(m0, Next(old(mach.mem), src, i), level + 1, 0);
      && (ok <==> old(mach.pmm.freePages) >= need)
      && mach.pmm.freePages == if ok then old(mach.pmm.freePages) - need else 0
    decreases 3 - level, 0
  {
    hide PageAllocator.Valid, Tree, Decode, Copied, LevelKept, TableEntry, LeftFrom;
    ghost var m1, free1 := mach.mem, mach.pmm.FreeSet();
    grown := copies;
    CopiedKept(m0, m1, tables, src, dst, i, free0, free1, copies);
    ChildPosition(m1, tables, src, i);
    var next := Decode(mach.mem[src][i]).pfn;
    LeftSame(m0, m1, root, tables, src, dst, i, free0, free1, copies, next, level + 1);
    mach.pmm.StateKnown();
    var phys := mach.pmm.AllocPage();
    if phys == 0 {
      mach.pmm.StateKnown();
      return false, copies;
    }
    var p := phys / PAGE_SIZE;
    ghost var lower;
    ok, lower := CopyLevel(mach, root, tables, next, p, level + 1);
    ghost var m2, free2 := mach.mem, mach.pmm.FreeSet();
    if !ok {
      StoppedBelow(m0, m1, m2, tables, src, dst, i, p, free0, free1, free2, copies);
      return;
    }
    CopyTable(m0, m1, m2, root, tables, src, dst, i, p, free0, free1, free2, copies, lower);
    mach.mem := PutWord(mach.mem, dst, i, TableEntry(mach.mem[src][i], p));
    grown := copies + lower;
  }

  // ---------------------------------------------------------------------------
  // A new address space

  /** A new root table: user half cleared, kernel half copied from the current one. */
  function NewRoot(m: Mem, current: nat): (row: seq<Word>)
    requires ValidMem(m) && current < |m|
    ensures |row| == 512
  {
    seq(512, i requires 0 <= i < 512 => if i < 256 then 0 else m[current][i])
  }

  /** What creating an address space does: root is the new root table, and slab the page
      that kmalloc made a slab of, NIL when it needed none. */
  ghost predicate Created(m0: Mem, free0: set<nat>, m1: Mem, free1: set<nat>, current: nat, slabPage: seq<Word>,
                          root: nat, slab: int)
    requires ValidMem(m0) && current < |m0|
  {
    && root < |m0| && root in free0
    && if slab == NIL then free1 == free0 - {root} && m1 == m0[root := NewRoot(m0, current)]
       else
         && 0 <= slab < |m0| && slab in free0 && slab != root && free1 == free0 - {root, slab}
         && m1 == m0[root := NewRoot(m0, current)][slab := slabPage]
  }

  /** The pages creating an address space takes: the root table, and one for the object
      itself when its slab cache has no free object. */
  function CreateCost(slabReady: bool): nat {
    if slabReady then 1 else 2
  }

  /** vmm_create_address_space; NIL is the null result. slabReady says whether the cache
      of the AddressSpace object has a free object, and slabPage is what a page holds
      once it is made a slab. */
  method CreateAddressSpace(mach: Machine, current: nat, slabReady: bool, slabPage: seq<Word>)
    returns (root: int, ghost slab: int)
    requires Booted(mach) && current < |mach.mem| && current !in mach.pmm.FreeSet() && |slabPage| == 512
    modifies mach`mem, mach.pmm, mach.pmm.frames, mach.pmm.pool, mach.pmm.pool.heads, mach.pmm.pool.next,
             mach.pmm.pool.prev
    ensures Booted(mach) && mach.pmm.cfg == old(mach.pmm.cfg)
    ensures ValidMem(old(mach.mem)) && |mach.mem| == |old(mach.mem)|
    ensures root == NIL <==> old(mach.pmm.freePages) < CreateCost(slabReady)
    ensures mach.pmm.freePages == if root == NIL then 0 else old(mach.pmm.freePages) - CreateCost(slabReady)
    ensures mach.pmm.FreeSet() <= old(mach.pmm.FreeSet())
    ensures forall f :: 0 <= f < |mach.mem| && f !in old(mach.pmm.FreeSet()) ==> mach.mem[f] == old(mach.mem)[f]
    ensures root != NIL ==>
      && root >= 0 && (slab == NIL <==> slabReady)
      && Created(old(mach.mem), old(mach.pmm.FreeSet()), mach.mem, mach.pmm.FreeSet(), current, slabPage, root, slab)
  {
    hide PageAllocator.Valid;
    slab := NIL;
    ghost var m, free := mach.mem, mach.pmm.FreeSet();
    root := MakeRoot(mach, current);
    if root == NIL {
      return;
    }
    var page := MakeObject(mach, slabReady, slabPage);
    if page == 0 {
      root := NIL;
      return;
    }
    if !slabReady {
      slab := page;
      assert free - {root} - {page} == free - {root, page};
    }
  }

  /** Allocate, clear and fill the root table; NIL when no page is free. */
  method MakeRoot(mach: Machine, current: nat) returns (root: int)
    requires Booted(mach) && current < |mach.mem| && current !in mach.pmm.FreeSet()
    modifies mach`mem, mach.pmm, mach.pmm.frames, mach.pmm.pool, mach.pmm.pool.heads, mach.pmm.pool.next,
             mach.pmm.pool.prev
    ensures Booted(mach) && mach.pmm.cfg == old(mach.pmm.cfg) && ValidMem(old(mach.mem))
    ensures root == NIL <==> old(mach.pmm.freePages) == 0
    ensures root == NIL ==>
      mach.mem == old(mach.mem) && mach.pmm.freePages == 0 && mach.pmm.FreeSet() == old(mach.pmm.FreeSet())
    ensures root != NIL ==>
      && 0 <= root < |mach.mem| && root in old(mach.pmm.FreeSet())
      && mach.pmm.FreeSet() == old(mach.pmm.FreeSet()) - {root}
      && mach.mem == old(mach.mem)[root := NewRoot(old(mach.mem), current)]
      && mach.pmm.freePages == old(mach.pmm.freePages) - 1
  {
    hide PageAllocator.Valid;
    mach.pmm.StateKnown();
    ghost var m := mach.mem;
    var phys := mach.pmm.AllocPage();
    mach.pmm.StateKnown();
    if phys == 0 {
      return NIL;
    }
    root := phys / PAGE_SIZE;
    mach.ClearPage(root);
    var i := 256;
    while i < 512
      invariant 256 <= i <= 512 && ValidMem(mach.mem) && |mach.mem| == |m| && mach.mem == m[root := mach.mem[root]]
      invariant forall k :: 0 <= k < 512 ==> mach.mem[root][k] == if 256 <= k < i then m[current][k] else 0
      modifies mach`mem
    {
      mach.mem := PutWord(mach.mem, root, i, mach.mem[current][i]);
      i := i + 1;
    }
    assert mach.mem[root] == NewRoot(m, current);
  }

  /** kmalloc of the object, as far as pages go: it takes one exactly when its cache has
      no free object. The result is the page, NIL when none was needed, 0 on failure. */
  method MakeObject(mach: Machine, slabReady: bool, slabPage: seq<Word>) returns (page: int)
    requires Booted(mach) && |slabPage| == 512
    modifies mach`mem, mach.pmm, mach.pmm.frames, mach.pmm.pool, mach.pmm.pool.heads, mach.pmm.pool.next,
             mach.pmm.pool.prev
    ensures Booted(mach) && mach.pmm.cfg == old(mach.pmm.cfg) && ValidMem(old(mach.mem))
    ensures slabReady <==> page == NIL
    ensures page == 0 <==> !slabReady && old(mach.pmm.freePages) == 0
    ensures page <= 0 ==>
      && mach.mem == old(mach.mem) && mach.pmm.FreeSet() == old(mach.pmm.FreeSet())
      && mach.pmm.freePages == old(mach.pmm.freePages)
    ensures page > 0 ==>
      && page < |mach.mem| && page in old(mach.pmm.FreeSet()) && mach.pmm.FreeSet() == old(mach.pmm.FreeSet()) - {page}
      && mach.mem == old(mach.mem)[page := slabPage]
      && mach.pmm.freePages == old(mach.pmm.freePages) - 1
    ensures page >= NIL
  {
    hide PageAllocator.Valid;
    if slabReady {
      return NIL;
    }
    mach.pmm.StateKnown();
    var phys := mach.pmm.AllocPage();
    mach.pmm.StateKnown();
    page := phys / PAGE_SIZE;
    if phys != 0 {
      mach.mem := mach.mem[page := slabPage];
    }
  }

  // ---------------------------------------------------------------------------
  // The clone, page by page

  /** The parent's user pages after a clone: frames, and everything but the write
      bit, are as before. */
  ghost predicate ParentPages(m0: Mem, m1: Mem, root: nat)
    requires ValidMem(m0) && ValidMem(m1) && |m0| == |m1| && root < |m0|
  {
    forall v :: 0 <= v < USER_PAGES ==>
      && Decode(Flat(m1, root, v)).(write := true) == Decode(Flat(m0, root, v)).(write := true)
      && (Flat(m1, root, v) == Flat(m0, root, v) || Flat(m1, root, v) == Protect(Flat(m0, root, v)))
      && (!Decode(Flat(m0, root, v)).present ==> Flat(m1, root, v) == Flat(m0, root, v))
      && PageRights(m1, root, v) == PageRights(m0, root, v)
  }

  /** Every page mapped in the parent is mapped in the child to the same frame with
      the same word in both; it is write-protected in both when the page's indices
      are all below 256, and keeps its word otherwise. The tables above the last level
      pass for the child what they pass for the parent. */
  ghost predicate ChildPages(m0: Mem, m1: Mem, root: nat, child: nat)
    requires ValidMem(m0) && ValidMem(m1) && |m0| == |m1| && root < |m0| && child < |m0|
  {
    forall v :: 0 <= v < USER_PAGES && Decode(Flat(m0, root, v)).present ==>
      && Flat(m1, child, v) == Flat(m1, root, v) == Cloned(Flat(m0, root, v), PathOf(v * PAGE_SIZE))
      && Decode(Flat(m1, child, v)).present && Decode(Flat(m1, child, v)).pfn == Decode(Flat(m0, root, v)).pfn
      && (!Decode(Flat(m1, child, v)).write <==> Low(PathOf(v * PAGE_SIZE)) || !Decode(Flat(m0, root, v)).write)
      && PageRights(m1, child, v) == PageRights(m0, root, v)
  }

  /** The child reaches user page v over pages that are neither the parent's tables nor
      free. */
  ghost predicate OwnWalk(m: Mem, child: nat, tables: map<nat, seq<nat>>, free: set<nat>, v: nat)
    requires ValidMem(m) && child < |m| && v < USER_PAGES
  {
    PathIsPage(v * PAGE_SIZE);
    forall x :: x in Trail(m, child, PathOf(v * PAGE_SIZE)) ==> x !in tables && x !in free
  }

  /** It reaches user page v over pages that were free. */
  ghost predicate FreshWalk(m: Mem, child: nat, free: set<nat>, v: nat)
    requires ValidMem(m) && child < |m| && v < USER_PAGES
  {
    PathIsPage(v * PAGE_SIZE);
    forall x :: x in Trail(m, child, PathOf(v * PAGE_SIZE)) ==> x in free
  }

  /** It does both for every page the parent maps with low indices. */
  ghost predicate OwnWalks(m0: Mem, m1: Mem, root: nat, child: nat, tables: map<nat, seq<nat>>,
                           free0: set<nat>, free1: set<nat>)
    requires ValidMem(m0) && ValidMem(m1) && |m0| == |m1| && root < |m0| && child < |m0|
  {
    forall v :: 0 <= v < USER_PAGES && Decode(Flat(m0, root, v)).present && Low(PathOf(v * PAGE_SIZE)) ==>
      OwnWalk(m1, child, tables, free1, v) && FreshWalk(m1, child, free0, v)
  }

  /** The page that stands for the table at which the parent's walk along q ends held a
      present word there before the clone, and that word leads to a present one. */
  ghost predicate Leaks(m0: Mem, m1: Mem, root: nat, child: nat, q: seq<nat>)
    requires ValidMem(m0) && ValidMem(m1) && |m0| == |m1| && root < |m0| && child < |m0| && IsPath(q) && q != []
  {
    var d := Depth(m0, root, q);
    && d > 0 && Low(q[..d])
    && Decode(Through(m1, m0[Follow(m1, child, q[..d])][q[d]], q[d + 1..])).present
  }

  /** The child maps a page that the parent does not exactly when such a word leaks. */
  ghost predicate ExtraPages(m0: Mem, m1: Mem, root: nat, child: nat)
    requires ValidMem(m0) && ValidMem(m1) && |m0| == |m1| && root < |m0| && child < |m0|
  {
    forall v :: 0 <= v < USER_PAGES && !Decode(Flat(m0, root, v)).present ==>
      (Decode(Flat(m1, child, v)).present <==> PageLeaks(m0, m1, root, child, v))
  }

  ghost predicate PageLeaks(m0: Mem, m1: Mem, root: nat, child: nat, v: nat)
    requires ValidMem(m0) && ValidMem(m1) && |m0| == |m1| && root < |m0| && child < |m0| && v < USER_PAGES
  {
    PathIsPage(v * PAGE_SIZE);
    Leaks(m0, m1, root, child, PathOf(v * PAGE_SIZE))
  }

  /** No free page holds a word that reads as a present entry. */
  ghost predicate FreeBlank(m: Mem, free: set<nat>)
    requires ValidMem(m)
  {
    forall f, j {:trigger m[f][j]} :: f in free && f < |m| && 0 <= j < 512 ==> !Decode(m[f][j]).present
  }

  /** The child maps exactly the pages that the parent maps. */
  ghost predicate SameMapped(m0: Mem, m1: Mem, root: nat, child: nat)
    requires ValidMem(m0) && ValidMem(m1) && |m0| == |m1| && root < |m0| && child < |m0|
  {
    forall v :: 0 <= v < USER_PAGES ==> (Decode(Flat(m1, child, v)).present <==> Decode(Flat(m0, root, v)).present)
  }

  /** The child's kernel half: the parent's present entries, else the current root's. */
  ghost predicate KernelHalf(m0: Mem, m1: Mem, root: nat, child: nat, current: nat)
    requires ValidMem(m0) && ValidMem(m1) && |m0| == |m1| && root < |m0| && child < |m0| && current < |m0|
  {
    forall i :: 256 <= i < 512 ==> m1[child][i] == if Decode(m0[root][i]).present then m0[root][i] else m0[current][i]
  }

  /** A created and then copied address space: m0 before, m1 once the root exists, m2
      once the tables are copied. */
  ghost predicate Made(m0: Mem, m1: Mem, m2: Mem, root: nat, tables: map<nat, seq<nat>>, child: nat,
                       free0: set<nat>, free1: set<nat>, free2: set<nat>, copies: Copies)
  {
    && ValidMem(m0) && Tree(m0, root, tables) && Finished(m1, m2, root, tables, child, free1, free2, copies)
    && |m0| == |m1| && free2 <= free1 <= free0 && child in free0
    && (forall f :: 0 <= f < |m0| && f !in free0 ==> m1[f] == m0[f])
    && (forall f :: 0 <= f < |m0| && f in free1 ==> m1[f] == m0[f])
    && (forall t :: t in tables ==> t !in free0)
    && (forall j :: 0 <= j < 256 ==> m1[child][j] == 0)
  }

  /** The parent's walks were not affected by creating the root. */
  lemma MadeWalk(m0: Mem, m1: Mem, m2: Mem, root: nat, tables: map<nat, seq<nat>>, child: nat,
                 free0: set<nat>, free1: set<nat>, free2: set<nat>, copies: Copies, q: seq<nat>)
    requires Made(m0, m1, m2, root, tables, child, free0, free1, free2, copies) && |q| == 4 && UserPath(q)
    ensures ValidMem(m1) && ValidMem(m2) && |m0| == |m1| == |m2| && root < |m0| && child < |m0|
    ensures Lookup(m1, root, q) == Lookup(m0, root, q) && Depth(m1, root, q) == Depth(m0, root, q)
    ensures Passes(m1, root, q) == Passes(m0, root, q)
    ensures child in copies && copies[child] == root && root in tables && tables[root] == []
    ensures Below(m1, tables, root, q)
  {
    hide Decode, Finished, Lookup;
    FinishedTree(m1, m2, root, tables, child, free1, free2, copies);
    assert [] + q == q;
    assert Below(m0, tables, root, q);
    OutsideLookup(m0, m1, root, tables, root, q);
    OutsideDepth(m0, m1, root, tables, root, q);
  }

  lemma LeaksExactly(m0: Mem, m1: Mem, m2: Mem, root: nat, tables: map<nat, seq<nat>>, child: nat,
                     free0: set<nat>, free1: set<nat>, free2: set<nat>, copies: Copies, q: seq<nat>)
    requires Made(m0, m1, m2, root, tables, child, free0, free1, free2, copies) && |q| == 4 && UserPath(q)
    requires ValidMem(m2) && |m2| == |m0| && root < |m0| && child < |m0| && !Decode(Lookup(m0, root, q)).present
    ensures Decode(Lookup(m2, child, q)).present <==> Leaks(m0, m2, root, child, q)
  {
    hide Decode, Finished, Lookup, Depth, Follow, Low, Tree;
    MadeWalk(m0, m1, m2, root, tables, child, free0, free1, free2, copies, q);
    AbsentWalk(m1, m2, root, tables, child, free1, free2, copies, child, q);
    var d := Depth(m0, root, q);
    if Low(q[..d]) {
      var e := Follow(m2, child, q[..d]);
      CopyFacts(m1, m2, root, tables, child, free1, free2, copies, e);
      if d == 0 {
        FollowNone(m2, child, q);
        ZeroThrough(m2, q[1..]);
      }
    }
  }

  lemma FollowNone(m: Mem, t: nat, q: seq<nat>)
    requires ValidMem(m) && t < |m| && IsPath(q)
    ensures Follow(m, t, q[..0]) == t
  {
  }

  lemma ZeroThrough(m: Mem, r: seq<nat>)
    requires ValidMem(m) && IsPath(r)
    ensures !Decode(Through(m, 0, r)).present
  {
    ZeroAbsent();
  }

  lemma AbsentThrough(m: Mem, w: Word, r: seq<nat>)
    requires ValidMem(m) && IsPath(r) && !Decode(w).present
    ensures !Decode(Through(m, w, r)).present
  {
    hide Decode;
    ZeroAbsent();
  }

  lemma KeptPages(m0: Mem, m1: Mem, m2: Mem, root: nat, tables: map<nat, seq<nat>>)
    requires ValidMem(m0) && ValidMem(m1) && ValidMem(m2) && |m0| == |m1| == |m2| && Tree(m0, root, tables)
    requires forall t :: t in tables && t < |m0| ==> m1[t] == m0[t]
    requires ParentKept(m1, m2, tables, [], 512)
    ensures root < |m0| && ParentPages(m0, m2, root) && Tree(m2, root, tables)
  {
    OutsideTree(m0, m1, root, tables);
    KeptTree(m1, m2, root, tables, [], 512);
    hide Decode, Lookup, Tree, ParentKept, Protect, PathOf, Passes;
    RootPosition(m1, root, tables);
    forall v | 0 <= v < USER_PAGES
      ensures Decode(Flat(m2, root, v)).(write := true) == Decode(Flat(m0, root, v)).(write := true)
      ensures Flat(m2, root, v) == Flat(m0, root, v) || Flat(m2, root, v) == Protect(Flat(m0, root, v))
      ensures !Decode(Flat(m0, root, v)).present ==> Flat(m2, root, v) == Flat(m0, root, v)
      ensures PageRights(m2, root, v) == PageRights(m0, root, v)
    {
      PathIsPage(v * PAGE_SIZE);
      var q := PathOf(v * PAGE_SIZE);
      assert [] + q == q;
      KeptLookup(m1, m2, root, tables, root, q);
      ProtectKeeps(Flat(m0, root, v));
    }
  }

  /** The pages the parent maps. */
  lemma ClonedPages(m0: Mem, m1: Mem, m2: Mem, root: nat, tables: map<nat, seq<nat>>, child: nat,
                    free0: set<nat>, free1: set<nat>, free2: set<nat>, copies: Copies)
    requires Made(m0, m1, m2, root, tables, child, free0, free1, free2, copies)
    requires ValidMem(m2) && |m2| == |m0| && root < |m0| && child < |m0|
    ensures ChildPages(m0, m2, root, child) && OwnWalks(m0, m2, root, child, tables, free0, free2)
  {
    hide Decode, Lookup, Tree, Finished, Protect, Low, PathOf, Depth, Trail, Passes;
    forall v | 0 <= v < USER_PAGES && Decode(Flat(m0, root, v)).present
      ensures Flat(m2, child, v) == Flat(m2, root, v) == Cloned(Flat(m0, root, v), PathOf(v * PAGE_SIZE))
      ensures Decode(Flat(m2, child, v)).present && Decode(Flat(m2, child, v)).pfn == Decode(Flat(m0, root, v)).pfn
      ensures !Decode(Flat(m2, child, v)).write <==> Low(PathOf(v * PAGE_SIZE)) || !Decode(Flat(m0, root, v)).write
      ensures PageRights(m2, child, v) == PageRights(m0, root, v)
      ensures Low(PathOf(v * PAGE_SIZE)) ==> OwnWalk(m2, child, tables, free2, v) && FreshWalk(m2, child, free0, v)
    {
      PathIsPage(v * PAGE_SIZE);
      var q := PathOf(v * PAGE_SIZE);
      MadeWalk(m0, m1, m2, root, tables, child, free0, free1, free2, copies, q);
      ClonedWalk(m1, m2, root, tables, child, free1, free2, copies, child, q);
      ProtectKeeps(Flat(m0, root, v));
      if Low(q) {
        forall x | x in Trail(m2, child, q)
          ensures x !in tables && x !in free2 && x in free0
        {
          CopyFacts(m1, m2, root, tables, child, free1, free2, copies, x);
          NotFree(m1, m2, root, tables, child, free1, free2, copies, x);
        }
      }
    }
  }

  /** The pages it does not. */
  lemma UnmappedPages(m0: Mem, m1: Mem, m2: Mem, root: nat, tables: map<nat, seq<nat>>, child: nat,
                      free0: set<nat>, free1: set<nat>, free2: set<nat>, copies: Copies)
    requires Made(m0, m1, m2, root, tables, child, free0, free1, free2, copies)
    requires ValidMem(m2) && |m2| == |m0| && root < |m0| && child < |m0|
    ensures ExtraPages(m0, m2, root, child)
  {
    hide Decode, Lookup, Tree, Finished, Low, PathOf, Depth, Leaks;
    forall v | 0 <= v < USER_PAGES && !Decode(Flat(m0, root, v)).present
      ensures Decode(Flat(m2, child, v)).present <==> PageLeaks(m0, m2, root, child, v)
    {
      PathIsPage(v * PAGE_SIZE);
      LeaksExactly(m0, m1, m2, root, tables, child, free0, free1, free2, copies, PathOf(v * PAGE_SIZE));
    }
  }

  /** Blank free pages leak nothing. */
  lemma BlankPages(m0: Mem, m1: Mem, m2: Mem, root: nat, tables: map<nat, seq<nat>>, child: nat,
                   free0: set<nat>, free1: set<nat>, free2: set<nat>, copies: Copies)
    requires Made(m0, m1, m2, root, tables, child, free0, free1, free2, copies) && FreeBlank(m0, free0)
    requires ValidMem(m2) && |m2| == |m0| && root < |m0| && child < |m0|
    ensures Clean(m1, tables, copies) && SameMapped(m0, m2, root, child)
  {
    FinishedTree(m1, m2, root, tables, child, free1, free2, copies);
    BlankClean(m0, m1, m2, root, tables, child, free0, free1, free2, copies);
    ClonedPages(m0, m1, m2, root, tables, child, free0, free1, free2, copies);
    UnmappedPages(m0, m1, m2, root, tables, child, free0, free1, free2, copies);
    hide Decode, Lookup, Tree, Finished, Low, PathOf, Depth, Follow, Through;
    forall v | 0 <= v < USER_PAGES && !Decode(Flat(m0, root, v)).present
      ensures !PageLeaks(m0, m2, root, child, v)
    {
      PathIsPage(v * PAGE_SIZE);
      var q := PathOf(v * PAGE_SIZE);
      var d := Depth(m0, root, q);
      if d > 0 && Low(q[..d]) {
        MadeWalk(m0, m1, m2, root, tables, child, free0, free1, free2, copies, q);
        AbsentWalk(m1, m2, root, tables, child, free1, free2, copies, child, q);
        var e := Follow(m2, child, q[..d]);
        CopyFacts(m1, m2, root, tables, child, free1, free2, copies, e);
        AbsentThrough(m2, m0[e][q[d]], q[d + 1..]);
      }
    }
  }

  lemma BlankClean(m0: Mem, m1: Mem, m2: Mem, root: nat, tables: map<nat, seq<nat>>, child: nat,
                   free0: set<nat>, free1: set<nat>, free2: set<nat>, copies: Copies)
    requires Made(m0, m1, m2, root, tables, child, free0, free1, free2, copies) && FreeBlank(m0, free0)
    requires ValidMem(m1)
    ensures Clean(m1, tables, copies)
  {
    hide Decode, Finished, Tree, Low;
    FinishedTree(m1, m2, root, tables, child, free1, free2, copies);
    ZeroAbsent();
    forall c, j: nat | c in copies && c < |m1| && copies[c] in tables && copies[c] < |m1| && Inner(tables[copies[c]], j)
      ensures !Decode(m1[c][j]).present
    {
      CopyFacts(m1, m2, root, tables, child, free1, free2, copies, c);
    }
  }

  lemma KernelCopied(m0: Mem, m1: Mem, m2: Mem, root: nat, tables: map<nat, seq<nat>>, child: nat,
                     free0: set<nat>, free1: set<nat>, free2: set<nat>, copies: Copies, current: nat)
    requires Made(m0, m1, m2, root, tables, child, free0, free1, free2, copies)
    requires ValidMem(m2) && |m2| == |m0| && root < |m0| && child < |m0| && current < |m0|
    requires forall i :: 256 <= i < 512 ==> m1[child][i] == m0[current][i]
    ensures KernelHalf(m0, m2, root, child, current)
  {
    hide Decode, Finished, Tree, Low;
    FinishedTree(m1, m2, root, tables, child, free1, free2, copies);
    CopyFacts(m1, m2, root, tables, child, free1, free2, copies, child);
    forall i | 256 <= i < 512
      ensures m2[child][i] == if Decode(m0[root][i]).present then m0[root][i] else m0[current][i]
    {
      assert EntryCopied(m1, m2, copies, child, root, i, 0);
    }
  }

  /** The pages a clone takes: those of a new address space, and one for every table of
      the parent below its root that is reached by indices below 256. */
  ghost function CloneCost(m: Mem, root: nat, slabReady: bool): nat
    requires ValidMem(m) && root < |m|
  {
    CreateCost(slabReady) + PagesNeeded(m, root, 3, 0)
  }

  /** The child's tables are pages that were free, or tables of the parent beyond an
      index of 256 or more, at the same positions; none of them is free. */
  ghost predicate ChildShape(tables: map<nat, seq<nat>>, childTables: map<nat, seq<nat>>, free0: set<nat>,
                             free1: set<nat>) {
    && childTables.Keys !! free1
    && (forall t :: t in childTables ==> t in free0 || (t in tables && !Low(tables[t])))
    && (forall t :: t in childTables && t in tables ==> !Low(tables[t]) && childTables[t] == tables[t])
  }

  /** Everything a successful clone means for the child. */
  ghost predicate CloneDone(m0: Mem, m1: Mem, root: nat, tables: map<nat, seq<nat>>, child: nat,
                            childTables: map<nat, seq<nat>>, free0: set<nat>, free1: set<nat>, current: nat)
    requires ValidMem(m0) && ValidMem(m1) && |m0| == |m1| && root < |m0| && current < |m0|
  {
    && child < |m0| && child in free0
    && ChildPages(m0, m1, root, child) && ExtraPages(m0, m1, root, child) && KernelHalf(m0, m1, root, child, current)
    && OwnWalks(m0, m1, root, child, tables, free0, free1) && ChildShape(tables, childTables, free0, free1)
    && (FreeBlank(m0, free0) ==> SameMapped(m0, m1, root, child) && Tree(m1, child, childTables))
  }

  lemma CloneMeaning(m0: Mem, m1: Mem, m2: Mem, root: nat, tables: map<nat, seq<nat>>, child: nat,
                     free0: set<nat>, free1: set<nat>, free2: set<nat>, copies: Copies, current: nat)
    requires Made(m0, m1, m2, root, tables, child, free0, free1, free2, copies)
    requires ValidMem(m2) && |m2| == |m0| && root < |m0| && child < |m0| && current < |m0|
    requires forall i :: 256 <= i < 512 ==> m1[child][i] == m0[current][i]
    ensures CloneDone(m0, m2, root, tables, child, ChildTables(tables, copies), free0, free2, current)
  {
    ClonedPages(m0, m1, m2, root, tables, child, free0, free1, free2, copies);
    UnmappedPages(m0, m1, m2, root, tables, child, free0, free1, free2, copies);
    KernelCopied(m0, m1, m2, root, tables, child, free0, free1, free2, copies, current);
    hide Decode, Finished, Tree, Low, ChildPages, ExtraPages, KernelHalf, OwnWalks, SameMapped, FreeBlank, ChildTables,
         Clean;
    ChildOwns(m1, m2, root, tables, child, free1, free2, copies);
    if FreeBlank(m0, free0) {
      BlankPages(m0, m1, m2, root, tables, child, free0, free1, free2, copies);
      ChildTree(m1, m2, root, tables, child, free1, free2, copies);
    }
  }

  lemma MadeFrom(m0: Mem, m1: Mem, m2: Mem, root: nat, tables: map<nat, seq<nat>>, child: nat, slab: int,
                 slabPage: seq<Word>, free0: set<nat>, free1: set<nat>, free2: set<nat>, copies: Copies, current: nat)
    requires ValidMem(m0) && ValidMem(m1) && ValidMem(m2) && |m0| == |m1| == |m2| && current < |m0|
    requires Tree(m0, root, tables)
    requires root < |m0| && root in tables && tables[root] == [] && tables.Keys !! free0 && free2 <= free1
    requires Created(m0, free0, m1, free1, current, slabPage, child, slab)
    requires Tree(m1, root, tables) && Copied(m1, m2, tables, root, child, 512, free1, free2, copies)
    ensures Made(m0, m1, m2, root, tables, child, free0, free1, free2, copies)
    ensures forall i :: 256 <= i < 512 ==> m1[child][i] == m0[current][i]
  {
    hide Copied, Tree, Decode;
    assert forall t :: t in tables ==> t in tables.Keys;
  }

  /** vmm_clone_address_space. It succeeds exactly when there are enough free pages. A
      failed clone leaves the pages it took behind (the destroy function is empty), and
      the parent's frames as they were. */
  method CloneAddressSpace(mach: Machine, space: AddressSpace, current: nat, slabReady: bool, slabPage: seq<Word>)
    returns (child: int, ghost childTables: map<nat, seq<nat>>)
    requires mach.Holds(space) && current < |mach.mem| && current !in mach.pmm.FreeSet() && |slabPage| == 512
    modifies mach`mem, mach.pmm, mach.pmm.frames, mach.pmm.pool, mach.pmm.pool.heads, mach.pmm.pool.next,
             mach.pmm.pool.prev
    ensures mach.Holds(space) && mach.pmm.cfg == old(mach.pmm.cfg)
    ensures ValidMem(old(mach.mem)) && |mach.mem| == |old(mach.mem)| && space.root < |mach.mem|
    ensures mach.pmm.FreeSet() <= old(mach.pmm.FreeSet()) && ParentPages(old(mach.mem), mach.mem, space.root)
    ensures ParentKept(old(mach.mem), mach.mem, space.tables, [], 512)
    ensures forall f :: 0 <= f < |mach.mem| && f !in space.tables && f !in old(mach.pmm.FreeSet()) ==>
      mach.mem[f] == old(mach.mem)[f]
    ensures child != NIL <==> old(mach.pmm.freePages) >= CloneCost(old(mach.mem), space.root, slabReady)
    ensures mach.pmm.freePages ==
      if child == NIL then 0 else old(mach.pmm.freePages) - CloneCost(old(mach.mem), space.root, slabReady)
    ensures child != NIL ==>
      && child >= 0
      && CloneDone(old(mach.mem), mach.mem, space.root, space.tables, child, childTables,
                   old(mach.pmm.FreeSet()), mach.pmm.FreeSet(), current)
  {
    hide PageAllocator.Valid, Tree, Decode, ParentPages, CloneDone, LevelKept, Copied, ParentKept, OthersKept, Created,
         Made, PagesNeeded;
    ghost var m0, free0, tables := mach.mem, mach.pmm.FreeSet(), space.tables;
    childTables := map[];
    RootPosition(m0, space.root, tables);
    InTree(m0, space.root, tables, space.root);
    ghost var slab;
    child, slab := CreateAddressSpace(mach, current, slabReady, slabPage);
    ghost var m1, free1 := mach.mem, mach.pmm.FreeSet();
    NotFreeTables(tables, free0);
    OutsideTree(m0, m1, space.root, tables);
    if child == NIL {
      KeptRefl(m1, tables);
      KeptPages(m0, m1, m1, space.root, tables);
      KeptSince(m0, m1, m1, tables);
      return;
    }
    CreatedReady(m0, m1, space.root, tables, child, slab, slabPage, free0, free1, current);
    var ok;
    ghost var copies;
    ok, copies := CopyLevel(mach, space.root, tables, space.root, child, 0);
    ghost var m2, free2 := mach.mem, mach.pmm.FreeSet();
    KeptOf(m1, m2, tables, space.root, child, free1, free2);
    KeptPages(m0, m1, m2, space.root, tables);
    KeptSince(m0, m1, m2, tables);
    if !ok {
      child := NIL;
    } else {
      MadeFrom(m0, m1, m2, space.root, tables, child, slab, slabPage, free0, free1, free2, copies, current);
      CloneMeaning(m0, m1, m2, space.root, tables, child, free0, free1, free2, copies, current);
      childTables := ChildTables(tables, copies);
    }
  }

  lemma NotFreeTables(tables: map<nat, seq<nat>>, free: set<nat>)
    requires tables.Keys !! free
    ensures forall t :: t in tables ==> t !in free
  {
    assert forall t :: t in tables ==> t in tables.Keys;
  }

  lemma KeptOf(m0: Mem, m1: Mem, tables: map<nat, seq<nat>>, root: nat, child: nat, free0: set<nat>, free1: set<nat>)
    requires ValidMem(m0) && ValidMem(m1) && |m0| == |m1| && root in tables && tables[root] == []
    requires LevelKept(m0, m1, tables, root, child, free0, free1)
    ensures ParentKept(m0, m1, tables, [], 512) && free1 <= free0
    ensures forall f :: 0 <= f < |m0| && f !in tables && f != child && f !in free0 ==> m1[f] == m0[f]
  {
  }

  lemma KeptSince(m0: Mem, m1: Mem, m2: Mem, tables: map<nat, seq<nat>>)
    requires ValidMem(m0) && ValidMem(m1) && ValidMem(m2) && |m0| == |m1| == |m2|
    requires forall t :: t in tables && t < |m0| ==> m1[t] == m0[t]
    requires ParentKept(m1, m2, tables, [], 512)
    ensures ParentKept(m0, m2, tables, [], 512)
  {
    hide Decode, Protect;
  }

  lemma KeptRefl(m: Mem, tables: map<nat, seq<nat>>)
    requires ValidMem(m)
    ensures ParentKept(m, m, tables, [], 512)
  {
  }

  /** Once the root exists the copy can begin, and needs what it needed before. */
  lemma CreatedReady(m0: Mem, m1: Mem, root: nat, tables: map<nat, seq<nat>>, child: nat, slab: int,
                     slabPage: seq<Word>, free0: set<nat>, free1: set<nat>, current: nat)
    requires ValidMem(m0) && ValidMem(m1) && |m0| == |m1| && current < |m0| && Tree(m0, root, tables)
    requires Tree(m1, root, tables)
    requires root < |m0| && root in tables && tables[root] == [] && tables.Keys !! free0
    requires Created(m0, free0, m1, free1, current, slabPage, child, slab)
    requires forall t :: t in tables && t < |m0| ==> m1[t] == m0[t]
    ensures child < |m0| && child in free0 && Ready(m1, root, tables, root, child, free1)
    ensures LeftFrom(m1, root, 0, 0) == PagesNeeded(m0, root, 3, 0)
  {
    hide Tree, Decode, NewRoot, PagesNeeded;
    NotFreeTables(tables, free0);
    NeededSame(m0, m1, root, tables, root, 3, 0);
  }
}
