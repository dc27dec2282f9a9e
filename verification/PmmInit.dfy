/** pmm_init: build the free lists from the boot loader's memory map. */
module PmmInit {
  import opened Bits
  import opened Buddy
  import opened Options
  import opened BuddyTheory
  import opened Pmm

  datatype MemmapEntry = MemmapEntry(base: nat, length: nat, usable: bool)

  /** What the boot protocol guarantees: addresses fit in 64 bits, USABLE entries are
      page-aligned and disjoint, and the first page is never USABLE. */
  ghost predicate WellFormed(entries: seq<MemmapEntry>) {
    && (forall e :: e in entries ==> e.base + e.length < 0x1_0000_0000_0000_0000)
    && (forall e :: e in entries && e.usable ==>
          e.base % PAGE_SIZE == 0 && e.length % PAGE_SIZE == 0 && e.base >= PAGE_SIZE)
    && (forall i, j :: 0 <= i < j < |entries| && entries[i].usable && entries[j].usable ==>
          Region(entries[i]) !! Region(entries[j]))
  }

  /** The pages of one entry: its base rounded up and its end rounded down. */
  ghost function Region(e: MemmapEntry): set<nat> {
    Span((e.base + PAGE_SIZE - 1) / PAGE_SIZE, (e.base + e.length) / PAGE_SIZE)
  }

  ghost function UsablePages(entries: seq<MemmapEntry>): set<nat> {
    set i, p | 0 <= i < |entries| && entries[i].usable && p in Region(entries[i]) :: p
  }

  /** A page that lies wholly in a USABLE entry. */
  ghost predicate Whole(entries: seq<MemmapEntry>, p: nat) {
    exists e :: e in entries && e.usable && e.base <= p * PAGE_SIZE && (p + 1) * PAGE_SIZE <= e.base + e.length
  }

  lemma RegionIs(e: MemmapEntry, p: nat)
    ensures p in Region(e) <==> e.base <= p * PAGE_SIZE && (p + 1) * PAGE_SIZE <= e.base + e.length
  {
  }

  lemma UsableIs(entries: seq<MemmapEntry>, p: nat)
    ensures p in UsablePages(entries) <==> Whole(entries, p)
  {
    hide Region;
    if p in UsablePages(entries) {
      var i :| 0 <= i < |entries| && entries[i].usable && p in Region(entries[i]);
      RegionIs(entries[i], p);
      assert entries[i] in entries;
    }
    if Whole(entries, p) {
      var e :| e in entries && e.usable && e.base <= p * PAGE_SIZE && (p + 1) * PAGE_SIZE <= e.base + e.length;
      RegionIs(e, p);
      var i :| 0 <= i < |entries| && entries[i] == e;
    }
  }

  lemma UsableNext(entries: seq<MemmapEntry>, n: nat)
    requires n < |entries|
    ensures UsablePages(entries[..n + 1])
         == UsablePages(entries[..n]) + if entries[n].usable then Region(entries[n]) else {}
  {
    var now, next := entries[..n], entries[..n + 1];
    assert forall i :: 0 <= i < n ==> now[i] == next[i] == entries[i];
    assert next[n] == entries[n];
    forall p | p in UsablePages(next)
      ensures p in UsablePages(now) + if entries[n].usable then Region(entries[n]) else {}
    {
      var i :| 0 <= i <= n && next[i].usable && p in Region(next[i]);
      assert i < n ==> now[i].usable;
    }
    forall p | p in UsablePages(now)
      ensures p in UsablePages(next)
    {
      var i :| 0 <= i < n && now[i].usable && p in Region(now[i]);
      assert next[i].usable;
    }
  }

  /** The largest end address in the map, or 0 for an empty one. */
  ghost predicate IsHighest(entries: seq<MemmapEntry>, h: nat) {
    && (forall e :: e in entries ==> e.base + e.length <= h)
    && (h == 0 || exists e :: e in entries && e.base + e.length == h)
  }

  method HighestAddress(entries: seq<MemmapEntry>) returns (highest: nat)
    ensures IsHighest(entries, highest)
  {
    highest := 0;
    for i := 0 to |entries|
      invariant forall e :: e in entries[..i] ==> e.base + e.length <= highest
      invariant highest == 0 || exists e :: e in entries[..i] && e.base + e.length == highest
    {
      assert entries[..i + 1] == entries[..i] + [entries[i]];
      if entries[i].base + entries[i].length > highest {
        highest := entries[i].base + entries[i].length;
      }
    }
    assert entries[..|entries|] == entries;
  }

  /** The first USABLE entry that can hold the frame metadata; |entries| when none can. */
  method PlaceMetadata(entries: seq<MemmapEntry>, size: nat) returns (k: nat)
    ensures k <= |entries|
    ensures k < |entries| ==> entries[k].usable && entries[k].length >= size
    ensures forall i :: 0 <= i < k ==> !(entries[i].usable && entries[i].length >= size)
  {
    k := 0;
    while k < |entries| && !(entries[k].usable && entries[k].length >= size)
      invariant k <= |entries|
      invariant forall i :: 0 <= i < k ==> !(entries[i].usable && entries[i].length >= size)
    {
      k := k + 1;
    }
  }

  /** A larger block would be misaligned, would not fit, or would run into the metadata. */
  predicate Grows(pfn: nat, order: nat, end: nat, metaStart: nat) {
    && order < MAX_ORDER && Aligned(pfn, order + 1) && pfn + Pow2(order + 1) <= end
    && !(pfn < metaStart < pfn + Pow2(order + 1))
  }

  method LargestOrder(pfn: nat, end: nat, metaStart: nat) returns (order: nat)
    requires pfn < end
    ensures order <= MAX_ORDER && Aligned(pfn, order) && pfn + Pow2(order) <= end
    ensures pfn < metaStart ==> pfn + Pow2(order) <= metaStart
    ensures !Grows(pfn, order, end, metaStart)
    ensures forall k :: 0 <= k < order ==> Grows(pfn, k, end, metaStart)
  {
    order := 0;
    while order < MAX_ORDER && Aligned(pfn, order + 1) && pfn + Pow2(order + 1) <= end
      invariant order <= MAX_ORDER && Aligned(pfn, order) && pfn + Pow2(order) <= end
      invariant pfn < metaStart ==> pfn + Pow2(order) <= metaStart
      invariant forall k :: 0 <= k < order ==> Grows(pfn, k, end, metaStart)
      decreases MAX_ORDER - order
    {
      if pfn < metaStart && pfn + Pow2(order + 1) > metaStart {
        break;
      }
      order := order + 1;
    }
  }

  /** Listing a block whose pages are new extends the tiling. */
  lemma AddSound(lists: seq<seq<nat>>, b: Block, pages: set<nat>)
    requires Sound(lists, {}, pages) && b.order <= MAX_ORDER && Aligned(b.pfn, b.order) && Pages(b) !! pages
    ensures forall j :: 0 <= j < |lists| ==> b.pfn !in lists[j]
    ensures Sound(lists[b.order := [b.pfn] + lists[b.order]], {}, pages + Pages(b))
  {
    var blocks := FreeBlocks(lists);
    assert blocks + {} == blocks;
    forall c | c in blocks
      ensures Apart(b, c) && c.pfn != b.pfn
    {
      HeadIsCovered(blocks, c);
      DisjointApart(b, c);
    }
    forall j, x | 0 <= j < |lists| && x in lists[j]
      ensures x != b.pfn
    {
      assert Block(x, j) in blocks;
    }
    FreeBlocksPush(lists, b.order, b.pfn);
    CoveredAdd(blocks, b);
    assert FreeBlocks(lists[b.order := [b.pfn] + lists[b.order]]) + {} == blocks + {b};
  }

  lemma DisjointApart(b: Block, c: Block)
    requires Pages(b) !! Pages(c)
    ensures Apart(b, c) && b.pfn != c.pfn
  {
    assert b.pfn in Pages(b) && c.pfn in Pages(c);
    assert !Apart(b, c) ==> b.pfn in Pages(c) || c.pfn in Pages(b);
  }

  /** What is listed so far: nothing allocated, the listed blocks tile `done`, and only
      their heads have lost PAGE_RESERVED. */
  ghost predicate Filling(pmm: PageAllocator, done: set<nat>)
    reads pmm, pmm.frames, pmm.pool, pmm.pool.heads, pmm.pool.next, pmm.pool.prev
  {
    && pmm.Linked() && pmm.live == map[] && Sound(pmm.pool.lists, {}, done) && pmm.freePages == Count(pmm.pool.lists)
    && forall x :: 0 <= x < pmm.frames.Length ==> pmm.frames[x].reserved == !pmm.frames[x].free
  }

  /** Clear a frame's flags and list the block it heads. */
  method AddBlock(pmm: PageAllocator, b: Block, ghost done: set<nat>)
    requires Filling(pmm, done) && b.order <= MAX_ORDER && Aligned(b.pfn, b.order)
    requires Pages(b) !! done && b.pfn < pmm.frames.Length
    modifies pmm, pmm.frames, pmm.pool, pmm.pool.heads, pmm.pool.next, pmm.pool.prev
    ensures Filling(pmm, done + Pages(b)) && FreeBlocks(pmm.pool.lists) == old(FreeBlocks(pmm.pool.lists)) + {b}
  {
    FreeBlocksPush(pmm.pool.lists, b.order, b.pfn);
    AddSound(pmm.pool.lists, b, done);
    CountPush(pmm.pool.lists, b.order, b.pfn);
    pmm.ClearReserved(b.pfn);
    pmm.ListAdd(b.order, b.pfn);
    pmm.freePages := pmm.freePages + Pow2(b.order);
  }

  ghost function Upto(start: nat, pfn: nat, end: nat, meta: set<nat>): set<nat> {
    Span(start, if pfn < end then pfn else end) - meta
  }

  lemma UptoBlock(start: nat, b: Block, end: nat, metaStart: nat, metaEnd: nat)
    requires start <= b.pfn && b.pfn + Pow2(b.order) <= end
    requires b.pfn < metaStart ==> b.pfn + Pow2(b.order) <= metaStart
    requires !(metaStart <= b.pfn < metaEnd)
    ensures Pages(b) !! Upto(start, b.pfn, end, Span(metaStart, metaEnd))
    ensures Upto(start, b.pfn + Pow2(b.order), end, Span(metaStart, metaEnd))
         == Upto(start, b.pfn, end, Span(metaStart, metaEnd)) + Pages(b)
    ensures Pages(b) <= Span(start, end) - Span(metaStart, metaEnd)
  {
  }

  /** A block of this region that could not have been listed any larger. */
  predicate LargestFrom(b: Block, start: nat, end: nat, metaStart: nat) {
    start <= b.pfn < end && !Grows(b.pfn, b.order, end, metaStart)
  }

  lemma IsLargest(b: Block, start: nat, end: nat, metaStart: nat)
    requires start <= b.pfn < end && !Grows(b.pfn, b.order, end, metaStart)
    ensures LargestFrom(b, start, end, metaStart)
  {
  }

  /** List the pages [start, end) of one USABLE entry, except the metadata's. */
  method AddRegion(pmm: PageAllocator, start: nat, end: nat, metaStart: nat, metaEnd: nat, ghost done: set<nat>)
    requires Filling(pmm, done) && end <= pmm.frames.Length && metaStart <= metaEnd
    requires Span(start, end) !! done
    modifies pmm, pmm.frames, pmm.pool, pmm.pool.heads, pmm.pool.next, pmm.pool.prev
    ensures Filling(pmm, done + (Span(start, end) - Span(metaStart, metaEnd)))
    ensures forall b :: b in FreeBlocks(pmm.pool.lists) && b !in old(FreeBlocks(pmm.pool.lists)) ==>
      LargestFrom(b, start, end, metaStart)
  {
    hide Filling, FreeBlocks, Grows, LargestFrom;
    ghost var before := FreeBlocks(pmm.pool.lists);
    ghost var meta := Span(metaStart, metaEnd);
    var pfn := start;
    assert done + Upto(start, pfn, end, meta) == done;
    while pfn < end
      invariant start <= pfn
      invariant Filling(pmm, done + Upto(start, pfn, end, meta))
      invariant forall b :: b in FreeBlocks(pmm.pool.lists) && b !in before ==> LargestFrom(b, start, end, metaStart)
      decreases end - pfn
    {
      if metaStart <= pfn < metaEnd {
        assert Upto(start, metaEnd, end, meta) == Upto(start, pfn, end, meta);
        pfn := metaEnd;
        continue;
      }
      var order := LargestOrder(pfn, end, metaStart);
      ghost var b := Block(pfn, order);
      UptoBlock(start, b, end, metaStart, metaEnd);
      IsLargest(b, start, end, metaStart);
      AddBlock(pmm, Block(pfn, order), done + Upto(start, pfn, end, meta));
      pfn := pfn + Pow2(order);
      assert done + Upto(start, b.pfn, end, meta) + Pages(b) == done + Upto(start, pfn, end, meta);
    }
    assert Upto(start, pfn, end, meta) == Span(start, end) - meta;
  }

  lemma EmptyFilling(pmm: PageAllocator)
    requires pmm.Linked() && pmm.live == map[] && pmm.freePages == 0
    requires pmm.pool.lists == seq(MAX_ORDER + 1, i => [])
    requires forall x :: 0 <= x < pmm.frames.Length ==> pmm.frames[x].reserved
    ensures Filling(pmm, {})
  {
    var lists := pmm.pool.lists;
    CountZero(lists, 0);
    assert FreeBlocks(lists) == {};
    assert Covered({}) == {};
  }

  lemma NoBlocks(lists: seq<seq<nat>>)
    requires forall k :: 0 <= k < |lists| ==> lists[k] == []
    ensures FreeBlocks(lists) == {}
  {
  }

  /** Every block is one of the largest of some USABLE entry. */
  ghost predicate AllLargest(entries: seq<MemmapEntry>, blocks: set<Block>, metaStart: nat) {
    forall b :: b in blocks ==> exists e :: e in entries && e.usable && InEntry(e, b, metaStart)
  }

  /** The block lies in one USABLE entry, and no aligned block of twice its size at its head
      would lie there outside the metadata. */
  ghost predicate Maximal(entries: seq<MemmapEntry>, b: Block, metaStart: nat, metaEnd: nat) {
    exists e :: e in entries && e.usable && b.pfn in Region(e) && !Doubles(e, b, metaStart, metaEnd)
  }

  ghost predicate Doubles(e: MemmapEntry, b: Block, metaStart: nat, metaEnd: nat) {
    && b.order < MAX_ORDER && b.pfn % Pow2(b.order + 1) == 0
    && Pages(Block(b.pfn, b.order + 1)) <= Region(e) - Span(metaStart, metaEnd)
  }

  lemma CannotDouble(e: MemmapEntry, b: Block, metaStart: nat, metaEnd: nat)
    requires InEntry(e, b, metaStart) && metaStart < metaEnd
    ensures b.pfn in Region(e) && !Doubles(e, b, metaStart, metaEnd)
  {
    var end, last := (e.base + e.length) / PAGE_SIZE, b.pfn + Pow2(b.order + 1) - 1;
    var larger := Block(b.pfn, b.order + 1);
    assert last in Pages(larger);
    if b.pfn < metaStart <= last {
      assert metaStart in Pages(larger) && metaStart in Span(metaStart, metaEnd);
    }
  }

  predicate InEntry(e: MemmapEntry, b: Block, metaStart: nat) {
    LargestFrom(b, (e.base + PAGE_SIZE - 1) / PAGE_SIZE, (e.base + e.length) / PAGE_SIZE, metaStart)
  }

  lemma NoneUsable(entries: seq<MemmapEntry>)
    ensures UsablePages(entries[..0]) == {}
  {
  }

  lemma RegionIsNew(entries: seq<MemmapEntry>, n: nat)
    requires WellFormed(entries) && n < |entries| && entries[n].usable
    ensures Region(entries[n]) !! UsablePages(entries[..n])
  {
    forall p | p in UsablePages(entries[..n])
      ensures p !in Region(entries[n])
    {
      var i :| 0 <= i < n && entries[..n][i].usable && p in Region(entries[..n][i]);
      assert entries[..n][i] == entries[i];
    }
  }

  lemma RegionBounds(e: MemmapEntry, highest: nat)
    requires e.base >= PAGE_SIZE && e.base + e.length <= highest
    ensures (e.base + e.length) / PAGE_SIZE <= highest / PAGE_SIZE
    ensures forall p :: p in Region(e) ==> 0 < p < highest / PAGE_SIZE
  {
  }

  lemma UsableBounds(entries: seq<MemmapEntry>, highest: nat)
    requires WellFormed(entries) && forall e :: e in entries ==> e.base + e.length <= highest
    ensures forall p :: p in UsablePages(entries) ==> 0 < p < highest / PAGE_SIZE
  {
    forall p | p in UsablePages(entries)
      ensures 0 < p < highest / PAGE_SIZE
    {
      var i :| 0 <= i < |entries| && entries[i].usable && p in Region(entries[i]);
      assert entries[i] in entries;
      RegionBounds(entries[i], highest);
    }
  }

  /** The metadata pages lie inside the entry that holds them. */
  lemma MetadataFits(e: MemmapEntry, size: nat)
    requires e.base % PAGE_SIZE == 0 && e.length % PAGE_SIZE == 0 && e.length >= size
    ensures var start := e.base / PAGE_SIZE;
      var end := start + (size + PAGE_SIZE - 1) / PAGE_SIZE;
      && start * PAGE_SIZE + size <= end * PAGE_SIZE
      && Span(start, end) <= Region(e)
  {
  }

  lemma RegionUsable(entries: seq<MemmapEntry>, k: nat)
    requires k < |entries| && entries[k].usable
    ensures Region(entries[k]) <= UsablePages(entries)
  {
  }

  lemma HighestUnique(entries: seq<MemmapEntry>, h: nat, h': nat)
    requires IsHighest(entries, h) && IsHighest(entries, h')
    ensures h == h'
  {
  }

  /** No USABLE entry can hold the metadata. */
  ghost predicate NoRoom(entries: seq<MemmapEntry>) {
    forall h: nat, e :: IsHighest(entries, h) && e in entries && e.usable ==> e.length < h / PAGE_SIZE * FRAME_SIZE
  }

  lemma RoomFor(entries: seq<MemmapEntry>, highest: nat, k: nat)
    requires IsHighest(entries, highest) && k <= |entries|
    requires k < |entries| ==> entries[k].usable && entries[k].length >= highest / PAGE_SIZE * FRAME_SIZE
    requires forall i :: 0 <= i < k ==> !(entries[i].usable && entries[i].length >= highest / PAGE_SIZE * FRAME_SIZE)
    ensures NoRoom(entries) <==> k == |entries|
  {
    if k == |entries| {
      forall h: nat, e | IsHighest(entries, h) && e in entries && e.usable
        ensures e.length < h / PAGE_SIZE * FRAME_SIZE
      {
        HighestUnique(entries, h, highest);
      }
    } else {
      assert entries[k] in entries;
    }
  }

  /** The finished tiling becomes the allocator's managed pages. */
  method Finish(pmm: PageAllocator, ghost pages: set<nat>)
    requires Filling(pmm, pages) && forall p :: p in pages ==> 0 < p < pmm.frames.Length
    modifies pmm`cfg
    ensures pmm.Valid() && pmm.live == map[] && pmm.cfg.usable == pages && FreePages(pmm.Abs()) == pages
    ensures OnlyHeads(pmm.cfg, pmm.pool.lists)
  {
    pmm.cfg := pmm.cfg.(usable := pages);
    assert LiveBlocks(pmm.live) == {};
    FreeIsRest(pmm.pool.lists, {}, pages);
    assert Covered({}) == {};
  }

  /** Initialise the frames and list every USABLE entry's pages outside the metadata. */
  method Fill(entries: seq<MemmapEntry>, highest: nat, metaStart: nat, metaEnd: nat) returns (pmm: PageAllocator)
    requires WellFormed(entries) && metaStart <= metaEnd
    requires forall e :: e in entries ==> e.base + e.length <= highest
    ensures fresh(pmm) && pmm.frames.Length == highest / PAGE_SIZE
    ensures Filling(pmm, UsablePages(entries) - Span(metaStart, metaEnd))
    ensures AllLargest(entries, FreeBlocks(pmm.pool.lists), metaStart)
  {
    hide Filling, UsablePages, FreeBlocks, LargestFrom;
    pmm := new PageAllocator(highest / PAGE_SIZE);
    ghost var meta := Span(metaStart, metaEnd);
    EmptyFilling(pmm);
    NoBlocks(pmm.pool.lists);
    NoneUsable(entries);
    assert UsablePages(entries[..0]) - meta == {};
    var i := 0;
    while i < |entries|
      invariant 0 <= i <= |entries| && fresh(pmm) && fresh(pmm.frames) && fresh(pmm.pool)
      invariant fresh(pmm.pool.heads) && fresh(pmm.pool.next) && fresh(pmm.pool.prev)
      invariant Filling(pmm, UsablePages(entries[..i]) - meta)
      invariant AllLargest(entries, FreeBlocks(pmm.pool.lists), metaStart)
    {
      var e := entries[i];
      ghost var done := UsablePages(entries[..i]);
      UsableNext(entries, i);
      if e.usable {
        assert e in entries;
        RegionIsNew(entries, i);
        RegionBounds(e, highest);
        ghost var before := FreeBlocks(pmm.pool.lists);
        AddRegion(pmm, (e.base + PAGE_SIZE - 1) / PAGE_SIZE, (e.base + e.length) / PAGE_SIZE, metaStart, metaEnd,
                  done - meta);
        assert forall b :: b in FreeBlocks(pmm.pool.lists) && b !in before ==> InEntry(e, b, metaStart);
        assert done - meta + (Region(e) - meta) == (done + Region(e)) - meta;
      } else {
        assert done + {} == done;
      }
      i := i + 1;
    }
    assert entries[..i] == entries;
  }

  /** Where the metadata of this many frames goes: to the start of the first USABLE entry
      that holds it, on as many pages as it needs. */
  ghost predicate MetadataAt(entries: seq<MemmapEntry>, frames: nat, metaStart: nat, metaEnd: nat) {
    && metaStart <= metaEnd
    && frames * FRAME_SIZE <= (metaEnd - metaStart) * PAGE_SIZE < frames * FRAME_SIZE + PAGE_SIZE
    && exists k :: 0 <= k < |entries| && entries[k].usable && entries[k].length >= frames * FRAME_SIZE
         && entries[k].base == metaStart * PAGE_SIZE
         && forall i :: 0 <= i < k ==> !(entries[i].usable && entries[i].length >= frames * FRAME_SIZE)
  }

  lemma FewestPages(e: MemmapEntry, size: nat)
    requires e.base % PAGE_SIZE == 0
    ensures var n := (size + PAGE_SIZE - 1) / PAGE_SIZE;
      size <= n * PAGE_SIZE < size + PAGE_SIZE && e.base / PAGE_SIZE * PAGE_SIZE == e.base
  {
  }

  /** pmm_init; None stands for the panic when no entry can hold the metadata. There is a
      frame for every page up to the highest address, and the free pages are exactly those
      that lie wholly in a USABLE entry and not in the metadata. They are listed in blocks
      that could not have been larger, and only block heads lose PAGE_RESERVED. */
  method Init(entries: seq<MemmapEntry>) returns (result: Option<PageAllocator>, metaStart: nat, metaEnd: nat)
    requires WellFormed(entries)
    ensures result.Some? ==>
      var pmm := result.value;
      && pmm.Valid() && fresh(pmm) && pmm.live == map[]
      && (forall h: nat :: IsHighest(entries, h) ==> pmm.frames.Length == h / PAGE_SIZE)
      && MetadataAt(entries, pmm.frames.Length, metaStart, metaEnd)
      && (forall p :: metaStart <= p < metaEnd ==> Whole(entries, p))
      && pmm.cfg.usable == FreePages(pmm.Abs())
      && (forall p: nat :: p in FreePages(pmm.Abs()) <==> Whole(entries, p) && !(metaStart <= p < metaEnd))
      && OnlyHeads(pmm.cfg, pmm.pool.lists)
      && (forall b :: b in FreeBlocks(pmm.pool.lists) ==> Maximal(entries, b, metaStart, metaEnd))
    ensures result.None? <==> NoRoom(entries)
  {
    hide Filling, UsablePages, Region, Span, FreePages, FreeBlocks, AllLargest, OnlyHeads, NoRoom, PageAllocator.Valid,
         Whole, Maximal, IsHighest;
    metaStart, metaEnd := 0, 0;
    var highest := HighestAddress(entries);
    var total := highest / PAGE_SIZE;
    var size := total * FRAME_SIZE;
    var k := PlaceMetadata(entries, size);
    RoomFor(entries, highest, k);
    if k == |entries| {
      result := None;
      return;
    }
    metaStart := entries[k].base / PAGE_SIZE;
    metaEnd := metaStart + (size + PAGE_SIZE - 1) / PAGE_SIZE;
    HighestBounds(entries, highest);
    var pmm := Fill(entries, highest, metaStart, metaEnd);
    UsableBounds(entries, highest);
    Finish(pmm, UsablePages(entries) - Span(metaStart, metaEnd));
    assert entries[k] in entries;
    MetadataFits(entries[k], size);
    RegionUsable(entries, k);
    FewestPages(entries[k], size);
    FreeExactly(entries, FreePages(pmm.Abs()), metaStart, metaEnd);
    forall h: nat | IsHighest(entries, h)
      ensures h == highest
    {
      HighestUnique(entries, h, highest);
    }
    BlocksMaximal(entries, pmm.pool.lists, metaStart, metaEnd, highest);
    result := Some(pmm);
  }

  lemma HighestBounds(entries: seq<MemmapEntry>, h: nat)
    requires IsHighest(entries, h)
    ensures forall e :: e in entries ==> e.base + e.length <= h
  {
  }

  lemma FreeExactly(entries: seq<MemmapEntry>, free: set<nat>, metaStart: nat, metaEnd: nat)
    requires free == UsablePages(entries) - Span(metaStart, metaEnd) && Span(metaStart, metaEnd) <= UsablePages(entries)
    ensures forall p: nat :: p in free <==> Whole(entries, p) && !(metaStart <= p < metaEnd)
    ensures forall p :: metaStart <= p < metaEnd ==> Whole(entries, p)
  {
    hide UsablePages, Whole;
    forall p: nat
      ensures p in UsablePages(entries) <==> Whole(entries, p)
      ensures p in Span(metaStart, metaEnd) <==> metaStart <= p < metaEnd
    {
      UsableIs(entries, p);
    }
  }

  lemma BlocksMaximal(entries: seq<MemmapEntry>, lists: seq<seq<nat>>, metaStart: nat, metaEnd: nat, highest: nat)
    requires AllLargest(entries, FreeBlocks(lists), metaStart) && metaStart <= metaEnd && WellFormed(entries)
    requires forall e :: e in entries ==> e.base + e.length <= highest
    requires highest / PAGE_SIZE > 0 ==> metaStart < metaEnd
    ensures forall b :: b in FreeBlocks(lists) ==> Maximal(entries, b, metaStart, metaEnd)
  {
    hide FreeBlocks, Doubles, Region;
    forall b | b in FreeBlocks(lists)
      ensures Maximal(entries, b, metaStart, metaEnd)
    {
      var e :| e in entries && e.usable && InEntry(e, b, metaStart);
      assert 0 < (e.base + e.length) / PAGE_SIZE <= highest / PAGE_SIZE;
      CannotDouble(e, b, metaStart, metaEnd);
    }
  }
}
