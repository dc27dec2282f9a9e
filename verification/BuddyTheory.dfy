/** What every run of the buddy allocator keeps, and what each call does to the
    plain set of free pages. */
module BuddyTheory {
  import opened Bits
  import opened Lists
  import opened Buddy

  /** All blocks, free, live, or in hand. */
  ghost predicate Sound(lists: seq<seq<nat>>, others: set<Block>, pages: set<nat>) {
    && |lists| == MAX_ORDER + 1
    && (forall k :: 0 <= k < |lists| ==> NoDup(lists[k]))
    && FreeBlocks(lists) !! others
    && Tiling(FreeBlocks(lists) + others, pages)
  }

  ghost predicate Inv(cfg: Config, s: State) {
    && Sound(s.lists, LiveBlocks(s.live), cfg.usable)
    && (forall x :: x in s.live ==> s.live[x] <= MAX_ORDER)
    && 0 !in cfg.usable
    && (forall p :: p in cfg.usable ==> p < cfg.total)
  }

  /** Taking the block (x, k) off its list puts it in hand. */
  lemma TakeSound(lists: seq<seq<nat>>, k: nat, x: nat, others: set<Block>, pages: set<nat>)
    requires Sound(lists, others, pages) && k < |lists| && x in lists[k]
    ensures Block(x, k) !in others
    ensures Sound(lists[k := Without(lists[k], x)], others + {Block(x, k)}, pages)
  {
    FreeBlocksRemove(lists, k, x);
    assert Block(x, k) in FreeBlocks(lists);
    assert FreeBlocks(lists[k := Without(lists[k], x)]) + (others + {Block(x, k)}) == FreeBlocks(lists) + others;
  }

  /** Listing a block that is in hand. */
  lemma ListSound(lists: seq<seq<nat>>, k: nat, x: nat, others: set<Block>, pages: set<nat>)
    requires Sound(lists, others + {Block(x, k)}, pages) && k < |lists| && Block(x, k) !in others
    ensures Sound(lists[k := [x] + lists[k]], others, pages)
  {
    FreeBlocksPush(lists, k, x);
    assert Block(x, k) in others + {Block(x, k)};
    assert x in lists[k] ==> Block(x, k) in FreeBlocks(lists);
    assert FreeBlocks(lists[k := [x] + lists[k]]) + others == FreeBlocks(lists) + (others + {Block(x, k)});
  }

  /** A block in hand starts where no listed block and no other block in hand starts. */
  lemma InHandUnlisted(lists: seq<seq<nat>>, others: set<Block>, pages: set<nat>, b: Block)
    requires Sound(lists, others + {b}, pages)
    ensures forall j :: 0 <= j < |lists| ==> b.pfn !in lists[j]
    ensures forall c :: c in others && c != b ==> c.pfn != b.pfn
    ensures b.pfn in pages
  {
    assert b in others + {b};
    forall j, x | 0 <= j < |lists| && x in lists[j]
      ensures x != b.pfn
    {
      assert Block(x, j) in FreeBlocks(lists);
      ApartHeads(Block(x, j), b);
    }
    forall c | c in others && c != b
      ensures c.pfn != b.pfn
    {
      ApartHeads(c, b);
    }
    assert b.pfn in Pages(b);
    assert b in FreeBlocks(lists) + (others + {b});
  }

  lemma NotLiveHead(live: map<nat, nat>, p: nat)
    requires forall c :: c in LiveBlocks(live) ==> c.pfn != p
    ensures p !in live
  {
    assert p in live ==> Block(p, live[p]) in LiveBlocks(live);
  }

  /** Splitting the block in hand leaves its halves in hand. */
  lemma SplitHand(lists: seq<seq<nat>>, b: Block, others: set<Block>, pages: set<nat>)
    requires 0 < b.order <= MAX_ORDER && b !in others
    requires Sound(lists, others + {b}, pages)
    ensures BuddyOf(b.pfn, b.order - 1) == Upper(b).pfn
    ensures Lower(b) !in others && Upper(b) !in others && Lower(b) != Upper(b)
    ensures Sound(lists, others + {Lower(b)} + {Upper(b)}, pages)
  {
    var all := FreeBlocks(lists) + others;
    assert b in others + {b};
    assert FreeBlocks(lists) + (others + {b}) == all + {b};
    AlignedWeaken(b.pfn, b.order - 1);
    FlipBit(b.pfn, b.order - 1);
    SplitTiling(all, b, pages);
    assert all + {Lower(b)} + {Upper(b)} == FreeBlocks(lists) + (others + {Lower(b)} + {Upper(b)});
  }

  /** One turn of the split loop. */
  lemma SplitSound(lists: seq<seq<nat>>, p: nat, o: nat, others: set<Block>, pages: set<nat>)
    requires 0 < o <= MAX_ORDER && Block(p, o) !in others
    requires Sound(lists, others + {Block(p, o)}, pages)
    ensures BuddyOf(p, o - 1) == p + Pow2(o - 1)
    ensures Block(p, o - 1) !in others
    ensures BuddyOf(p, o - 1) in pages && forall j :: 0 <= j < |lists| ==> BuddyOf(p, o - 1) !in lists[j]
    ensures forall c :: c in others ==> c.pfn != BuddyOf(p, o - 1)
    ensures Sound(lists[o - 1 := [BuddyOf(p, o - 1)] + lists[o - 1]], others + {Block(p, o - 1)}, pages)
  {
    hide Sound;
    var b := Block(p, o);
    SplitHand(lists, b, others, pages);
    InHandUnlisted(lists, others + {Lower(b)}, pages, Upper(b));
    ListSound(lists, o - 1, Upper(b).pfn, others + {Lower(b)}, pages);
  }

  lemma {:induction false} SplitDownSound(lists: seq<seq<nat>>, p: nat, o: nat, t: nat, others: set<Block>,
                                          pages: set<nat>)
    requires t <= o <= MAX_ORDER && Block(p, o) !in others
    requires Sound(lists, others + {Block(p, o)}, pages)
    ensures Block(p, t) !in others
    ensures Sound(SplitDown(lists, p, o, t), others + {Block(p, t)}, pages)
    ensures Count(SplitDown(lists, p, o, t)) == Count(lists) + Pow2(o) - Pow2(t)
    decreases o
  {
    hide Sound, BuddyOf, CountFrom;
    SoundSize(lists, others + {Block(p, o)}, pages);
    if o > t {
      SplitSound(lists, p, o, others, pages);
      CountPush(lists, o - 1, BuddyOf(p, o - 1));
      SplitDownSound(lists[o - 1 := [BuddyOf(p, o - 1)] + lists[o - 1]], p, o - 1, t, others, pages);
    }
  }

  /** A block and its buddy are the halves of the block that encloses them. */
  lemma BuddiesAreHalves(p: nat, order: nat)
    requires Aligned(p, order)
    ensures var b := BuddyOf(p, order);
      var big := Block(if b < p then b else p, order + 1);
      && Aligned(big.pfn, big.order)
      && {Lower(big), Upper(big)} == {Block(p, order), Block(b, order)}
      && Pages(big) == Pages(Block(p, order)) + Pages(Block(b, order))
  {
    hide Pages;
    FlipBit(p, order);
    if !Aligned(p, order + 1) {
      ClearBit(p, order);
    }
    var b := BuddyOf(p, order);
    Halves(Block(if b < p then b else p, order + 1));
  }

  /** A block in hand is aligned. */
  lemma InHandAligned(lists: seq<seq<nat>>, others: set<Block>, pages: set<nat>, b: Block)
    requires Sound(lists, others + {b}, pages)
    ensures Aligned(b.pfn, b.order)
  {
    assert b in others + {b};
  }

  /** One turn of the merge loop. */
  lemma MergeSound(cfg: Config, lists: seq<seq<nat>>, p: nat, order: nat, others: set<Block>, pages: set<nat>)
    requires order < MAX_ORDER && Block(p, order) !in others
    requires Sound(lists, others + {Block(p, order)}, pages) && Mergeable(cfg, lists, p, order)
    ensures var b := BuddyOf(p, order);
      var m := if b < p then b else p;
      && Pages(Block(m, order + 1)) == Pages(Block(p, order)) + Pages(Block(b, order))
      && Block(m, order + 1) !in others
      && Sound(lists[order := Without(lists[order], b)], others + {Block(m, order + 1)}, pages)
  {
    hide Tiling, Pages, Pow2, Aligned, BuddyOf, Without;
    var b := BuddyOf(p, order);
    var lists' := lists[order := Without(lists[order], b)];
    InHandAligned(lists, others, pages, Block(p, order));
    TakeSound(lists, order, b, others + {Block(p, order)}, pages);
    BuddiesAreHalves(p, order);
    var big := Block(if b < p then b else p, order + 1);
    var all := FreeBlocks(lists') + others;
    var halves := {Lower(big), Upper(big)};
    assert FreeBlocks(lists') + (others + {Block(p, order)} + {Block(b, order)}) == all + halves
        == all + {Lower(big)} + {Upper(big)};
    FreeBlocksRemove(lists, order, b);
    HandsDiffer(all, halves, Block(p, order), Block(b, order));
    MergeTiling(all, big, pages);
    assert all + {big} == FreeBlocks(lists') + (others + {big});
  }

  lemma HandsDiffer(all: set<Block>, halves: set<Block>, x: Block, y: Block)
    requires halves == {x, y} && x !in all && y !in all
    ensures halves !! all
  {
  }

  // ---------------------------------------------------------------------------
  // Allocation

  /** t is the least order whose blocks hold `count` pages. */
  ghost predicate LeastOrder(count: nat, t: nat) {
    Pow2(t) >= count && forall j :: 0 <= j < t ==> Pow2(j) < count
  }

  lemma OrderForLeast(count: nat)
    ensures LeastOrder(count, OrderFor(count, 0))
    ensures OrderFor(count, 0) > MAX_ORDER <==> count > Pow2(MAX_ORDER)
  {
    var t := OrderFor(count, 0);
    forall j | 0 <= j < t
      ensures Pow2(j) < count
    {
      Pow2Monotone(j, t - 1);
    }
    if t <= MAX_ORDER {
      Pow2Monotone(t, MAX_ORDER);
    }
  }

  lemma BuddyIsUpper(p: nat, order: nat)
    requires Aligned(p, order + 1)
    ensures Aligned(p, order) && BuddyOf(p, order) == p + Pow2(order)
  {
    AlignedWeaken(p, order);
    FlipBit(p, order);
  }

  /** The lists after splitting, order by order: each order from t below o gains
      one upper half in front, and no other list changes. */
  lemma {:induction false} SplitDownAt(lists: seq<seq<nat>>, p: nat, o: nat, t: nat, k: nat)
    requires t <= o <= |lists| && k < |lists| && Aligned(p, o)
    ensures |SplitDown(lists, p, o, t)| == |lists|
    ensures SplitDown(lists, p, o, t)[k] == if t <= k < o then [p + Pow2(k)] + lists[k] else lists[k]
    decreases o
  {
    hide Aligned, BuddyOf, Pow2;
    if o > t {
      BuddyIsUpper(p, o - 1);
      SplitDownAt(lists[o - 1 := [BuddyOf(p, o - 1)] + lists[o - 1]], p, o - 1, t, k);
    }
  }

  lemma LiveBlocksAdd(live: map<nat, nat>, p: nat, t: nat)
    requires p !in live
    ensures LiveBlocks(live[p := t]) == LiveBlocks(live) + {Block(p, t)}
  {
    var after := live[p := t];
    assert forall x :: x in live ==> x in after && after[x] == live[x];
    assert p in after;
  }

  /** A sound state's free pages are what the tiling leaves over. */
  lemma FreeIsRest(lists: seq<seq<nat>>, others: set<Block>, pages: set<nat>)
    requires Sound(lists, others, pages)
    ensures Covered(FreeBlocks(lists)) == pages - Covered(others)
    ensures Covered(others) <= pages
  {
    CoveredUnion(FreeBlocks(lists), others);
    forall p | p in Covered(FreeBlocks(lists))
      ensures p !in Covered(others)
    {
      var b :| b in FreeBlocks(lists) && p in Pages(b);
      forall c | c in others
        ensures p !in Pages(c)
      {
        ApartHeads(b, c);
      }
    }
  }

  /** No two blocks of a sound state start at the same page. */
  lemma HeadsDiffer(lists: seq<seq<nat>>, others: set<Block>, pages: set<nat>, b: Block, c: Block)
    requires Sound(lists, others, pages) && b in FreeBlocks(lists) + others && c in FreeBlocks(lists) + others && b != c
    ensures b.pfn != c.pfn && Pages(b) !! Pages(c)
  {
    ApartHeads(b, c);
  }

  lemma HeadIsCovered(blocks: set<Block>, b: Block)
    requires b in blocks
    ensures b.pfn in Covered(blocks) && Pages(b) <= Covered(blocks)
  {
    assert b.pfn in Pages(b);
  }

  /** The exact failure condition: nothing was asked for, more than the largest
      block was asked for, or no listed block is large enough. */
  ghost predicate NoFit(s: State, count: nat) {
    count == 0 || count > Pow2(MAX_ORDER) || forall b :: b in FreeBlocks(s.lists) ==> Pow2(b.order) < count
  }

  lemma AllocFails(s: State, count: nat)
    requires |s.lists| == MAX_ORDER + 1
    ensures Alloc(s, count).1.None? <==> NoFit(s, count)
    ensures Alloc(s, count).1.None? ==> Alloc(s, count).0 == s
  {
    OrderForLeast(count);
    var t := OrderFor(count, 0);
    if count != 0 && t <= MAX_ORDER {
      var o := FirstFit(s.lists, t);
      if o <= MAX_ORDER {
        var p := s.lists[o][0];
        assert Block(p, o) in FreeBlocks(s.lists);
        Pow2Monotone(t, o);
      } else {
        forall b | b in FreeBlocks(s.lists)
          ensures Pow2(b.order) < count
        {
          assert s.lists[b.order] != [];
          assert b.order < t;
        }
      }
    }
  }

  /** What a successful allocation of a block (p, t) means for the page sets. */
  ghost predicate Allocated(s: State, s': State, p: nat, t: nat) {
    && Aligned(p, t)
    && p != 0
    && Pages(Block(p, t)) <= FreePages(s)
    && FreePages(s') == FreePages(s) - Pages(Block(p, t))
    && p !in s.live && s'.live == s.live[p := t]
    && Count(s'.lists) == Count(s.lists) - Pow2(t)
  }

  lemma AllocEffect(cfg: Config, s: State, count: nat)
    requires Inv(cfg, s) && Alloc(s, count).1.Some?
    ensures var t := OrderFor(count, 0);
      var p := Alloc(s, count).1.value;
      && LeastOrder(count, t)
      && Allocated(s, Alloc(s, count).0, p, t)
      && Inv(cfg, Alloc(s, count).0)
  {
    OrderForLeast(count);
    var t := OrderFor(count, 0);
    var o := FirstFit(s.lists, t);
    var p := s.lists[o][0];
    var live := LiveBlocks(s.live);
    assert Without(s.lists[o], p) == s.lists[o][1..];
    var lists1 := s.lists[o := s.lists[o][1..]];
    var s' := Alloc(s, count).0;
    TakeSound(s.lists, o, p, live, cfg.usable);
    CountRemove(s.lists, o, p);
    SplitDownSound(lists1, p, o, t, live, cfg.usable);
    assert Block(p, o) in FreeBlocks(s.lists);
    assert p !in s.live by {
      if p in s.live {
        HeadsDiffer(s.lists, live, cfg.usable, Block(p, o), Block(p, s.live[p]));
      }
    }
    LiveBlocksAdd(s.live, p, t);
    AllocPages(cfg, s, s', p, t);
  }

  /** Allocation as a client sees it. */
  lemma AllocView(cfg: Config, s: State, count: nat)
    requires Inv(cfg, s)
    ensures var (s', r) := Alloc(s, count);
      && (r.None? <==> NoFit(s, count))
      && (r.None? ==> s' == s)
      && (r.Some? ==> LeastOrder(count, OrderFor(count, 0)) && Allocated(s, s', r.value, OrderFor(count, 0)))
  {
    AllocFails(s, count);
    if Alloc(s, count).1.Some? {
      AllocEffect(cfg, s, count);
    }
  }

  /** Which block it is and what is left of it: the first of the smallest listed blocks that
      hold the pages; of one larger than needed each upper half goes in front of the list of
      its order, and nothing else moves. */
  ghost predicate TakenFrom(s: State, s': State, p: nat, t: nat, o: nat) {
    && t <= o <= MAX_ORDER && |s.lists| == |s'.lists| == MAX_ORDER + 1
    && s.lists[o] == [p] + s'.lists[o] && (forall k :: t <= k < o ==> s.lists[k] == [])
    && (forall k :: t <= k < o ==> s'.lists[k] == [p + Pow2(k)])
    && (forall k :: 0 <= k <= MAX_ORDER && !(t <= k <= o) ==> s'.lists[k] == s.lists[k])
  }

  lemma AllocExactly(cfg: Config, s: State, count: nat)
    requires Inv(cfg, s) && Alloc(s, count).1.Some?
    ensures var (s', r) := Alloc(s, count);
      exists t, o: nat :: LeastOrder(count, t) && TakenFrom(s, s', r.value, t, o)
  {
    hide SplitDown, Pow2;
    OrderForLeast(count);
    var (s', r) := Alloc(s, count);
    var t, p := OrderFor(count, 0), r.value;
    var o := FirstFit(s.lists, t);
    TakenBlock(cfg, s, o);
    var rest := s.lists[o := s.lists[o][1..]];
    forall k | 0 <= k <= MAX_ORDER
      ensures s'.lists[k] == if t <= k < o then [p + Pow2(k)] + rest[k] else rest[k]
    {
      SplitDownAt(rest, p, o, t, k);
    }
    assert TakenFrom(s, s', p, t, o);
  }

  /** The page sets follow from the tilings before and after. */
  lemma AllocPages(cfg: Config, s: State, s': State, p: nat, t: nat)
    requires Inv(cfg, s) && p !in s.live && s'.live == s.live[p := t]
    requires Sound(s'.lists, LiveBlocks(s.live) + {Block(p, t)}, cfg.usable) && Block(p, t) !in LiveBlocks(s.live)
    ensures Aligned(p, t) && p != 0
    ensures Pages(Block(p, t)) <= FreePages(s)
    ensures FreePages(s') == FreePages(s) - Pages(Block(p, t))
  {
    var live, b := LiveBlocks(s.live), Block(p, t);
    FreeIsRest(s.lists, live, cfg.usable);
    FreeIsRest(s'.lists, live + {b}, cfg.usable);
    CoveredAdd(live, b);
    HeadIsCovered(live + {b}, b);
    forall x | x in Pages(b)
      ensures x !in Covered(live)
    {
      forall c | c in live
        ensures x !in Pages(c)
      {
        HeadsDiffer(s'.lists, live + {b}, cfg.usable, b, c);
      }
    }
  }

  // ---------------------------------------------------------------------------
  // Deallocation

  /** Absorbing one more buddy adds its pages. */
  lemma AbsorbPages(lists: seq<seq<nat>>, order: nat, b: nat, rest: set<Block>)
    requires order < |lists| && NoDup(lists[order]) && b in lists[order]
    requires rest <= FreeBlocks(lists[order := Without(lists[order], b)])
    ensures rest <= FreeBlocks(lists)
    ensures Covered(FreeBlocks(lists) - rest)
         == Covered(FreeBlocks(lists[order := Without(lists[order], b)]) - rest) + Pages(Block(b, order))
  {
    FreeBlocksRemove(lists, order, b);
    var gone := FreeBlocks(lists[order := Without(lists[order], b)]) - rest;
    assert FreeBlocks(lists) - rest == gone + {Block(b, order)};
    CoveredAdd(gone, Block(b, order));
  }

  /** What a finished merge leaves: the merged block in hand and the other lists intact. */
  ghost predicate Merged(lists: seq<seq<nat>>, p: nat, order: nat, lists': seq<seq<nat>>, b: Block, others: set<Block>,
                         pages: set<nat>) {
    && b !in others && Sound(lists', others + {b}, pages)
    && FreeBlocks(lists') <= FreeBlocks(lists)
    && Pages(b) == Pages(Block(p, order)) + Covered(FreeBlocks(lists) - FreeBlocks(lists'))
    && Count(lists') == Count(lists) + Pow2(order) - Pow2(b.order)
  }

  lemma MergedStep(cfg: Config, lists: seq<seq<nat>>, p: nat, order: nat, lists': seq<seq<nat>>, top: Block,
                   others: set<Block>, pages: set<nat>)
    requires order < MAX_ORDER && Block(p, order) !in others
    requires Sound(lists, others + {Block(p, order)}, pages) && Mergeable(cfg, lists, p, order)
    requires var b := BuddyOf(p, order);
      Merged(lists[order := Without(lists[order], b)], if b < p then b else p, order + 1, lists', top, others, pages)
    ensures Merged(lists, p, order, lists', top, others, pages)
  {
    assert NoDup(lists[order]);
    hide Sound, Pages, BuddyOf, FreeBlocks, Covered, CountFrom;
    var b := BuddyOf(p, order);
    MergeSound(cfg, lists, p, order, others, pages);
    CountRemove(lists, order, b);
    AbsorbPages(lists, order, b, FreeBlocks(lists'));
  }

  lemma {:induction false} MergeUpSound(cfg: Config, lists: seq<seq<nat>>, p: nat, order: nat, others: set<Block>,
                                        pages: set<nat>)
    requires order <= MAX_ORDER && Block(p, order) !in others
    requires Sound(lists, others + {Block(p, order)}, pages)
    ensures Merged(lists, p, order, MergeUp(cfg, lists, p, order).0, MergeUp(cfg, lists, p, order).1, others, pages)
    decreases MAX_ORDER - order
  {
    hide Merged, Sound, BuddyOf, MergeUp, Without;
    SoundSize(lists, others + {Block(p, order)}, pages);
    MergeUpStep(cfg, lists, p, order);
    if order < MAX_ORDER && Mergeable(cfg, lists, p, order) {
      var b := BuddyOf(p, order);
      MergeSound(cfg, lists, p, order, others, pages);
      MergeUpSound(cfg, lists[order := Without(lists[order], b)], if b < p then b else p, order + 1, others, pages);
      var (lists', top) := MergeUp(cfg, lists, p, order);
      MergedStep(cfg, lists, p, order, lists', top, others, pages);
    } else {
      MergedNone(lists, p, order, others, pages);
    }
  }

  lemma SoundSize(lists: seq<seq<nat>>, others: set<Block>, pages: set<nat>)
    requires Sound(lists, others, pages)
    ensures |lists| == MAX_ORDER + 1
  {
  }

  lemma MergedNone(lists: seq<seq<nat>>, p: nat, order: nat, others: set<Block>, pages: set<nat>)
    requires Block(p, order) !in others && Sound(lists, others + {Block(p, order)}, pages)
    ensures Merged(lists, p, order, lists, Block(p, order), others, pages)
  {
    NothingCovered(FreeBlocks(lists));
  }

  lemma NothingCovered(blocks: set<Block>)
    ensures Covered(blocks - blocks) == {}
  {
    assert blocks - blocks == {};
  }

  /** The merge loop in closed form: it climbs exactly while the buddy of the
      enclosing block is listed and not reserved; each list it passes loses that
      buddy and no other list changes. */
  ghost predicate Chain(cfg: Config, lists: seq<seq<nat>>, p: nat, order: nat, lists': seq<seq<nat>>, b: Block)
    requires order <= b.order <= MAX_ORDER && |lists| == |lists'| == MAX_ORDER + 1
  {
    && b.pfn == RoundDown(p, b.order)
    && (forall k :: order <= k < b.order ==> Mergeable(cfg, lists, RoundDown(p, k), k))
    && (b.order == MAX_ORDER || !Mergeable(cfg, lists, b.pfn, b.order))
    && (forall k :: order <= k < b.order ==> lists'[k] == Without(lists[k], BuddyOf(RoundDown(p, k), k)))
    && (forall k :: 0 <= k < |lists| && !(order <= k < b.order) ==> lists'[k] == lists[k])
  }

  lemma MergedStart(p: nat, order: nat)
    requires Aligned(p, order)
    ensures var b := BuddyOf(p, order);
      var m := if b < p then b else p;
      Aligned(m, order + 1) && forall j :: j > order ==> RoundDown(m, j) == RoundDown(p, j)
  {
    FlipBit(p, order);
    if !Aligned(p, order + 1) {
      ClearBit(p, order);
      forall j | j > order
        ensures RoundDown(p - Pow2(order), j) == RoundDown(p, j)
      {
        RoundDownBuddy(p, order, j);
      }
    }
  }

  lemma {:induction false} MergeUpChain(cfg: Config, lists: seq<seq<nat>>, p: nat, order: nat)
    requires order <= MAX_ORDER && |lists| == MAX_ORDER + 1 && Aligned(p, order)
    ensures Chain(cfg, lists, p, order, MergeUp(cfg, lists, p, order).0, MergeUp(cfg, lists, p, order).1)
    decreases MAX_ORDER - order
  {
    hide MergeUp, Without, BuddyOf;
    assert RoundDown(p, order) == p;
    MergeUpStep(cfg, lists, p, order);
    if order < MAX_ORDER && Mergeable(cfg, lists, p, order) {
      var b := BuddyOf(p, order);
      var m := if b < p then b else p;
      MergedStart(p, order);
      var lists1 := lists[order := Without(lists[order], b)];
      MergeUpChain(cfg, lists1, m, order + 1);
      var (lists', top) := MergeUp(cfg, lists, p, order);
      forall k | order <= k < top.order
        ensures Mergeable(cfg, lists, RoundDown(p, k), k)
        ensures lists'[k] == Without(lists[k], BuddyOf(RoundDown(p, k), k))
      {
        if k > order {
          assert Mergeable(cfg, lists1, RoundDown(m, k), k);
        }
      }
    }
  }

  lemma LiveBlocksRemove(live: map<nat, nat>, p: nat)
    requires p in live
    ensures LiveBlocks(live) == LiveBlocks(live - {p}) + {Block(p, live[p])}
    ensures Block(p, live[p]) !in LiveBlocks(live - {p})
  {
    var after := live - {p};
    assert forall x :: x in after ==> x in live && after[x] == live[x];
    assert forall x :: x in live && x != p ==> x in after;
  }

  /** Taking a live block in hand. */
  lemma BlockInHand(cfg: Config, s: State, p: nat)
    requires Inv(cfg, s) && p in s.live
    ensures s.live[p] <= MAX_ORDER && Block(p, s.live[p]) !in LiveBlocks(s.live - {p})
    ensures Sound(s.lists, LiveBlocks(s.live - {p}) + {Block(p, s.live[p])}, cfg.usable)
    ensures forall x :: x in cfg.usable ==> x < cfg.total
  {
    LiveBlocksRemove(s.live, p);
  }

  /** Freeing gives back exactly the pages of the freed block, however far it merges. */
  lemma FreeEffect(cfg: Config, s: State, p: nat)
    requires Inv(cfg, s) && p in s.live
    ensures var s' := Free(cfg, s, p);
      && Inv(cfg, s')
      && s'.live == s.live - {p}
      && Pages(Block(p, s.live[p])) !! FreePages(s)
      && FreePages(s') == FreePages(s) + Pages(Block(p, s.live[p]))
      && Count(s'.lists) == Count(s.lists) + Pow2(s.live[p])
  {
    var s', t := Free(cfg, s, p), s.live[p];
    var rest := LiveBlocks(s.live - {p});
    LiveBlocksRemove(s.live, p);
    MergeUpSound(cfg, s.lists, p, t, rest, cfg.usable);
    var (lists, b) := MergeUp(cfg, s.lists, p, t);
    ListSound(lists, b.order, b.pfn, rest, cfg.usable);
    CountPush(lists, b.order, b.pfn);
    FreeIsRest(s.lists, rest + {Block(p, t)}, cfg.usable);
    FreeIsRest(s'.lists, rest, cfg.usable);
    CoveredAdd(rest, Block(p, t));
    forall x | x in Pages(Block(p, t))
      ensures x !in Covered(rest)
    {
      forall c | c in rest
        ensures x !in Pages(c)
      {
        HeadsDiffer(s.lists, rest + {Block(p, t)}, cfg.usable, Block(p, t), c);
      }
    }
  }

  /** Which block a free lists: one aligned block at the front of its list, made of
      the freed pages and of every absorbed buddy's pages, found by the chain. */
  lemma FreeListsOne(cfg: Config, s: State, p: nat)
    requires Inv(cfg, s) && p in s.live
    ensures var (lists, b) := MergeUp(cfg, s.lists, p, s.live[p]);
      && Free(cfg, s, p).lists == lists[b.order := [b.pfn] + lists[b.order]]
      && Aligned(b.pfn, b.order)
      && Chain(cfg, s.lists, p, s.live[p], lists, b)
      && Pages(b) == Pages(Block(p, s.live[p])) + Covered(FreeBlocks(s.lists) - FreeBlocks(lists))
  {
    LiveBlocksRemove(s.live, p);
    var rest := LiveBlocks(s.live - {p});
    MergeUpSound(cfg, s.lists, p, s.live[p], rest, cfg.usable);
    var b := MergeUp(cfg, s.lists, p, s.live[p]).1;
    assert b in rest + {b};
    assert Block(p, s.live[p]) in FreeBlocks(s.lists) + LiveBlocks(s.live);
    MergeUpChain(cfg, s.lists, p, s.live[p]);
  }

  // ---------------------------------------------------------------------------
  // The counter is the number of free pages

  lemma {:induction false} RangeSize(b: Block)
    ensures |Pages(b)| == Pow2(b.order)
    decreases b.order
  {
    if b.order == 0 {
      assert Pages(b) == {b.pfn};
    } else {
      Halves(b);
      RangeSize(Lower(b));
      RangeSize(Upper(b));
      ApartHeads(Lower(b), Upper(b));
    }
  }

  lemma {:induction false} CountZero(lists: seq<seq<nat>>, from: nat)
    requires from <= |lists|
    ensures CountFrom(lists, from) == 0 <==> forall k :: from <= k < |lists| ==> lists[k] == []
    decreases |lists| - from
  {
    if from < |lists| {
      CountZero(lists, from + 1);
      if lists[from] != [] {
        MulAtLeast(|lists[from]|, Pow2(from));
      }
    }
  }

  lemma {:induction false} CountIsSize(lists: seq<seq<nat>>, others: set<Block>, pages: set<nat>)
    requires Sound(lists, others, pages)
    ensures Count(lists) == |Covered(FreeBlocks(lists))|
    decreases Count(lists)
  {
    CountZero(lists, 0);
    if Count(lists) == 0 {
      assert FreeBlocks(lists) == {};
      assert Covered(FreeBlocks(lists)) == {};
    } else {
      var k :| 0 <= k < |lists| && lists[k] != [];
      var x := lists[k][0];
      var b, rest := Block(x, k), lists[k := Without(lists[k], x)];
      TakeSound(lists, k, x, others, pages);
      CountRemove(lists, k, x);
      CountIsSize(rest, others + {b}, pages);
      FreeBlocksRemove(lists, k, x);
      CoveredAdd(FreeBlocks(rest), b);
      FreeIsRest(rest, others + {b}, pages);
      HeadIsCovered(others + {b}, b);
      RangeSize(b);
    }
  }

  /** A single page can be had exactly while any page is free. */
  lemma OnePage(cfg: Config, s: State)
    requires Inv(cfg, s)
    ensures var (s', r) := Alloc(s, 1);
      && (r.None? <==> Count(s.lists) == 0)
      && (r.None? ==> s' == s)
      && (r.Some? ==>
            && r.value in FreePages(s) && FreePages(s') == FreePages(s) - {r.value}
            && 0 < r.value < cfg.total
            && r.value !in s.live && s'.live == s.live[r.value := 0]
            && Count(s'.lists) == Count(s.lists) - 1)
  {
    AllocFails(s, 1);
    CountZero(s.lists, 0);
    assert NoFit(s, 1) <==> FreeBlocks(s.lists) == {} by {
      Pow2Small();
    }
    assert FreeBlocks(s.lists) == {} <==> Count(s.lists) == 0 by {
      assert forall k :: 0 <= k < |s.lists| && s.lists[k] != [] ==> Block(s.lists[k][0], k) in FreeBlocks(s.lists);
    }
    if Alloc(s, 1).1.Some? {
      AllocEffect(cfg, s, 1);
      var p := Alloc(s, 1).1.value;
      assert OrderFor(1, 0) == 0;
      assert Pages(Block(p, 0)) == {p};
      FreeIsRest(s.lists, LiveBlocks(s.live), cfg.usable);
    }
  }

  // ---------------------------------------------------------------------------
  // Runs

  datatype Op = AllocOp(count: nat) | FreeOp(pfn: nat)

  /** A free that is not of a live block's head is outside the interface. */
  predicate LegalStep(s: State, op: Op) {
    op.FreeOp? ==> op.pfn in s.live && s.live[op.pfn] <= MAX_ORDER
  }

  function Step(cfg: Config, s: State, op: Op): State
    requires |s.lists| == MAX_ORDER + 1 && LegalStep(s, op)
  {
    match op
    case AllocOp(count) => Alloc(s, count).0
    case FreeOp(p) => Free(cfg, s, p)
  }

  ghost predicate Legal(cfg: Config, s: State, ops: seq<Op>)
    requires |s.lists| == MAX_ORDER + 1
    decreases |ops|
  {
    ops != [] ==> LegalStep(s, ops[0]) && Legal(cfg, Step(cfg, s, ops[0]), ops[1..])
  }

  function Run(cfg: Config, s: State, ops: seq<Op>): State
    requires |s.lists| == MAX_ORDER + 1 && Legal(cfg, s, ops)
    decreases |ops|
  {
    if ops == [] then s else Run(cfg, Step(cfg, s, ops[0]), ops[1..])
  }

  lemma StepKeeps(cfg: Config, s: State, op: Op)
    requires Inv(cfg, s) && LegalStep(s, op)
    ensures Inv(cfg, Step(cfg, s, op))
  {
    match op
    case AllocOp(count) =>
      AllocFails(s, count);
      if Alloc(s, count).1.Some? {
        AllocEffect(cfg, s, count);
      }
    case FreeOp(p) =>
      FreeEffect(cfg, s, p);
  }

  /** In every run the free and live blocks tile the usable pages: no page is lost,
      none is handed out twice, and the counter is the number of free pages. */
  lemma {:induction false} RunSafe(cfg: Config, s: State, ops: seq<Op>)
    requires Inv(cfg, s) && Legal(cfg, s, ops)
    ensures var s' := Run(cfg, s, ops);
      && Inv(cfg, s')
      && FreePages(s') !! LivePages(s')
      && FreePages(s') + LivePages(s') == cfg.usable
      && Count(s'.lists) == |FreePages(s')|
    decreases |ops|
  {
    if ops == [] {
      FreeIsRest(s.lists, LiveBlocks(s.live), cfg.usable);
      CountIsSize(s.lists, LiveBlocks(s.live), cfg.usable);
    } else {
      StepKeeps(cfg, s, ops[0]);
      RunSafe(cfg, Step(cfg, s, ops[0]), ops[1..]);
    }
  }

  // ---------------------------------------------------------------------------
  // Allocating and freeing again

  /** The pages, the counter and the live blocks are always restored. */
  lemma RoundTripPages(cfg: Config, s: State, count: nat)
    requires Inv(cfg, s) && Alloc(s, count).1.Some?
    ensures var (s1, r) := Alloc(s, count);
      && Inv(cfg, s1) && r.value in s1.live
      && var s2 := Free(cfg, s1, r.value);
         FreePages(s2) == FreePages(s) && s2.live == s.live && Count(s2.lists) == Count(s.lists)
  {
    AllocEffect(cfg, s, count);
    var (s1, r) := Alloc(s, count);
    FreeEffect(cfg, s1, r.value);
    assert s1.live - {r.value} == s.live;
  }

  /** The lists the freed block finds: the upper halves in front of their lists. */
  lemma SplitLists(s: State, p: nat, o: nat, t: nat)
    requires |s.lists| == MAX_ORDER + 1 && t <= o <= MAX_ORDER && s.lists[o] != [] && s.lists[o][0] == p
    requires Aligned(p, o)
    ensures var split := SplitDown(s.lists[o := s.lists[o][1..]], p, o, t);
      && |split| == MAX_ORDER + 1 && split[o] == s.lists[o][1..]
      && (forall k :: t <= k < o ==> split[k] == [p + Pow2(k)] + s.lists[k])
      && (forall k :: 0 <= k <= MAX_ORDER && !(t <= k <= o) ==> split[k] == s.lists[k])
  {
    hide Pow2, Aligned;
    var lists1 := s.lists[o := s.lists[o][1..]];
    forall k | 0 <= k <= MAX_ORDER
      ensures SplitDown(lists1, p, o, t)[k] == if t <= k < o then [p + Pow2(k)] + lists1[k] else lists1[k]
    {
      SplitDownAt(lists1, p, o, t, k);
    }
  }

  lemma {:induction false} AlignedBelow(p: nat, o: nat, k: nat)
    requires Aligned(p, o) && k <= o
    ensures Aligned(p, k) && RoundDown(p, k) == p
    ensures k < o ==> BuddyOf(p, k) == p + Pow2(k)
    decreases o - k
  {
    if k < o {
      AlignedBelow(p, o, k + 1);
      BuddyIsUpper(p, k);
    }
  }

  /** The condition under which an allocation taken from order o and freed again gives
      the same lists: no split half is RESERVED, and the block was not free to merge. */
  predicate Restores(cfg: Config, lists: seq<seq<nat>>, p: nat, o: nat, t: nat)
    requires |lists| == MAX_ORDER + 1 && o <= MAX_ORDER && lists[o] != []
  {
    && (forall k :: t <= k < o ==> p + Pow2(k) !in cfg.reserved)
    && (o == MAX_ORDER || !Mergeable(cfg, lists[o := lists[o][1..]], p, o))
  }

  lemma RestoredLists(cfg: Config, s: State, p: nat, o: nat, t: nat, top: Block, lists': seq<seq<nat>>)
    requires |s.lists| == MAX_ORDER + 1 && t <= o <= MAX_ORDER && s.lists[o] != [] && s.lists[o][0] == p
    requires Aligned(p, o)
    requires forall k :: t <= k < o ==> p + Pow2(k) < cfg.total
    requires t <= top.order <= MAX_ORDER && |lists'| == MAX_ORDER + 1
    requires Chain(cfg, SplitDown(s.lists[o := s.lists[o][1..]], p, o, t), p, t, lists', top)
    ensures lists'[top.order := [top.pfn] + lists'[top.order]] == s.lists <==> Restores(cfg, s.lists, p, o, t)
  {
    hide Pow2, Aligned, SplitDown, RoundDown, BuddyOf;
    var split := SplitDown(s.lists[o := s.lists[o][1..]], p, o, t);
    SplitLists(s, p, o, t);
    forall k | 0 <= k <= o
      ensures RoundDown(p, k) == p && (k < o ==> BuddyOf(p, k) == p + Pow2(k))
    {
      AlignedBelow(p, o, k);
    }
    var after := lists'[top.order := [top.pfn] + lists'[top.order]];
    if top.order < o {
      assert !Mergeable(cfg, split, p, top.order);
      assert split[top.order][0] == p + Pow2(top.order);
      assert |after[top.order]| == |s.lists[top.order]| + 2;
    } else if top.order > o {
      assert Mergeable(cfg, split, p, o);
      WithoutLength(split[o], BuddyOf(p, o));
      assert |after[o]| == |s.lists[o]| - 2;
    } else {
      forall k | 0 <= k <= MAX_ORDER
        ensures after[k] == s.lists[k]
      {
        if t <= k < o {
          assert Mergeable(cfg, split, RoundDown(p, k), k);
          assert Without(split[k], p + Pow2(k)) == s.lists[k];
        }
      }
      assert after == s.lists;
    }
  }

  /** Allocating and freeing again restores the very same lists exactly when every half
      split off has lost PAGE_RESERVED and the block's own buddy could not merge. */
  lemma RoundTripExactly(cfg: Config, s: State, count: nat)
    requires Inv(cfg, s) && Alloc(s, count).1.Some?
    ensures var (s1, r) := Alloc(s, count);
      var t := OrderFor(count, 0);
      var o := FirstFit(s.lists, t);
      && Inv(cfg, s1) && r.value in s1.live && o <= MAX_ORDER
      && (Free(cfg, s1, r.value).lists == s.lists <==> Restores(cfg, s.lists, r.value, o, t))
  {
    AllocEffect(cfg, s, count);
    var (s1, r) := Alloc(s, count);
    var t, p := OrderFor(count, 0), r.value;
    var o := FirstFit(s.lists, t);
    FreeListsOne(cfg, s1, p);
    var (lists', top) := MergeUp(cfg, s1.lists, p, t);
    TakenBlock(cfg, s, o);
    RestoredLists(cfg, s, p, o, t, top, lists');
  }

  /** The frames without PAGE_RESERVED are exactly the heads of listed blocks, as
      initialisation leaves them. */
  ghost predicate OnlyHeads(cfg: Config, lists: seq<seq<nat>>) {
    forall x :: 0 <= x < cfg.total ==> (x in cfg.reserved <==> forall k :: 0 <= k < |lists| ==> x !in lists[k])
  }

  /** So after initialisation the lists come back exactly when nothing was split and
      the block's buddy is not listed beside it. */
  lemma RoundTripFresh(cfg: Config, s: State, count: nat)
    requires Inv(cfg, s) && Alloc(s, count).1.Some? && OnlyHeads(cfg, s.lists)
    ensures var (s1, r) := Alloc(s, count);
      var t := OrderFor(count, 0);
      var o := FirstFit(s.lists, t);
      && Inv(cfg, s1) && r.value in s1.live && o <= MAX_ORDER
      && (Free(cfg, s1, r.value).lists == s.lists <==>
            o == t && (o == MAX_ORDER || BuddyOf(r.value, o) !in s.lists[o][1..]))
  {
    hide Tiling, FreeBlocks, LiveBlocks, NoDup, SplitDown, MergeUp, Pow2, Aligned, BuddyOf;
    RoundTripExactly(cfg, s, count);
    var t := OrderFor(count, 0);
    var o := FirstFit(s.lists, t);
    TakenBlock(cfg, s, o);
    var p := s.lists[o][0];
    if o > t {
      HalfReserved(cfg, s, o, t);
    } else if o < MAX_ORDER && BuddyOf(p, o) in s.lists[o][1..] {
      ListedBelow(cfg, s, o, BuddyOf(p, o));
      assert Mergeable(cfg, s.lists[o := s.lists[o][1..]], p, o);
    }
  }

  lemma ListedBelow(cfg: Config, s: State, o: nat, x: nat)
    requires Inv(cfg, s) && o <= MAX_ORDER && x in s.lists[o]
    ensures x < cfg.total
  {
    HeadIsCovered(FreeBlocks(s.lists) + LiveBlocks(s.live), Block(x, o));
  }

  /** A page inside a listed block, but not its first, is no block's head. */
  lemma InsideNoHead(cfg: Config, s: State, b: Block, x: nat, j: nat)
    requires Inv(cfg, s) && b in FreeBlocks(s.lists) && x in Pages(b) && x != b.pfn && j <= MAX_ORDER
    ensures x !in s.lists[j]
  {
    hide Tiling, NoDup, LiveBlocks, Pow2;
    var c := Block(x, j);
    assert Between(x, x, x + Pow2(j));
    assert x in Pages(c);
    assert x in s.lists[j] ==> c in FreeBlocks(s.lists);
    if c in FreeBlocks(s.lists) {
      HeadsDiffer(s.lists, LiveBlocks(s.live), cfg.usable, b, c);
    }
  }

  lemma HalfInside(b: Block, k: nat)
    requires k < b.order
    ensures b.pfn + Pow2(k) in Pages(b) && Pow2(k) > 0
  {
    Pow2Monotone(k, b.order - 1);
    assert Between(b.pfn, b.pfn + Pow2(k), b.pfn + Pow2(b.order));
  }

  /** A half inside a listed block is no head, so it is still RESERVED. */
  lemma HalfReserved(cfg: Config, s: State, o: nat, k: nat)
    requires Inv(cfg, s) && OnlyHeads(cfg, s.lists) && k < o <= MAX_ORDER && |s.lists| == MAX_ORDER + 1
    requires s.lists[o] != []
    ensures s.lists[o][0] + Pow2(k) in cfg.reserved
  {
    hide Inv, Pages, Pow2;
    var b := Block(s.lists[o][0], o);
    var x := b.pfn + Pow2(k);
    assert b in FreeBlocks(s.lists);
    TakenBlock(cfg, s, o);
    HalfInside(b, k);
    forall j | 0 <= j < |s.lists|
      ensures x !in s.lists[j]
    {
      InsideNoHead(cfg, s, b, x, j);
    }
  }

  /** The first listed block of order o: aligned, and inside the managed pages. */
  lemma TakenBlock(cfg: Config, s: State, o: nat)
    requires Inv(cfg, s) && o <= MAX_ORDER && s.lists[o] != []
    ensures var p := s.lists[o][0];
      Aligned(p, o) && forall k :: 0 <= k < o ==> p + Pow2(k) < cfg.total
  {
    var p := s.lists[o][0];
    var b := Block(p, o);
    assert p in s.lists[o];
    HeadIsCovered(FreeBlocks(s.lists) + LiveBlocks(s.live), b);
    forall k | 0 <= k < o
      ensures p + Pow2(k) < cfg.total
    {
      Pow2Monotone(k, o - 1);
      assert Between(b.pfn, p + Pow2(k), b.pfn + Pow2(o));
      assert p + Pow2(k) in Pages(b);
    }
  }
}
