/** The buddy page allocator of mm.cpp on values: eleven free lists of block heads
    and the live (allocated) blocks. Pmm.dfy proves the in-place code against it. */
module Buddy {
  import opened Bits
  import opened Lists
  import opened Options

  const MAX_ORDER: nat := 10

  /** A run of 2^order pages starting at page pfn. */
  datatype Block = Block(pfn: nat, order: nat)

  /** lists[k] holds the heads of the free blocks of order k, front first;
      live maps the head of each allocated block to its order. */
  datatype State = State(lists: seq<seq<nat>>, live: map<nat, nat>)

  /** Facts fixed at initialisation: how many frames exist, which frames keep
      PAGE_RESERVED, and which pages the allocator manages. */
  datatype Config = Config(total: nat, reserved: set<nat>, usable: set<nat>)

  function BuddyOf(pfn: nat, order: nat): nat {
    Xor(pfn, Pow2(order))
  }

  // ---------------------------------------------------------------------------
  // Blocks and tilings

  predicate Between(lo: nat, p: nat, hi: nat) {
    lo <= p < hi
  }

  ghost function Span(lo: nat, hi: nat): set<nat> {
    set p | 0 <= p < hi && Between(lo, p, hi)
  }

  ghost function Pages(b: Block): set<nat> {
    Span(b.pfn, b.pfn + Pow2(b.order))
  }

  ghost predicate Apart(b: Block, c: Block) {
    b.pfn + Pow2(b.order) <= c.pfn || c.pfn + Pow2(c.order) <= b.pfn
  }

  ghost function Covered(blocks: set<Block>): set<nat> {
    set b, p | b in blocks && p in Pages(b) :: p
  }

  /** The blocks are aligned to their own size, pairwise disjoint, and cover exactly `pages`. */
  ghost predicate Tiling(blocks: set<Block>, pages: set<nat>) {
    && (forall b :: b in blocks ==> Aligned(b.pfn, b.order))
    && (forall b, c :: b in blocks && c in blocks && b != c ==> Apart(b, c))
    && Covered(blocks) == pages
  }

  ghost function FreeBlocks(lists: seq<seq<nat>>): set<Block> {
    set k, x | 0 <= k < |lists| && x in lists[k] :: Block(x, k)
  }

  ghost function LiveBlocks(live: map<nat, nat>): set<Block> {
    set x | x in live :: Block(x, live[x])
  }

  ghost function FreePages(s: State): set<nat> {
    Covered(FreeBlocks(s.lists))
  }

  ghost function LivePages(s: State): set<nat> {
    Covered(LiveBlocks(s.live))
  }

  /** A block and the two halves it splits into, or merges from. */
  function Lower(b: Block): Block
    requires b.order > 0
  {
    Block(b.pfn, b.order - 1)
  }

  function Upper(b: Block): Block
    requires b.order > 0
  {
    Block(b.pfn + Pow2(b.order - 1), b.order - 1)
  }

  lemma Halves(b: Block)
    requires b.order > 0
    ensures Pages(b) == Pages(Lower(b)) + Pages(Upper(b))
    ensures Apart(Lower(b), Upper(b))
    ensures forall c :: Apart(b, c) <==> Apart(Lower(b), c) && Apart(Upper(b), c)
  {
    assert Pow2(b.order) == 2 * Pow2(b.order - 1);
  }

  lemma CoveredAdd(blocks: set<Block>, b: Block)
    ensures Covered(blocks + {b}) == Covered(blocks) + Pages(b)
  {
    forall p | p in Covered(blocks) + Pages(b)
      ensures p in Covered(blocks + {b})
    {
      if p in Pages(b) {
        assert b in blocks + {b};
      } else {
        var c :| c in blocks && p in Pages(c);
        assert c in blocks + {b};
      }
    }
  }

  lemma CoveredUnion(a: set<Block>, b: set<Block>)
    ensures Covered(a + b) == Covered(a) + Covered(b)
  {
    forall p | p in Covered(a) + Covered(b)
      ensures p in Covered(a + b)
    {
      if p in Covered(a) {
        var c :| c in a && p in Pages(c);
        assert c in a + b;
      } else {
        var c :| c in b && p in Pages(c);
        assert c in a + b;
      }
    }
  }

  lemma ApartHeads(b: Block, c: Block)
    requires Apart(b, c)
    ensures b.pfn != c.pfn && Pages(b) !! Pages(c)
  {
    assert forall p :: p in Pages(b) ==> Between(b.pfn, p, b.pfn + Pow2(b.order));
    assert forall p :: p in Pages(c) ==> Between(c.pfn, p, c.pfn + Pow2(c.order));
  }

  lemma SplitTiling(rest: set<Block>, b: Block, pages: set<nat>)
    requires b.order > 0 && b !in rest && Tiling(rest + {b}, pages)
    ensures Lower(b) !in rest && Upper(b) !in rest
    ensures Tiling(rest + {Lower(b)} + {Upper(b)}, pages)
  {
    Halves(b);
    AlignedWeaken(b.pfn, b.order - 1);
    CoveredAdd(rest, b);
    CoveredAdd(rest, Lower(b));
    CoveredAdd(rest + {Lower(b)}, Upper(b));
    assert b in rest + {b};
    assert forall c :: c in rest ==> Apart(b, c);
    assert !Apart(Lower(b), Lower(b)) && !Apart(Upper(b), Upper(b));
  }

  lemma MergeTiling(rest: set<Block>, b: Block, pages: set<nat>)
    requires b.order > 0 && Aligned(b.pfn, b.order)
    requires Lower(b) !in rest && Upper(b) !in rest
    requires Tiling(rest + {Lower(b)} + {Upper(b)}, pages)
    ensures b !in rest && Tiling(rest + {b}, pages)
  {
    Halves(b);
    CoveredAdd(rest, b);
    CoveredAdd(rest, Lower(b));
    CoveredAdd(rest + {Lower(b)}, Upper(b));
    var all := rest + {Lower(b)} + {Upper(b)};
    assert Lower(b) in all && Upper(b) in all;
    assert forall c :: c in rest ==> c in all && Apart(Lower(b), c) && Apart(Upper(b), c);
    assert !Apart(b, b);
  }

  // ---------------------------------------------------------------------------
  // Lists as sets of blocks

  lemma FreeBlocksPush(lists: seq<seq<nat>>, k: nat, x: nat)
    requires k < |lists|
    ensures FreeBlocks(lists[k := [x] + lists[k]]) == FreeBlocks(lists) + {Block(x, k)}
  {
    var after := lists[k := [x] + lists[k]];
    assert x in after[k];
    assert forall j, y :: 0 <= j < |lists| && y in lists[j] ==> y in after[j];
  }

  lemma FreeBlocksRemove(lists: seq<seq<nat>>, k: nat, x: nat)
    requires k < |lists| && NoDup(lists[k]) && x in lists[k]
    ensures FreeBlocks(lists) == FreeBlocks(lists[k := Without(lists[k], x)]) + {Block(x, k)}
    ensures Block(x, k) !in FreeBlocks(lists[k := Without(lists[k], x)])
    ensures NoDup(Without(lists[k], x))
  {
    var i :| 0 <= i < |lists[k]| && lists[k][i] == x;
    WithoutAt(lists[k], i);
    var after := lists[k := Without(lists[k], x)];
    assert forall j, y :: 0 <= j < |lists| && y in after[j] ==> y in lists[j];
  }

  /** kFreePages as the lists determine it: the sum of 2^order over the lists from k on. */
  function CountFrom(lists: seq<seq<nat>>, k: nat): nat
    requires k <= |lists|
    decreases |lists| - k
  {
    if k == |lists| then 0 else |lists[k]| * Pow2(k) + CountFrom(lists, k + 1)
  }

  function Count(lists: seq<seq<nat>>): nat {
    CountFrom(lists, 0)
  }

  lemma {:induction false} CountFromUpdate(lists: seq<seq<nat>>, k: nat, s: seq<nat>, from: nat)
    requires k < |lists| && from <= |lists|
    ensures CountFrom(lists[k := s], from)
         == CountFrom(lists, from) + if from <= k then (|s| - |lists[k]|) * Pow2(k) else 0
    decreases |lists| - from
  {
    if from < |lists| {
      CountFromUpdate(lists, k, s, from + 1);
      if from == k {
        assert (|s| - |lists[k]|) * Pow2(k) == |s| * Pow2(k) - |lists[k]| * Pow2(k);
      }
    }
  }

  lemma CountPush(lists: seq<seq<nat>>, k: nat, x: nat)
    requires k < |lists|
    ensures Count(lists[k := [x] + lists[k]]) == Count(lists) + Pow2(k)
  {
    CountFromUpdate(lists, k, [x] + lists[k], 0);
  }

  lemma CountRemove(lists: seq<seq<nat>>, k: nat, x: nat)
    requires k < |lists| && NoDup(lists[k]) && x in lists[k]
    ensures Count(lists[k := Without(lists[k], x)]) == Count(lists) - Pow2(k)
  {
    FreeBlocksRemove(lists, k, x);
    var s := Without(lists[k], x);
    WithoutLength(lists[k], x);
    assert (|s| - |lists[k]|) * Pow2(k) == 0 - Pow2(k);
    CountFromUpdate(lists, k, s, 0);
  }

  // ---------------------------------------------------------------------------
  // Allocation and deallocation

  /** The least order whose blocks hold `count` pages. */
  function OrderFor(count: nat, t: nat): (r: nat)
    ensures Pow2(r) >= count && r >= t
    ensures r > t ==> Pow2(r - 1) < count
    decreases if Pow2(t) < count then count - Pow2(t) else 0
  {
    if Pow2(t) < count then OrderFor(count, t + 1) else t
  }

  /** The least order from `order` up with a listed block; |lists| when there is none. */
  function FirstFit(lists: seq<seq<nat>>, order: nat): (r: nat)
    ensures order <= |lists| ==> order <= r <= |lists|
    ensures r < |lists| ==> lists[r] != []
    ensures forall k :: order <= k < r && k < |lists| ==> lists[k] == []
    decreases |lists| - order
  {
    if order >= |lists| || lists[order] != [] then order else FirstFit(lists, order + 1)
  }

  /** List the upper half of the block at p, order by order, from o down to t. */
  function SplitDown(lists: seq<seq<nat>>, p: nat, o: nat, t: nat): (r: seq<seq<nat>>)
    requires t <= o <= |lists|
    ensures |r| == |lists|
    decreases o
  {
    if o == t then lists
    else SplitDown(lists[o - 1 := [BuddyOf(p, o - 1)] + lists[o - 1]], p, o - 1, t)
  }

  function Alloc(s: State, count: nat): (State, Option<nat>)
    requires |s.lists| == MAX_ORDER + 1
  {
    var t := OrderFor(count, 0);
    if count == 0 || t > MAX_ORDER then (s, None)
    else
      var o := FirstFit(s.lists, t);
      if o > MAX_ORDER then (s, None)
      else
        var p := s.lists[o][0];
        (State(SplitDown(s.lists[o := s.lists[o][1..]], p, o, t), s.live[p := t]), Some(p))
  }

  predicate Mergeable(cfg: Config, lists: seq<seq<nat>>, p: nat, order: nat)
    requires order < |lists|
  {
    var b := BuddyOf(p, order);
    b < cfg.total && b in lists[order] && b !in cfg.reserved
  }

  /** Absorb buddies upwards; the result is the lists without them and the merged block. */
  function MergeUp(cfg: Config, lists: seq<seq<nat>>, p: nat, order: nat): (r: (seq<seq<nat>>, Block))
    requires order <= MAX_ORDER && |lists| == MAX_ORDER + 1
    ensures |r.0| == |lists| && order <= r.1.order <= MAX_ORDER
    decreases MAX_ORDER - order
  {
    if order < MAX_ORDER && Mergeable(cfg, lists, p, order) then
      var b := BuddyOf(p, order);
      MergeUp(cfg, lists[order := Without(lists[order], b)], if b < p then b else p, order + 1)
    else (lists, Block(p, order))
  }

  /** One turn of the merge loop. */
  lemma MergeUpStep(cfg: Config, lists: seq<seq<nat>>, p: nat, order: nat)
    requires order <= MAX_ORDER && |lists| == MAX_ORDER + 1
    ensures MergeUp(cfg, lists, p, order) ==
      if order == MAX_ORDER || !Mergeable(cfg, lists, p, order) then (lists, Block(p, order))
      else
        var b := BuddyOf(p, order);
        MergeUp(cfg, lists[order := Without(lists[order], b)], if b < p then b else p, order + 1)
  {
    hide Without, BuddyOf;
  }

  function Free(cfg: Config, s: State, p: nat): State
    requires |s.lists| == MAX_ORDER + 1 && p in s.live && s.live[p] <= MAX_ORDER
  {
    var (lists, b) := MergeUp(cfg, s.lists, p, s.live[p]);
    State(lists[b.order := [b.pfn] + lists[b.order]], s.live - {p})
  }
}
