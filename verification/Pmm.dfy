/** The physical memory manager of mm.cpp, updated in place: frame metadata, eleven
    doubly linked free lists threaded through it, and the free-page counter. */
module Pmm {
  import opened Bits
  import opened Lists
  import opened Buddy
  import opened Options
  import opened BuddyTheory

  const PAGE_SIZE: nat := 4096
  const FRAME_SIZE: nat := 32

  /** A page frame's order and its PAGE_FREE, PAGE_USED and PAGE_RESERVED flags;
      the links are in the ListPool. */
  datatype Frame = Frame(order: nat, free: bool, used: bool, reserved: bool)

  class PageAllocator {
    const frames: array<Frame>
    const pool: ListPool
    var freePages: nat
    ghost var cfg: Config
    ghost var live: map<nat, nat>

    /** Every frame starts RESERVED and on no list. */
    constructor (total: nat)
      ensures Linked() && fresh(frames) && fresh(pool) && fresh(pool.heads) && fresh(pool.next) && fresh(pool.prev)
      ensures frames.Length == total && live == map[] && freePages == 0
      ensures cfg.total == total && pool.lists == seq(MAX_ORDER + 1, i => [])
      ensures forall x :: 0 <= x < total ==> frames[x].reserved
    {
      frames := new Frame[total](i => Frame(0, false, false, true));
      pool := new ListPool(MAX_ORDER + 1, total);
      freePages, live := 0, map[];
      cfg := Config(total, Span(0, total), {});
    }

    ghost function Abs(): State
      reads this, pool
    {
      State(pool.lists, live)
    }

    /** A frame has PAGE_FREE exactly when it is on the list of its recorded order. */
    ghost predicate Linked()
      reads `cfg, frames, pool, pool.heads, pool.next, pool.prev
    {
      && pool.Valid() && |pool.lists| == MAX_ORDER + 1
      && pool.next.Length == frames.Length == cfg.total
      && (forall k, x :: 0 <= k < |pool.lists| && x in pool.lists[k] ==>
            x < frames.Length && frames[x].free && frames[x].order == k)
      && (forall x :: 0 <= x < frames.Length && frames[x].free ==>
            frames[x].order <= MAX_ORDER && x in pool.lists[frames[x].order])
      && (forall x :: 0 <= x < frames.Length ==> (frames[x].reserved <==> x in cfg.reserved))
    }

    /** The head of every live block records the block's order and PAGE_USED. */
    ghost predicate HeadsUsed(heads: map<nat, nat>)
      reads frames
    {
      forall x :: x in heads ==> x < frames.Length && frames[x].used && frames[x].order == heads[x]
    }

    ghost predicate Valid()
      reads this, frames, pool, pool.heads, pool.next, pool.prev
    {
      Linked() && HeadsUsed(live) && Inv(cfg, Abs()) && freePages == Count(pool.lists)
    }

    method ListAdd(order: nat, x: nat)
      requires Linked() && order <= MAX_ORDER && x < frames.Length
      requires forall j :: 0 <= j < |pool.lists| ==> x !in pool.lists[j]
      modifies frames, pool, pool.heads, pool.next, pool.prev
      ensures Linked()
      ensures pool.lists == old(pool.lists)[order := [x] + old(pool.lists)[order]]
      ensures frames[..] == old(frames[..])[x := old(frames[x]).(free := true, order := order)]
      ensures old(HeadsUsed(live)) && x !in live ==> HeadsUsed(live)
    {
      pool.PushFront(order, x);
      frames[x] := frames[x].(free := true, order := order);
    }

    method ListRemove(order: nat, x: nat)
      requires Linked() && order <= MAX_ORDER && x in pool.lists[order]
      modifies frames, pool, pool.heads, pool.next, pool.prev
      ensures Linked()
      ensures pool.lists == old(pool.lists)[order := Without(old(pool.lists)[order], x)]
      ensures frames[..] == old(frames[..])[x := old(frames[x]).(free := false)]
      ensures old(HeadsUsed(live)) ==> HeadsUsed(live)
    {
      pool.HeadIs(order);
      WithoutGone(pool.lists[order], x);
      pool.Remove(order, x);
      frames[x] := frames[x].(free := false);
    }

    lemma StateKnown()
      requires Valid()
      ensures Inv(cfg, Abs()) && |pool.lists| == MAX_ORDER + 1 && freePages == Count(pool.lists)
      ensures frames.Length == cfg.total
    {
    }

    /** Clearing an unlisted frame's flags takes PAGE_RESERVED off it. */
    method ClearReserved(x: nat)
      requires Linked() && x < frames.Length
      requires forall j :: 0 <= j < |pool.lists| ==> x !in pool.lists[j]
      modifies frames, `cfg
      ensures Linked() && cfg == old(cfg).(reserved := old(cfg).reserved - {x})
      ensures frames[..] == old(frames[..])[x := old(frames[x]).(free := false, used := false, reserved := false)]
    {
      frames[x] := frames[x].(free := false, used := false, reserved := false);
      cfg := cfg.(reserved := cfg.reserved - {x});
    }

    /** Split the unlisted block at pfn down to the target order, listing each upper half. */
    method Split(pfn: nat, fit: nat, target: nat)
      requires Linked() && HeadsUsed(live) && target <= fit <= MAX_ORDER
      requires Block(pfn, fit) !in LiveBlocks(live) && forall p :: p in cfg.usable ==> p < cfg.total
      requires Sound(pool.lists, LiveBlocks(live) + {Block(pfn, fit)}, cfg.usable)
      modifies frames, pool, pool.heads, pool.next, pool.prev
      ensures Linked() && HeadsUsed(live)
      ensures pool.lists == SplitDown(old(pool.lists), pfn, fit, target)
      ensures pfn < frames.Length && forall j :: 0 <= j < |pool.lists| ==> pfn !in pool.lists[j]
    {
      hide Sound, ListPool.Valid, BuddyOf, HeadsUsed, LiveBlocks;
      var order := fit;
      while order > target
        invariant target <= order <= fit
        invariant Linked() && HeadsUsed(live)
        invariant Block(pfn, order) !in LiveBlocks(live)
        invariant Sound(pool.lists, LiveBlocks(live) + {Block(pfn, order)}, cfg.usable)
        invariant SplitDown(pool.lists, pfn, order, target) == SplitDown(old(pool.lists), pfn, fit, target)
      {
        SplitSound(pool.lists, pfn, order, LiveBlocks(live), cfg.usable);
        order := order - 1;
        var buddy := BuddyOf(pfn, order);
        NotLiveHead(live, buddy);
        ListAdd(order, buddy);
      }
      InHandUnlisted(pool.lists, LiveBlocks(live), cfg.usable, Block(pfn, order));
    }

    /** The found branch of the search: take the first block of the fitting order. */
    method Take(target: nat, fit: nat, ghost count: nat) returns (pfn: nat)
      requires Valid() && target <= fit <= MAX_ORDER && pool.lists[fit] != []
      requires count > 0 && target == OrderFor(count, 0) && fit == FirstFit(pool.lists, target)
      modifies this, frames, pool, pool.heads, pool.next, pool.prev
      ensures Valid() && cfg == old(cfg)
      ensures Alloc(old(Abs()), count) == (Abs(), Some(pfn))
    {
      hide Sound, ListPool.Valid, OrderFor, FirstFit, Count, SplitDown;
      pool.HeadIs(fit);
      ghost var s := Abs();
      AllocEffect(cfg, s, count);
      pfn := pool.heads[fit];
      assert Without(s.lists[fit], pfn) == s.lists[fit][1..];
      TakeSound(s.lists, fit, pfn, LiveBlocks(live), cfg.usable);
      ListRemove(fit, pfn);
      Split(pfn, fit, target);
      MarkUsed(pfn, target);
      freePages := freePages - Pow2(target);
    }

    /** The frame of an unlisted block becomes the head of a live block. */
    method MarkUsed(pfn: nat, order: nat)
      requires Linked() && HeadsUsed(live) && pfn < frames.Length
      requires forall j :: 0 <= j < |pool.lists| ==> pfn !in pool.lists[j]
      modifies frames, this`live
      ensures Linked() && HeadsUsed(live) && live == old(live)[pfn := order]
    {
      frames[pfn] := frames[pfn].(used := true, order := order);
      live := live[pfn := order];
    }

    method AllocPages(count: nat) returns (phys: nat)
      requires Valid() && count <= 0x8000_0000_0000_0000
      modifies this, frames, pool, pool.heads, pool.next, pool.prev
      ensures Valid() && cfg == old(cfg)
      ensures Abs() == Alloc(old(Abs()), count).0
      ensures phys == if Alloc(old(Abs()), count).1.Some? then Alloc(old(Abs()), count).1.value * PAGE_SIZE else 0
    {
      ghost var s := Abs();
      AllocFails(s, count);
      if count == 0 {
        return 0;
      }
      var target := 0;
      while Pow2(target) < count
        invariant OrderFor(count, 0) == OrderFor(count, target)
        decreases if Pow2(target) < count then count - Pow2(target) else 0
      {
        target := target + 1;
      }
      if target > MAX_ORDER {
        return 0;
      }
      var order := target;
      while order <= MAX_ORDER
        invariant target <= order <= MAX_ORDER + 1
        invariant FirstFit(s.lists, target) == FirstFit(s.lists, order)
      {
        if pool.heads[order] != NIL {
          var pfn := Take(target, order, count);
          return pfn * PAGE_SIZE;
        }
        order := order + 1;
      }
      return 0;
    }

    method MarkUnused(pfn: nat)
      requires Linked() && HeadsUsed(live) && pfn in live
      modifies frames, this`live
      ensures Linked() && HeadsUsed(live) && live == old(live) - {pfn}
    {
      frames[pfn] := frames[pfn].(used := false);
      live := live - {pfn};
    }

    /** The merge test: the buddy is a free block of the same order and not reserved. */
    predicate CanAbsorb(buddy: nat, order: nat)
      requires Linked() && order <= MAX_ORDER
      reads this, frames, pool, pool.heads, pool.next, pool.prev
      ensures CanAbsorb(buddy, order) <==> buddy < cfg.total && buddy in pool.lists[order] && buddy !in cfg.reserved
    {
      buddy < frames.Length && frames[buddy].free && frames[buddy].order == order && !frames[buddy].reserved
    }

    /** The merge loop: absorb free buddies into the unlisted block at pfn. */
    method Merge(pfn: nat, from: nat) returns (head: nat, order: nat)
      requires Linked() && HeadsUsed(live) && from <= MAX_ORDER
      requires Block(pfn, from) !in LiveBlocks(live)
      requires Sound(pool.lists, LiveBlocks(live) + {Block(pfn, from)}, cfg.usable)
      requires forall p :: p in cfg.usable ==> p < cfg.total
      modifies frames, pool, pool.heads, pool.next, pool.prev
      ensures Linked() && HeadsUsed(live) && order <= MAX_ORDER
      ensures (pool.lists, Block(head, order)) == MergeUp(cfg, old(pool.lists), pfn, from)
      ensures head < frames.Length && forall j :: 0 <= j < |pool.lists| ==> head !in pool.lists[j]
      ensures head !in live
    {
      hide Sound, ListPool.Valid, BuddyOf, HeadsUsed, LiveBlocks, MergeUp, Without;
      head, order := pfn, from;
      while order < MAX_ORDER
        invariant from <= order <= MAX_ORDER
        invariant Linked() && HeadsUsed(live)
        invariant Block(head, order) !in LiveBlocks(live)
        invariant Sound(pool.lists, LiveBlocks(live) + {Block(head, order)}, cfg.usable)
        invariant MergeUp(cfg, pool.lists, head, order) == MergeUp(cfg, old(pool.lists), pfn, from)
        decreases MAX_ORDER - order
      {
        var buddy := BuddyOf(head, order);
        if !CanAbsorb(buddy, order) {
          break;
        }
        MergeUpStep(cfg, pool.lists, head, order);
        MergeSound(cfg, pool.lists, head, order, LiveBlocks(live), cfg.usable);
        ListRemove(order, buddy);
        if buddy < head {
          head := buddy;
        }
        order := order + 1;
      }
      MergeUpStep(cfg, pool.lists, head, order);
      InHandUnlisted(pool.lists, LiveBlocks(live), cfg.usable, Block(head, order));
      NotLiveHead(live, head);
    }

    lemma LiveHead(x: nat)
      requires Linked() && HeadsUsed(live) && x in live
      ensures x < frames.Length && frames[x].order == live[x] && |pool.lists| == MAX_ORDER + 1
    {
    }

    /** pmm_free_pages: the block's own recorded order decides how much is freed. */
    method Release(phys: nat)
      requires Valid() && (phys == 0 || phys / PAGE_SIZE in live)
      modifies this, frames, pool, pool.heads, pool.next, pool.prev
      ensures Valid() && cfg == old(cfg)
      ensures Abs() == if phys == 0 then old(Abs()) else Free(cfg, old(Abs()), phys / PAGE_SIZE)
    {
      hide Sound, ListPool.Valid, Count, MergeUp, LiveBlocks, Inv, Linked, HeadsUsed;
      if phys == 0 {
        return;
      }
      var pfn := phys / PAGE_SIZE;
      LiveHead(pfn);
      var order := frames[pfn].order;
      ghost var s := Abs();
      FreeEffect(cfg, s, pfn);
      BlockInHand(cfg, s, pfn);
      freePages := freePages + Pow2(order);
      MarkUnused(pfn);
      var head, top := Merge(pfn, order);
      ListAdd(top, head);
      assert Abs() == Free(cfg, s, pfn);
    }

    /** The allocator as its clients see it: a plain set of free pages. */
    ghost function FreeSet(): set<nat>
      reads this, pool
    {
      FreePages(Abs())
    }

    method AllocPage() returns (phys: nat)
      requires Valid()
      modifies this, frames, pool, pool.heads, pool.next, pool.prev
      ensures Valid() && cfg == old(cfg)
      ensures phys == 0 <==> old(freePages) == 0
      ensures phys == 0 ==> Abs() == old(Abs()) && freePages == 0
      ensures phys != 0 ==>
        var p := phys / PAGE_SIZE;
        && phys == p * PAGE_SIZE && 0 < p < frames.Length
        && p in old(FreeSet()) && FreeSet() == old(FreeSet()) - {p}
        && p !in old(live) && live == old(live)[p := 0]
        && freePages == old(freePages) - 1
    {
      hide Alloc, Inv, Count, ListPool.Valid, FreePages;
      ghost var s := Abs();
      OnePage(cfg, s);
      phys := AllocPages(1);
    }
  }
}
