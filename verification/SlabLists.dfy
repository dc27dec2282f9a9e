/** All slabs of the heap on values: which of its cache's three lists a slab is on,
    and what each step of kmalloc and kfree keeps. */
module SlabLists {
  import opened Lists
  import opened Slab
  import opened Options

  /** A slab header, without the list links. */
  datatype Header = Header(freeList: nat, freeCount: nat, cache: nat)

  /** The lists of cache c are numbered 3c (partial), 3c + 1 (full), 3c + 2 (empty). */
  function Partial(c: nat): nat { 3 * c }
  function Full(c: nat): nat { 3 * c + 1 }
  function Empty(c: nat): nat { 3 * c + 2 }

  /** The list a slab of cache c with n free objects belongs on. */
  function ListFor(c: nat, n: nat): nat
    requires c < CACHES
  {
    if n == 0 then Full(c) else if n == Capacity(c) then Empty(c) else Partial(c)
  }

  // ---------------------------------------------------------------------------
  // Which list each slab is on

  /** home names the one list each slab is on. */
  ghost predicate Listed(lists: seq<seq<nat>>, home: map<nat, nat>) {
    && (forall j, x :: 0 <= j < |lists| && x in lists[j] ==> x in home && home[x] == j)
    && (forall x :: x in home ==> home[x] < |lists| && x in lists[home[x]])
  }

  lemma ListedRemove(lists: seq<seq<nat>>, home: map<nat, nat>, q: nat)
    requires Listed(lists, home) && q in home && NoDup(lists[home[q]])
    ensures Listed(lists[home[q] := Without(lists[home[q]], q)], home - {q})
  {
    WithoutGone(lists[home[q]], q);
  }

  lemma ListedPush(lists: seq<seq<nat>>, home: map<nat, nat>, q: nat, k: nat)
    requires Listed(lists, home) && q !in home && k < |lists|
    ensures Listed(lists[k := [q] + lists[k]], home[q := k])
    ensures forall j :: 0 <= j < |lists| ==> q !in lists[j]
  {
  }

  /** Moving slab q to the front of list k. */
  lemma ListedMove(lists: seq<seq<nat>>, home: map<nat, nat>, q: nat, k: nat)
    requires Listed(lists, home) && q in home && k < |lists| && NoDup(lists[home[q]])
    ensures var rest := lists[home[q] := Without(lists[home[q]], q)];
      && (forall j :: 0 <= j < |rest| ==> q !in rest[j])
      && Listed(rest[k := [q] + rest[k]], home[q := k])
  {
    var rest := lists[home[q] := Without(lists[home[q]], q)];
    ListedRemove(lists, home, q);
    ListedPush(rest, home - {q}, q, k);
    assert (home - {q})[q := k] == home[q := k];
  }

  // ---------------------------------------------------------------------------
  // The slabs themselves

  /** A slab is named by the page it occupies; free maps it to its free slots. */
  datatype Slabs = Slabs(headers: seq<Header>, pages: seq<seq<nat>>, slabOf: seq<Option<nat>>, free: map<nat, seq<nat>>)

  ghost predicate SlabOk(h: Slabs, p: nat)
    requires p in h.free && |h.headers| == |h.pages|
  {
    && p < |h.headers| && h.headers[p].cache < CACHES
    && h.headers[p].freeCount == |h.free[p]| <= Capacity(h.headers[p].cache)
    && FreeChain(h.pages[p], p, h.headers[p].cache, h.headers[p].freeList, h.free[p])
  }

  /** Every slab's free list is well formed, and exactly the slab pages have a slab
      recorded in their frame. */
  ghost predicate Good(h: Slabs) {
    && |h.headers| == |h.pages| == |h.slabOf|
    && (forall p :: p in h.free ==> SlabOk(h, p))
    && (forall p :: 0 <= p < |h.slabOf| ==> h.slabOf[p] == if p in h.free then Some(p) else None)
  }

  /** Every slab, q apart, is on the list its free count calls for. */
  ghost predicate Homed(h: Slabs, home: map<nat, nat>, q: int)
    requires Good(h)
  {
    && home.Keys == h.free.Keys
    && forall x :: x in h.free && x != q ==> home[x] == ListFor(h.headers[x].cache, |h.free[x]|)
  }

  lemma NoSlabs(h: Slabs, n: nat, lists: seq<seq<nat>>)
    requires |h.headers| == |h.pages| == |h.slabOf| == n && h.free == map[]
    requires forall p :: 0 <= p < n ==> h.slabOf[p] == None
    requires forall k :: 0 <= k < |lists| ==> lists[k] == []
    ensures Good(h) && Homed(h, map[], NIL) && Listed(lists, map[])
  {
  }

  lemma HomedElsewhere(h: Slabs, home: map<nat, nat>, q: nat, k: nat)
    requires Good(h) && Homed(h, home, q) && q in h.free
    ensures Homed(h, home[q := k], q)
  {
  }

  /** A slab may be settled on, or counted as moved from, the list it belongs on. */
  lemma Settle(h: Slabs, home: map<nat, nat>, q: nat)
    requires Good(h) && q in h.free && q in home
    ensures Homed(h, home, NIL) <==> Homed(h, home, q) && home[q] == ListFor(h.headers[q].cache, |h.free[q]|)
  {
  }

  /** What is known of any one slab. */
  lemma SlabFacts(h: Slabs, home: map<nat, nat>, lists: seq<seq<nat>>, q: nat, k: int)
    requires Good(h) && Homed(h, home, k) && Listed(lists, home) && q in h.free
    ensures q < |h.headers| == |h.pages| == |h.slabOf| && SlabOk(h, q) && h.slabOf[q] == Some(q)
    ensures h.headers[q].cache < CACHES && h.headers[q].freeCount == |h.free[q]|
    ensures q in home && home[q] < |lists| && q in lists[home[q]]
  {
  }

  /** Taking the first free object of slab q. */
  function Pop(h: Slabs, q: nat): Slabs
    requires q < |h.headers| == |h.pages| && q in h.free && h.free[q] != []
    requires h.headers[q].cache < CACHES && Word(h.headers[q].cache, h.free[q][0]) < |h.pages[q]|
    requires h.headers[q].freeCount > 0
  {
    var c := h.headers[q].cache;
    h.(headers := h.headers[q := Header(h.pages[q][Word(c, h.free[q][0])], h.headers[q].freeCount - 1, c)],
       free := h.free[q := h.free[q][1..]])
  }

  lemma PopGood(h: Slabs, home: map<nat, nat>, q: nat)
    requires Good(h) && Homed(h, home, q) && q in h.free && h.free[q] != []
    ensures Word(h.headers[q].cache, h.free[q][0]) < |h.pages[q]|
    ensures h.headers[q].freeList == Addr(q, h.headers[q].cache, h.free[q][0])
    ensures h.free[q][0] < Capacity(h.headers[q].cache)
    ensures Good(Pop(h, q)) && Homed(Pop(h, q), home, q)
  {
    hide FreeChain, Capacity, Word, Addr;
    assert SlabOk(h, q);
    ChainPop(h.pages[q], q, h.headers[q].cache, h.headers[q].freeList, h.free[q]);
    var h' := Pop(h, q);
    forall x | x in h'.free
      ensures SlabOk(h', x)
    {
      assert x in h.free && SlabOk(h, x);
    }
  }

  /** Where a popped slab belongs: the full list once its last object is gone. */
  lemma PopHome(h: Slabs, home: map<nat, nat>, q: nat)
    requires Good(h) && q in h.free && h.free[q] != []
    requires Word(h.headers[q].cache, h.free[q][0]) < |h.pages[q]|
    ensures var c, n := h.headers[q].cache, h.headers[q].freeCount - 1;
      && Pop(h, q).headers[q].cache == c && n == |Pop(h, q).free[q]|
      && ListFor(c, n) == if n == 0 then Full(c) else Partial(c)
  {
    assert SlabOk(h, q);
  }

  lemma KnownSlabs(h: Slabs, home: map<nat, nat>, q: nat)
    requires Good(h) && Homed(h, home, NIL)
    ensures q in home <==> q in h.free
    ensures |h.headers| == |h.pages| == |h.slabOf|
  {
  }

  /** What is known of a slab found on one of its cache's partial or empty lists. */
  lemma ListMember(h: Slabs, home: map<nat, nat>, lists: seq<seq<nat>>, q: nat, k: nat)
    requires Good(h) && Homed(h, home, NIL) && Listed(lists, home) && |lists| == 3 * CACHES
    requires k < |lists| && q in lists[k] && k % 3 != 1
    ensures q in h.free && q < |h.headers| && h.free[q] != [] && Homed(h, home, q)
    ensures h.headers[q].cache == k / 3 && home[q] == k
  {
    hide Capacity;
    assert q in home && home[q] == k;
    assert q in h.free && SlabOk(h, q);
    CapacityValues(h.headers[q].cache);
    ListParts(h.headers[q].cache, |h.free[q]|);
  }

  lemma ListParts(c: nat, n: nat)
    requires c < CACHES
    ensures ListFor(c, n) / 3 == c && (ListFor(c, n) % 3 == 1 <==> n == 0)
  {
    hide Capacity;
  }

  /** Giving object i back to slab q. */
  function Push(h: Slabs, q: nat, i: nat): Slabs
    requires q < |h.headers| == |h.pages| && q in h.free
    requires h.headers[q].cache < CACHES && Word(h.headers[q].cache, i) < |h.pages[q]|
  {
    var c, was := h.headers[q].cache, h.headers[q];
    h.(headers := h.headers[q := Header(Addr(q, c, i), was.freeCount + 1, c)],
       pages := h.pages[q := h.pages[q][Word(c, i) := was.freeList]],
       free := h.free[q := [i] + h.free[q]])
  }

  lemma PushGood(h: Slabs, home: map<nat, nat>, q: nat, i: nat)
    requires Good(h) && Homed(h, home, q) && q in h.free
    requires i < Capacity(h.headers[q].cache) && i !in h.free[q]
    ensures Word(h.headers[q].cache, i) < |h.pages[q]|
    ensures Good(Push(h, q, i)) && Homed(Push(h, q, i), home, q)
  {
    hide FreeChain, Capacity, Word, Addr;
    var c := h.headers[q].cache;
    assert SlabOk(h, q);
    FreeSlotsBounded(h.pages[q], q, c, h.headers[q].freeList, h.free[q], i);
    ChainPush(h.pages[q], q, c, h.headers[q].freeList, h.free[q], i);
    var h' := Push(h, q, i);
    forall x | x in h'.free
      ensures SlabOk(h', x)
    {
      assert x in h.free && SlabOk(h, x);
    }
  }

  /** Where a slab with one more free object goes: from full to partial when it was
      full, and on to empty when nothing of it is live any more. */
  lemma PushHome(h: Slabs, home: map<nat, nat>, q: nat, i: nat)
    requires Good(h) && Homed(h, home, NIL) && q in h.free
    requires i < Capacity(h.headers[q].cache) && i !in h.free[q]
    ensures var c, n := h.headers[q].cache, h.headers[q].freeCount;
      && n == |h.free[q]| < Capacity(c)
      && home[q] == (if n == 0 then Full(c) else Partial(c))
      && ListFor(c, n + 1) == if n + 1 >= Capacity(c) then Empty(c) else Partial(c)
  {
    assert SlabOk(h, q);
    FreeSlotsBounded(h.pages[q], q, h.headers[q].cache, h.headers[q].freeList, h.free[q], i);
  }

  /** A slot that is not free leaves room on the free list. */
  lemma FreeSlotsBounded(page: seq<nat>, p: nat, c: nat, head: nat, s: seq<nat>, i: nat)
    requires c < CACHES && FreeChain(page, p, c, head, s) && i < Capacity(c) && i !in s
    ensures |s| < Capacity(c) && |page| == 512
  {
    BoundedLength([i] + s, Capacity(c));
  }

  lemma {:induction false} BoundedLength(s: seq<nat>, n: nat)
    requires NoDup(s) && forall k :: 0 <= k < |s| ==> s[k] < n
    ensures |s| <= n
    decreases n
  {
    if n == 0 {
      assert s == [];
    } else if n - 1 in s {
      WithoutGone(s, n - 1);
      WithoutLength(s, n - 1);
      var t := Without(s, n - 1);
      assert forall k :: 0 <= k < |t| ==> t[k] in t;
      BoundedLength(t, n - 1);
    } else {
      assert forall k :: 0 <= k < |s| ==> s[k] in s;
      BoundedLength(s, n - 1);
    }
  }

  function Ascending(n: nat): seq<nat> {
    seq(n, i => i)
  }

  /** A fresh page q becomes a slab of cache c with every object free. */
  function Create(h: Slabs, q: nat, c: nat, page: seq<nat>): Slabs
    requires q < |h.headers| == |h.pages| == |h.slabOf| && c < CACHES
  {
    Slabs(h.headers[q := Header(Addr(q, c, 0), Capacity(c), c)],
          h.pages[q := page], h.slabOf[q := Some(q)], h.free[q := Ascending(Capacity(c))])
  }

  lemma CreateGood(h: Slabs, home: map<nat, nat>, q: nat, c: nat, page: seq<nat>, k: nat)
    requires Good(h) && Homed(h, home, NIL) && q !in h.free && q < |h.headers| && c < CACHES
    requires FreeChain(page, q, c, Addr(q, c, 0), Ascending(Capacity(c)))
    ensures Good(Create(h, q, c, page)) && Homed(Create(h, q, c, page), home[q := k], q)
  {
    hide FreeChain, Capacity, Word, Addr;
    var h' := Create(h, q, c, page);
    forall x | x in h'.free
      ensures SlabOk(h', x)
    {
      assert x != q ==> x in h.free && SlabOk(h, x);
    }
  }
}
