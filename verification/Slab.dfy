/** One slab of heap.cpp on values: a 4 KiB page of 512 words whose first 40 bytes
    are the slab header and whose free objects hold the free-list links. */
module Slab {
  import opened Bits
  import opened Lists

  const CACHES: nat := 9
  const HEADER_SIZE: nat := 40
  const HEADER_WORDS: nat := 5

  /** The object sizes of the nine caches, in bytes. */
  const SIZES: seq<nat> := [8, 16, 32, 64, 128, 256, 512, 1024, 2048]

  function ObjectSize(c: nat): nat
    requires c < CACHES
  {
    SIZES[c]
  }

  function ObjectWords(c: nat): nat
    requires c < CACHES
  {
    SIZES[c] / 8
  }

  /** How many objects follow the header in one page. */
  function Capacity(c: nat): nat
    requires c < CACHES
  {
    (4096 - HEADER_SIZE) / SIZES[c]
  }

  /** The word of the page that slot i starts at, and its address in page p. */
  function Word(c: nat, i: nat): nat
    requires c < CACHES
  {
    HEADER_WORDS + i * ObjectWords(c)
  }

  function Addr(p: nat, c: nat, i: nat): nat
    requires c < CACHES
  {
    p * 4096 + 8 * Word(c, i)
  }

  /** n objects of this size, and no more, fit in a page behind the header. */
  ghost predicate FillsPage(n: nat, size: nat) {
    HEADER_SIZE + n * size <= 4096 < HEADER_SIZE + (n + 1) * size
  }

  lemma CapacityValues(c: nat)
    requires c < CACHES
    ensures FillsPage(Capacity(c), SIZES[c])
    ensures 1 <= Capacity(c) <= 507
    ensures 1 <= ObjectWords(c) && ObjectSize(c) == 8 * ObjectWords(c) <= 2048
    ensures Capacity(c) * ObjectWords(c) <= 507
  {
    match c
    case 0 => case 1 => case 2 => case 3 => case 4 => case 5 => case 6 => case 7 => case 8 =>
  }

  /** The sizes double from 8 bytes on. */
  lemma SizesDouble(c: nat)
    requires c < CACHES
    ensures SIZES[c] == 8 * Pow2(c)
  {
    match c
    case 0 => case 1 => case 2 => case 3 => case 4 => case 5 => case 6 => case 7 => case 8 =>
  }

  lemma MulMonotone(a: nat, b: nat, m: nat)
    requires a <= b
    ensures a * m <= b * m
  {
    assert b * m == a * m + (b - a) * m;
    MulNonNegative(b - a, m);
  }

  /** Slots lie one after another, past the header and inside the page. */
  lemma SlotsApart(c: nat, i: nat, j: nat)
    requires c < CACHES && i < j
    ensures Word(c, i) + ObjectWords(c) <= Word(c, j)
  {
    var w := ObjectWords(c);
    MulMonotone(i + 1, j, w);
    assert (i + 1) * w == i * w + w;
  }

  lemma SlotBounds(c: nat, i: nat)
    requires c < CACHES && i < Capacity(c)
    ensures HEADER_WORDS <= Word(c, i) && Word(c, i) + ObjectWords(c) <= 512
  {
    CapacityValues(c);
    SlotsApart(c, i, Capacity(c));
  }

  lemma SlotWords(c: nat)
    requires c < CACHES
    ensures forall i :: 0 <= i < Capacity(c) ==> HEADER_WORDS <= Word(c, i) < 512
    ensures forall i, j :: 0 <= i < j ==> Word(c, i) < Word(c, j)
  {
    CapacityValues(c);
    forall i | 0 <= i < Capacity(c)
      ensures HEADER_WORDS <= Word(c, i) < 512
    {
      SlotBounds(c, i);
    }
    forall i, j | 0 <= i < j
      ensures Word(c, i) < Word(c, j)
    {
      SlotsApart(c, i, j);
    }
  }

  /** The page and word an object address points into. */
  lemma AddrParts(p: nat, c: nat, i: nat)
    requires c < CACHES && Word(c, i) < 512
    ensures Addr(p, c, i) / 4096 == p && (Addr(p, c, i) % 4096) / 8 == Word(c, i)
    ensures Addr(p, c, i) != 0
  {
  }

  /** The pointer to the k-th slot of a free list; null past its end. */
  function Ptr(p: nat, c: nat, s: seq<nat>, k: nat): nat
    requires c < CACHES
  {
    if k < |s| then Addr(p, c, s[k]) else 0
  }

  /** The free list starting at `head` threads exactly the slots s of page p. */
  ghost predicate FreeChain(page: seq<nat>, p: nat, c: nat, head: nat, s: seq<nat>) {
    && |page| == 512 && c < CACHES
    && NoDup(s)
    && (forall k :: 0 <= k < |s| ==> s[k] < Capacity(c) && Word(c, s[k]) < 512)
    && head == Ptr(p, c, s, 0)
    && (forall k {:trigger Word(c, s[k])} :: 0 <= k < |s| ==> page[Word(c, s[k])] == Ptr(p, c, s, k + 1))
  }

  lemma ChainPop(page: seq<nat>, p: nat, c: nat, head: nat, s: seq<nat>)
    requires c < CACHES && FreeChain(page, p, c, head, s) && s != []
    ensures head == Addr(p, c, s[0]) && Word(c, s[0]) < 512 && s[0] < Capacity(c)
    ensures FreeChain(page, p, c, page[Word(c, s[0])], s[1..])
    ensures s[0] !in s[1..]
  {
    var t := s[1..];
    forall k | 0 <= k < |t|
      ensures t[k] < Capacity(c) && Word(c, t[k]) < 512
      ensures page[Word(c, t[k])] == Ptr(p, c, t, k + 1)
    {
      assert t[k] == s[k + 1];
      assert page[Word(c, s[k + 1])] == Ptr(p, c, s, k + 2);
    }
    assert page[Word(c, s[0])] == Ptr(p, c, s, 1);
  }

  lemma ChainPush(page: seq<nat>, p: nat, c: nat, head: nat, s: seq<nat>, i: nat)
    requires c < CACHES && FreeChain(page, p, c, head, s) && i < Capacity(c) && i !in s
    ensures Word(c, i) < 512
    ensures FreeChain(page[Word(c, i) := head], p, c, Addr(p, c, i), [i] + s)
  {
    SlotBounds(c, i);
    ChainFrame(page, p, c, head, s, Word(c, i), head, i);
    var page', t := page[Word(c, i) := head], [i] + s;
    forall k | 0 <= k < |t|
      ensures t[k] < Capacity(c) && Word(c, t[k]) < 512
      ensures page'[Word(c, t[k])] == Ptr(p, c, t, k + 1)
    {
      if k > 0 {
        assert t[k] == s[k - 1];
        assert page'[Word(c, s[k - 1])] == Ptr(p, c, s, k);
      }
    }
  }

  /** Writing a word inside a slot that is not free leaves the free list alone. */
  lemma ChainFrame(page: seq<nat>, p: nat, c: nat, head: nat, s: seq<nat>, w: nat, v: nat, i: nat)
    requires c < CACHES && FreeChain(page, p, c, head, s) && i < Capacity(c) && i !in s
    requires Word(c, i) <= w < Word(c, i) + ObjectWords(c) && w < 512
    ensures FreeChain(page[w := v], p, c, head, s)
  {
    forall k | 0 <= k < |s|
      ensures page[w := v][Word(c, s[k])] == Ptr(p, c, s, k + 1)
    {
      assert page[Word(c, s[k])] == Ptr(p, c, s, k + 1);
      assert s[k] != i;
      if s[k] < i {
        SlotsApart(c, s[k], i);
      } else {
        SlotsApart(c, i, s[k]);
      }
    }
  }
}
