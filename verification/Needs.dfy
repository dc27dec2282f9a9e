/** How many pages a sequence of page loads takes: one for each page, and one for each
    distinct table that is missing on the way to any of them. */
module Needs {
  import opened Pmm
  import opened Paging
  import opened Vmm

  predicate UserPages(vs: seq<nat>) {
    forall i :: 0 <= i < |vs| ==> vs[i] < USER_PAGES
  }

  /** The positions of the tables missing on the way to page v. */
  ghost function MissingAt(m: Mem, root: nat, v: nat): set<seq<nat>>
    requires ValidMem(m) && root < |m| && v < USER_PAGES
  {
    PathIsPage(v * PAGE_SIZE);
    var q := PathOf(v * PAGE_SIZE);
    set k | 1 <= k <= 3 && !Reached(m, root, q[..k]) :: q[..k]
  }

  lemma MissingCount(m: Mem, root: nat, v: nat)
    requires ValidMem(m) && root < |m| && v < USER_PAGES
    ensures |MissingAt(m, root, v)| == TablesNeeded(m, root, v)
  {
    hide Reached, PathOf, Depth;
    PathIsPage(v * PAGE_SIZE);
    var q := PathOf(v * PAGE_SIZE);
    var d := Depth(m, root, q);
    ReachedDepth(m, root, q, 1);
    ReachedDepth(m, root, q, 2);
    ReachedDepth(m, root, q, 3);
    PrefixCount(q, d);
    assert MissingAt(m, root, v) == PrefixesAfter(q, d);
  }

  ghost function PrefixesAfter(q: seq<nat>, d: nat): set<seq<nat>>
    requires |q| == 4
  {
    set k | d < k <= 3 :: q[..k]
  }

  lemma {:induction false} PrefixCount(q: seq<nat>, d: nat)
    requires |q| == 4 && d <= 3
    ensures |PrefixesAfter(q, d)| == 3 - d
    decreases 3 - d
  {
    if d == 3 {
      assert PrefixesAfter(q, d) == {};
    } else {
      PrefixCount(q, d + 1);
      assert PrefixesAfter(q, d) == PrefixesAfter(q, d + 1) + {q[..d + 1]};
      assert forall r :: r in PrefixesAfter(q, d + 1) ==> |r| > d + 1;
    }
  }

  /** The tables that the loads of vs find missing. */
  ghost function TablesFor(m: Mem, root: nat, vs: seq<nat>): set<seq<nat>>
    requires ValidMem(m) && root < |m| && UserPages(vs)
  {
    if vs == [] then {} else TablesFor(m, root, vs[..|vs| - 1]) + MissingAt(m, root, vs[|vs| - 1])
  }

  ghost function LoadCost(m: Mem, root: nat, vs: seq<nat>): nat
    requires ValidMem(m) && root < |m| && UserPages(vs)
  {
    |vs| + |TablesFor(m, root, vs)|
  }

  /** What is left unpaid when the last load cannot map its page. */
  ghost function LoadCostButLast(m: Mem, root: nat, vs: seq<nat>): nat
    requires ValidMem(m) && root < |m| && UserPages(vs)
  {
    if vs == [] then 0 else |vs| + |TablesFor(m, root, vs[..|vs| - 1])|
  }

  /** No page. */
  const NO_PAGE: int := -1

  /** The page that is left unmapped when the loads of vs go on to the end: the last, when
      its tables cannot be paid for. */
  ghost function Lost(m: Mem, count: nat, root: nat, vs: seq<nat>): int
    requires ValidMem(m) && root < |m| && UserPages(vs)
  {
    if vs == [] || count >= LoadCost(m, root, vs) then NO_PAGE else vs[|vs| - 1]
  }

  lemma TablesNext(m: Mem, root: nat, vs: seq<nat>, v: nat)
    requires ValidMem(m) && root < |m| && UserPages(vs) && v < USER_PAGES
    ensures UserPages(vs + [v]) && (vs + [v])[..|vs + [v]| - 1] == vs
    ensures TablesFor(m, root, vs + [v]) == TablesFor(m, root, vs) + MissingAt(m, root, v)
    ensures LoadCostButLast(m, root, vs + [v]) == LoadCost(m, root, vs) + 1
    ensures LoadCost(m, root, vs + [v]) > LoadCost(m, root, vs)
  {
    assert (vs + [v])[..|vs|] == vs;
    SubsetSize(TablesFor(m, root, vs), TablesFor(m, root, vs) + MissingAt(m, root, v));
  }

  lemma {:induction false} SubsetSize(a: set<seq<nat>>, b: set<seq<nat>>)
    requires a <= b
    ensures |a| <= |b|
  {
    assert b == a + (b - a);
  }

  /** A cost that could not be paid cannot be paid with more to load. */
  lemma {:induction false} CostGrows(m: Mem, root: nat, vs: seq<nat>, more: seq<nat>)
    requires ValidMem(m) && root < |m| && UserPages(vs) && UserPages(more)
    ensures UserPages(vs + more)
    ensures LoadCost(m, root, vs) <= LoadCost(m, root, vs + more)
    ensures LoadCostButLast(m, root, vs) <= LoadCostButLast(m, root, vs + more)
    decreases |more|
  {
    hide TablesFor, MissingAt, LoadCost, LoadCostButLast;
    if more == [] {
      assert vs + more == vs;
    } else {
      var rest, v := more[..|more| - 1], more[|more| - 1];
      CostGrows(m, root, vs, rest);
      assert vs + more == (vs + rest) + [v];
      TablesNext(m, root, vs + rest, v);
      LastNotMore(m, root, vs + rest);
    }
  }

  lemma LastNotMore(m: Mem, root: nat, vs: seq<nat>)
    requires ValidMem(m) && root < |m| && UserPages(vs)
    ensures LoadCostButLast(m, root, vs) <= LoadCost(m, root, vs)
  {
    if vs != [] {
      SubsetSize(TablesFor(m, root, vs[..|vs| - 1]), TablesFor(m, root, vs));
    }
  }

  // ---------------------------------------------------------------------------
  // Loads that all succeeded

  /** From memory m0 with count0 free pages, every load of vs was paid: count pages are
      left, and the tables are the old ones and those the loads needed. */
  ghost predicate Paid(m0: Mem, count0: nat, m: Mem, count: nat, root: nat, vs: seq<nat>)
    requires ValidMem(m0) && ValidMem(m) && |m| == |m0| && root < |m0| && UserPages(vs)
  {
    && count0 == count + LoadCost(m0, root, vs)
    && forall r :: Position(r) ==> (Reached(m, root, r) <==> Reached(m0, root, r) || r in TablesFor(m0, root, vs))
  }

  /** The tables page v still needs are those that no earlier load needed. */
  lemma StillMissing(m0: Mem, count0: nat, m: Mem, count: nat, root: nat, vs: seq<nat>, v: nat)
    requires ValidMem(m0) && ValidMem(m) && |m| == |m0| && root < |m0| && UserPages(vs) && v < USER_PAGES
    requires Paid(m0, count0, m, count, root, vs)
    ensures MissingAt(m, root, v) == MissingAt(m0, root, v) - TablesFor(m0, root, vs)
  {
    hide Reached, PathOf, TablesFor;
    PathIsPage(v * PAGE_SIZE);
    var q := PathOf(v * PAGE_SIZE);
    forall k | 1 <= k <= 3
      ensures Position(q[..k])
    {
      assert q[..k][0] == q[0];
    }
  }

  /** The cost of one more load. */
  lemma NextCost(m0: Mem, count0: nat, m: Mem, count: nat, root: nat, vs: seq<nat>, v: nat)
    requires ValidMem(m0) && ValidMem(m) && |m| == |m0| && root < |m0| && UserPages(vs) && v < USER_PAGES
    requires Paid(m0, count0, m, count, root, vs)
    ensures UserPages(vs + [v])
    ensures LoadCost(m0, root, vs + [v]) == LoadCost(m0, root, vs) + 1 + TablesNeeded(m, root, v)
    ensures LoadCostButLast(m0, root, vs + [v]) == LoadCost(m0, root, vs) + 1
  {
    hide Reached, PathOf, MissingAt;
    TablesNext(m0, root, vs, v);
    StillMissing(m0, count0, m, count, root, vs, v);
    MissingCount(m, root, v);
    var had, extra := TablesFor(m0, root, vs), MissingAt(m, root, v);
    assert had + MissingAt(m0, root, v) == had + extra && had !! extra;
  }

  lemma PaidNext(m0: Mem, count0: nat, m: Mem, count: nat, m': Mem, count': nat, root: nat, vs: seq<nat>, v: nat)
    requires ValidMem(m0) && ValidMem(m) && ValidMem(m') && |m| == |m0| == |m'| && root < |m0| && UserPages(vs)
    requires v < USER_PAGES
    requires Paid(m0, count0, m, count, root, vs) && GainedPath(m, m', root, PathOf(v * PAGE_SIZE), 3)
    requires count == count' + 1 + TablesNeeded(m, root, v)
    ensures UserPages(vs + [v]) && Paid(m0, count0, m', count', root, vs + [v])
  {
    hide Reached, PathOf, TablesFor, TablesNeeded;
    TablesNext(m0, root, vs, v);
    NextCost(m0, count0, m, count, root, vs, v);
    StillMissing(m0, count0, m, count, root, vs, v);
    PathIsPage(v * PAGE_SIZE);
    var q := PathOf(v * PAGE_SIZE);
    forall r | Position(r)
      ensures Reached(m', root, r) <==> Reached(m0, root, r) || r in TablesFor(m0, root, vs + [v])
    {
      PrefixOf(r, q);
      if r == [] {
        ReachedRoot(m0, root);
        ReachedRoot(m', root);
      }
    }
  }

  lemma PrefixOf(r: seq<nat>, q: seq<nat>)
    requires |q| == 4 && |r| <= 3
    ensures r <= q[..3] <==> r == q[..|r|]
  {
    if r <= q[..3] {
      assert r == q[..3][..|r|] == q[..|r|];
    }
  }

  lemma NothingPaid(m: Mem, count: nat, root: nat)
    requires ValidMem(m) && root < |m|
    ensures UserPages([]) && Paid(m, count, m, count, root, [])
  {
    hide Reached;
  }

  // ---------------------------------------------------------------------------
  // Loads in general

  /** No page but those of vs has another translation than before, and every path passes
      what it did. */
  ghost predicate Untouched(m0: Mem, m: Mem, root: nat, vs: seq<nat>)
    requires ValidMem(m0) && ValidMem(m) && |m| == |m0| && root < |m0|
  {
    SameRights(m0, m, root) && forall u :: 0 <= u < USER_PAGES && u !in vs ==> Flat(m, root, u) == Flat(m0, root, u)
  }

  /** One load of page v: it goes on exactly when a page is free, and maps the page
      exactly when there is one more for each missing table. */
  ghost predicate LoadedOne(m: Mem, count: nat, m': Mem, count': nat, root: nat, v: nat, ok: bool)
    requires ValidMem(m) && ValidMem(m') && |m| == |m'| && root < |m| && v < USER_PAGES
  {
    && (ok <==> count > 0)
    && (count > TablesNeeded(m, root, v) ==>
          && count == count' + 1 + TablesNeeded(m, root, v)
          && GainedPath(m, m', root, PathOf(v * PAGE_SIZE), 3) && Untouched(m, m', root, [v]))
    && (count <= TablesNeeded(m, root, v) ==> count' == 0 && Untouched(m, m', root, []))
  }

  /** Where the loads of vs have come to: they go on to the end exactly when all but the
      tables of the last can be paid for; when all can, all are mapped, and else the
      last is not. */
  ghost predicate Outcome(m0: Mem, count0: nat, m: Mem, count: nat, root: nat, vs: seq<nat>, ok: bool)
    requires ValidMem(m0) && ValidMem(m) && |m| == |m0| && root < |m0| && UserPages(vs)
  {
    && (ok <==> count0 >= LoadCostButLast(m0, root, vs)) && (!ok ==> count == 0) && Untouched(m0, m, root, vs)
    && (ok && count0 >= LoadCost(m0, root, vs) ==> Paid(m0, count0, m, count, root, vs))
    && (ok && count0 < LoadCost(m0, root, vs) ==> count == 0 && vs != [] && Untouched(m0, m, root, vs[..|vs| - 1]))
  }

  lemma OutcomeStart(m: Mem, count: nat, root: nat)
    requires ValidMem(m) && root < |m|
    ensures UserPages([]) && Outcome(m, count, m, count, root, [], true)
  {
    hide Flat;
    NothingPaid(m, count, root);
  }

  lemma OutcomeNext(m0: Mem, count0: nat, m: Mem, count: nat, m': Mem, count': nat, root: nat, vs: seq<nat>, v: nat,
                    ok: bool)
    requires ValidMem(m0) && ValidMem(m) && ValidMem(m') && |m| == |m0| == |m'| && root < |m0| && UserPages(vs)
    requires v < USER_PAGES
    requires Outcome(m0, count0, m, count, root, vs, true) && LoadedOne(m, count, m', count', root, v, ok)
    ensures UserPages(vs + [v]) && Outcome(m0, count0, m', count', root, vs + [v], ok)
  {
    hide Flat, GainedPath, TablesNeeded, TablesFor, PathOf;
    TablesNext(m0, root, vs, v);
    LastNotMore(m0, root, vs + [v]);
    if count0 >= LoadCost(m0, root, vs) {
      NextCost(m0, count0, m, count, root, vs, v);
      if count > TablesNeeded(m, root, v) {
        PaidNext(m0, count0, m, count, m', count', root, vs, v);
      }
    }
  }

  /** Once the loads have stopped, what was left to load makes no difference. */
  lemma OutcomeStopped(m0: Mem, count0: nat, m: Mem, count: nat, root: nat, vs: seq<nat>, more: seq<nat>)
    requires ValidMem(m0) && ValidMem(m) && |m| == |m0| && root < |m0| && UserPages(vs) && UserPages(more)
    requires Outcome(m0, count0, m, count, root, vs, false)
    ensures UserPages(vs + more) && Outcome(m0, count0, m, count, root, vs + more, false)
  {
    hide Flat, LoadCost, LoadCostButLast;
    CostGrows(m0, root, vs, more);
  }
}
