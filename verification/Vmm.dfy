/** The virtual memory manager of vmm.cpp: walking, mapping and unmapping through
    four-level tables in physical memory, against a flat map from page to entry. */
module Vmm {
  import opened Bits
  import opened Lists
  import opened Buddy
  import opened Pmm
  import opened Paging

  // ---------------------------------------------------------------------------
  // Addresses and page numbers

  const USER_ADDR_MAX: nat := 0x7FFF_FFFF_FFFF
  const USER_PAGES: nat := 0x8_0000_0000

  function Pml4Idx(virt: nat): nat { (virt / 0x80_0000_0000) % 512 }
  function PdptIdx(virt: nat): nat { (virt / 0x4000_0000) % 512 }
  function PdIdx(virt: nat): nat { (virt / 0x20_0000) % 512 }
  function PtIdx(virt: nat): nat { (virt / 0x1000) % 512 }

  function PathOf(virt: nat): (q: seq<nat>)
    ensures |q| == 4
  {
    [Pml4Idx(virt), PdptIdx(virt), PdIdx(virt), PtIdx(virt)]
  }

  /** The page number whose table indices are q. */
  function PageAt(q: seq<nat>): nat
    requires |q| == 4
  {
    ((q[0] * 512 + q[1]) * 512 + q[2]) * 512 + q[3]
  }

  /** The four indices of a user address name its page and no other. */
  lemma PathIsPage(virt: nat)
    requires virt <= USER_ADDR_MAX
    ensures UserPath(PathOf(virt)) && PageAt(PathOf(virt)) == virt / PAGE_SIZE
  {
    var p := virt / 0x1000;
    var p1 := p / 512;
    var p2 := p1 / 512;
    var p3 := p2 / 512;
    assert virt / 0x20_0000 == p1;
    assert virt / 0x4000_0000 == p2;
    assert virt / 0x80_0000_0000 == p3;
    assert p3 < 256;
    assert p3 * 512 + p2 % 512 == p2;
    assert p2 * 512 + p1 % 512 == p1;
  }

  lemma PageIsPath(q: seq<nat>)
    requires |q| == 4 && UserPath(q)
    ensures PageAt(q) < USER_PAGES && PathOf(PageAt(q) * PAGE_SIZE) == q
  {
    var p := PageAt(q);
    var p1 := q[0] * 512 + q[1];
    var p2 := p1 * 512 + q[2];
    assert p2 < 0x400_0000 && p == p2 * 512 + q[3];
    var virt := p * PAGE_SIZE;
    assert virt / 0x1000 == p && p % 512 == q[3];
    assert virt / 0x20_0000 == p2 && p2 % 512 == q[2];
    assert virt / 0x4000_0000 == p1 && p1 % 512 == q[1];
    assert virt / 0x80_0000_0000 == q[0];
  }

  /** The flat map: the entry word of user page v. */
  function Flat(m: Mem, root: nat, v: nat): Word
    requires ValidMem(m) && root < |m| && v < USER_PAGES
  {
    PathIsPage(v * PAGE_SIZE);
    Lookup(m, root, PathOf(v * PAGE_SIZE))
  }

  /** What the tables above the last level pass on the way to user page v. */
  function PageRights(m: Mem, root: nat, v: nat): Rights
    requires ValidMem(m) && root < |m| && v < USER_PAGES
  {
    PathIsPage(v * PAGE_SIZE);
    Passes(m, root, PathOf(v * PAGE_SIZE))
  }

  // ---------------------------------------------------------------------------
  // What walking and creating tables may change

  /** An entry that leads to a table on one of the pages `taken`. */
  ghost predicate LeadsToNew(w: Word, taken: set<nat>) {
    Decode(w) == Entry(true, true, true, 0, Decode(w).pfn, 0) && Decode(w).pfn in taken
  }

  /** Word j of table s is what it was, 0 in a new table, unless it was absent and now leads
      to a new table. */
  ghost predicate WordMade(m: Mem, tables: map<nat, seq<nat>>, m': Mem, tables': map<nat, seq<nat>>, taken: set<nat>,
                           s: nat, j: nat)
    requires ValidMem(m) && ValidMem(m') && |m'| == |m| && s in tables' && s < |m| && j < 512
  {
    || m'[s][j] == (if s in tables then m[s][j] else 0)
    || (Inner(tables'[s], j) && LeadsToNew(m'[s][j], taken) && (s in tables ==> !Get(m, s, j).present))
  }

  /** So are all words of the tables above the last level, those of the kernel included. */
  ghost predicate WordsMade(m: Mem, tables: map<nat, seq<nat>>, m': Mem, tables': map<nat, seq<nat>>, taken: set<nat>)
    requires ValidMem(m) && ValidMem(m') && |m'| == |m|
  {
    forall s, j :: s in tables' && s < |m| && |tables'[s]| < 3 && 0 <= j < 512 ==>
      WordMade(m, tables, m', tables', taken, s, j)
  }

  lemma WordsMadeTrans(m: Mem, tables: map<nat, seq<nat>>, m1: Mem, tables1: map<nat, seq<nat>>, taken1: set<nat>,
                       m2: Mem, tables2: map<nat, seq<nat>>, taken2: set<nat>, taken: set<nat>)
    requires ValidMem(m) && ValidMem(m1) && ValidMem(m2) && |m| == |m1| == |m2|
    requires WordsMade(m, tables, m1, tables1, taken1) && WordsMade(m1, tables1, m2, tables2, taken2)
    requires forall x :: x in tables ==> x in tables1
    requires forall x :: x in tables1 ==> x in tables2 && tables2[x] == tables1[x]
    requires taken1 <= taken && taken2 <= taken
    ensures WordsMade(m, tables, m2, tables2, taken)
  {
    hide Decode;
    forall s, j | s in tables2 && s < |m| && |tables2[s]| < 3 && 0 <= j < 512
      ensures WordMade(m, tables, m2, tables2, taken, s, j)
    {
      assert WordMade(m1, tables1, m2, tables2, taken2, s, j);
      assert s in tables1 ==> WordMade(m, tables, m1, tables1, taken1, s, j);
    }
  }

  /** From (m, tables, free) to (m', tables', free'): tables keep their positions and
      present entries, new tables come from free pages, and only this space's tables,
      old and new, are written. */
  ghost predicate Extends(m: Mem, tables: map<nat, seq<nat>>, free: set<nat>,
                          m': Mem, tables': map<nat, seq<nat>>, free': set<nat>)
    requires ValidMem(m)
  {
    && ValidMem(m') && |m'| == |m| && free' <= free
    && (forall x :: x in tables ==> x in tables' && tables'[x] == tables[x])
    && (forall x :: x in tables' ==> x in tables || x in free - free')
    && (forall s, j :: s in tables && s < |m| && 0 <= j < 512 && Get(m, s, j).present ==> m'[s][j] == m[s][j])
    && (forall f :: 0 <= f < |m| && f !in tables && f !in free - free' ==> m'[f] == m[f])
    && WordsMade(m, tables, m', tables', free - free')
  }

  lemma ExtendsTrans(m: Mem, tables: map<nat, seq<nat>>, free: set<nat>, m1: Mem, tables1: map<nat, seq<nat>>,
                     free1: set<nat>, m2: Mem, tables2: map<nat, seq<nat>>, free2: set<nat>)
    requires ValidMem(m) && Extends(m, tables, free, m1, tables1, free1)
    requires Extends(m1, tables1, free1, m2, tables2, free2)
    ensures Extends(m, tables, free, m2, tables2, free2)
  {
    hide Decode, WordsMade;
    WordsMadeTrans(m, tables, m1, tables1, free - free1, m2, tables2, free1 - free2, free - free2);
  }

  /** Every user translation is the same, and passes what it did. */
  ghost predicate SameFlat(m: Mem, m': Mem, root: nat)
    requires ValidMem(m) && ValidMem(m') && |m| == |m'| && root < |m|
  {
    SameRights(m, m', root) && forall q :: |q| == 4 && UserPath(q) ==> Lookup(m', root, q) == Lookup(m, root, q)
  }

  lemma AddTableWords(m: Mem, root: nat, tables: map<nat, seq<nat>>, free: set<nat>, t: nat, i: nat, p: nat)
    requires ValidMem(m) && Tree(m, root, tables) && t in tables && t < |m| && Inner(tables[t], i)
    requires p < |m| && p in free && tables.Keys !! free && !Get(m, t, i).present
    ensures WordsMade(m, tables, AddTable(m, t, i, p), tables[p := tables[t] + [i]], free - (free - {p}))
  {
    hide Decode, AddTable, Tree;
    var m', tables' := AddTable(m, t, i, p), tables[p := tables[t] + [i]];
    assert p !in tables.Keys;
    forall s, j | s in tables' && s < |m| && |tables'[s]| < 3 && 0 <= j < 512
      ensures WordMade(m, tables, m', tables', free - (free - {p}), s, j)
    {
      AddTableGet(m, t, i, p, s, j);
    }
  }

  lemma AddTableExtends(m: Mem, root: nat, tables: map<nat, seq<nat>>, free: set<nat>, t: nat, i: nat, p: nat)
    requires ValidMem(m) && Tree(m, root, tables) && root < |m| && t in tables && t < |m| && Inner(tables[t], i)
    requires p < |m| && p in free && tables.Keys !! free && !Get(m, t, i).present
    ensures Extends(m, tables, free, AddTable(m, t, i, p), tables[p := tables[t] + [i]], free - {p})
    ensures SameFlat(m, AddTable(m, t, i, p), root)
  {
    hide Decode, AddTable, Tree;
    var m' := AddTable(m, t, i, p);
    forall s, j | s in tables && s < |m| && 0 <= j < 512 && Get(m, s, j).present
      ensures m'[s][j] == m[s][j]
    {
      AddTableGet(m, t, i, p, s, j);
    }
    forall f | 0 <= f < |m| && f !in tables && f != p
      ensures m'[f] == m[f]
    {
      forall j | 0 <= j < 512
        ensures m'[f][j] == m[f][j]
      {
        AddTableGet(m, t, i, p, f, j);
      }
    }
    AddTableWords(m, root, tables, free, t, i, p);
    RootPosition(m, root, tables);
    forall q | |q| == 4 && UserPath(q)
      ensures Lookup(m', root, q) == Lookup(m, root, q) && Passes(m', root, q) == Passes(m, root, q)
    {
      assert [] + q == q;
      AddTableLookup(m, root, tables, t, i, p, root, q);
      AddTablePasses(m, root, tables, t, i, p, root, q);
    }
  }

  lemma RootPosition(m: Mem, root: nat, tables: map<nat, seq<nat>>)
    requires ValidMem(m) && Tree(m, root, tables)
    ensures root in tables && tables[root] == [] && root < |m|
  {
  }

  /** Neither memory, tables nor the page allocator changed. */
  ghost predicate Unmoved(m: Mem, tables: map<nat, seq<nat>>, s: State, m': Mem, tables': map<nat, seq<nat>>,
                          s': State) {
    m' == m && tables' == tables && s' == s
  }

  /** How many tables the walk along q from table t finds missing. */
  ghost function Missing(m: Mem, t: nat, q: seq<nat>): nat
    requires ValidMem(m) && t < |m| && IsPath(q) && q != []
  {
    |q| - 1 - Depth(m, t, q)
  }

  /** A walk that ends in a non-zero word found every table it needed. */
  lemma {:induction false} NonZeroComplete(m: Mem, t: nat, q: seq<nat>)
    requires ValidMem(m) && t < |m| && IsPath(q) && q != [] && Lookup(m, t, q) != 0
    ensures Missing(m, t, q) == 0
    decreases |q|
  {
    if |q| > 1 {
      NonZeroComplete(m, Next(m, t, q[0]), q[1..]);
    }
  }

  /** One step of the walk: an entry that leads on leaves the count, and a missing
      table, once it is created and cleared, brings it down by one. */
  lemma MissingStep(m: Mem, t: nat, q: seq<nat>, m': Mem, n: nat)
    requires ValidMem(m) && ValidMem(m') && |m| == |m'| && t < |m| && n < |m| && IsPath(q) && |q| > 1
    requires Leads(m, t, q[0]) ==> m' == m && n == Next(m, t, q[0])
    requires !Leads(m, t, q[0]) ==> m'[n] == Zeros()
    ensures IsPath(q[1..]) && Missing(m, t, q) == Missing(m', n, q[1..]) + if Leads(m, t, q[0]) then 0 else 1
  {
    ZeroAbsent();
  }

  lemma MissingHere(m: Mem, t: nat, q: seq<nat>)
    requires ValidMem(m) && t < |m| && IsPath(q) && q != [] && (|q| > 1 ==> !Leads(m, t, q[0]))
    ensures Missing(m, t, q) == |q| - 1
  {
  }

  /** How many tables are missing on the way to user page v. */
  ghost function TablesNeeded(m: Mem, root: nat, v: nat): (k: nat)
    requires ValidMem(m) && root < |m| && v < USER_PAGES
    ensures k <= 3
    ensures Flat(m, root, v) != 0 ==> k == 0
  {
    PathIsPage(v * PAGE_SIZE);
    if Flat(m, root, v) != 0 then
      NonZeroComplete(m, root, PathOf(v * PAGE_SIZE));
      Missing(m, root, PathOf(v * PAGE_SIZE))
    else Missing(m, root, PathOf(v * PAGE_SIZE))
  }

  // ---------------------------------------------------------------------------
  // Which tables there are

  /** The position of a user table below the root, or of the root itself. */
  predicate Position(r: seq<nat>) {
    UserPath(r) && |r| <= 3
  }

  /** Creating the table at entry i of table t adds its position, when t is reached. */
  ghost predicate Gained(m: Mem, m': Mem, root: nat, tables: map<nat, seq<nat>>, t: nat, i: nat)
    requires ValidMem(m) && ValidMem(m') && |m| == |m'| && root < |m| && t in tables && IsPath(tables[t])
  {
    forall r :: Position(r) ==>
      (Reached(m', root, r) <==> Reached(m, root, r) || (r == tables[t] + [i] && ArrivesAt(m, root, tables[t], t)))
  }

  lemma AddTableGained(m: Mem, root: nat, tables: map<nat, seq<nat>>, t: nat, i: nat, p: nat)
    requires ValidMem(m) && Tree(m, root, tables) && root < |m| && t in tables && t < |m| && Inner(tables[t], i)
    requires p < |m| && p !in tables && !Get(m, t, i).present
    ensures IsPath(tables[t]) && Gained(m, AddTable(m, t, i, p), root, tables, t, i)
  {
    RootPosition(m, root, tables);
    assert IsPath(tables[t]);
    hide Decode, AddTable, Tree, Reached;
    forall r | Position(r)
      ensures Reached(AddTable(m, t, i, p), root, r) <==>
        Reached(m, root, r) || (r == tables[t] + [i] && ArrivesAt(m, root, tables[t], t))
    {
      assert [] + r == r;
      AddTableReached(m, root, tables, t, i, p, root, r);
      if r == tables[t] + [i] {
        assert r[..|r| - 1] == tables[t];
      }
    }
  }

  lemma SameGained(m: Mem, root: nat, tables: map<nat, seq<nat>>, t: nat, i: nat)
    requires ValidMem(m) && Tree(m, root, tables) && root < |m| && t in tables && t < |m| && i < 512 && Leads(m, t, i)
    ensures IsPath(tables[t]) && Gained(m, m, root, tables, t, i)
  {
    assert IsPath(tables[t]);
    hide Decode, Tree, Reached;
    if ArrivesAt(m, root, tables[t], t) {
      ArrivesNext(m, root, tables[t], t, i);
    }
  }

  /** A table that was reached still is. */
  lemma {:induction false} ArrivesKept(m: Mem, root: nat, tables: map<nat, seq<nat>>, free: set<nat>, m': Mem,
                                       tables': map<nat, seq<nat>>, free': set<nat>, s: nat, r: seq<nat>, t: nat)
    requires ValidMem(m) && Tree(m, root, tables) && Extends(m, tables, free, m', tables', free')
    requires s in tables && s < |m| && IsPath(r) && UserPath(tables[s] + r) && |tables[s]| + |r| <= 3
    requires ArrivesAt(m, s, r, t)
    ensures ArrivesAt(m', s, r, t)
    decreases |r|
  {
    hide Decode, Tree;
    if r != [] {
      assert (tables[s] + r)[|tables[s]|] == r[0];
      PresentChild(m, root, tables, s, r[0]);
      var n := Next(m, s, r[0]);
      assert tables[n] + r[1..] == tables[s] + r;
      ArrivesKept(m, root, tables, free, m', tables', free', n, r[1..], t);
    }
  }

  /** Exactly the positions up to q's first k indices were added. */
  ghost predicate GainedPath(m: Mem, m': Mem, root: nat, q: seq<nat>, k: nat)
    requires ValidMem(m) && ValidMem(m') && |m| == |m'| && root < |m| && k <= |q|
  {
    forall r :: Position(r) ==> (Reached(m', root, r) <==> Reached(m, root, r) || r <= q[..k])
  }

  lemma GainedNone(m: Mem, root: nat, q: seq<nat>)
    requires ValidMem(m) && root < |m|
    ensures GainedPath(m, m, root, q, 0)
  {
    hide Reached;
    forall r | Position(r)
      ensures r <= q[..0] ==> Reached(m, root, r)
    {
      ReachedRoot(m, root);
    }
  }

  lemma ReachedRoot(m: Mem, root: nat)
    requires ValidMem(m) && root < |m|
    ensures Reached(m, root, []) && ArrivesAt(m, root, [], root)
  {
  }

  lemma GainedNext(m: Mem, m1: Mem, m2: Mem, root: nat, tables: map<nat, seq<nat>>, t: nat, q: seq<nat>, k: nat)
    requires ValidMem(m) && ValidMem(m1) && ValidMem(m2) && |m| == |m1| == |m2| && root < |m| && IsPath(q) && k < |q|
    requires GainedPath(m, m1, root, q, k) && t in tables && tables[t] == q[..k]
    requires Gained(m1, m2, root, tables, t, q[k]) && ArrivesAt(m1, root, q[..k], t)
    ensures GainedPath(m, m2, root, q, k + 1)
  {
    hide Decode, Reached, Follow;
    forall r | Position(r)
      ensures r <= q[..k + 1] <==> r <= q[..k] || r == q[..k] + [q[k]]
    {
      PrefixNext(r, q, k);
    }
  }

  /** Writing a last-level entry adds and removes no table. */
  lemma GainedLeaf(m0: Mem, m: Mem, root: nat, tables: map<nat, seq<nat>>, q: seq<nat>, t: nat, i: nat, w: Word)
    requires ValidMem(m0) && ValidMem(m) && |m| == |m0| && root < |m| && |q| >= 3 && GainedPath(m0, m, root, q, 3)
    requires Tree(m, root, tables) && t in tables && t < |m| && |tables[t]| == 3 && i < 512
    ensures GainedPath(m0, PutWord(m, t, i, w), root, q, 3)
  {
    hide Decode, Tree, Reached, Follow;
    RootPosition(m, root, tables);
    forall r | Position(r)
      ensures Reached(PutWord(m, t, i, w), root, r) == Reached(m, root, r)
    {
      assert [] + r == r;
      ReachedSame(m, PutWord(m, t, i, w), root, tables, root, r);
    }
  }

  lemma PrefixNext(r: seq<nat>, q: seq<nat>, k: nat)
    requires k < |q|
    ensures r <= q[..k + 1] <==> r <= q[..k] || r == q[..k] + [q[k]]
  {
    assert q[..k + 1] == q[..k] + [q[k]];
    if r <= q[..k + 1] && |r| <= k {
      assert r == q[..k + 1][..|r|] == q[..k][..|r|];
    }
  }

  /** A walk in progress: from the state (m0, tables0, free0) it has come along the first
      k indices of q to table t, changing no translation. */
  ghost predicate WalkedTo(m0: Mem, tables0: map<nat, seq<nat>>, free0: set<nat>, m: Mem, tables: map<nat, seq<nat>>,
                           free: set<nat>, root: nat, q: seq<nat>, k: nat, t: nat)
    requires ValidMem(m0)
  {
    && Extends(m0, tables0, free0, m, tables, free) && root < |m0| && SameFlat(m0, m, root)
    && UserPath(q) && |q| == 4 && k <= 3 && GainedPath(m0, m, root, q, k)
    && ArrivesAt(m, root, q[..k], t) && t in tables && t < |m| && tables[t] == q[..k]
  }

  lemma WalkStart(m: Mem, root: nat, tables: map<nat, seq<nat>>, free: set<nat>, q: seq<nat>)
    requires ValidMem(m) && Tree(m, root, tables) && UserPath(q) && |q| == 4
    ensures WalkedTo(m, tables, free, m, tables, free, root, q, 0, root)
  {
    hide Decode, Reached, Follow;
    RootPosition(m, root, tables);
    ReachedRoot(m, root);
    GainedNone(m, root, q);
    ExtendsRefl(m, tables, free);
    assert q[..0] == [];
  }

  /** One call of get_or_create_next_level takes the walk one table further. */
  lemma WalkStep(m0: Mem, tables0: map<nat, seq<nat>>, free0: set<nat>, m1: Mem, tables1: map<nat, seq<nat>>,
                 free1: set<nat>,
                 m2: Mem, tables2: map<nat, seq<nat>>, free2: set<nat>, root: nat, q: seq<nat>, k: nat, t: nat)
    requires ValidMem(m0) && WalkedTo(m0, tables0, free0, m1, tables1, free1, root, q, k, t) && k < 3 && q[k] < 512
    requires Tree(m1, root, tables1) && Extends(m1, tables1, free1, m2, tables2, free2) && SameFlat(m1, m2, root)
    requires IsPath(tables1[t]) && Gained(m1, m2, root, tables1, t, q[k]) && t in tables2 && tables2[t] == tables1[t]
    requires ChildAt(m2, tables2, t, q[k])
    ensures WalkedTo(m0, tables0, free0, m2, tables2, free2, root, q, k + 1, Next(m2, t, q[k]))
  {
    hide Decode, Tree, Reached, Follow, Extends, SameFlat, Gained, GainedPath, Leads, Next;
    ExtendsParts(m0, tables0, free0, m1, tables1, free1);
    ExtendsParts(m1, tables1, free1, m2, tables2, free2);
    ExtendsTrans(m0, tables0, free0, m1, tables1, free1, m2, tables2, free2);
    SameTrans(m0, m1, m2, root);
    GainedNext(m0, m1, m2, root, tables1, t, q, k);
    RootPosition(m1, root, tables1);
    assert [] + q[..k] == q[..k];
    ArrivesKept(m1, root, tables1, free1, m2, tables2, free2, root, q[..k], t);
    ArrivesNext(m2, root, q[..k], t, q[k]);
    assert q[..k] + [q[k]] == q[..k + 1];
    ChildPosition(m2, tables2, t, q[k]);
  }

  /** What a walk in progress means for its caller. */
  lemma Walked(m0: Mem, tables0: map<nat, seq<nat>>, free0: set<nat>, m: Mem, tables: map<nat, seq<nat>>,
               free: set<nat>, root: nat, q: seq<nat>, k: nat, t: nat)
    requires ValidMem(m0) && WalkedTo(m0, tables0, free0, m, tables, free, root, q, k, t)
    ensures ValidMem(m) && |m| == |m0| && root < |m| && Extends(m0, tables0, free0, m, tables, free)
    ensures SameFlat(m0, m, root)
    ensures |q| == 4 && k <= 3 && UserPath(q) && GainedPath(m0, m, root, q, k) && t in tables && t < |m|
    ensures tables[t] == q[..k]
    ensures k < 3 ==> Inner(tables[t], q[k])
  {
    hide Decode;
  }

  lemma ExtendsParts(m: Mem, tables: map<nat, seq<nat>>, free: set<nat>, m': Mem, tables': map<nat, seq<nat>>,
                     free': set<nat>)
    requires ValidMem(m) && Extends(m, tables, free, m', tables', free')
    ensures ValidMem(m') && |m'| == |m| && free' <= free
  {
  }

  /** A walk beyond a reached table. */
  lemma {:induction false} ArrivesLookup(m: Mem, s: nat, r: seq<nat>, t: nat, q: seq<nat>)
    requires ValidMem(m) && s < |m| && IsPath(r) && IsPath(q) && q != [] && ArrivesAt(m, s, r, t)
    ensures IsPath(r + q) && Lookup(m, s, r + q) == Lookup(m, t, q) && t in Trail(m, s, r + q)
    decreases |r|
  {
    hide Decode;
    if r == [] {
      assert r + q == q;
    } else {
      assert (r + q)[1..] == r[1..] + q;
      ArrivesLookup(m, Next(m, s, r[0]), r[1..], t, q);
    }
  }

  /** The walk has reached the last-level table. */
  lemma WalkEnd(m0: Mem, tables0: map<nat, seq<nat>>, free0: set<nat>, m: Mem, tables: map<nat, seq<nat>>,
                free: set<nat>, root: nat, virt: nat, t: nat)
    requires ValidMem(m0) && virt <= USER_ADDR_MAX
    requires WalkedTo(m0, tables0, free0, m, tables, free, root, PathOf(virt), 3, t)
    ensures ValidMem(m) && LeafTable(m, root, tables, t, virt)
  {
    hide Decode, Reached, Follow, Extends, SameFlat, GainedPath, Pml4Idx, PdptIdx, PdIdx, PtIdx;
    ExtendsParts(m0, tables0, free0, m, tables, free);
    var q := PathOf(virt);
    assert q[..3] + [q[3]] == q;
    ArrivesLookup(m, root, q[..3], t, [q[3]]);
  }

  class AddressSpace {
    const root: nat
    ghost var tables: map<nat, seq<nat>>

    constructor (root: nat, ghost tables: map<nat, seq<nat>>)
      ensures this.root == root && this.tables == tables
    {
      this.root := root;
      this.tables := tables;
    }
  }

  class Machine {
    const pmm: PageAllocator
    var mem: Mem

    ghost predicate Holds(space: AddressSpace)
      reads `mem, space, pmm, pmm.frames, pmm.pool, pmm.pool.heads, pmm.pool.next, pmm.pool.prev
    {
      && pmm.Valid() && ValidMem(mem) && |mem| == pmm.frames.Length
      && Tree(mem, space.root, space.tables) && space.tables.Keys !! pmm.FreeSet()
    }

    constructor (pmm: PageAllocator, mem: Mem)
      requires pmm.Valid() && ValidMem(mem) && |mem| == pmm.frames.Length
      ensures this.pmm == pmm && this.mem == mem
    {
      this.pmm := pmm;
      this.mem := mem;
    }

    method ClearPage(p: nat)
      requires ValidMem(mem) && p < |mem|
      modifies `mem
      ensures mem == old(mem)[p := Zeros()]
    {
      var i := 0;
      while i < 512
        invariant 0 <= i <= 512 && ValidMem(mem) && |mem| == |old(mem)|
        invariant mem == old(mem)[p := mem[p]]
        invariant forall k :: 0 <= k < i ==> mem[p][k] == 0
      {
        mem := PutWord(mem, p, i, 0);
        i := i + 1;
      }
      assert mem[p] == Zeros();
    }

    /** get_or_create_next_level: the table entry i of t leads to, created and cleared
        when absent; NIL when a page was needed and none is free. */
    method GetOrCreate(space: AddressSpace, t: nat, i: nat) returns (n: int)
      requires Holds(space) && t in space.tables && Inner(space.tables[t], i)
      modifies `mem, space, pmm, pmm.frames, pmm.pool, pmm.pool.heads, pmm.pool.next, pmm.pool.prev
      ensures Holds(space) && pmm.cfg == old(pmm.cfg) && space.root < |mem| == |old(mem)|
      ensures Extends(old(mem), old(space.tables), old(pmm.FreeSet()), mem, space.tables, pmm.FreeSet())
      ensures SameFlat(old(mem), mem, space.root)
      ensures t < |old(mem)| && ValidMem(old(mem))
      ensures n == NIL <==> !Leads(old(mem), t, i) && old(pmm.freePages) == 0
      ensures n != NIL ==> t < |mem| && t in space.tables && space.tables[t] == old(space.tables[t])
      ensures n != NIL ==> ChildAt(mem, space.tables, t, i) && n == Next(mem, t, i)
      ensures n != NIL ==> IsPath(old(space.tables)[t]) && Gained(old(mem), mem, space.root, old(space.tables), t, i)
      ensures n != NIL && !Leads(old(mem), t, i) ==> mem[n] == Zeros() && pmm.freePages == old(pmm.freePages) - 1
      ensures n == NIL || Leads(old(mem), t, i) ==>
        && pmm.freePages == old(pmm.freePages)
        && Unmoved(old(mem), old(space.tables), old(pmm.Abs()), mem, space.tables, pmm.Abs())
    {
      hide Decode, Encode, Tree, PageAllocator.Valid, Extends, BuddyTheory.Inv, Count, FreePages, Gained;
      RootPosition(mem, space.root, space.tables);
      InTree(mem, space.root, space.tables, t);
      pmm.StateKnown();
      if !Decode(mem[t][i]).present {
        ghost var free := pmm.FreeSet();
        var phys := pmm.AllocPage();
        if phys == 0 {
          pmm.StateKnown();
          ExtendsRefl(mem, space.tables, free);
          return NIL;
        }
        var p := phys / PAGE_SIZE;
        AddTableExtends(mem, space.root, space.tables, free, t, i, p);
        AddTableTree(mem, space.root, space.tables, t, i, p);
        AddTableGet(mem, t, i, p, t, i);
        AddTableGained(mem, space.root, space.tables, t, i, p);
        mem := PutWord(mem, t, i, Encode(Entry(true, true, true, 0, p, 0)));
        ClearPage(p);
        space.tables := space.tables[p := space.tables[t] + [i]];
        return p;
      }
      ExtendsRefl(mem, space.tables, pmm.FreeSet());
      PresentChild(mem, space.root, space.tables, t, i);
      SameGained(mem, space.root, space.tables, t, i);
      n := Decode(mem[t][i]).pfn;
    }

    /** The three table steps of a walk; NIL when a page was needed and none is free. */
    method WalkTables(space: AddressSpace, virt: nat) returns (pt: int)
      requires Holds(space) && virt <= USER_ADDR_MAX
      modifies `mem, space, pmm, pmm.frames, pmm.pool, pmm.pool.heads, pmm.pool.next, pmm.pool.prev
      ensures Holds(space) && pmm.cfg == old(pmm.cfg) && space.root < |mem| == |old(mem)|
      ensures Extends(old(mem), old(space.tables), old(pmm.FreeSet()), mem, space.tables, pmm.FreeSet())
      ensures SameFlat(old(mem), mem, space.root)
      ensures ValidMem(old(mem)) && UserPath(PathOf(virt))
      ensures pt == NIL <==> old(pmm.freePages) < Missing(old(mem), space.root, PathOf(virt))
      ensures pt == NIL ==> pmm.freePages == 0
      ensures pt != NIL ==> pt >= 0 && LeafTable(mem, space.root, space.tables, pt, virt)
      ensures pt != NIL ==> GainedPath(old(mem), mem, space.root, PathOf(virt), 3)
      ensures pt != NIL ==> pmm.freePages == old(pmm.freePages) - Missing(old(mem), space.root, PathOf(virt))
      ensures Missing(old(mem), space.root, PathOf(virt)) == 0 ==>
        Unmoved(old(mem), old(space.tables), old(pmm.Abs()), mem, space.tables, pmm.Abs())
    {
      hide Decode, Tree, PageAllocator.Valid, Extends, Get, Pml4Idx, PdptIdx, PdIdx, PtIdx, SameFlat, ChildAt, Leads,
           Next, LeafTable, Depth, Zeros, Gained, GainedPath, WalkedTo;
      ghost var m0, tables0, free0 := mem, space.tables, pmm.FreeSet();
      PathIsPage(virt);
      ghost var q := PathOf(virt);
      ghost var q1, q2, q3 := q[1..], q[2..], q[3..];
      assert q[0] < 256 && q[1] < 512 && q[2] < 512 && q1[1..] == q2 && q2[1..] == q3;
      WalkStart(m0, space.root, tables0, free0, q);
      Walked(m0, tables0, free0, m0, tables0, free0, space.root, q, 0, space.root);
      pt := GetOrCreate(space, space.root, Pml4Idx(virt));
      if pt == NIL {
        MissingHere(m0, space.root, q);
        return;
      }
      ghost var m1, tables1, free1 := mem, space.tables, pmm.FreeSet();
      ghost var pdpt := pt;
      WalkStep(m0, tables0, free0, m0, tables0, free0, m1, tables1, free1, space.root, q, 0, space.root);
      Walked(m0, tables0, free0, m1, tables1, free1, space.root, q, 1, pdpt);
      MissingStep(m0, space.root, q, m1, pdpt);
      pt := GetOrCreate(space, pt, PdptIdx(virt));
      if pt == NIL {
        MissingHere(m1, pdpt, q1);
        return;
      }
      ghost var m2, tables2, free2 := mem, space.tables, pmm.FreeSet();
      ghost var pd := pt;
      WalkStep(m0, tables0, free0, m1, tables1, free1, m2, tables2, free2, space.root, q, 1, pdpt);
      Walked(m0, tables0, free0, m2, tables2, free2, space.root, q, 2, pd);
      MissingStep(m1, pdpt, q1, m2, pd);
      pt := GetOrCreate(space, pt, PdIdx(virt));
      if pt == NIL {
        MissingHere(m2, pd, q2);
        return;
      }
      WalkStep(m0, tables0, free0, m2, tables2, free2, mem, space.tables, pmm.FreeSet(), space.root, q, 2, pd);
      Walked(m0, tables0, free0, mem, space.tables, pmm.FreeSet(), space.root, q, 3, pt);
      MissingStep(m2, pd, q2, mem, pt);
      MissingHere(mem, pt, q3);
      WalkEnd(m0, tables0, free0, mem, space.tables, pmm.FreeSet(), space.root, virt, pt);
    }

    /** vmm_walk_page_table: the frame address in the page's entry, or 0 when more tables
        are needed than pages are free. It may create tables, and changes no translation. */
    method WalkPageTable(space: AddressSpace, virt: nat) returns (phys: nat)
      requires Holds(space) && virt <= USER_ADDR_MAX
      modifies `mem, space, pmm, pmm.frames, pmm.pool, pmm.pool.heads, pmm.pool.next, pmm.pool.prev
      ensures Holds(space) && pmm.cfg == old(pmm.cfg) && space.root < |mem| == |old(mem)|
      ensures ValidMem(old(mem)) && virt / PAGE_SIZE < USER_PAGES
      ensures Extends(old(mem), old(space.tables), old(pmm.FreeSet()), mem, space.tables, pmm.FreeSet())
      ensures forall v :: 0 <= v < USER_PAGES ==> Flat(mem, space.root, v) == Flat(old(mem), space.root, v)
      ensures old(pmm.freePages) < TablesNeeded(old(mem), space.root, virt / PAGE_SIZE) ==>
        phys == 0 && pmm.freePages == 0
      ensures old(pmm.freePages) >= TablesNeeded(old(mem), space.root, virt / PAGE_SIZE) ==>
        && phys == Decode(Flat(old(mem), space.root, virt / PAGE_SIZE)).pfn * PAGE_SIZE
        && pmm.freePages == old(pmm.freePages) - TablesNeeded(old(mem), space.root, virt / PAGE_SIZE)
      ensures SameRights(old(mem), mem, space.root)
      ensures TablesNeeded(old(mem), space.root, virt / PAGE_SIZE) == 0 ==>
        Unmoved(old(mem), old(space.tables), old(pmm.Abs()), mem, space.tables, pmm.Abs())
    {
      hide Decode, Tree, PageAllocator.Valid, Extends, Lookup, Trail, Missing, PathOf, PtIdx;
      var pt := WalkTables(space, virt);
      SameFlatPages(old(mem), mem, space.root);
      PageOf(virt);
      if pt == NIL {
        return 0;
      }
      phys := Decode(mem[pt][PtIdx(virt)]).pfn * PAGE_SIZE;
    }

    /** vmm_map_page: it succeeds exactly when there is a free page for every missing
        table, and then exactly one page's entry changes; a map that fails part-way
        changes no translation. */
    method MapPage(space: AddressSpace, virt: nat, phys: nat, flags: U32) returns (ok: bool)
      requires Holds(space) && virt <= USER_ADDR_MAX
      modifies `mem, space, pmm, pmm.frames, pmm.pool, pmm.pool.heads, pmm.pool.next, pmm.pool.prev
      ensures Holds(space) && pmm.cfg == old(pmm.cfg) && space.root < |mem| == |old(mem)|
      ensures ValidMem(old(mem)) && virt / PAGE_SIZE < USER_PAGES
      ensures ok ==> FlatWritten(old(mem), mem, space.root, virt / PAGE_SIZE, Encode(Mapping(phys, flags)))
      ensures !ok ==> forall v :: 0 <= v < USER_PAGES ==> Flat(mem, space.root, v) == Flat(old(mem), space.root, v)
      ensures Confined(old(mem), old(space.tables), old(pmm.FreeSet()), mem, space.tables, pmm.FreeSet())
      ensures ok ==> GainedPath(old(mem), mem, space.root, PathOf(virt), 3)
      ensures ok <==> old(pmm.freePages) >= TablesNeeded(old(mem), space.root, virt / PAGE_SIZE)
      ensures pmm.freePages ==
        if ok then old(pmm.freePages) - TablesNeeded(old(mem), space.root, virt / PAGE_SIZE) else 0
      ensures SameRights(old(mem), mem, space.root)
      ensures TablesNeeded(old(mem), space.root, virt / PAGE_SIZE) == 0 ==>
        && pmm.Abs() == old(pmm.Abs()) && space.tables == old(space.tables)
        && OnlyLeaf(old(mem), mem, space.tables, virt / PAGE_SIZE)
    {
      hide Decode, Encode, Tree, PageAllocator.Valid, Extends, Confined, Lookup, Trail, Missing, PathOf, PtIdx, Mapping,
           GainedPath, OnlyLeaf;
      var pt := WalkTables(space, virt);
      SameFlatPages(old(mem), mem, space.root);
      ExtendsConfined(old(mem), old(space.tables), old(pmm.FreeSet()), mem, space.tables, pmm.FreeSet());
      PageOf(virt);
      if pt == NIL {
        return false;
      }
      ghost var m := mem;
      mem := PutWord(mem, pt, PtIdx(virt), Encode(Mapping(phys, flags)));
      LeafWritten(m, space.root, space.tables, pt, virt, Encode(Mapping(phys, flags)));
      LeafOnly(m, space.root, space.tables, pt, virt, Encode(Mapping(phys, flags)));
      GainedLeaf(old(mem), m, space.root, space.tables, PathOf(virt), pt, PtIdx(virt), Encode(Mapping(phys, flags)));
      ConfinedPut(old(mem), old(space.tables), old(pmm.FreeSet()), m, space.tables, pmm.FreeSet(), pt, PtIdx(virt),
                  Encode(Mapping(phys, flags)));
      ok := true;
    }

    /** vmm_unmap_page: the page's entry is cleared, no other translation changes, and
        no table is created. */
    method UnmapPage(space: AddressSpace, virt: nat)
      requires Holds(space) && virt <= USER_ADDR_MAX
      modifies `mem
      ensures Holds(space) && space.root < |mem| == |old(mem)|
      ensures ValidMem(old(mem)) && virt / PAGE_SIZE < USER_PAGES
      ensures FlatWritten(old(mem), mem, space.root, virt / PAGE_SIZE, 0) && SameRights(old(mem), mem, space.root)
      ensures OnlyLeaf(old(mem), mem, space.tables, virt / PAGE_SIZE)
    {
      hide Decode, Tree, PageAllocator.Valid, Lookup, Trail, Flat, PathOf;
      RootPosition(mem, space.root, space.tables);
      PathIsPage(virt);
      PageOf(virt);
      WalkFacts(mem, space.root, space.tables, virt);
      if !Decode(mem[space.root][Pml4Idx(virt)]).present {
        return;
      }
      var pdpt := Decode(mem[space.root][Pml4Idx(virt)]).pfn;
      if !Decode(mem[pdpt][PdptIdx(virt)]).present {
        return;
      }
      var pd := Decode(mem[pdpt][PdptIdx(virt)]).pfn;
      if !Decode(mem[pd][PdIdx(virt)]).present {
        return;
      }
      var pt := Decode(mem[pd][PdIdx(virt)]).pfn;
      LeafWritten(mem, space.root, space.tables, pt, virt, 0);
      LeafOnly(mem, space.root, space.tables, pt, virt, 0);
      mem := PutWord(mem, pt, PtIdx(virt), 0);
    }
  }

  /** The flat map changed at page v0, to w, and nowhere else. */
  ghost predicate FlatWritten(m: Mem, m': Mem, root: nat, v0: nat, w: Word)
    requires ValidMem(m) && ValidMem(m') && root < |m| == |m'|
  {
    forall v :: 0 <= v < USER_PAGES ==> Flat(m', root, v) == if v == v0 then w else Flat(m, root, v)
  }

  /** The last-level table of page v, by its position. */
  predicate IsLeafOf(tables: map<nat, seq<nat>>, f: nat, v: nat) {
    f in tables && tables[f] == PathOf(v * PAGE_SIZE)[..3]
  }

  /** Nothing but the last-level table of page v was written. */
  ghost predicate OnlyLeaf(m: Mem, m': Mem, tables: map<nat, seq<nat>>, v: nat) {
    |m'| == |m| && forall f :: 0 <= f < |m| && !IsLeafOf(tables, f, v) ==> m'[f] == m[f]
  }

  lemma LeafOnly(m: Mem, root: nat, tables: map<nat, seq<nat>>, pt: nat, virt: nat, w: Word)
    requires ValidMem(m) && virt <= USER_ADDR_MAX && LeafTable(m, root, tables, pt, virt) && PtIdx(virt) < 512
    ensures OnlyLeaf(m, PutWord(m, pt, PtIdx(virt), w), tables, virt / PAGE_SIZE)
  {
    hide Lookup, Trail, PathOf, PtIdx;
    PageOf(virt);
  }

  /** What the present bits along the walk of virt say. */
  lemma WalkFacts(m: Mem, root: nat, tables: map<nat, seq<nat>>, virt: nat)
    requires ValidMem(m) && Tree(m, root, tables) && virt <= USER_ADDR_MAX
    ensures root < |m| && virt / PAGE_SIZE < USER_PAGES && UserPath(PathOf(virt))
    ensures !Get(m, root, Pml4Idx(virt)).present ==> Flat(m, root, virt / PAGE_SIZE) == 0
    ensures Get(m, root, Pml4Idx(virt)).present ==>
      var pdpt := Get(m, root, Pml4Idx(virt)).pfn;
      && pdpt < |m|
      && (!Get(m, pdpt, PdptIdx(virt)).present ==> Flat(m, root, virt / PAGE_SIZE) == 0)
      && (Get(m, pdpt, PdptIdx(virt)).present ==>
            var pd := Get(m, pdpt, PdptIdx(virt)).pfn;
            && pd < |m|
            && (!Get(m, pd, PdIdx(virt)).present ==> Flat(m, root, virt / PAGE_SIZE) == 0)
            && (Get(m, pd, PdIdx(virt)).present ==> LeafTable(m, root, tables, Get(m, pd, PdIdx(virt)).pfn, virt)))
  {
    hide Decode, Tree, Pml4Idx, PdptIdx, PdIdx, PtIdx;
    PathIsPage(virt);
    PageOf(virt);
    RootPosition(m, root, tables);
    var q := PathOf(virt);
    var q1, q2 := q[1..], q[2..];
    assert q[0] < 256 && q[1] < 512 && q[2] < 512 && q1[1..] == q2 && q1[0] == q[1] && q2[0] == q[2];
    assert Flat(m, root, virt / PAGE_SIZE) == Lookup(m, root, q);
    if Get(m, root, q[0]).present {
      PresentChild(m, root, tables, root, q[0]);
      var pdpt := Get(m, root, q[0]).pfn;
      assert Lookup(m, root, q) == Lookup(m, pdpt, q1);
      if Get(m, pdpt, q[1]).present {
        PresentChild(m, root, tables, pdpt, q[1]);
        var pd := Get(m, pdpt, q[1]).pfn;
        assert Lookup(m, pdpt, q1) == Lookup(m, pd, q2);
        if Get(m, pd, q[2]).present {
          PresentChild(m, root, tables, pd, q[2]);
          ThreeSteps(m, root, tables, pdpt, pd, Get(m, pd, q[2]).pfn, virt);
        }
      }
    }
  }

  lemma Pow2Frames()
    ensures Pow2(12) == 0x1000 && Pow2(40) == 0x100_0000_0000
  {
    assert Pow2(8) == 256;
    assert Pow2(16) == 0x1_0000;
    assert Pow2(24) == 0x100_0000;
    assert Pow2(32) == 0x1_0000_0000;
  }

  /** The entry vmm_map_page writes: the frame bits of phys, PRESENT, and all 32 bits
      of the flags, whose upper ones fall on the frame number. */
  function Mapping(phys: nat, flags: U32): Entry {
    Pow2Frames();
    Decode(flags % 0x1000).(present := true, pfn := Or((phys / PAGE_SIZE) % 0x100_0000_0000, flags / 0x1000, 40),
                                   high := 0)
  }

  /** Flags below bit 12 leave the frame number alone. */
  lemma PlainMapping(p: nat, flags: U12)
    requires p < 0x100_0000_0000
    ensures Mapping(p * PAGE_SIZE, flags) == Decode(flags).(present := true, pfn := p, high := 0)
  {
    hide Decode, Or, Pow2;
    assert (p * PAGE_SIZE) / PAGE_SIZE == p;
    Pow2Frames();
    OrZero(p, 40);
  }

  /** Which is to say: the address with its lowest twelve and highest twelve bits cleared,
      or the flags, or PRESENT. */
  lemma MappingIsOr(phys: nat, flags: U32)
    ensures Encode(Mapping(phys, flags)) == Or(Or((phys / 0x1000) % 0x100_0000_0000 * 0x1000, flags, 64), 1, 64)
  {
    hide Or, Pow2, Decode;
    var f := (phys / 0x1000) % 0x100_0000_0000;
    Pow2Frames();
    FrameOr(f, flags);
    var p := Or(f, flags / 0x1000, 40);
    var y := Or(f * 0x1000, flags, 64);
    PresentOr(y);
    MappedWord(p, flags % 0x1000);
    EncodeDecode(2 * (y / 2) + 1);
  }

  lemma FrameOr(f: nat, flags: U32)
    requires f < 0x100_0000_0000
    ensures Or(f * 0x1000, flags, 64) == Or(f, flags / 0x1000, 40) * 0x1000 + flags % 0x1000
  {
    hide Or, Pow2;
    Pow2Frames();
    var g, low := flags / 0x1000, flags % 0x1000;
    OrJoin(f, g, 0, low, 52, 12);
    OrZeroLeft(low, 12);
    OrJoin(0, 0, f, g, 12, 40);
    OrZero(0, 12);
  }

  /** Setting the lowest bit. */
  lemma PresentOr(y: nat)
    requires y < Pow2(64)
    ensures Or(y, 1, 64) == 2 * (y / 2) + 1
  {
    assert Pow2(64) == 2 * Pow2(63);
    assert Or(y, 1, 64) == 2 * Or(y / 2, 0, 63) + 1;
    OrZero(y / 2, 63);
  }

  lemma MappedWord(p: U40, flags: U12)
    ensures var y := p * 0x1000 + flags;
      2 * (y / 2) + 1 < 0x1_0000_0000_0000_0000 &&
      Decode(2 * (y / 2) + 1) == Decode(flags).(present := true, pfn := p, high := 0)
  {
    var y, f1 := p * 0x1000 + flags, flags / 2;
    var w1, f2 := p * 0x800 + f1, f1 / 2;
    var w2, f3 := p * 0x400 + f2, f2 / 2;
    var w3 := p * 0x200 + f3;
    assert y / 2 == w1 && (2 * w1 + 1) / 2 == w1;
    assert w1 / 2 == w2 && w1 % 2 == f1 % 2;
    assert w2 / 2 == w3 && w2 % 2 == f2 % 2;
    assert w3 / 0x200 == p && w3 % 0x200 == f3 == f3 % 0x200;
  }

  lemma PageOf(virt: nat)
    requires virt <= USER_ADDR_MAX
    ensures virt / PAGE_SIZE < USER_PAGES && PathOf(virt / PAGE_SIZE * PAGE_SIZE) == PathOf(virt) && PtIdx(virt) < 512
  {
    PathIsPage(virt);
    PageIsPath(PathOf(virt));
  }

  lemma SameFlatPages(m: Mem, m': Mem, root: nat)
    requires ValidMem(m) && ValidMem(m') && |m| == |m'| && root < |m| && SameFlat(m, m', root)
    ensures forall v :: 0 <= v < USER_PAGES ==> Flat(m', root, v) == Flat(m, root, v)
    ensures SameRights(m, m', root)
  {
    hide Lookup;
    forall v | 0 <= v < USER_PAGES
      ensures Flat(m', root, v) == Flat(m, root, v)
    {
      PathIsPage(v * PAGE_SIZE);
    }
  }

  /** Writing the entry of virt in its last-level table, in terms of the flat map. */
  lemma LeafWritten(m: Mem, root: nat, tables: map<nat, seq<nat>>, pt: nat, virt: nat, w: Word)
    requires ValidMem(m) && Tree(m, root, tables) && virt <= USER_ADDR_MAX && LeafTable(m, root, tables, pt, virt)
    ensures PtIdx(virt) < 512 && Tree(PutWord(m, pt, PtIdx(virt), w), root, tables) && virt / PAGE_SIZE < USER_PAGES
    ensures FlatWritten(m, PutWord(m, pt, PtIdx(virt), w), root, virt / PAGE_SIZE, w)
    ensures SameRights(m, PutWord(m, pt, PtIdx(virt), w), root)
  {
    hide Decode, Tree, Lookup, Trail, Pml4Idx, PdptIdx, PdIdx, PtIdx, Passes;
    PageOf(virt);
    var i, q := PtIdx(virt), PathOf(virt);
    assert q[..3] + [i] == q;
    PutWordTree(m, root, tables, pt, i, w);
    PutWordRights(m, root, tables, pt, i, w);
    forall v | 0 <= v < USER_PAGES
      ensures Flat(PutWord(m, pt, i, w), root, v) == if v == virt / PAGE_SIZE then w else Flat(m, root, v)
    {
      PathIsPage(v * PAGE_SIZE);
      PathIsPage(virt);
      PutWordFlat(m, root, tables, pt, i, w, PathOf(v * PAGE_SIZE));
    }
  }

  /** Only this space's tables and pages no longer free were written, and new tables were
      free. */
  ghost predicate Confined(m: Mem, tables: map<nat, seq<nat>>, free: set<nat>, m': Mem, tables': map<nat, seq<nat>>,
                           free': set<nat>) {
    && ValidMem(m) && ValidMem(m') && |m'| == |m| && free' <= free
    && (forall x :: x in tables ==> x in tables' && tables'[x] == tables[x])
    && (forall x :: x in tables' ==> x in tables || x in free - free')
    && (forall f :: 0 <= f < |m| && f !in tables && f !in free - free' ==> m'[f] == m[f])
    && WordsMade(m, tables, m', tables', free - free')
  }

  lemma ConfinedRefl(m: Mem, tables: map<nat, seq<nat>>, free: set<nat>)
    requires ValidMem(m)
    ensures Confined(m, tables, free, m, tables, free)
  {
  }

  /** One more step that first takes page p and in the end fills it. */
  lemma ConfinedNext(m: Mem, tables: map<nat, seq<nat>>, free: set<nat>, m1: Mem, tables1: map<nat, seq<nat>>,
                     free1: set<nat>, m2: Mem, tables2: map<nat, seq<nat>>, free2: set<nat>, p: nat, m3: Mem)
    requires Confined(m, tables, free, m1, tables1, free1)
    requires Confined(m1, tables1, free1 - {p}, m2, tables2, free2)
    requires p in free1 && p !in tables2 && p < |m| && ValidMem(m3) && |m3| == |m2| && m3 == m2[p := m3[p]]
    ensures Confined(m, tables, free, m3, tables2, free2)
  {
    hide Decode, WordsMade, ValidMem;
    FilledWords(m1, tables1, free1 - {p} - free2, m2, tables2, p, m3);
    WordsMadeTrans(m, tables, m1, tables1, free - free1, m3, tables2, free1 - {p} - free2, free - free2);
  }

  lemma FilledWords(m1: Mem, tables1: map<nat, seq<nat>>, taken: set<nat>, m2: Mem, tables2: map<nat, seq<nat>>,
                    p: nat, m3: Mem)
    requires ValidMem(m1) && ValidMem(m2) && ValidMem(m3) && |m1| == |m2| == |m3| && p < |m2|
    requires WordsMade(m1, tables1, m2, tables2, taken) && p !in tables2 && m3 == m2[p := m3[p]]
    ensures WordsMade(m1, tables1, m3, tables2, taken)
  {
    hide Decode;
    forall s, j | s in tables2 && s < |m1| && |tables2[s]| < 3 && 0 <= j < 512
      ensures WordMade(m1, tables1, m3, tables2, taken, s, j)
    {
      assert WordMade(m1, tables1, m2, tables2, taken, s, j);
    }
  }

  lemma ExtendsConfined(m: Mem, tables: map<nat, seq<nat>>, free: set<nat>, m': Mem, tables': map<nat, seq<nat>>,
                        free': set<nat>)
    requires ValidMem(m) && Extends(m, tables, free, m', tables', free')
    ensures Confined(m, tables, free, m', tables', free')
  {
  }

  lemma ConfinedPut(m: Mem, tables: map<nat, seq<nat>>, free: set<nat>, m': Mem, tables': map<nat, seq<nat>>,
                    free': set<nat>, t: nat, i: nat, w: Word)
    requires ValidMem(m') && Confined(m, tables, free, m', tables', free') && t in tables' && t < |m'| && i < 512
    requires |tables'[t]| == 3
    ensures Confined(m, tables, free, PutWord(m', t, i, w), tables', free')
  {
    hide Decode;
    var m2 := PutWord(m', t, i, w);
    forall s, j | s in tables' && s < |m| && |tables'[s]| < 3 && 0 <= j < 512
      ensures WordMade(m, tables, m2, tables', free - free', s, j)
    {
      assert WordMade(m, tables, m', tables', free - free', s, j);
    }
  }

  /** pt is the last-level table of user address virt. */
  ghost predicate LeafTable(m: Mem, root: nat, tables: map<nat, seq<nat>>, pt: nat, virt: nat)
    requires ValidMem(m)
  {
    && UserPath(PathOf(virt)) && root < |m| && pt in tables && pt < |m| && tables[pt] == PathOf(virt)[..3]
    && pt in Trail(m, root, PathOf(virt)) && Lookup(m, root, PathOf(virt)) == m[pt][PtIdx(virt)]
  }

  lemma ThreeSteps(m: Mem, root: nat, tables: map<nat, seq<nat>>, pdpt: nat, pd: nat, pt: nat, virt: nat)
    requires ValidMem(m) && virt <= USER_ADDR_MAX && root < |m| && pdpt < |m| && pd < |m|
    requires root in tables && tables[root] == [] && pdpt in tables && pd in tables
    requires var q := PathOf(virt);
      && ChildAt(m, tables, root, q[0]) && Next(m, root, q[0]) == pdpt
      && ChildAt(m, tables, pdpt, q[1]) && Next(m, pdpt, q[1]) == pd
      && ChildAt(m, tables, pd, q[2]) && Next(m, pd, q[2]) == pt
    ensures LeafTable(m, root, tables, pt, virt)
  {
    hide Decode, Get, Pml4Idx, PdptIdx, PdIdx, PtIdx;
    PathIsPage(virt);
    var q := PathOf(virt);
    var q1, q2, q3 := q[1..], q[2..], q[3..];
    assert q1[1..] == q2 && q2[1..] == q3 && q1[0] == q[1] && q2[0] == q[2] && q3[0] == q[3];
    assert Lookup(m, pt, q3) == m[pt][q[3]] && Trail(m, pt, q3) == {pt};
    assert Lookup(m, pd, q2) == Lookup(m, pt, q3) && pt in Trail(m, pd, q2);
    assert Lookup(m, pdpt, q1) == Lookup(m, pd, q2) && pt in Trail(m, pdpt, q1);
    assert [] + [q[0]] + [q[1]] + [q[2]] == q[..3];
  }

  lemma ChildPosition(m: Mem, tables: map<nat, seq<nat>>, t: nat, i: nat)
    requires ValidMem(m) && t < |m| && i < 512 && t in tables && ChildAt(m, tables, t, i)
    ensures Leads(m, t, i) && Next(m, t, i) in tables && tables[Next(m, t, i)] == tables[t] + [i] && Next(m, t, i) < |m|
  {
  }

  lemma SameTrans(m: Mem, m1: Mem, m2: Mem, root: nat)
    requires ValidMem(m) && ValidMem(m1) && ValidMem(m2) && |m| == |m1| == |m2| && root < |m|
    requires SameFlat(m, m1, root) && SameFlat(m1, m2, root)
    ensures SameFlat(m, m2, root)
  {
  }

  lemma ExtendsRefl(m: Mem, tables: map<nat, seq<nat>>, free: set<nat>)
    requires ValidMem(m)
    ensures Extends(m, tables, free, m, tables, free)
  {
  }
}
