/** The child of a finished clone: how its walks compare with the parent's, which pages
    it maps, and the shape of its tables. */
module Child {
  import opened Paging
  import opened Clone

  /** The parent's root has been copied to child. */
  ghost predicate Finished(m0: Mem, m1: Mem, root: nat, tables: map<nat, seq<nat>>, child: nat,
                           free0: set<nat>, free1: set<nat>, copies: Copies)
  {
    && ValidMem(m0) && ValidMem(m1) && |m0| == |m1| && root < |m0| && child < |m0|
    && Ready(m0, root, tables, root, child, free0) && tables[root] == []
    && Copied(m0, m1, tables, root, child, 512, free0, free1, copies)
  }

  /** What is known of one copied table. */
  lemma CopyFacts(m0: Mem, m1: Mem, root: nat, tables: map<nat, seq<nat>>, child: nat, free0: set<nat>, free1: set<nat>,
                  copies: Copies, c: nat)
    requires Finished(m0, m1, root, tables, child, free0, free1, copies) && c in copies
    ensures c < |m0| && (c == child || c in free0 - free1) && c !in tables
    ensures copies[c] in tables && copies[c] < |m0| && Low(tables[copies[c]]) && |tables[copies[c]]| <= 3
    ensures forall j :: 0 <= j < 512 ==> EntryCopied(m0, m1, copies, c, copies[c], j, |tables[copies[c]]|)
  {
    hide ParentKept, OthersKept, EntryCopied;
    InTree(m0, root, tables, copies[c]);
    assert c !in tables.Keys;
    assert tables[copies[c]][0..] == tables[copies[c]];
  }

  /** The parent's own words: only low last-level ones changed. */
  lemma ParentWord(m0: Mem, m1: Mem, root: nat, tables: map<nat, seq<nat>>, child: nat, free0: set<nat>,
                   free1: set<nat>, copies: Copies, s: nat, j: nat)
    requires Finished(m0, m1, root, tables, child, free0, free1, copies) && s in tables && s < |m0| && j < 512
    ensures |tables[s]| < 3 || j >= 256 ==> m1[s][j] == m0[s][j]
  {
    hide OthersKept, EntryCopied, Decode, Protect;
    if m1[s][j] != m0[s][j] {
      var pos := tables[s] + [j];
      assert pos[0..] == pos && pos[|tables[s]|] == j;
    }
  }

  /** From a copied table along a low index that the parent has. */
  lemma CopyStep(m0: Mem, m1: Mem, root: nat, tables: map<nat, seq<nat>>, child: nat, free0: set<nat>, free1: set<nat>,
                 copies: Copies, c: nat, i: nat)
    requires Finished(m0, m1, root, tables, child, free0, free1, copies) && c in copies && i < 256
    requires c < |m0| && copies[c] in tables && copies[c] < |m0| && |tables[copies[c]]| < 3
    requires Get(m0, copies[c], i).present
    ensures Leads(m0, copies[c], i) && Leads(m1, c, i) && Next(m1, c, i) in copies
    ensures copies[Next(m1, c, i)] == Next(m0, copies[c], i)
    ensures Get(m1, c, i).user == Get(m0, copies[c], i).user && Get(m1, c, i).write == Get(m0, copies[c], i).write
  {
    CopyFacts(m0, m1, root, tables, child, free0, free1, copies, c);
    assert EntryCopied(m0, m1, copies, c, copies[c], i, |tables[copies[c]]|);
    var p := Decode(m1[c][i]).pfn;
    TableEntryParts(m0[copies[c]][i], p);
    CopyFacts(m0, m1, root, tables, child, free0, free1, copies, p);
    hide Copied, EntryCopied, Ready, TableEntry, Tree;
  }

  /** A word the parent's tables lead to, after a copy that may have stopped early. */
  lemma {:induction false} KeptLookup(m0: Mem, m1: Mem, root: nat, tables: map<nat, seq<nat>>, t: nat, q: seq<nat>)
    requires ValidMem(m0) && ValidMem(m1) && |m0| == |m1| && Tree(m0, root, tables) && Below(m0, tables, t, q)
    requires IsPath(q)
    requires ParentKept(m0, m1, tables, [], 512)
    ensures Passes(m1, t, q) == Passes(m0, t, q)
    ensures Lookup(m1, t, q) == Lookup(m0, t, q) ||
      (Low(tables[t] + q) && Decode(Lookup(m0, t, q)).present && Lookup(m1, t, q) == Protect(Lookup(m0, t, q)))
    decreases |q|
  {
    hide Decode, Protect, Tree;
    if |q| == 1 {
      assert (tables[t] + q)[0..] == tables[t] + q && q == [q[0]];
    } else {
      BelowNext(m0, root, tables, t, q);
      assert m1[t][q[0]] == m0[t][q[0]];
      if Leads(m0, t, q[0]) {
        var n := Next(m0, t, q[0]);
        KeptLookup(m0, m1, root, tables, n, q[1..]);
        assert tables[n] + q[1..] == tables[t] + q;
      }
    }
  }

  lemma LowTail(q: seq<nat>)
    requires q != [] && q[0] < 256
    ensures Low(q) <==> Low(q[1..])
  {
    assert forall i :: 0 <= i < |q| - 1 ==> q[1..][i] == q[i + 1];
    assert forall i :: 0 < i < |q| ==> q[i] == q[1..][i - 1];
  }

  /** Beyond an index of 256 or more nothing of the parent's changed. */
  lemma SharedLookup(m0: Mem, m1: Mem, root: nat, tables: map<nat, seq<nat>>, child: nat, free0: set<nat>,
                     free1: set<nat>, copies: Copies, s: nat, r: seq<nat>)
    requires Finished(m0, m1, root, tables, child, free0, free1, copies) && Below(m0, tables, s, r) && IsPath(r)
    requires r[0] >= 256
    ensures Lookup(m1, s, r) == Lookup(m0, s, r) && Passes(m1, s, r) == Passes(m0, s, r)
    ensures forall x :: x in Trail(m1, s, r) ==> x in tables
  {
    hide EntryCopied, OthersKept, Decode, Protect, Tree, Lookup, Trail, Passes;
    KeptLookup(m0, m1, root, tables, s, r);
    assert (tables[s] + r)[|tables[s]|] == r[0];
    KeptTree(m0, m1, root, tables, [], 512);
    forall x | x in Trail(m1, s, r)
      ensures x in tables
    {
      TrailPositions(m1, root, tables, s, r, x);
    }
  }

  /** Two tables with the same word at r[0] read the same along r. */
  lemma SameEntry(m: Mem, c: nat, s: nat, r: seq<nat>)
    requires ValidMem(m) && c < |m| && s < |m| && IsPath(r) && r != [] && m[c][r[0]] == m[s][r[0]]
    ensures Lookup(m, c, r) == Lookup(m, s, r) && Passes(m, c, r) == Passes(m, s, r)
    ensures forall x :: x in Trail(m, c, r) ==> x == c || x in Trail(m, s, r)
  {
    hide Decode;
  }

  /** A page the parent maps: both spaces end with the cloned word, and the child gets
      there over its own pages unless an index is 256 or more. */
  lemma {:induction false} ClonedWalk(m0: Mem, m1: Mem, root: nat, tables: map<nat, seq<nat>>, child: nat,
                                      free0: set<nat>, free1: set<nat>, copies: Copies, c: nat, r: seq<nat>)
    requires Finished(m0, m1, root, tables, child, free0, free1, copies) && c in copies && c < |m0|
    requires Below(m0, tables, copies[c], r) && IsPath(r) && Decode(Lookup(m0, copies[c], r)).present
    ensures Lookup(m1, c, r) == Lookup(m1, copies[c], r) == Cloned(Lookup(m0, copies[c], r), r)
    ensures Passes(m1, c, r) == Passes(m0, copies[c], r)
    ensures forall x :: x in Trail(m1, c, r) ==> x in copies || (!Low(r) && x in tables)
    decreases |r|
  {
    hide Finished, Copied, Decode, Protect, Tree, TableEntry, Ready;
    var s := copies[c];
    FinishedTree(m0, m1, root, tables, child, free0, free1, copies);
    CopyFacts(m0, m1, root, tables, child, free0, free1, copies, c);
    assert EntryCopied(m0, m1, copies, c, s, r[0], |tables[s]|);
    PresentOnTheWay(m0, s, r);
    if r[0] >= 256 {
      ParentWord(m0, m1, root, tables, child, free0, free1, copies, s, r[0]);
      SameEntry(m1, c, s, r);
      SharedLookup(m0, m1, root, tables, child, free0, free1, copies, s, r);
      assert !Low(r);
    } else if |r| > 1 {
      BelowNext(m0, root, tables, s, r);
      CopyStep(m0, m1, root, tables, child, free0, free1, copies, c, r[0]);
      ParentWord(m0, m1, root, tables, child, free0, free1, copies, s, r[0]);
      LowTail(r);
      ClonedWalk(m0, m1, root, tables, child, free0, free1, copies, Next(m1, c, r[0]), r[1..]);
    }
  }

  lemma FinishedTree(m0: Mem, m1: Mem, root: nat, tables: map<nat, seq<nat>>, child: nat, free0: set<nat>,
                     free1: set<nat>, copies: Copies)
    requires Finished(m0, m1, root, tables, child, free0, free1, copies)
    ensures ValidMem(m0) && ValidMem(m1) && |m0| == |m1| && root < |m0| && child < |m0|
    ensures Tree(m0, root, tables) && Tree(m1, root, tables) && root in tables && tables[root] == []
    ensures child in copies && copies[child] == root && ParentKept(m0, m1, tables, [], 512)
  {
    hide EntryCopied, OthersKept, Decode;
    KeptTree(m0, m1, root, tables, [], 512);
  }

  lemma PresentOnTheWay(m: Mem, t: nat, q: seq<nat>)
    requires ValidMem(m) && t < |m| && IsPath(q) && q != [] && Decode(Lookup(m, t, q)).present
    ensures Decode(m[t][q[0]]).present
  {
    hide Decode;
    ZeroAbsent();
  }

  // ---------------------------------------------------------------------------
  // Pages the parent does not map

  /** The word that entry word w leads to along r. */
  function Through(m: Mem, w: Word, r: seq<nat>): Word
    requires ValidMem(m) && IsPath(r)
  {
    if r == [] then w
    else if Decode(w).present && Decode(w).pfn < |m| then Lookup(m, Decode(w).pfn, r)
    else 0
  }

  lemma LookupThrough(m: Mem, t: nat, q: seq<nat>)
    requires ValidMem(m) && t < |m| && IsPath(q) && q != []
    ensures Lookup(m, t, q) == Through(m, m[t][q[0]], q[1..])
  {
    hide Decode;
  }

  /** The walk along r from a copied table ends, for the parent, after d tables; unless
      that is beyond a shared entry, the child's walk comes to the copy of the table it
      ends at, whose entry is what that page held before the clone. */
  ghost predicate EndsAtCopy(m0: Mem, m1: Mem, tables: map<nat, seq<nat>>, copies: Copies, c: nat, r: seq<nat>, d: nat)
    requires ValidMem(m0) && ValidMem(m1) && |m0| == |m1| && c < |m0| && IsPath(r) && d < |r| && c in copies
    requires copies[c] in tables
  {
    var e := Follow(m1, c, r[..d]);
    && e in copies && copies[e] in tables && |tables[copies[e]]| == |tables[copies[c]]| + d
    && m1[e][r[d]] == m0[e][r[d]]
    && Lookup(m1, c, r) == Through(m1, m0[e][r[d]], r[d + 1..])
  }

  lemma {:induction false} AbsentWalk(m0: Mem, m1: Mem, root: nat, tables: map<nat, seq<nat>>, child: nat,
                                      free0: set<nat>, free1: set<nat>, copies: Copies, c: nat, r: seq<nat>)
    requires Finished(m0, m1, root, tables, child, free0, free1, copies) && c in copies && c < |m0|
    requires Below(m0, tables, copies[c], r) && IsPath(r) && copies[c] < |m0|
    requires !Decode(Lookup(m0, copies[c], r)).present
    ensures var d := Depth(m0, copies[c], r);
      if Low(r[..d]) then EndsAtCopy(m0, m1, tables, copies, c, r, d) else !Decode(Lookup(m1, c, r)).present
    decreases |r|
  {
    hide Finished, Copied, Decode, Protect, Tree, TableEntry, Ready, Lookup;
    FinishedTree(m0, m1, root, tables, child, free0, free1, copies);
    var s, d := copies[c], Depth(m0, copies[c], r);
    CopyFacts(m0, m1, root, tables, child, free0, free1, copies, c);
    assert EntryCopied(m0, m1, copies, c, s, r[0], |tables[s]|);
    if |r| > 1 {
      BelowNext(m0, root, tables, s, r);
    } else {
      LookupThrough(m0, s, r);
    }
    if d == 0 {
      assert r[..0] == [] && r[0 + 1..] == r[1..];
      LookupThrough(m1, c, r);
    } else {
      assert r[..d][0] == r[0];
      LookupThrough(m0, s, r);
      if r[0] >= 256 {
        ParentWord(m0, m1, root, tables, child, free0, free1, copies, s, r[0]);
        SameEntry(m1, c, s, r);
        SharedLookup(m0, m1, root, tables, child, free0, free1, copies, s, r);
      } else {
        CopyStep(m0, m1, root, tables, child, free0, free1, copies, c, r[0]);
        var p := Next(m1, c, r[0]);
        AbsentWalk(m0, m1, root, tables, child, free0, free1, copies, p, r[1..]);
        LookupThrough(m1, c, r);
        LowTail(r[..d]);
        assert r[..d][1..] == r[1..][..d - 1] && r[d + 1..] == r[1..][d..];
      }
    }
  }

  /** A copied table has a present entry exactly where the parent's table has one or the
      page happened to hold one: it is never cleared. */
  lemma TableLeak(m0: Mem, m1: Mem, root: nat, tables: map<nat, seq<nat>>, child: nat, free0: set<nat>, free1: set<nat>,
                  copies: Copies, c: nat, j: nat)
    requires Finished(m0, m1, root, tables, child, free0, free1, copies) && c in copies && c < |m0| && copies[c] < |m0|
    requires j < 512
    ensures Decode(m1[c][j]).present <==> Decode(m0[copies[c]][j]).present || Decode(m0[c][j]).present
  {
    CopyFacts(m0, m1, root, tables, child, free0, free1, copies, c);
    assert EntryCopied(m0, m1, copies, c, copies[c], j, |tables[copies[c]]|);
    ProtectKeeps(m0[copies[c]][j]);
    TableEntryParts(m0[copies[c]][j], Decode(m1[c][j]).pfn);
    hide Finished, Decode, Protect, TableEntry;
  }

  // ---------------------------------------------------------------------------
  // The child's tables

  /** The child's tables and their positions: the copies, and the parent's tables beyond
      an index of 256 or more. */
  ghost function ChildTables(tables: map<nat, seq<nat>>, copies: Copies): map<nat, seq<nat>> {
    map t | t in tables.Keys + copies.Keys && (if t in copies then copies[t] in tables else !Low(tables[t])) ::
      if t in copies then tables[copies[t]] else tables[t]
  }

  /** Where the parent has no table, the copy's page held no present word. */
  ghost predicate Clean(m0: Mem, tables: map<nat, seq<nat>>, copies: Copies)
    requires ValidMem(m0)
  {
    forall c, j: nat {:trigger m0[c][j]} ::
      && c in copies && c < |m0| && copies[c] in tables && copies[c] < |m0|
      && Inner(tables[copies[c]], j) && Decode(m0[c][j]).present ==>
        Decode(m0[copies[c]][j]).present
  }

  lemma ChildEntry(m0: Mem, m1: Mem, root: nat, tables: map<nat, seq<nat>>, child: nat, free0: set<nat>,
                   free1: set<nat>, copies: Copies, t: nat, i: nat)
    requires Finished(m0, m1, root, tables, child, free0, free1, copies) && Clean(m0, tables, copies)
    requires t in ChildTables(tables, copies) && t < |m0| && Inner(ChildTables(tables, copies)[t], i)
    requires Get(m1, t, i).present
    ensures ChildAt(m1, ChildTables(tables, copies), t, i)
  {
    hide Finished, Copied, Decode, Protect, Tree, TableEntry, Ready;
    FinishedTree(m0, m1, root, tables, child, free0, free1, copies);
    var s := if t in copies then copies[t] else t;
    InTree(m0, root, tables, s);
    ParentWord(m0, m1, root, tables, child, free0, free1, copies, s, i);
    if t in copies {
      CopyFacts(m0, m1, root, tables, child, free0, free1, copies, t);
      assert EntryCopied(m0, m1, copies, t, s, i, |tables[s]|);
    }
    assert Get(m0, s, i).present;
    PresentChild(m0, root, tables, s, i);
    var n := Next(m0, s, i);
    if t in copies && i < 256 {
      CopyStep(m0, m1, root, tables, child, free0, free1, copies, t, i);
    } else {
      NotACopy(m0, m1, root, tables, child, free0, free1, copies, n);
      BeyondShared(tables[s], i);
    }
  }

  lemma NotACopy(m0: Mem, m1: Mem, root: nat, tables: map<nat, seq<nat>>, child: nat, free0: set<nat>, free1: set<nat>,
                 copies: Copies, n: nat)
    requires Finished(m0, m1, root, tables, child, free0, free1, copies) && n in tables
    ensures n !in copies
  {
    hide Finished;
    if n in copies {
      CopyFacts(m0, m1, root, tables, child, free0, free1, copies, n);
    }
  }

  lemma BeyondShared(pos: seq<nat>, i: nat)
    ensures i >= 256 || !Low(pos) ==> !Low(pos + [i])
  {
    assert (pos + [i])[|pos|] == i;
    assert forall k :: 0 <= k < |pos| ==> (pos + [i])[k] == pos[k];
  }

  /** The child's tables are tree-shaped, over pages that are not free. */
  lemma ChildTree(m0: Mem, m1: Mem, root: nat, tables: map<nat, seq<nat>>, child: nat, free0: set<nat>, free1: set<nat>,
                  copies: Copies)
    requires Finished(m0, m1, root, tables, child, free0, free1, copies) && Clean(m0, tables, copies)
    ensures Tree(m1, child, ChildTables(tables, copies))
  {
    FinishedTree(m0, m1, root, tables, child, free0, free1, copies);
    hide Finished, Copied, Decode, Ready, ChildAt, Low;
    var ct := ChildTables(tables, copies);
    forall t | t in ct
      ensures t < |m1| && |ct[t]| <= 3 && UserPath(ct[t])
    {
      if t in copies {
        CopyFacts(m0, m1, root, tables, child, free0, free1, copies, t);
      }
    }
    forall t, i | t in ct && Inner(ct[t], i) && Get(m1, t, i).present
      ensures ChildAt(m1, ct, t, i)
    {
      ChildEntry(m0, m1, root, tables, child, free0, free1, copies, t, i);
    }
  }

  /** Each of the child's tables is a page it took or a shared table of the parent. */
  lemma ChildOwns(m0: Mem, m1: Mem, root: nat, tables: map<nat, seq<nat>>, child: nat, free0: set<nat>, free1: set<nat>,
                  copies: Copies)
    requires Finished(m0, m1, root, tables, child, free0, free1, copies)
    ensures ChildTables(tables, copies).Keys !! free1
    ensures forall t :: t in ChildTables(tables, copies) ==>
      t == child || t in free0 - free1 || (t in tables && !Low(tables[t]))
    ensures forall t :: t in ChildTables(tables, copies) && t in tables ==>
      !Low(tables[t]) && ChildTables(tables, copies)[t] == tables[t]
  {
    hide Finished, Copied, EntryCopied, Low;
    var ct := ChildTables(tables, copies);
    forall t | t in ct
      ensures t !in free1 && (t == child || t in free0 - free1 || (t in tables && !Low(tables[t])))
      ensures t in tables ==> !Low(tables[t]) && ct[t] == tables[t]
    {
      NotFree(m0, m1, root, tables, child, free0, free1, copies, t);
      if t in copies {
        CopyFacts(m0, m1, root, tables, child, free0, free1, copies, t);
      }
    }
  }

  lemma NotFree(m0: Mem, m1: Mem, root: nat, tables: map<nat, seq<nat>>, child: nat, free0: set<nat>, free1: set<nat>,
                copies: Copies, t: nat)
    requires Finished(m0, m1, root, tables, child, free0, free1, copies)
    ensures t in tables || t == child ==> t !in free1
  {
    hide ParentKept, EntryCopied;
    assert t in tables ==> t in tables.Keys;
  }
}
