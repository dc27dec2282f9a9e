/** Page-table entries and four-level tables on values (Intel SDM volume 3A, section
    4.5). Physical memory is a sequence of 4 KiB pages of 512 words. */
module Paging {

  type Word = w: nat | w < 0x1_0000_0000_0000_0000
  type U9 = n: nat | n < 0x200
  type U12 = n: nat | n < 0x1000
  type U32 = n: nat | n < 0x1_0000_0000
  type U40 = n: nat | n < 0x100_0000_0000

  type Mem = seq<seq<Word>>

  /** The fields of a 64-bit entry: bits 0, 1 and 2, bits 3 to 11, the frame number
      in bits 12 to 51, and bits 52 to 63. */
  datatype Entry = Entry(present: bool, write: bool, user: bool, low: U9, pfn: U40, high: U12)

  function Bit(b: bool): nat {
    if b then 1 else 0
  }

  /** The bits of w above its low ones, one field at a time. */
  function Decode(w: Word): Entry {
    var w1 := w / 2;
    var w2 := w1 / 2;
    var w3 := w2 / 2;
    var w12 := w3 / 0x200;
    Entry(w % 2 == 1, w1 % 2 == 1, w2 % 2 == 1, w3 % 0x200, w12 % 0x100_0000_0000, w12 / 0x100_0000_0000)
  }

  function Encode(e: Entry): (w: Word)
    ensures Decode(w) == e
  {
    var w12 := e.pfn + 0x100_0000_0000 * e.high;
    var w3 := e.low + 0x200 * w12;
    var w2 := Bit(e.user) + 2 * w3;
    var w1 := Bit(e.write) + 2 * w2;
    var w := Bit(e.present) + 2 * w1;
    assert w / 2 == w1 && w % 2 == Bit(e.present);
    assert w1 / 2 == w2 && w1 % 2 == Bit(e.write);
    assert w2 / 2 == w3 && w2 % 2 == Bit(e.user);
    assert w3 / 0x200 == w12 && w3 % 0x200 == e.low;
    w
  }

  lemma EncodeDecode(w: Word)
    ensures Encode(Decode(w)) == w
  {
  }

  // ---------------------------------------------------------------------------
  // Walking the tables

  predicate ValidMem(m: Mem) {
    |m| <= 0x100_0000_0000 && forall p :: 0 <= p < |m| ==> |m[p]| == 512
  }

  predicate IsPath(q: seq<nat>) {
    forall i :: 0 <= i < |q| ==> q[i] < 512
  }

  function Get(m: Mem, t: nat, i: nat): Entry
    requires ValidMem(m) && t < |m| && i < 512
  {
    Decode(m[t][i])
  }

  /** The entry continues the walk at another table. */
  predicate Leads(m: Mem, t: nat, i: nat)
    requires ValidMem(m) && t < |m| && i < 512
  {
    Get(m, t, i).present && Get(m, t, i).pfn < |m|
  }

  function Next(m: Mem, t: nat, i: nat): (n: nat)
    requires ValidMem(m) && t < |m| && i < 512 && Leads(m, t, i)
    ensures n < |m|
  {
    Get(m, t, i).pfn
  }

  /** The last-level word the indices q lead to from table t; 0 where a table is missing. */
  function Lookup(m: Mem, t: nat, q: seq<nat>): Word
    requires ValidMem(m) && t < |m| && IsPath(q) && q != []
    decreases |q|
  {
    if |q| == 1 then m[t][q[0]]
    else if Leads(m, t, q[0]) then Lookup(m, Next(m, t, q[0]), q[1..])
    else 0
  }

  /** The tables that walk reads. */
  ghost function Trail(m: Mem, t: nat, q: seq<nat>): set<nat>
    requires ValidMem(m) && t < |m| && IsPath(q) && q != []
    decreases |q|
  {
    {t} + if |q| > 1 && Leads(m, t, q[0]) then Trail(m, Next(m, t, q[0]), q[1..]) else {}
  }

  /** There is a table at every step along r from table t. */
  predicate Reached(m: Mem, t: nat, r: seq<nat>)
    requires ValidMem(m) && t < |m| && IsPath(r)
    decreases |r|
  {
    r == [] || (Leads(m, t, r[0]) && Reached(m, Next(m, t, r[0]), r[1..]))
  }

  /** The last table found along r from table t. */
  function Follow(m: Mem, t: nat, r: seq<nat>): (n: nat)
    requires ValidMem(m) && t < |m| && IsPath(r)
    ensures n < |m|
    decreases |r|
  {
    if r == [] || !Leads(m, t, r[0]) then t else Follow(m, Next(m, t, r[0]), r[1..])
  }

  /** How many tables the walk along q finds below table t. */
  function Depth(m: Mem, t: nat, q: seq<nat>): (d: nat)
    requires ValidMem(m) && t < |m| && IsPath(q) && q != []
    ensures d < |q|
    decreases |q|
  {
    if |q| == 1 || !Leads(m, t, q[0]) then 0 else 1 + Depth(m, Next(m, t, q[0]), q[1..])
  }

  /** What the processor lets through to the last level of a walk: user mode, and writes. */
  datatype Rights = Rights(user: bool, write: bool)

  /** The rights that the entries above the last level grant along q: each only if every
      entry found on the way has its bit. */
  function Passes(m: Mem, t: nat, q: seq<nat>): Rights
    requires ValidMem(m) && t < |m| && IsPath(q) && q != []
    decreases |q|
  {
    if |q| == 1 || !Leads(m, t, q[0]) then Rights(true, true)
    else
      var below := Passes(m, Next(m, t, q[0]), q[1..]);
      Rights(Get(m, t, q[0]).user && below.user, Get(m, t, q[0]).write && below.write)
  }

  /** Every user path passes what it did. */
  ghost predicate SameRights(m: Mem, m': Mem, root: nat)
    requires ValidMem(m) && ValidMem(m') && |m| == |m'| && root < |m|
  {
    forall q :: |q| == 4 && UserPath(q) ==> Passes(m', root, q) == Passes(m, root, q)
  }

  lemma {:induction false} ReachedDepth(m: Mem, t: nat, q: seq<nat>, k: nat)
    requires ValidMem(m) && t < |m| && IsPath(q) && k < |q|
    ensures Reached(m, t, q[..k]) <==> k <= Depth(m, t, q)
    decreases |q|
  {
    hide Decode;
    if k > 0 && Leads(m, t, q[0]) {
      assert q[..k][1..] == q[1..][..k - 1];
      ReachedDepth(m, Next(m, t, q[0]), q[1..], k - 1);
    }
  }

  /** The last table on a walk is one of the tables it reads. */
  lemma {:induction false} FollowInTrail(m: Mem, t: nat, q: seq<nat>)
    requires ValidMem(m) && t < |m| && IsPath(q) && q != []
    ensures Follow(m, t, q[..|q| - 1]) in Trail(m, t, q)
    decreases |q|
  {
    hide Decode;
    if |q| > 1 && Leads(m, t, q[0]) {
      assert q[..|q| - 1][1..] == q[1..][..|q| - 2];
      FollowInTrail(m, Next(m, t, q[0]), q[1..]);
    }
  }

  /** A walk depends on the tables it reads and on nothing else. */
  lemma {:induction false} LookupFrame(m: Mem, m': Mem, t: nat, q: seq<nat>)
    requires ValidMem(m) && ValidMem(m') && |m| == |m'| && t < |m| && IsPath(q) && q != []
    requires forall x :: x in Trail(m, t, q) && x < |m| ==> m'[x] == m[x]
    ensures Lookup(m', t, q) == Lookup(m, t, q) && Trail(m', t, q) == Trail(m, t, q)
    ensures Passes(m', t, q) == Passes(m, t, q)
    decreases |q|
  {
    hide Decode;
    assert t in Trail(m, t, q);
    if |q| > 1 && Leads(m, t, q[0]) {
      LookupFrame(m, m', Next(m, t, q[0]), q[1..]);
    }
  }

  // ---------------------------------------------------------------------------
  // Tree-shaped tables

  /** The tables of one address space: every table has one position, named by the
      indices that lead to it, and every present user entry of a table leads to the
      table at the next position. Entries of the upper half of the root are the
      kernel's and are not followed. */
  ghost predicate Tree(m: Mem, root: nat, tables: map<nat, seq<nat>>)
    requires ValidMem(m)
  {
    && root in tables && tables[root] == []
    && (forall t :: t in tables ==> t < |m| && |tables[t]| <= 3 && UserPath(tables[t]))
    && (forall t, i :: t in tables && Inner(tables[t], i) && Get(m, t, i).present ==> ChildAt(m, tables, t, i))
  }

  /** Entry i of a table at this position is a user entry above the last level. */
  predicate Inner(position: seq<nat>, i: nat) {
    i < 512 && |position| < 3 && (position == [] ==> i < 256)
  }

  ghost predicate ChildAt(m: Mem, tables: map<nat, seq<nat>>, t: nat, i: nat)
    requires ValidMem(m) && t < |m| && i < 512 && t in tables
  {
    Leads(m, t, i) && Next(m, t, i) in tables && tables[Next(m, t, i)] == tables[t] + [i]
  }

  /** Indices below a root entry of the lower, user half. */
  predicate UserPath(q: seq<nat>) {
    IsPath(q) && (q != [] ==> q[0] < 256)
  }

  /** From a table at a known position, the walk stays on tables at their positions. */
  ghost predicate Below(m: Mem, tables: map<nat, seq<nat>>, t: nat, q: seq<nat>) {
    t in tables && t < |m| && q != [] && |tables[t]| + |q| == 4 && UserPath(tables[t] + q)
  }

  lemma BelowNext(m: Mem, root: nat, tables: map<nat, seq<nat>>, t: nat, q: seq<nat>)
    requires ValidMem(m) && Tree(m, root, tables) && Below(m, tables, t, q) && |q| > 1
    ensures q[0] < 512 && (tables[t] == [] ==> q[0] < 256)
    ensures Get(m, t, q[0]).present <==> Leads(m, t, q[0])
    ensures Leads(m, t, q[0]) ==> ChildAt(m, tables, t, q[0]) && Below(m, tables, Next(m, t, q[0]), q[1..])
  {
    hide Decode;
    assert (tables[t] + q)[|tables[t]|] == q[0];
    if Get(m, t, q[0]).present {
      assert ChildAt(m, tables, t, q[0]);
      assert tables[t] + [q[0]] + q[1..] == tables[t] + q;
    }
  }

  /** The walk from t along q visits exactly tables positioned along tables[t] + q. */
  lemma {:induction false} TrailPositions(m: Mem, root: nat, tables: map<nat, seq<nat>>, t: nat, q: seq<nat>, x: nat)
    requires ValidMem(m) && Tree(m, root, tables) && Below(m, tables, t, q) && IsPath(q) && x in Trail(m, t, q)
    ensures x in tables && |tables[x]| < 4 && tables[t] <= tables[x] && tables[x] < tables[t] + q
    decreases |q|
  {
    hide Decode, Tree;
    if x != t {
      BelowNext(m, root, tables, t, q);
      var n := Next(m, t, q[0]);
      TrailPositions(m, root, tables, n, q[1..], x);
      assert tables[n] + q[1..] == tables[t] + q;
    }
  }

  // ---------------------------------------------------------------------------
  // Creating a table

  function Zeros(): (z: seq<Word>)
    ensures |z| == 512 && forall i :: 0 <= i < 512 ==> z[i] == 0
  {
    seq(512, i => 0)
  }

  /** Entry i of table t now leads to page p, which is cleared. */
  function AddTable(m: Mem, t: nat, i: nat, p: nat): (m': Mem)
    requires ValidMem(m) && t < |m| && i < 512 && p < |m|
    ensures ValidMem(m') && |m'| == |m|
  {
    PutWord(m, t, i, Encode(Entry(true, true, true, 0, p, 0)))[p := Zeros()]
  }

  lemma ZeroAbsent()
    ensures !Decode(0).present
  {
  }

  lemma AddTableGet(m: Mem, t: nat, i: nat, p: nat, s: nat, j: nat)
    requires ValidMem(m) && t < |m| && i < 512 && p < |m| && p != t && s < |m| && j < 512
    ensures var m' := AddTable(m, t, i, p);
      && (s == t && j == i ==> Get(m', s, j) == Entry(true, true, true, 0, p, 0))
      && (s == p ==> m'[s][j] == 0 && !Get(m', s, j).present)
      && (s != p && !(s == t && j == i) ==> m'[s][j] == m[s][j] && Get(m', s, j) == Get(m, s, j))
  {
    ZeroAbsent();
  }

  lemma AddTableTree(m: Mem, root: nat, tables: map<nat, seq<nat>>, t: nat, i: nat, p: nat)
    requires ValidMem(m) && Tree(m, root, tables) && t in tables && Inner(tables[t], i)
    requires p < |m| && p !in tables && !Get(m, t, i).present
    ensures Tree(AddTable(m, t, i, p), root, tables[p := tables[t] + [i]])
  {
    hide Decode, AddTable;
    var m', tables' := AddTable(m, t, i, p), tables[p := tables[t] + [i]];
    forall s, j | s in tables' && Inner(tables'[s], j) && Get(m', s, j).present
      ensures ChildAt(m', tables', s, j)
    {
      AddTableGet(m, t, i, p, s, j);
      if !(s == t && j == i) {
        assert ChildAt(m, tables, s, j);
      }
    }
  }

  /** Creating a table changes no translation. */
  lemma {:induction false} AddTableLookup(m: Mem, root: nat, tables: map<nat, seq<nat>>, t: nat, i: nat, p: nat, s: nat,
                                          q: seq<nat>)
    requires ValidMem(m) && Tree(m, root, tables) && t in tables && Inner(tables[t], i)
    requires p < |m| && p !in tables && !Get(m, t, i).present
    requires Below(m, tables, s, q) && IsPath(q)
    ensures Lookup(AddTable(m, t, i, p), s, q) == Lookup(m, s, q)
    decreases |q|
  {
    hide Decode, AddTable, Tree;
    assert t < |m| by { InTree(m, root, tables, t); }
    AddTableGet(m, t, i, p, s, q[0]);
    if |q| > 1 {
      BelowNext(m, root, tables, s, q);
      if Leads(m, s, q[0]) {
        AddTableLookup(m, root, tables, t, i, p, Next(m, s, q[0]), q[1..]);
      } else if s == t && q[0] == i {
        AddTableGet(m, t, i, p, p, q[1]);
      }
    } else {
      LastLevel(m, root, tables, s, t, i, q);
    }
  }

  /** A created table restricts no path. */
  lemma {:induction false} AddTablePasses(m: Mem, root: nat, tables: map<nat, seq<nat>>, t: nat, i: nat, p: nat, s: nat,
                                          q: seq<nat>)
    requires ValidMem(m) && Tree(m, root, tables) && t in tables && Inner(tables[t], i)
    requires p < |m| && p !in tables && !Get(m, t, i).present
    requires Below(m, tables, s, q) && IsPath(q)
    ensures Passes(AddTable(m, t, i, p), s, q) == Passes(m, s, q)
    decreases |q|
  {
    hide Decode, AddTable, Tree;
    assert t < |m| by { InTree(m, root, tables, t); }
    AddTableGet(m, t, i, p, s, q[0]);
    if |q| > 1 {
      BelowNext(m, root, tables, s, q);
      if Leads(m, s, q[0]) {
        AddTablePasses(m, root, tables, t, i, p, Next(m, s, q[0]), q[1..]);
      } else if s == t && q[0] == i {
        AddTableGet(m, t, i, p, p, q[1]);
      }
    }
  }

  /** Creating a table makes one more position reached: its own, when the table it hangs
      on is. */
  lemma {:induction false} AddTableReached(m: Mem, root: nat, tables: map<nat, seq<nat>>, t: nat, i: nat, p: nat,
                                           s: nat, r: seq<nat>)
    requires ValidMem(m) && Tree(m, root, tables) && t in tables && Inner(tables[t], i)
    requires p < |m| && p !in tables && !Get(m, t, i).present
    requires s in tables && s < |m| && IsPath(r) && UserPath(tables[s] + r) && |tables[s]| + |r| <= 3
    ensures Reached(AddTable(m, t, i, p), s, r) <==>
      Reached(m, s, r) || (r != [] && tables[s] + r == tables[t] + [i] && ArrivesAt(m, s, r[..|r| - 1], t))
    decreases |r|
  {
    hide Decode, AddTable, Tree;
    assert t < |m| by { InTree(m, root, tables, t); }
    if |r| == 1 {
      AddTableGet(m, t, i, p, s, r[0]);
      LastStep(tables[s], r, tables[t], i);
    } else if |r| > 1 {
      AddTableGet(m, t, i, p, s, r[0]);
      FirstStep(tables[s], r);
      if s == t && r[0] == i {
        AddTableGet(m, t, i, p, p, r[1]);
      } else if Get(m, s, r[0]).present {
        PresentChild(m, root, tables, s, r[0]);
        AddTableReached(m, root, tables, t, i, p, Next(m, s, r[0]), r[1..]);
      }
    }
  }

  lemma LastStep(a: seq<nat>, r: seq<nat>, b: seq<nat>, i: nat)
    requires |r| == 1
    ensures r[..0] == [] && r[1..] == [] && (a + r == b + [i] <==> a == b && r[0] == i)
  {
    if a + r == b + [i] {
      assert a == (a + r)[..|a|] && b == (b + [i])[..|b|] && r[0] == (a + r)[|a|];
    }
    if r[0] == i {
      assert r == [i];
    }
  }

  lemma FirstStep(a: seq<nat>, r: seq<nat>)
    requires |r| > 1 && UserPath(a + r)
    ensures (a == [] ==> r[0] < 256) && a + r == (a + [r[0]]) + r[1..]
    ensures r[..|r| - 1][0] == r[0] && r[..|r| - 1][1..] == r[1..][..|r| - 2] && r[1..][0] == r[1]
  {
  }

  /** The walk along r from table s ends at table t. */
  predicate ArrivesAt(m: Mem, s: nat, r: seq<nat>, t: nat)
    requires ValidMem(m) && s < |m| && IsPath(r)
  {
    Reached(m, s, r) && Follow(m, s, r) == t
  }

  lemma PresentChild(m: Mem, root: nat, tables: map<nat, seq<nat>>, t: nat, i: nat)
    requires ValidMem(m) && Tree(m, root, tables) && t in tables && t < |m| && Inner(tables[t], i)
    requires Get(m, t, i).present
    ensures ChildAt(m, tables, t, i)
  {
  }

  /** One step beyond a reached table. */
  lemma {:induction false} ArrivesNext(m: Mem, s: nat, r: seq<nat>, t: nat, i: nat)
    requires ValidMem(m) && s < |m| && IsPath(r) && ArrivesAt(m, s, r, t) && i < 512
    ensures IsPath(r + [i]) && (Reached(m, s, r + [i]) <==> Leads(m, t, i))
    ensures Leads(m, t, i) ==> ArrivesAt(m, s, r + [i], Next(m, t, i))
    decreases |r|
  {
    hide Decode;
    if r == [] {
      assert r + [i] == [i] && [i][1..] == [];
      assert Leads(m, s, i) ==> ArrivesAt(m, Next(m, s, i), [], Next(m, s, i));
    } else {
      assert (r + [i])[1..] == r[1..] + [i];
      ArrivesNext(m, Next(m, s, r[0]), r[1..], t, i);
    }
  }

  /** Which positions are reached depends on no last-level table. */
  lemma {:induction false} ReachedSame(m: Mem, m': Mem, root: nat, tables: map<nat, seq<nat>>, s: nat, r: seq<nat>)
    requires ValidMem(m) && ValidMem(m') && |m| == |m'| && Tree(m, root, tables)
    requires forall f :: f in tables && f < |m| && |tables[f]| < 3 ==> m'[f] == m[f]
    requires s in tables && s < |m| && IsPath(r) && UserPath(tables[s] + r) && |tables[s]| + |r| <= 3
    ensures Reached(m', s, r) == Reached(m, s, r) && Follow(m', s, r) == Follow(m, s, r)
    decreases |r|
  {
    hide Decode, Tree;
    if r != [] {
      assert (tables[s] + r)[|tables[s]|] == r[0];
      if Get(m, s, r[0]).present {
        PresentChild(m, root, tables, s, r[0]);
        var n := Next(m, s, r[0]);
        assert tables[n] + r[1..] == tables[s] + r;
        ReachedSame(m, m', root, tables, n, r[1..]);
      }
    }
  }

  lemma InTree(m: Mem, root: nat, tables: map<nat, seq<nat>>, t: nat)
    requires ValidMem(m) && Tree(m, root, tables) && t in tables
    ensures t < |m| && |tables[t]| <= 3
  {
  }

  lemma LastLevel(m: Mem, root: nat, tables: map<nat, seq<nat>>, s: nat, t: nat, i: nat, q: seq<nat>)
    requires Below(m, tables, s, q) && |q| == 1 && t in tables && Inner(tables[t], i)
    ensures s != t
  {
  }

  // ---------------------------------------------------------------------------
  // Writing a last-level entry

  function PutWord(m: Mem, t: nat, i: nat, w: Word): (m': Mem)
    requires ValidMem(m) && t < |m| && i < 512
    ensures ValidMem(m') && |m'| == |m|
  {
    var row: seq<Word> := m[t][i := w];
    m[t := row]
  }

  lemma PutWordTree(m: Mem, root: nat, tables: map<nat, seq<nat>>, t: nat, i: nat, w: Word)
    requires ValidMem(m) && Tree(m, root, tables) && t in tables && |tables[t]| == 3 && i < 512
    ensures Tree(PutWord(m, t, i, w), root, tables)
  {
    hide Decode;
    var m' := PutWord(m, t, i, w);
    forall s, j | s in tables && Inner(tables[s], j) && Get(m', s, j).present
      ensures ChildAt(m', tables, s, j)
    {
      assert ChildAt(m, tables, s, j);
    }
  }

  lemma {:induction false} PutWordLookup(m: Mem, root: nat, tables: map<nat, seq<nat>>, t: nat, i: nat, w: Word, s: nat,
                                         q: seq<nat>)
    requires ValidMem(m) && Tree(m, root, tables) && t in tables && |tables[t]| == 3 && t < |m| && i < 512
    requires Below(m, tables, s, q) && IsPath(q)
    ensures Lookup(PutWord(m, t, i, w), s, q)
         == if t in Trail(m, s, q) && q[|q| - 1] == i then w else Lookup(m, s, q)
    ensures Trail(PutWord(m, t, i, w), s, q) == Trail(m, s, q)
    decreases |q|
  {
    hide Decode, Tree;
    if |q| > 1 {
      BelowNext(m, root, tables, s, q);
      if Leads(m, s, q[0]) {
        PutWordLookup(m, root, tables, t, i, w, Next(m, s, q[0]), q[1..]);
      }
    }
  }

  lemma {:induction false} PutWordPasses(m: Mem, root: nat, tables: map<nat, seq<nat>>, t: nat, i: nat, w: Word, s: nat,
                                         q: seq<nat>)
    requires ValidMem(m) && Tree(m, root, tables) && t in tables && |tables[t]| == 3 && t < |m| && i < 512
    requires Below(m, tables, s, q) && IsPath(q)
    ensures Passes(PutWord(m, t, i, w), s, q) == Passes(m, s, q)
    decreases |q|
  {
    hide Decode, Tree;
    if |q| > 1 {
      BelowNext(m, root, tables, s, q);
      if Leads(m, s, q[0]) {
        PutWordPasses(m, root, tables, t, i, w, Next(m, s, q[0]), q[1..]);
      }
    }
  }

  /** Writing a last-level entry leaves the rights of every path. */
  lemma PutWordRights(m: Mem, root: nat, tables: map<nat, seq<nat>>, t: nat, i: nat, w: Word)
    requires ValidMem(m) && Tree(m, root, tables) && t in tables && |tables[t]| == 3 && t < |m| && i < 512
    requires root < |m|
    ensures SameRights(m, PutWord(m, t, i, w), root)
  {
    hide Decode, Passes, PutWord;
    forall q | |q| == 4 && UserPath(q)
      ensures Passes(PutWord(m, t, i, w), root, q) == Passes(m, root, q)
    {
      assert [] + q == q;
      PutWordPasses(m, root, tables, t, i, w, root, q);
    }
  }

  /** Writing the entry a user path leads to changes that path's translation and no other. */
  lemma PutWordFlat(m: Mem, root: nat, tables: map<nat, seq<nat>>, t: nat, i: nat, w: Word, q: seq<nat>)
    requires ValidMem(m) && Tree(m, root, tables) && t in tables && |tables[t]| == 3 && t < |m| && i < 512
    requires root < |m| && UserPath(tables[t] + [i]) && t in Trail(m, root, tables[t] + [i])
    requires |q| == 4 && UserPath(q)
    ensures Lookup(PutWord(m, t, i, w), root, q) == if q == tables[t] + [i] then w else Lookup(m, root, q)
  {
    hide Decode;
    assert [] + q == q;
    PutWordLookup(m, root, tables, t, i, w, root, q);
    if t in Trail(m, root, q) {
      TrailPositions(m, root, tables, root, q, t);
      assert q[..3] == tables[t];
      assert q == q[..3] + [q[3]];
    }
  }

  /** Writing pages that are none of its tables leaves an address space as it is. */
  lemma OutsideTree(m: Mem, m': Mem, root: nat, tables: map<nat, seq<nat>>)
    requires ValidMem(m) && ValidMem(m') && |m| == |m'| && Tree(m, root, tables)
    requires forall t :: t in tables && t < |m| ==> m'[t] == m[t]
    ensures Tree(m', root, tables) && root < |m|
    ensures forall q :: |q| == 4 && UserPath(q) ==> Lookup(m', root, q) == Lookup(m, root, q)
    ensures SameRights(m, m', root)
  {
    hide Decode;
    forall t, i: nat | t in tables && Inner(tables[t], i) && Get(m', t, i).present
      ensures ChildAt(m', tables, t, i)
    {
      assert ChildAt(m, tables, t, i);
    }
    forall q | |q| == 4 && UserPath(q)
      ensures Lookup(m', root, q) == Lookup(m, root, q) && Passes(m', root, q) == Passes(m, root, q)
    {
      assert [] + q == q;
      OutsideLookup(m, m', root, tables, root, q);
    }
  }

  lemma {:induction false} OutsideDepth(m: Mem, m': Mem, root: nat, tables: map<nat, seq<nat>>, t: nat, q: seq<nat>)
    requires ValidMem(m) && ValidMem(m') && |m| == |m'| && Tree(m, root, tables) && Below(m, tables, t, q) && IsPath(q)
    requires forall f :: f in tables && f < |m| ==> m'[f] == m[f]
    ensures Depth(m', t, q) == Depth(m, t, q)
    decreases |q|
  {
    hide Decode, Tree;
    if |q| > 1 {
      BelowNext(m, root, tables, t, q);
      if Leads(m, t, q[0]) {
        OutsideDepth(m, m', root, tables, Next(m, t, q[0]), q[1..]);
      }
    }
  }

  lemma OutsideLookup(m: Mem, m': Mem, root: nat, tables: map<nat, seq<nat>>, t: nat, q: seq<nat>)
    requires ValidMem(m) && ValidMem(m') && |m| == |m'| && Tree(m, root, tables) && Below(m, tables, t, q) && IsPath(q)
    requires forall f :: f in tables && f < |m| ==> m'[f] == m[f]
    ensures Lookup(m', t, q) == Lookup(m, t, q) && Passes(m', t, q) == Passes(m, t, q)
  {
    hide Decode, Tree, Lookup, Trail, Passes;
    forall x | x in Trail(m, t, q) && x < |m|
      ensures m'[x] == m[x]
    {
      TrailPositions(m, root, tables, t, q, x);
    }
    LookupFrame(m, m', t, q);
  }
}
