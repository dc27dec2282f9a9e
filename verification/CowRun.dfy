/** Copy-on-write over whole runs: after a fork, any stores of parent and child, with the
    write faults they cause, leave both with what they would see had the fork copied
    every page. */
module CowRun {
  import opened Lists
  import opened BuddyTheory
  import opened Pmm
  import opened Paging
  import opened Vmm
  import opened Clone
  import opened Fork
  import opened PageFault
  import opened Cow

  // ---------------------------------------------------------------------------
  // What a store does when pages are copied at the fork

  datatype Side = Parent | Child

  /** A store of one word to a user page. */
  datatype Store = Store(side: Side, page: nat, index: nat, word: Word)

  predicate InPages(ops: seq<Store>) {
    forall i :: 0 <= i < |ops| ==> ops[i].index < 512
  }

  /** A page of one side after the stores: its own to that page, in order. */
  function After(row: seq<Word>, ops: seq<Store>, side: Side, u: nat): (r: seq<Word>)
    requires |row| == 512 && InPages(ops)
    ensures |r| == 512
  {
    if ops == [] then row
    else
      var r, op := After(row, ops[..|ops| - 1], side, u), ops[|ops| - 1];
      if op.side == side && op.page == u then r[op.index := op.word] else r
  }

  predicate StoresTo(op: Store, side: Side, u: nat, i: nat) {
    op.side == side && op.page == u && op.index == i
  }

  /** So each word is that of the side's last store to it, at k, or the old one when there
      is none. */
  lemma {:induction false} AfterLast(row: seq<Word>, ops: seq<Store>, side: Side, u: nat, i: nat, k: int)
    requires |row| == 512 && InPages(ops) && i < 512 && NIL <= k < |ops|
    requires k != NIL ==> StoresTo(ops[k], side, u, i)
    requires forall l :: k < l < |ops| ==> !StoresTo(ops[l], side, u, i)
    ensures After(row, ops, side, u)[i] == if k == NIL then row[i] else ops[k].word
  {
    if 0 < |ops| && k < |ops| - 1 {
      assert forall l :: 0 <= l < |ops| - 1 ==> ops[..|ops| - 1][l] == ops[l];
      AfterLast(row, ops[..|ops| - 1], side, u, i, k);
    }
  }

  /** The pages stored to, each with the side that did. */
  ghost function Touched(ops: seq<Store>): set<(Side, nat)> {
    if ops == [] then {} else Touched(ops[..|ops| - 1]) + {(ops[|ops| - 1].side, ops[|ops| - 1].page)}
  }

  /** Those whose first store finds a free page, of `left` free pages. */
  ghost function Served(ops: seq<Store>, left: nat): set<(Side, nat)> {
    if ops == [] then {}
    else
      var before, op := ops[..|ops| - 1], ops[|ops| - 1];
      Served(before, left) +
      if (op.side, op.page) !in Touched(before) && |Touched(before)| < left then {(op.side, op.page)} else {}
  }

  lemma {:induction false} ServedTouched(ops: seq<Store>, left: nat)
    ensures Served(ops, left) <= Touched(ops)
    ensures |Touched(ops)| <= left ==> Served(ops, left) == Touched(ops)
  {
    if ops != [] {
      var before := ops[..|ops| - 1];
      ServedTouched(before, left);
      var pair := (ops[|ops| - 1].side, ops[|ops| - 1].page);
      assert Touched(ops) == Touched(before) + {pair};
      if pair in Touched(before) {
        assert Touched(ops) == Touched(before);
      }
    }
  }

  // ---------------------------------------------------------------------------
  // Two address spaces

  /** The roots and tables of parent and child. */
  datatype Spaces = Spaces(root: nat, tables: map<nat, seq<nat>>, child: nat, childTables: map<nat, seq<nat>>)

  function RootOf(sp: Spaces, side: Side): nat {
    if side.Parent? then sp.root else sp.child
  }

  function TablesAt(sp: Spaces, side: Side): map<nat, seq<nat>> {
    if side.Parent? then sp.tables else sp.childTables
  }

  predicate Fit(m: Mem, sp: Spaces) {
    ValidMem(m) && sp.root < |m| && sp.child < |m|
  }

  /** Both spaces are trees of pages in use, and share only tables beyond an index of 256
      or more. */
  ghost predicate Structure(m: Mem, sp: Spaces, free: set<nat>)
    requires Fit(m, sp)
  {
    && Tree(m, sp.root, sp.tables) && Tree(m, sp.child, sp.childTables)
    && sp.tables.Keys !! free && sp.childTables.Keys !! free && 0 !in sp.tables && 0 !in sp.childTables && 0 !in free
    && forall t :: t in sp.tables && t in sp.childTables ==> !Low(sp.tables[t]) && sp.childTables[t] == sp.tables[t]
  }

  ghost predicate LowPages(pages: set<nat>) {
    forall u :: u in pages ==> u < USER_PAGES && Low(PathOf(u * PAGE_SIZE))
  }

  function WordOf(m: Mem, sp: Spaces, side: Side, u: nat): Word
    requires Fit(m, sp) && u < USER_PAGES
  {
    Flat(m, RootOf(sp, side), u)
  }

  function FrameAt(m: Mem, sp: Spaces, side: Side, u: nat): nat
    requires Fit(m, sp) && u < USER_PAGES
  {
    FrameOf(m, RootOf(sp, side), u)
  }

  /** What the tables above the last level pass to a page of one side. */
  function RightsAt(m: Mem, sp: Spaces, side: Side, u: nat): Rights
    requires Fit(m, sp) && u < USER_PAGES
  {
    PageRights(m, RootOf(sp, side), u)
  }

  /** One page of one side, when `touched` have been stored to and `lost` of them found no
      free page: it is writable exactly when touched, on frame 0 exactly when lost, and
      else on a frame in use that holds `row`. */
  ghost predicate PageView(m: Mem, sp: Spaces, free: set<nat>, touched: set<(Side, nat)>, lost: set<(Side, nat)>,
                           side: Side, u: nat, row: seq<Word>)
    requires Fit(m, sp) && u < USER_PAGES
  {
    var f := FrameAt(m, sp, side, u);
    && Decode(WordOf(m, sp, side, u)).present && (Decode(WordOf(m, sp, side, u)).write <==> (side, u) in touched)
    && (f == 0 <==> (side, u) in lost)
    && f < |m| && f !in sp.tables && f !in sp.childTables && f !in free
    && (f != 0 ==> m[f] == row)
  }

  /** What a page held at the fork. */
  ghost function AtFork(m0: Mem, sp: Spaces, u: nat): (row: seq<Word>)
    requires Fit(m0, sp) && u < USER_PAGES
    ensures |row| == 512
  {
    if FrameAt(m0, sp, Parent, u) < |m0| then m0[FrameAt(m0, sp, Parent, u)] else Zeros()
  }

  /** All pages of both sides: they hold what was there at the fork, in m0, and what the
      stores made of it. */
  ghost predicate Views(m0: Mem, m: Mem, sp: Spaces, free: set<nat>, pages: set<nat>, ops: seq<Store>,
                        touched: set<(Side, nat)>, lost: set<(Side, nat)>)
    requires Fit(m0, sp) && Fit(m, sp) && LowPages(pages) && InPages(ops)
  {
    forall side, u :: u in pages ==>
      && PageView(m, sp, free, touched, lost, side, u, After(AtFork(m0, sp, u), ops, side, u))
      && RightsAt(m, sp, side, u) == RightsAt(m0, sp, Parent, u)
  }

  /** Two pages are not on the same frame, except frame 0. */
  predicate Separate(m: Mem, sp: Spaces, s: Side, u: nat, s': Side, u': nat)
    requires Fit(m, sp) && u < USER_PAGES && u' < USER_PAGES
  {
    FrameAt(m, sp, s, u) == FrameAt(m, sp, s', u') ==> FrameAt(m, sp, s, u) == 0
  }

  /** A page that was stored to has its frame for itself. */
  ghost predicate Alone(m: Mem, sp: Spaces, pages: set<nat>, touched: set<(Side, nat)>)
    requires Fit(m, sp) && LowPages(pages)
  {
    forall s, u, s', u' :: u in pages && u' in pages && (s, u) in touched && (s, u) != (s', u') ==>
      Separate(m, sp, s, u, s', u')
  }

  // ---------------------------------------------------------------------------
  // A write fault

  /** A fault of one side writes none of the other's tables. */
  lemma OtherTables(m: Mem, sp: Spaces, free: set<nat>, s: Side, o: Side, v: nat, frame: nat, t: nat)
    requires Fit(m, sp) && Structure(m, sp, free) && s != o && v < USER_PAGES && Low(PathOf(v * PAGE_SIZE))
    requires frame == 0 || frame in free
    requires t in TablesAt(sp, o)
    ensures t != frame && !IsLeafOf(TablesAt(sp, s), t, v)
  {
    hide Tree, PathOf;
    var q := PathOf(v * PAGE_SIZE);
    assert t in sp.tables ==> t in sp.tables.Keys;
    assert t in sp.childTables ==> t in sp.childTables.Keys;
    assert Low(q[..3]);
  }

  /** What the fault does to words and frames. */
  ghost predicate Replaced(m: Mem, m': Mem, sp: Spaces, s: Side, v: nat, frame: nat)
    requires Fit(m, sp) && Fit(m', sp) && |m'| == |m| && v < USER_PAGES && frame < |m|
  {
    && Decode(WordOf(m', sp, s, v)) == Entry(true, true, true, 0, frame, 0)
    && (forall o, u :: 0 <= u < USER_PAGES && (o, u) != (s, v) ==> WordOf(m', sp, o, u) == WordOf(m, sp, o, u))
    && (forall o, u :: 0 <= u < USER_PAGES ==> RightsAt(m', sp, o, u) == RightsAt(m, sp, o, u))
    && (forall f :: 0 <= f < |m| && f != frame && f !in sp.tables && f !in sp.childTables ==> m'[f] == m[f])
    && (FrameAt(m, sp, s, v) < |m| ==> m'[frame] == m[FrameAt(m, sp, s, v)])
  }

  lemma FaultReplaces(m: Mem, m': Mem, sp: Spaces, free: set<nat>, s: Side, v: nat, frame: nat)
    requires Fit(m, sp) && Fit(m', sp) && |m'| == |m| && Structure(m, sp, free)
    requires v < USER_PAGES && Low(PathOf(v * PAGE_SIZE)) && (frame == 0 || frame in free) && frame < |m|
    requires Resolved(m, m', RootOf(sp, s), TablesAt(sp, s), v, frame) && Tree(m', RootOf(sp, s), TablesAt(sp, s))
    ensures Structure(m', sp, free - {frame}) && Replaced(m, m', sp, s, v, frame)
  {
    hide Decode, Flat, Tree, PathOf, Low, IsLeafOf;
    var o := if s.Parent? then Child else Parent;
    forall t | t in TablesAt(sp, o) && t < |m|
      ensures m'[t] == m[t]
    {
      OtherTables(m, sp, free, s, o, v, frame, t);
    }
    OutsideFlat(m, m', RootOf(sp, o), TablesAt(sp, o));
    SamePageRights(m, m', RootOf(sp, o));
    SamePageRights(m, m', RootOf(sp, s));
    forall f | 0 <= f < |m| && f != frame && f !in sp.tables && f !in sp.childTables
      ensures m'[f] == m[f]
    {
      NotALeaf(TablesAt(sp, s), f, v);
    }
  }

  lemma NotALeaf(tables: map<nat, seq<nat>>, f: nat, v: nat)
    requires f !in tables
    ensures !IsLeafOf(tables, f, v)
  {
  }

  lemma FaultPage(m: Mem, m': Mem, sp: Spaces, free: set<nat>, touched: set<(Side, nat)>, lost: set<(Side, nat)>,
                  s: Side, v: nat, frame: nat, side: Side, u: nat, row: seq<Word>)
    requires Fit(m, sp) && Fit(m', sp) && |m| == |m'| && v < USER_PAGES && u < USER_PAGES
    requires (s, v) !in touched && lost <= touched && PageView(m, sp, free, touched, lost, side, u, row)
    requires frame < |m| && (frame == 0 || frame in free) && Replaced(m, m', sp, s, v, frame)
    requires frame !in sp.tables && frame !in sp.childTables && 0 !in free
    ensures PageView(m', sp, free - {frame}, touched + {(s, v)}, lost + if frame == 0 then {(s, v)} else {},
                     side, u, row)
  {
    hide Decode, Flat;
    if (side, u) != (s, v) {
      assert WordOf(m', sp, side, u) == WordOf(m, sp, side, u);
    }
  }

  lemma FaultRights(m: Mem, m': Mem, sp: Spaces, s: Side, v: nat, frame: nat, side: Side, u: nat)
    requires Fit(m, sp) && Fit(m', sp) && |m| == |m'| && v < USER_PAGES && u < USER_PAGES && frame < |m|
    requires Replaced(m, m', sp, s, v, frame)
    ensures RightsAt(m', sp, side, u) == RightsAt(m, sp, side, u)
  {
    hide RightsAt, Decode;
  }

  lemma FaultSeparate(m: Mem, m': Mem, sp: Spaces, free: set<nat>, pages: set<nat>, touched: set<(Side, nat)>,
                      s: Side, v: nat, frame: nat, s1: Side, u1: nat, s2: Side, u2: nat)
    requires Fit(m, sp) && Fit(m', sp) && |m| == |m'| && LowPages(pages) && Alone(m, sp, pages, touched)
    requires v < USER_PAGES && u1 in pages && u2 in pages && u1 < USER_PAGES && u2 < USER_PAGES
    requires FrameAt(m, sp, s1, u1) !in free && FrameAt(m, sp, s2, u2) !in free
    requires frame < |m| && (frame == 0 || frame in free) && Replaced(m, m', sp, s, v, frame)
    requires (s1, u1) in touched + {(s, v)} && (s1, u1) != (s2, u2)
    ensures Separate(m', sp, s1, u1, s2, u2)
  {
    hide Decode, Flat, LowPages;
    assert (s1, u1) != (s, v) ==> WordOf(m', sp, s1, u1) == WordOf(m, sp, s1, u1);
    assert (s2, u2) != (s, v) ==> WordOf(m', sp, s2, u2) == WordOf(m, sp, s2, u2);
    assert (s1, u1) in touched ==> Separate(m, sp, s1, u1, s2, u2);
  }

  /** After a fault the page is touched, and lost if no page was free; all views stay. */
  lemma FaultKeeps(m0: Mem, m: Mem, m': Mem, sp: Spaces, free: set<nat>, pages: set<nat>, ops: seq<Store>,
                   touched: set<(Side, nat)>, lost: set<(Side, nat)>, s: Side, v: nat, frame: nat)
    requires Fit(m0, sp) && Fit(m, sp) && Fit(m', sp) && |m0| == |m| == |m'| && LowPages(pages) && InPages(ops)
    requires Structure(m, sp, free) && Views(m0, m, sp, free, pages, ops, touched, lost) && Alone(m, sp, pages, touched)
    requires v in pages && v < USER_PAGES && (s, v) !in touched && lost <= touched
    requires frame < |m| && (frame == 0 || frame in free) && Replaced(m, m', sp, s, v, frame)
    ensures Views(m0, m', sp, free - {frame}, pages, ops, touched + {(s, v)},
                  lost + if frame == 0 then {(s, v)} else {})
    ensures Alone(m', sp, pages, touched + {(s, v)})
  {
    hide Structure, After, PageView, Replaced, FrameAt, AtFork, PathOf, Separate, RightsAt;
    StructureParts(m, sp, free, frame);
    forall side, u | u in pages
      ensures PageView(m', sp, free - {frame}, touched + {(s, v)}, lost + if frame == 0 then {(s, v)} else {},
                       side, u, After(AtFork(m0, sp, u), ops, side, u))
      ensures RightsAt(m', sp, side, u) == RightsAt(m0, sp, Parent, u)
    {
      FaultRights(m, m', sp, s, v, frame, side, u);
      FaultPage(m, m', sp, free, touched, lost, s, v, frame, side, u, After(AtFork(m0, sp, u), ops, side, u));
    }
    forall s1, u1, s2, u2 | u1 in pages && u2 in pages && (s1, u1) in touched + {(s, v)} && (s1, u1) != (s2, u2)
      ensures Separate(m', sp, s1, u1, s2, u2)
    {
      InUse(m0, m, sp, free, pages, ops, touched, lost, s1, u1);
      InUse(m0, m, sp, free, pages, ops, touched, lost, s2, u2);
      FaultSeparate(m, m', sp, free, pages, touched, s, v, frame, s1, u1, s2, u2);
    }
  }

  lemma InUse(m0: Mem, m: Mem, sp: Spaces, free: set<nat>, pages: set<nat>, ops: seq<Store>,
              touched: set<(Side, nat)>, lost: set<(Side, nat)>, s: Side, u: nat)
    requires Fit(m0, sp) && Fit(m, sp) && LowPages(pages) && InPages(ops) && u in pages
    requires Views(m0, m, sp, free, pages, ops, touched, lost)
    ensures u < USER_PAGES && FrameAt(m, sp, s, u) < |m| && FrameAt(m, sp, s, u) !in free
    ensures FrameAt(m, sp, s, u) !in sp.tables && FrameAt(m, sp, s, u) !in sp.childTables
    ensures Decode(WordOf(m, sp, s, u)).write <==> (s, u) in touched
    ensures FrameAt(m, sp, s, u) == 0 ==> (s, u) in lost
  {
    hide Decode, Flat, After, AtFork, PathOf;
    assert PageView(m, sp, free, touched, lost, s, u, After(AtFork(m0, sp, u), ops, s, u));
  }

  // ---------------------------------------------------------------------------
  // A store

  /** A store to a frame changes no table and no translation. */
  lemma StoreStructure(m: Mem, sp: Spaces, free: set<nat>, f: nat, i: nat, w: Word)
    requires Fit(m, sp) && Structure(m, sp, free) && f < |m| && f !in sp.tables && f !in sp.childTables && i < 512
    ensures Fit(PutWord(m, f, i, w), sp) && Structure(PutWord(m, f, i, w), sp, free)
    ensures forall o, u :: 0 <= u < USER_PAGES ==>
      && WordOf(PutWord(m, f, i, w), sp, o, u) == WordOf(m, sp, o, u)
      && RightsAt(PutWord(m, f, i, w), sp, o, u) == RightsAt(m, sp, o, u)
  {
    hide Decode, Flat, Tree, Low;
    OutsideFlat(m, PutWord(m, f, i, w), sp.root, sp.tables);
    OutsideFlat(m, PutWord(m, f, i, w), sp.child, sp.childTables);
    SamePageRights(m, PutWord(m, f, i, w), sp.root);
    SamePageRights(m, PutWord(m, f, i, w), sp.child);
  }

  lemma AfterNext(row: seq<Word>, ops: seq<Store>, op: Store, side: Side, u: nat)
    requires |row| == 512 && InPages(ops) && op.index < 512
    ensures InPages(ops + [op])
    ensures After(row, ops + [op], side, u) ==
      if op.side == side && op.page == u then After(row, ops, side, u)[op.index := op.word]
      else After(row, ops, side, u)
  {
    assert (ops + [op])[..|ops|] == ops;
  }

  lemma StorePage(m: Mem, sp: Spaces, free: set<nat>, pages: set<nat>, touched: set<(Side, nat)>,
                  lost: set<(Side, nat)>, op: Store, side: Side, u: nat, row: seq<Word>)
    requires Fit(m, sp) && LowPages(pages) && u in pages && u < USER_PAGES && op.page in pages && op.page < USER_PAGES
    requires |row| == 512 && op.index < 512 && (op.side, op.page) in touched && Alone(m, sp, pages, touched)
    requires FrameAt(m, sp, op.side, op.page) < |m| && PageView(m, sp, free, touched, lost, side, u, row)
    requires Fit(PutWord(m, FrameAt(m, sp, op.side, op.page), op.index, op.word), sp)
    requires WordOf(PutWord(m, FrameAt(m, sp, op.side, op.page), op.index, op.word), sp, side, u)
          == WordOf(m, sp, side, u)
    ensures PageView(PutWord(m, FrameAt(m, sp, op.side, op.page), op.index, op.word), sp, free, touched, lost, side, u,
                     if op.side == side && op.page == u then row[op.index := op.word] else row)
  {
    hide Decode, Flat, LowPages;
    if (op.side, op.page) != (side, u) {
      assert Separate(m, sp, op.side, op.page, side, u);
    }
  }

  /** After a store that page's view has the word, all others stay. */
  lemma StoreKeeps(m0: Mem, m: Mem, sp: Spaces, free: set<nat>, pages: set<nat>, ops: seq<Store>,
                   touched: set<(Side, nat)>, lost: set<(Side, nat)>, op: Store)
    requires Fit(m0, sp) && Fit(m, sp) && |m0| == |m| && LowPages(pages) && InPages(ops) && op.index < 512
    requires Structure(m, sp, free) && Views(m0, m, sp, free, pages, ops, touched, lost) && Alone(m, sp, pages, touched)
    requires op.page in pages && op.page < USER_PAGES && (op.side, op.page) in touched
    requires FrameAt(m, sp, op.side, op.page) < |m|
    ensures var m' := PutWord(m, FrameAt(m, sp, op.side, op.page), op.index, op.word);
      && Fit(m', sp) && Structure(m', sp, free) && InPages(ops + [op])
      && Views(m0, m', sp, free, pages, ops + [op], touched, lost) && Alone(m', sp, pages, touched)
  {
    hide Structure, After, PageView, FrameAt, AtFork, PathOf, Separate, LowPages, PutWord, RightsAt;
    InUse(m0, m, sp, free, pages, ops, touched, lost, op.side, op.page);
    var f := FrameAt(m, sp, op.side, op.page);
    var m' := PutWord(m, f, op.index, op.word);
    StoreStructure(m, sp, free, f, op.index, op.word);
    forall side, u | u in pages
      ensures InPages(ops + [op]) && u < USER_PAGES
      ensures PageView(m', sp, free, touched, lost, side, u, After(AtFork(m0, sp, u), ops + [op], side, u))
      ensures RightsAt(m', sp, side, u) == RightsAt(m0, sp, Parent, u)
    {
      LowPage(pages, u);
      AfterNext(AtFork(m0, sp, u), ops, op, side, u);
      StorePage(m, sp, free, pages, touched, lost, op, side, u, After(AtFork(m0, sp, u), ops, side, u));
    }
    forall s, u, s', u' | u in pages && u' in pages && (s, u) in touched && (s, u) != (s', u')
      ensures u < USER_PAGES && u' < USER_PAGES && Separate(m', sp, s, u, s', u')
    {
      LowPage(pages, u);
      LowPage(pages, u');
      SameSeparate(m, m', sp, s, u, s', u');
    }
    AfterNext(m0[0], ops, op, op.side, op.page);
  }

  lemma SameSeparate(m: Mem, m': Mem, sp: Spaces, s: Side, u: nat, s': Side, u': nat)
    requires Fit(m, sp) && Fit(m', sp) && u < USER_PAGES && u' < USER_PAGES && Separate(m, sp, s, u, s', u')
    requires WordOf(m', sp, s, u) == WordOf(m, sp, s, u) && WordOf(m', sp, s', u') == WordOf(m, sp, s', u')
    ensures Separate(m', sp, s, u, s', u')
  {
    hide Decode, Flat;
  }

  lemma LowPage(pages: set<nat>, u: nat)
    requires LowPages(pages) && u in pages
    ensures u < USER_PAGES
  {
  }

  lemma StructureParts(m: Mem, sp: Spaces, free: set<nat>, frame: nat)
    requires Fit(m, sp) && Structure(m, sp, free) && (frame == 0 || frame in free)
    ensures frame !in sp.tables && frame !in sp.childTables && 0 !in free
  {
    assert frame in sp.tables ==> frame in sp.tables.Keys;
    assert frame in sp.childTables ==> frame in sp.childTables.Keys;
  }

  // ---------------------------------------------------------------------------
  // Runs

  ghost function SpacesOf(parent: AddressSpace, child: AddressSpace): Spaces
    reads parent, child
  {
    Spaces(parent.root, parent.tables, child.root, child.tables)
  }

  /** The pages whose first store found no free page. */
  ghost function Unserved(ops: seq<Store>, left: nat): set<(Side, nat)> {
    Touched(ops) - Served(ops, left)
  }

  /** With a free page for each page touched there are none. */
  lemma AllServed(ops: seq<Store>, left: nat)
    ensures Unserved(ops, left) == {} <==> |Touched(ops)| <= left
  {
    ServedCount(ops, left);
    ServedTouched(ops, left);
    if Unserved(ops, left) == {} {
      assert Touched(ops) == Served(ops, left);
    }
  }

  lemma {:induction false} ServedCount(ops: seq<Store>, left: nat)
    ensures |Served(ops, left)| <= left
  {
    if ops != [] {
      var before := ops[..|ops| - 1];
      ServedCount(before, left);
      ServedTouched(before, left);
      SmallerSet(Served(before, left), Touched(before));
    }
  }

  lemma SmallerSet(a: set<(Side, nat)>, b: set<(Side, nat)>)
    requires a <= b
    ensures |a| <= |b|
  {
    assert b == a + (b - a);
  }

  /** How many of `left` free pages remain. */
  ghost function Remaining(ops: seq<Store>, left: nat): nat {
    if |Touched(ops)| < left then left - |Touched(ops)| else 0
  }

  /** Parent and child after the stores ops since a fork that left `left` free pages. */
  ghost predicate Running(mach: Machine, parent: AddressSpace, child: AddressSpace, m0: Mem, pages: set<nat>,
                          ops: seq<Store>, left: nat)
    reads mach`mem, parent, child, mach.pmm, mach.pmm.frames, mach.pmm.pool, mach.pmm.pool.heads, mach.pmm.pool.next,
          mach.pmm.pool.prev
  {
    var sp := SpacesOf(parent, child);
    && mach.Holds(parent) && mach.Holds(child) && Fit(m0, sp) && Fit(mach.mem, sp) && |m0| == |mach.mem|
    && LowPages(pages) && InPages(ops) && mach.pmm.freePages == Remaining(ops, left)
    && Structure(mach.mem, sp, mach.pmm.FreeSet())
    && Views(m0, mach.mem, sp, mach.pmm.FreeSet(), pages, ops, Touched(ops), Unserved(ops, left))
    && Alone(mach.mem, sp, pages, Touched(ops))
  }

  lemma OneMore(ops: seq<Store>, op: Store, left: nat)
    ensures Touched(ops + [op]) == Touched(ops) + {(op.side, op.page)}
    ensures Served(ops + [op], left) == Served(ops, left) +
      if (op.side, op.page) !in Touched(ops) && |Touched(ops)| < left then {(op.side, op.page)} else {}
  {
    assert (ops + [op])[..|ops|] == ops;
  }

  /** A store to a page touched before needs no page; the first takes one if there is. */
  lemma TouchedBefore(ops: seq<Store>, op: Store, left: nat)
    requires (op.side, op.page) in Touched(ops)
    ensures Touched(ops + [op]) == Touched(ops) && Unserved(ops + [op], left) == Unserved(ops, left)
    ensures Remaining(ops + [op], left) == Remaining(ops, left)
  {
    hide Touched, Served;
    OneMore(ops, op, left);
    assert Touched(ops) + {(op.side, op.page)} == Touched(ops);
  }

  lemma TouchedFirst(ops: seq<Store>, op: Store, left: nat)
    requires (op.side, op.page) !in Touched(ops)
    ensures Touched(ops + [op]) == Touched(ops) + {(op.side, op.page)}
    ensures Unserved(ops + [op], left) ==
      Unserved(ops, left) + if Remaining(ops, left) == 0 then {(op.side, op.page)} else {}
    ensures Remaining(ops + [op], left) == if Remaining(ops, left) == 0 then 0 else Remaining(ops, left) - 1
  {
    hide Touched, Served;
    OneMore(ops, op, left);
    ServedTouched(ops, left);
    var touched, served, pair := Touched(ops), Served(ops, left), (op.side, op.page);
    SetsNext(touched, served, pair);
    if |touched| < left {
      assert Unserved(ops + [op], left) == (touched + {pair}) - (served + {pair});
    } else {
      assert Served(ops + [op], left) == served;
    }
  }

  lemma SetsNext(touched: set<(Side, nat)>, served: set<(Side, nat)>, pair: (Side, nat))
    requires served <= touched && pair !in touched
    ensures |touched + {pair}| == |touched| + 1
    ensures (touched + {pair}) - served == (touched - served) + {pair}
    ensures (touched + {pair}) - (served + {pair}) == touched - served
  {
  }

  lemma PagePrivate(m0: Mem, m: Mem, sp: Spaces, free: set<nat>, pages: set<nat>, ops: seq<Store>,
                    touched: set<(Side, nat)>, lost: set<(Side, nat)>, s: Side, u: nat)
    requires Fit(m0, sp) && Fit(m, sp) && LowPages(pages) && InPages(ops) && u in pages && Structure(m, sp, free)
    requires Views(m0, m, sp, free, pages, ops, touched, lost)
    ensures u < USER_PAGES && Private(m, RootOf(sp, s), TablesAt(sp, s), free, u) && Low(PathOf(u * PAGE_SIZE))
  {
    hide Decode, Flat, Views, Tree;
    InUse(m0, m, sp, free, pages, ops, touched, lost, s, u);
  }

  lemma PageAddress(u: nat)
    requires u < USER_PAGES
    ensures u * PAGE_SIZE <= USER_ADDR_MAX && u * PAGE_SIZE / PAGE_SIZE == u
  {
  }

  /** What is as it was in memory m1 with the free pages free1: every translation of a page
      that was not stored to, and every frame in use but frame 0 and the tables; a page that
      was stored to is on a frame that was free, or on frame 0. */
  ghost predicate Since(m1: Mem, free1: set<nat>, m: Mem, free: set<nat>, sp: Spaces, touched: set<(Side, nat)>)
    requires Fit(m1, sp) && Fit(m, sp)
  {
    && |m| == |m1| && free <= free1
    && (forall o, u :: 0 <= u < USER_PAGES && (o, u) !in touched ==> WordOf(m, sp, o, u) == WordOf(m1, sp, o, u))
    && (forall o, u :: 0 <= u < USER_PAGES && (o, u) in touched ==>
          FrameAt(m, sp, o, u) == 0 || FrameAt(m, sp, o, u) in free1)
    && (forall f :: 0 < f < |m| && f !in sp.tables && f !in sp.childTables && f !in free1 ==> m[f] == m1[f])
  }

  lemma SinceFault(m1: Mem, free1: set<nat>, m: Mem, free: set<nat>, m': Mem, sp: Spaces, touched: set<(Side, nat)>,
                   s: Side, v: nat, frame: nat)
    requires Fit(m1, sp) && Fit(m, sp) && Fit(m', sp) && |m'| == |m| && v < USER_PAGES && frame < |m|
    requires Since(m1, free1, m, free, sp, touched) && (frame == 0 || frame in free)
    requires Replaced(m, m', sp, s, v, frame)
    ensures Since(m1, free1, m', free - {frame}, sp, touched + {(s, v)})
  {
    hide Decode, Flat, RightsAt;
    forall o, u | 0 <= u < USER_PAGES && (o, u) != (s, v)
      ensures WordOf(m', sp, o, u) == WordOf(m, sp, o, u) && FrameAt(m', sp, o, u) == FrameAt(m, sp, o, u)
    {
    }
  }

  lemma SinceStore(m1: Mem, free1: set<nat>, m: Mem, free: set<nat>, sp: Spaces, touched: set<(Side, nat)>, op: Store)
    requires Fit(m1, sp) && Fit(m, sp) && Structure(m, sp, free) && Since(m1, free1, m, free, sp, touched)
    requires op.page < USER_PAGES && (op.side, op.page) in touched && op.index < 512
    requires var f := FrameAt(m, sp, op.side, op.page);
      f < |m| && f !in sp.tables && f !in sp.childTables
    ensures var m' := PutWord(m, FrameAt(m, sp, op.side, op.page), op.index, op.word);
      Fit(m', sp) && Since(m1, free1, m', free, sp, touched)
  {
    hide Decode, Flat, Structure;
    var f := FrameAt(m, sp, op.side, op.page);
    var m' := PutWord(m, f, op.index, op.word);
    StoreStructure(m, sp, free, f, op.index, op.word);
    forall o, u | 0 <= u < USER_PAGES
      ensures WordOf(m', sp, o, u) == WordOf(m, sp, o, u) && FrameAt(m', sp, o, u) == FrameAt(m, sp, o, u)
    {
    }
  }

  /** One store: a page that is not writable faults first. */
  method Put(mach: Machine, parent: AddressSpace, child: AddressSpace, op: Store, ghost m0: Mem, ghost pages: set<nat>,
             ghost ops: seq<Store>, ghost left: nat, ghost m1: Mem, ghost free1: set<nat>)
    requires parent != child && Running(mach, parent, child, m0, pages, ops, left) && op.page in pages && op.index < 512
    requires Fit(m1, SpacesOf(parent, child))
    requires Since(m1, free1, mach.mem, mach.pmm.FreeSet(), SpacesOf(parent, child), Touched(ops))
    modifies mach`mem, parent, child, mach.pmm, mach.pmm.frames, mach.pmm.pool, mach.pmm.pool.heads, mach.pmm.pool.next,
             mach.pmm.pool.prev
    ensures Running(mach, parent, child, m0, pages, ops + [op], left)
    ensures SpacesOf(parent, child) == old(SpacesOf(parent, child))
    ensures Since(m1, free1, mach.mem, mach.pmm.FreeSet(), SpacesOf(parent, child), Touched(ops + [op]))
  {
    hide PageAllocator.Valid, Tree, Decode, Flat, Structure, Views, Alone, Touched, Unserved, Remaining, Resolved,
         Replaced, Private, PathOf, Low, LowPages, Since;
    ghost var sp, touched, lost := SpacesOf(parent, child), Touched(ops), Unserved(ops, left);
    var space := if op.side.Parent? then parent else child;
    InUse(m0, mach.mem, sp, mach.pmm.FreeSet(), pages, ops, touched, lost, op.side, op.page);
    if !Decode(Flat(mach.mem, space.root, op.page)).write {
      ghost var m, free := mach.mem, mach.pmm.FreeSet();
      PagePrivate(m0, m, sp, free, pages, ops, touched, lost, op.side, op.page);
      PageAddress(op.page);
      LostTouched(ops, left);
      TouchedFirst(ops, op, left);
      ghost var handled, frame;
      handled, frame := HandleFault(mach, space, op.page * PAGE_SIZE, true, true, true);
      ResolvedIn(m, mach.mem, space.root, space.tables, op.page, frame);
      FaultReplaces(m, mach.mem, sp, free, op.side, op.page, frame);
      FaultKeeps(m0, m, mach.mem, sp, free, pages, ops, touched, lost, op.side, op.page, frame);
      SinceFault(m1, free1, m, free, mach.mem, sp, touched, op.side, op.page, frame);
      touched, lost := Touched(ops + [op]), Unserved(ops + [op], left);
      InUse(m0, mach.mem, sp, mach.pmm.FreeSet(), pages, ops, touched, lost, op.side, op.page);
    } else {
      TouchedBefore(ops, op, left);
    }
    StoreKeeps(m0, mach.mem, sp, mach.pmm.FreeSet(), pages, ops, touched, lost, op);
    SinceStore(m1, free1, mach.mem, mach.pmm.FreeSet(), sp, touched, op);
    mach.mem := PutWord(mach.mem, FrameOf(mach.mem, space.root, op.page), op.index, op.word);
    BothHold(mach, parent, child);
  }

  lemma LostTouched(ops: seq<Store>, left: nat)
    ensures Unserved(ops, left) <= Touched(ops)
  {
  }

  lemma ResolvedIn(m: Mem, m': Mem, root: nat, tables: map<nat, seq<nat>>, v: nat, frame: nat)
    requires ValidMem(m) && ValidMem(m') && |m| == |m'| && root < |m| && v < USER_PAGES
    requires Resolved(m, m', root, tables, v, frame)
    ensures frame < |m|
  {
  }

  lemma BothHold(mach: Machine, parent: AddressSpace, child: AddressSpace)
    requires mach.pmm.Valid() && Fit(mach.mem, SpacesOf(parent, child)) && |mach.mem| == mach.pmm.frames.Length
    requires Structure(mach.mem, SpacesOf(parent, child), mach.pmm.FreeSet())
    ensures mach.Holds(parent) && mach.Holds(child)
  {
    hide PageAllocator.Valid, Tree;
  }

  /** Any stores of both sides, one after another. */
  method Run(mach: Machine, parent: AddressSpace, child: AddressSpace, ops: seq<Store>, ghost m0: Mem,
             ghost pages: set<nat>, ghost left: nat)
    requires parent != child && Running(mach, parent, child, m0, pages, [], left)
    requires forall i :: 0 <= i < |ops| ==> ops[i].page in pages && ops[i].index < 512
    modifies mach`mem, parent, child, mach.pmm, mach.pmm.frames, mach.pmm.pool, mach.pmm.pool.heads, mach.pmm.pool.next,
             mach.pmm.pool.prev
    ensures Running(mach, parent, child, m0, pages, ops, left)
    ensures SpacesOf(parent, child) == old(SpacesOf(parent, child)) && Fit(old(mach.mem), SpacesOf(parent, child))
    ensures Since(old(mach.mem), old(mach.pmm.FreeSet()), mach.mem, mach.pmm.FreeSet(), SpacesOf(parent, child),
                  Touched(ops))
  {
    hide Running, Since;
    RunningFits(mach, parent, child, m0, pages, [], left);
    SinceStart(mach.mem, mach.pmm.FreeSet(), SpacesOf(parent, child));
    ghost var m1, free1, sp := mach.mem, mach.pmm.FreeSet(), SpacesOf(parent, child);
    var i := 0;
    while i < |ops|
      invariant 0 <= i <= |ops| && Running(mach, parent, child, m0, pages, ops[..i], left)
      invariant SpacesOf(parent, child) == sp && Fit(mach.mem, sp)
      invariant Since(m1, free1, mach.mem, mach.pmm.FreeSet(), sp, Touched(ops[..i]))
    {
      Put(mach, parent, child, ops[i], m0, pages, ops[..i], left, m1, free1);
      RunningFits(mach, parent, child, m0, pages, ops[..i] + [ops[i]], left);
      assert ops[..i] + [ops[i]] == ops[..i + 1];
      i := i + 1;
    }
    assert ops[..i] == ops;
  }

  lemma RunningFits(mach: Machine, parent: AddressSpace, child: AddressSpace, m0: Mem, pages: set<nat>,
                    ops: seq<Store>, left: nat)
    requires Running(mach, parent, child, m0, pages, ops, left)
    ensures Fit(mach.mem, SpacesOf(parent, child))
  {
    hide PageAllocator.Valid, Tree, Structure, Views, Alone, LowPages;
  }

  lemma SinceStart(m: Mem, free: set<nat>, sp: Spaces)
    requires Fit(m, sp)
    ensures Since(m, free, m, free, sp, Touched([]))
  {
  }

  // ---------------------------------------------------------------------------
  // Fork and run

  /** Protected pages are on frames other than frame 0. */
  ghost predicate NoZeroFrame(m: Mem, root: nat)
    requires ValidMem(m) && root < |m|
  {
    forall u :: 0 <= u < USER_PAGES && Protected(m, root, u) ==> FrameOf(m, root, u) != 0
  }

  ghost function ProtectedPages(m: Mem, root: nat): set<nat>
    requires ValidMem(m) && root < |m|
  {
    set u | 0 <= u < USER_PAGES && Protected(m, root, u)
  }

  lemma ProtectedLow(m: Mem, root: nat)
    requires ValidMem(m) && root < |m|
    ensures LowPages(ProtectedPages(m, root))
  {
    hide Decode, Flat, PathOf, Low;
  }

  /** Right after the fork every protected page is read-only in both, on its old frame. */
  lemma ForkViews(m0: Mem, m1: Mem, sp: Spaces, free0: set<nat>, free1: set<nat>)
    requires Fit(m0, sp) && Fit(m1, sp) && |m0| == |m1| && free1 <= free0
    requires FramesApart(m0, sp.root, sp.tables, free0) && NoZeroFrame(m0, sp.root)
    requires ChildPages(m0, m1, sp.root, sp.child) && ParentPages(m0, m1, sp.root)
    requires forall t :: t in sp.childTables ==> t in sp.tables || t in free0
    requires forall f :: 0 <= f < |m0| && f !in sp.tables && f !in free0 ==> m1[f] == m0[f]
    ensures LowPages(ProtectedPages(m0, sp.root))
    ensures Views(m0, m1, sp, free1, ProtectedPages(m0, sp.root), [], {}, {})
  {
    hide Decode, Flat, PathOf, Low;
    ProtectedLow(m0, sp.root);
    forall side, u | u in ProtectedPages(m0, sp.root)
      ensures PageView(m1, sp, free1, {}, {}, side, u, After(AtFork(m0, sp, u), [], side, u))
      ensures RightsAt(m1, sp, side, u) == RightsAt(m0, sp, Parent, u)
    {
      assert Protected(m0, sp.root, u);
    }
  }

  /** What each side sees of page u after the stores: what it held at the fork with that
      side's own stores, unless the page's first store found no free page; then, and only
      then, it is on frame 0. It is writable exactly when this side has stored to it. */
  ghost predicate Seen(m0: Mem, root: nat, m: Mem, seer: nat, ops: seq<Store>, left: nat, side: Side, u: nat)
    requires ValidMem(m0) && ValidMem(m) && |m| == |m0| && root < |m0| && seer < |m| && u < USER_PAGES && InPages(ops)
  {
    && FrameOf(m0, root, u) < |m0| && FrameOf(m, seer, u) < |m| && PageRights(m, seer, u) == PageRights(m0, root, u)
    && Decode(Flat(m, seer, u)).present && (Decode(Flat(m, seer, u)).write <==> (side, u) in Touched(ops))
    && (FrameOf(m, seer, u) == 0 <==> (side, u) in Unserved(ops, left))
    && (FrameOf(m, seer, u) != 0 ==> m[FrameOf(m, seer, u)] == After(m0[FrameOf(m0, root, u)], ops, side, u))
  }

  /** A page that a side has not stored to has the word the clone gave it, and is mapped
      exactly when it was before the fork. */
  ghost predicate NotStored(m0: Mem, root: nat, m: Mem, seer: nat, u: nat)
    requires ValidMem(m0) && ValidMem(m) && |m| == |m0| && root < |m0| && seer < |m| && u < USER_PAGES
  {
    if Decode(Flat(m0, root, u)).present then Flat(m, seer, u) == Cloned(Flat(m0, root, u), PathOf(u * PAGE_SIZE))
    else !Decode(Flat(m, seer, u)).present
  }

  /** Fork, then any stores of parent and child to protected pages. The fork succeeds
      exactly when there are pages enough. Each page that a side stores to takes one more,
      at the first store. */
  method ForkAndRun(mach: Machine, space: AddressSpace, current: nat, slabReady: bool, slabPage: seq<Word>,
                    ops: seq<Store>)
    returns (child: int, ghost left: nat)
    requires mach.Holds(space) && current < |mach.mem| && current !in mach.pmm.FreeSet() && |slabPage| == 512
    requires space.root < |mach.mem| && FramesApart(mach.mem, space.root, space.tables, mach.pmm.FreeSet())
    requires FreeBlank(mach.mem, mach.pmm.FreeSet()) && NoZeroFrame(mach.mem, space.root) && InPages(ops)
    requires forall i :: 0 <= i < |ops| ==> Protected(mach.mem, space.root, ops[i].page)
    modifies mach`mem, space, mach.pmm, mach.pmm.frames, mach.pmm.pool, mach.pmm.pool.heads, mach.pmm.pool.next,
             mach.pmm.pool.prev
    ensures mach.Holds(space) && ValidMem(old(mach.mem)) && |mach.mem| == |old(mach.mem)|
    ensures child != NIL <==> old(mach.pmm.freePages) >= CloneCost(old(mach.mem), space.root, slabReady)
    ensures child != NIL ==>
      && 0 <= child < |mach.mem| && left == old(mach.pmm.freePages) - CloneCost(old(mach.mem), space.root, slabReady)
      && mach.pmm.freePages == Remaining(ops, left)
      && forall u :: 0 <= u < USER_PAGES && Protected(old(mach.mem), space.root, u) ==>
           && Seen(old(mach.mem), space.root, mach.mem, space.root, ops, left, Parent, u)
           && Seen(old(mach.mem), space.root, mach.mem, child, ops, left, Child, u)
    ensures child != NIL ==>
      forall u :: 0 <= u < USER_PAGES ==>
        && ((Parent, u) !in Touched(ops) ==> NotStored(old(mach.mem), space.root, mach.mem, space.root, u))
        && ((Child, u) !in Touched(ops) ==> NotStored(old(mach.mem), space.root, mach.mem, child, u))
    ensures forall f :: 0 < f < |mach.mem| && f !in old(space.tables) && f !in old(mach.pmm.FreeSet()) ==>
      mach.mem[f] == old(mach.mem)[f]
  {
    hide Decode, Flat, PageAllocator.Valid, Tree, ParentPages, ChildPages, ExtraPages, OwnWalks, KernelHalf, SameMapped,
         FreeBlank, ChildShape, FramesApart, CloneCost, Structure, Views, Alone, NoZeroFrame, Seen, Remaining, Running,
         Inv, Since, NotStored, ParentKept, Touched;
    ghost var m0, free0 := mach.mem, mach.pmm.FreeSet();
    mach.pmm.StateKnown();
    ZeroNotFree(mach.pmm.cfg, mach.pmm.Abs());
    left := 0;
    ghost var childTables;
    child, childTables := CloneAddressSpace(mach, space, current, slabReady, slabPage);
    if child == NIL {
      return;
    }
    left := mach.pmm.freePages;
    var forked := new AddressSpace(child, childTables);
    ghost var sp, pages := SpacesOf(space, forked), ProtectedPages(m0, space.root);
    ghost var m1, free1 := mach.mem, mach.pmm.FreeSet();
    ForkStructure(mach.mem, sp, free0, mach.pmm.FreeSet(), m0);
    ForkViews(m0, mach.mem, sp, free0, mach.pmm.FreeSet());
    RunningStart(mach, space, forked, m0, pages);
    Run(mach, space, forked, ops, m0, pages, left);
    RunningSeen(mach, space, forked, m0, pages, ops, left, sp.tables, free0);
    RunningFits(mach, space, forked, m0, pages, ops, left);
    SinceFork(m0, free0, m1, free1, mach.mem, mach.pmm.FreeSet(), sp, Touched(ops));
  }

  /** From the clone to the end of the stores. */
  lemma SinceFork(m0: Mem, free0: set<nat>, m1: Mem, free1: set<nat>, m: Mem, free: set<nat>, sp: Spaces,
                  touched: set<(Side, nat)>)
    requires Fit(m0, sp) && Fit(m1, sp) && Fit(m, sp) && |m0| == |m1| && free1 <= free0
    requires Since(m1, free1, m, free, sp, touched)
    requires ParentPages(m0, m1, sp.root) && ChildPages(m0, m1, sp.root, sp.child)
    requires SameMapped(m0, m1, sp.root, sp.child)
    requires forall t :: t in sp.childTables ==> t in sp.tables || t in free0
    requires forall f :: 0 <= f < |m0| && f !in sp.tables && f !in free0 ==> m1[f] == m0[f]
    ensures |m| == |m0|
    ensures forall u :: 0 <= u < USER_PAGES ==>
      && ((Parent, u) !in touched ==> NotStored(m0, sp.root, m, sp.root, u))
      && ((Child, u) !in touched ==> NotStored(m0, sp.root, m, sp.child, u))
    ensures forall f :: 0 < f < |m| && f !in sp.tables && f !in free0 ==> m[f] == m0[f]
  {
    hide Decode, Flat, PathOf, Low, Protect;
    forall u | 0 <= u < USER_PAGES
      ensures (Parent, u) !in touched ==> NotStored(m0, sp.root, m, sp.root, u)
      ensures (Child, u) !in touched ==> NotStored(m0, sp.root, m, sp.child, u)
    {
      assert (Parent, u) !in touched ==> WordOf(m, sp, Parent, u) == WordOf(m1, sp, Parent, u);
      assert (Child, u) !in touched ==> WordOf(m, sp, Child, u) == WordOf(m1, sp, Child, u);
    }
  }

  lemma RunningStart(mach: Machine, parent: AddressSpace, child: AddressSpace, m0: Mem, pages: set<nat>)
    requires mach.Holds(parent) && Fit(m0, SpacesOf(parent, child)) && Fit(mach.mem, SpacesOf(parent, child))
    requires |m0| == |mach.mem| && LowPages(pages)
    requires Structure(mach.mem, SpacesOf(parent, child), mach.pmm.FreeSet())
    requires Views(m0, mach.mem, SpacesOf(parent, child), mach.pmm.FreeSet(), pages, [], {}, {})
    ensures Running(mach, parent, child, m0, pages, [], mach.pmm.freePages)
  {
    hide PageAllocator.Valid, Tree, Structure, Views, LowPages;
    BothHold(mach, parent, child);
    NothingTouched(mach.mem, SpacesOf(parent, child), pages, mach.pmm.freePages);
  }

  lemma RunningSeen(mach: Machine, parent: AddressSpace, child: AddressSpace, m0: Mem, pages: set<nat>,
                    ops: seq<Store>, left: nat, tables: map<nat, seq<nat>>, free0: set<nat>)
    requires Running(mach, parent, child, m0, pages, ops, left)
    requires ValidMem(m0) && parent.root < |m0| && pages == ProtectedPages(m0, parent.root)
    requires FramesApart(m0, parent.root, tables, free0)
    ensures ValidMem(mach.mem) && |mach.mem| == |m0| && child.root < |m0| && mach.Holds(parent) && InPages(ops)
    ensures mach.pmm.freePages == Remaining(ops, left)
    ensures forall u :: 0 <= u < USER_PAGES && Protected(m0, parent.root, u) ==>
      && Seen(m0, parent.root, mach.mem, parent.root, ops, left, Parent, u)
      && Seen(m0, parent.root, mach.mem, child.root, ops, left, Child, u)
  {
    hide PageAllocator.Valid, Tree, Structure, Views, LowPages, FramesApart, Protected, Seen, Remaining;
    SeenBy(m0, mach.mem, SpacesOf(parent, child), mach.pmm.FreeSet(), pages, ops, left, tables, free0);
  }

  lemma NothingTouched(m: Mem, sp: Spaces, pages: set<nat>, left: nat)
    requires Fit(m, sp) && LowPages(pages)
    ensures Touched([]) == {} && Unserved([], left) == {} && Remaining([], left) == left && Alone(m, sp, pages, {})
  {
  }

  lemma ForkStructure(m: Mem, sp: Spaces, free0: set<nat>, free1: set<nat>, m0: Mem)
    requires Fit(m, sp) && Tree(m, sp.root, sp.tables) && Tree(m, sp.child, sp.childTables)
    requires 0 !in free1 && 0 !in free0
    requires sp.tables.Keys !! free1 && ChildShape(sp.tables, sp.childTables, free0, free1)
    requires Fit(m0, sp) && FramesApart(m0, sp.root, sp.tables, free0)
    ensures Structure(m, sp, free1) && forall t :: t in sp.childTables ==> t in sp.tables || t in free0
  {
    hide Decode, Flat, Tree, Low;
  }

  lemma SeenBy(m0: Mem, m: Mem, sp: Spaces, free: set<nat>, pages: set<nat>, ops: seq<Store>, left: nat,
               tables: map<nat, seq<nat>>, free0: set<nat>)
    requires Fit(m0, sp) && Fit(m, sp) && |m| == |m0| && pages == ProtectedPages(m0, sp.root) && LowPages(pages)
    requires InPages(ops) && Views(m0, m, sp, free, pages, ops, Touched(ops), Unserved(ops, left))
    requires FramesApart(m0, sp.root, tables, free0)
    ensures forall u :: 0 <= u < USER_PAGES && Protected(m0, sp.root, u) ==>
      && Seen(m0, sp.root, m, sp.root, ops, left, Parent, u)
      && Seen(m0, sp.root, m, sp.child, ops, left, Child, u)
  {
    hide Decode, Flat, PathOf, Low, After, Unserved, Touched;
    forall u | 0 <= u < USER_PAGES && Protected(m0, sp.root, u)
      ensures Seen(m0, sp.root, m, sp.root, ops, left, Parent, u)
      ensures Seen(m0, sp.root, m, sp.child, ops, left, Child, u)
    {
      assert u in pages;
      assert PageView(m, sp, free, Touched(ops), Unserved(ops, left), Parent, u,
                      After(AtFork(m0, sp, u), ops, Parent, u));
      assert PageView(m, sp, free, Touched(ops), Unserved(ops, left), Child, u,
                      After(AtFork(m0, sp, u), ops, Child, u));
    }
  }
}
