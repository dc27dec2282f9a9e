/** Cloning an address space for fork on values: what copying the tables level by
    level does to the parent's tables and puts in the child's. */
module Clone {
  import opened Paging

  /** The word with its write bit cleared. */
  function Protect(w: Word): Word {
    Encode(Decode(w).(write := false))
  }

  lemma ProtectKeeps(w: Word)
    ensures var e := Decode(Protect(w));
      e == Decode(w).(write := false) && e.present == Decode(w).present && e.pfn == Decode(w).pfn && !e.write
    ensures Protect(w) == w <==> !Decode(w).write
  {
    EncodeDecode(w);
  }

  /** Every index is in the half that copy_page_table_level does not share. */
  predicate Low(q: seq<nat>) {
    forall i :: 0 <= i < |q| ==> q[i] < 256
  }

  /** What a mapped page's entry becomes: write-protected, unless a table on its way
      was shared because its index is 256 or more. */
  function Cloned(w: Word, q: seq<nat>): Word {
    if Low(q) then Protect(w) else w
  }

  /** Position `pos` lies under entry i < n of the table at position `top`. */
  predicate Under(top: seq<nat>, n: nat, pos: seq<nat>) {
    top < pos && pos[|top|] < n
  }

  /** Between m0 and m1 only words of last-level tables under the first n entries of
      the table at `top` changed, and only by losing the write bit. */
  ghost predicate ParentKept(m0: Mem, m1: Mem, tables: map<nat, seq<nat>>, top: seq<nat>, n: nat)
    requires ValidMem(m0) && ValidMem(m1) && |m0| == |m1|
  {
    forall f, j {:trigger m1[f][j]} :: f in tables && f < |m0| && 0 <= j < 512 && m1[f][j] != m0[f][j] ==>
      && |tables[f]| == 3 && Under(top, n, tables[f] + [j]) && Low((tables[f] + [j])[|top|..])
      && Decode(m0[f][j]).present && m1[f][j] == Protect(m0[f][j])
  }

  /** Pages other than tables, `dst` and those taken from the free set are untouched. */
  ghost predicate OthersKept(m0: Mem, m1: Mem, tables: map<nat, seq<nat>>, dst: nat, free0: set<nat>, free1: set<nat>)
    requires |m0| == |m1|
  {
    && free1 <= free0
    && forall f :: 0 <= f < |m0| && f !in tables && f != dst && f !in free0 - free1 ==> m1[f] == m0[f]
  }

  // ---------------------------------------------------------------------------
  // The state of a copy in progress

  /** Which of the parent's tables each fresh page is a copy of. */
  type Copies = map<nat, nat>

  /** The entry that leads the child to its copy of the table: the frame p, with the
      low twelve bits of the parent's entry. */
  function TableEntry(w: Word, p: U40): Word {
    Encode(Decode(w).(pfn := p, high := 0))
  }

  lemma TableEntryParts(w: Word, p: U40)
    ensures Decode(TableEntry(w, p)).present == Decode(w).present && Decode(TableEntry(w, p)).pfn == p
    ensures Decode(TableEntry(w, p)).user == Decode(w).user && Decode(TableEntry(w, p)).write == Decode(w).write
  {
  }

  /** As arithmetic: the frame address and the low twelve bits. */
  lemma TableEntryIs(w: Word, p: U40)
    ensures TableEntry(w, p) == p * 0x1000 + w % 0x1000
  {
    var e := Decode(w);
    assert w % 0x1000 == Bit(e.present) + 2 * (Bit(e.write) + 2 * (Bit(e.user) + 2 * e.low)) by {
      LowBits(w);
    }
  }

  lemma LowBits(w: Word)
    ensures var w1 := w / 2;
      var w2 := w1 / 2;
      var w3 := w2 / 2;
      w % 0x1000 == w % 2 + 2 * (w1 % 2 + 2 * (w2 % 2 + 2 * (w3 % 0x200)))
  {
    var w1 := w / 2;
    var w2 := w1 / 2;
    var w3 := w2 / 2;
    var low := w % 2 + 2 * (w1 % 2 + 2 * (w2 % 2 + 2 * (w3 % 0x200)));
    LowPart(w, w3 / 0x200, low);
  }

  lemma LowPart(w: nat, h: nat, low: nat)
    requires w == 0x1000 * h + low && low < 0x1000
    ensures w % 0x1000 == low
  {
  }

  /** What entry j of page c is after it was copied from table s: what the page held, for
      an absent entry; the parent's word, in the upper half; the write-protected word in
      both, at the last level; else an entry leading to the copy of the lower table. */
  ghost predicate EntryCopied(m0: Mem, m1: Mem, copies: Copies, c: nat, s: nat, j: nat, level: nat)
    requires ValidMem(m0) && ValidMem(m1) && |m0| == |m1| && c < |m0| && s < |m0| && j < 512
  {
    var w := m0[s][j];
    if !Decode(w).present then m1[c][j] == m0[c][j]
    else if j >= 256 then m1[c][j] == w
    else if level == 3 then m1[c][j] == m1[s][j] == Protect(w)
    else
      var p := Decode(m1[c][j]).pfn;
      m1[c][j] == TableEntry(w, p) && Leads(m0, s, j) && p in copies && copies[p] == Next(m0, s, j)
  }

  /** A page taken for the copy of a table under the first n entries of src. */
  ghost predicate FreshCopy(size: nat, tables: map<nat, seq<nat>>, src: nat, n: nat, free0: set<nat>, free1: set<nat>,
                            copies: Copies, c: nat)
    requires src in tables && c in copies
  {
    && c in free0 - free1 && c < size && copies[c] in tables && copies[c] < size
    && Under(tables[src], n, tables[copies[c]]) && Low(tables[copies[c]][|tables[src]|..])
  }

  /** The state after the first n entries of src have been copied to dst. */
  ghost predicate Copied(m0: Mem, m1: Mem, tables: map<nat, seq<nat>>, src: nat, dst: nat, n: nat,
                         free0: set<nat>, free1: set<nat>, copies: Copies)
    requires ValidMem(m0) && ValidMem(m1) && |m0| == |m1| && src < |m0| && dst < |m0| && src in tables
  {
    && ParentKept(m0, m1, tables, tables[src], n)
    && OthersKept(m0, m1, tables, dst, free0, free1)
    && dst in copies && copies[dst] == src
    && (forall c :: c in copies && c != dst ==> FreshCopy(|m0|, tables, src, n, free0, free1, copies, c))
    && (forall c, j :: c in copies && 0 <= j < 512 && (c == dst ==> j < n) ==>
          EntryCopied(m0, m1, copies, c, copies[c], j, |tables[copies[c]]|))
    && (forall j :: n <= j < 512 ==> m1[dst][j] == m0[dst][j])
  }

  /** src is one of the parent's tables; dst and the free pages are not. */
  ghost predicate Ready(m: Mem, root: nat, tables: map<nat, seq<nat>>, src: nat, dst: nat, free: set<nat>)
    requires ValidMem(m)
  {
    && Tree(m, root, tables) && src in tables && dst < |m|
    && dst !in tables && dst !in free && tables.Keys !! free
  }

  /** No row under entry i of src differs. */
  ghost predicate SameUnder(m: Mem, m': Mem, tables: map<nat, seq<nat>>, src: nat, i: nat)
    requires ValidMem(m) && ValidMem(m') && |m| == |m'| && src < |m| && src in tables && i < 512
  {
    && m'[src][i] == m[src][i]
    && (forall f :: f in tables && f < |m| && tables[src] + [i] <= tables[f] ==> m'[f] == m[f])
  }

  lemma KeptTree(m0: Mem, m1: Mem, root: nat, tables: map<nat, seq<nat>>, top: seq<nat>, n: nat)
    requires ValidMem(m0) && ValidMem(m1) && |m0| == |m1| && Tree(m0, root, tables)
    requires ParentKept(m0, m1, tables, top, n)
    ensures Tree(m1, root, tables)
  {
    hide Decode, Protect;
    forall t, i: nat | t in tables && Inner(tables[t], i) && Get(m1, t, i).present
      ensures ChildAt(m1, tables, t, i)
    {
      assert m1[t][i] == m0[t][i];
      assert ChildAt(m0, tables, t, i);
    }
  }

  /** Nothing under an entry that has not been copied yet has changed. */
  lemma AheadKept(m0: Mem, m1: Mem, tables: map<nat, seq<nat>>, src: nat, n: nat, i: nat)
    requires ValidMem(m0) && ValidMem(m1) && |m0| == |m1| && src < |m0| && src in tables && n <= i < 512
    requires ParentKept(m0, m1, tables, tables[src], n)
    ensures SameUnder(m0, m1, tables, src, i)
  {
    hide Decode, Protect, Low;
    var top := tables[src];
    assert (top + [i])[|top|] == i;
    forall f, j | f in tables && f < |m0| && top + [i] <= tables[f] && 0 <= j < 512
      ensures m1[f][j] == m0[f][j]
    {
      assert (tables[f] + [j])[|top|] == (top + [i])[|top|];
    }
    forall f | f in tables && f < |m0| && top + [i] <= tables[f]
      ensures m1[f] == m0[f]
    {
      assert forall j :: 0 <= j < 512 ==> m1[f][j] == m0[f][j];
    }
  }

  lemma KeptMore(m0: Mem, m1: Mem, tables: map<nat, seq<nat>>, top: seq<nat>, n: nat, n': nat)
    requires ValidMem(m0) && ValidMem(m1) && |m0| == |m1| && n <= n' && ParentKept(m0, m1, tables, top, n)
    ensures ParentKept(m0, m1, tables, top, n')
  {
  }

  // ---------------------------------------------------------------------------
  // One turn of the copy loop

  /** An entry stays copied while its words do and the known copies grow. */
  lemma EntryKept(m0: Mem, m1: Mem, copies: Copies, m0': Mem, m1': Mem, copies': Copies, c: nat, s: nat, j: nat,
                  level: nat)
    requires ValidMem(m0) && ValidMem(m1) && ValidMem(m0') && ValidMem(m1') && |m0| == |m1| == |m0'| == |m1'|
    requires c < |m0| && s < |m0| && j < 512 && EntryCopied(m0, m1, copies, c, s, j, level)
    requires m0'[s][j] == m0[s][j] && m0'[c][j] == m0[c][j] && m1'[c][j] == m1[c][j]
    requires (level == 3 ==> m1'[s][j] == m1[s][j])
    requires forall p :: p in copies ==> p in copies' && copies'[p] == copies[p]
    ensures EntryCopied(m0', m1', copies', c, s, j, level)
  {
    hide Decode, Protect, TableEntry;
  }

  lemma CopyNone(m: Mem, tables: map<nat, seq<nat>>, src: nat, dst: nat, free: set<nat>)
    requires ValidMem(m) && src < |m| && dst < |m| && src in tables
    ensures Copied(m, m, tables, src, dst, 0, free, free, map[dst := src])
  {
  }

  /** An absent entry is skipped. */
  lemma CopySkip(m0: Mem, m1: Mem, tables: map<nat, seq<nat>>, src: nat, dst: nat, n: nat, free0: set<nat>,
                 free1: set<nat>, copies: Copies)
    requires ValidMem(m0) && ValidMem(m1) && |m0| == |m1| && src < |m0| && dst < |m0| && src in tables && n < 512
    requires Copied(m0, m1, tables, src, dst, n, free0, free1, copies) && !Decode(m1[src][n]).present
    ensures Copied(m0, m1, tables, src, dst, n + 1, free0, free1, copies)
  {
    KeptMore(m0, m1, tables, tables[src], n, n + 1);
    AheadKept(m0, m1, tables, src, n, n);
    hide ParentKept, OthersKept, Decode, Protect, TableEntry, Low;
  }

  /** An entry in the upper half of any level is shared: the child gets the same word. */
  lemma CopyShare(m0: Mem, m1: Mem, root: nat, tables: map<nat, seq<nat>>, src: nat, dst: nat, n: nat,
                  free0: set<nat>, free1: set<nat>, copies: Copies)
    requires ValidMem(m0) && ValidMem(m1) && |m0| == |m1| && src < |m0| && dst < |m0| && 256 <= n < 512
    requires Ready(m0, root, tables, src, dst, free0)
    requires Copied(m0, m1, tables, src, dst, n, free0, free1, copies) && Decode(m1[src][n]).present
    ensures Copied(m0, PutWord(m1, dst, n, m1[src][n]), tables, src, dst, n + 1, free0, free1, copies)
  {
    var m2 := PutWord(m1, dst, n, m1[src][n]);
    KeptMore(m0, m1, tables, tables[src], n, n + 1);
    AheadKept(m0, m1, tables, src, n, n);
    hide Decode, Protect, TableEntry, Low, Tree;
    forall c, j | c in copies && 0 <= j < 512 && (c == dst ==> j < n + 1)
      ensures EntryCopied(m0, m2, copies, c, copies[c], j, |tables[copies[c]]|)
    {
      if !(c == dst && j == n) {
        EntryKept(m0, m1, copies, m0, m2, copies, c, copies[c], j, |tables[copies[c]]|);
      }
    }
  }

  /** At the last level the entry is write-protected in both tables. */
  lemma CopyProtect(m0: Mem, m1: Mem, root: nat, tables: map<nat, seq<nat>>, src: nat, dst: nat, n: nat,
                    free0: set<nat>, free1: set<nat>, copies: Copies)
    requires ValidMem(m0) && ValidMem(m1) && |m0| == |m1| && src < |m0| && dst < |m0| && n < 256
    requires Ready(m0, root, tables, src, dst, free0) && |tables[src]| == 3
    requires Copied(m0, m1, tables, src, dst, n, free0, free1, copies) && Decode(m1[src][n]).present
    ensures var w := Protect(m1[src][n]);
      Copied(m0, PutWord(PutWord(m1, dst, n, w), src, n, w), tables, src, dst, n + 1, free0, free1, copies)
  {
    var w := Protect(m1[src][n]);
    var m2 := PutWord(PutWord(m1, dst, n, w), src, n, w);
    AheadKept(m0, m1, tables, src, n, n);
    ProtectKept(m0, m1, tables, src, dst, n);
    hide Decode, Protect, TableEntry, Low, Tree, ParentKept;
    forall c, j | c in copies && 0 <= j < 512 && (c == dst ==> j < n + 1)
      ensures EntryCopied(m0, m2, copies, c, copies[c], j, |tables[copies[c]]|)
    {
      if !(c == dst && j == n) {
        EntryKept(m0, m1, copies, m0, m2, copies, c, copies[c], j, |tables[copies[c]]|);
      }
    }
  }

  lemma ProtectKept(m0: Mem, m1: Mem, tables: map<nat, seq<nat>>, src: nat, dst: nat, n: nat)
    requires ValidMem(m0) && ValidMem(m1) && |m0| == |m1| && src < |m0| && dst < |m0| && n < 256
    requires src in tables && dst !in tables && |tables[src]| == 3 && ParentKept(m0, m1, tables, tables[src], n)
    requires Decode(m1[src][n]).present && m1[src][n] == m0[src][n]
    ensures var w := Protect(m1[src][n]);
      ParentKept(m0, PutWord(PutWord(m1, dst, n, w), src, n, w), tables, tables[src], n + 1)
  {
    hide Decode, Protect;
    assert (tables[src] + [n])[3..] == [n];
    KeptMore(m0, m1, tables, tables[src], n, n + 1);
  }

  /** The parent after copying the table at top + [i], given the parent before. */
  lemma KeptCompose(m0: Mem, m1: Mem, m2: Mem, tables: map<nat, seq<nat>>, src: nat, i: nat)
    requires ValidMem(m0) && ValidMem(m1) && ValidMem(m2) && |m0| == |m1| == |m2| && src in tables && src < |m0|
    requires i < 256
    requires ParentKept(m0, m1, tables, tables[src], i) && ParentKept(m1, m2, tables, tables[src] + [i], 512)
    ensures ParentKept(m0, m2, tables, tables[src], i + 1)
  {
    hide Decode, Protect;
    var top := tables[src];
    forall f, j | f in tables && f < |m0| && 0 <= j < 512 && m2[f][j] != m0[f][j]
      ensures |tables[f]| == 3 && Under(top, i + 1, tables[f] + [j]) && Low((tables[f] + [j])[|top|..])
      ensures Decode(m0[f][j]).present && m2[f][j] == Protect(m0[f][j])
    {
      var pos := tables[f] + [j];
      if m2[f][j] != m1[f][j] {
        assert top + [i] < pos;
        assert pos[|top|] == (top + [i])[|top|] == i;
        assert m1[f][j] == m0[f][j];
        assert pos[|top|..] == [i] + pos[|top + [i]|..];
      }
    }
  }

  lemma OthersCompose(m0: Mem, m1: Mem, m2: Mem, tables: map<nat, seq<nat>>, dst: nat, p: nat, free0: set<nat>,
                      free1: set<nat>, free2: set<nat>)
    requires |m0| == |m1| == |m2| && p in free1
    requires OthersKept(m0, m1, tables, dst, free0, free1) && OthersKept(m1, m2, tables, p, free1 - {p}, free2)
    ensures OthersKept(m0, m2, tables, dst, free0, free2)
  {
  }

  /** Copying a whole lower table leaves what is under the other entries alone. */
  lemma OtherEntryKept(m1: Mem, m2: Mem, tables: map<nat, seq<nat>>, src: nat, i: nat, k: nat)
    requires ValidMem(m1) && ValidMem(m2) && |m1| == |m2| && src in tables && src < |m1| && i < 512 && k < 512 && i != k
    requires |tables[src]| < 3 && ParentKept(m1, m2, tables, tables[src] + [i], 512)
    ensures SameUnder(m1, m2, tables, src, k)
  {
    hide Decode, Protect, Low;
    var top := tables[src];
    forall f | f in tables && f < |m1| && top + [k] <= tables[f]
      ensures m2[f] == m1[f]
    {
      forall j | 0 <= j < 512
        ensures m2[f][j] == m1[f][j]
      {
        var pos := tables[f] + [j];
        assert pos[|top|] == (top + [k])[|top|] == k;
        assert (top + [i])[|top|] == i;
      }
    }
  }

  /** What an entry copied earlier needs to stay so: neither its page nor the parent's
      table it came from is written while the table at entry n is copied to p. */
  lemma EarlierKept(m0: Mem, m1: Mem, m2: Mem, tables: map<nat, seq<nat>>, src: nat, dst: nat, n: nat, p: nat,
                    free0: set<nat>, free1: set<nat>, free2: set<nat>, copies: Copies, c: nat)
    requires ValidMem(m0) && ValidMem(m1) && ValidMem(m2) && |m0| == |m1| == |m2| && src < |m0| && dst < |m0|
    requires src in tables && n < 256
    requires |tables[src]| < 3 && tables.Keys !! free0 && dst !in tables && dst !in free0 && p in free1
    requires free1 <= free0
    requires c in copies && dst in copies && copies[dst] == src
    requires c != dst ==> FreshCopy(|m0|, tables, src, n, free0, free1, copies, c)
    requires ParentKept(m1, m2, tables, tables[src] + [n], 512) && OthersKept(m1, m2, tables, p, free1 - {p}, free2)
    ensures m2[c] == m1[c] && copies[c] in tables && copies[c] < |m0| && m2[copies[c]] == m1[copies[c]]
  {
    hide Decode, Protect;
    assert c !in tables.Keys;
    if c == dst {
      assert forall j :: 0 <= j < 512 ==> m2[src][j] == m1[src][j];
    } else {
      var k := tables[copies[c]][|tables[src]|];
      assert k < 512;
      OtherEntryKept(m1, m2, tables, src, n, k);
      assert tables[src] + [k] <= tables[copies[c]];
    }
  }

  /** What an entry of the lower copy means for the whole: its page was untouched before,
      and so was the parent's table it came from. */
  lemma LowerKept(m0: Mem, m1: Mem, tables: map<nat, seq<nat>>, src: nat, dst: nat, n: nat, next: nat, p: nat,
                  free0: set<nat>, free1: set<nat>, free2: set<nat>, lower: Copies, c: nat)
    requires ValidMem(m0) && ValidMem(m1) && |m0| == |m1| && src < |m0| && dst < |m0| && src in tables && n < 256
    requires p < |m0|
    requires tables.Keys !! free0 && dst !in free0 && p in free1 && next in tables && next < |m0|
    requires tables[next] == tables[src] + [n]
    requires OthersKept(m0, m1, tables, dst, free0, free1) && SameUnder(m0, m1, tables, src, n)
    requires p in lower && lower[p] == next && c in lower
    requires c != p ==> FreshCopy(|m0|, tables, next, 512, free1 - {p}, free2, lower, c)
    ensures c < |m0| && c != dst && m1[c] == m0[c] && lower[c] in tables && lower[c] < |m0|
    ensures m1[lower[c]] == m0[lower[c]]
  {
    assert c in free1 && c in free0 && c !in tables.Keys;
    assert tables[src] + [n] <= tables[lower[c]];
  }

  lemma CopiesGrow(size: nat, tables: map<nat, seq<nat>>, src: nat, dst: nat, n: nat, next: nat, p: nat,
                   free0: set<nat>, free1: set<nat>, free2: set<nat>, copies: Copies, lower: Copies, c: nat)
    requires src in tables && n < 256 && next in tables && next < size && tables[next] == tables[src] + [n]
    requires p in free1 && p < size && free2 <= free1 - {p} && free1 <= free0
    requires p in lower && lower[p] == next && c in copies + lower && c != dst
    requires c in lower && c != p ==> FreshCopy(size, tables, next, 512, free1 - {p}, free2, lower, c)
    requires c in copies ==> FreshCopy(size, tables, src, n, free0, free1, copies, c)
    ensures FreshCopy(size, tables, src, n + 1, free0, free2, copies + lower, c)
  {
    if c in lower {
      var pos := tables[lower[c]];
      assert tables[next] <= pos && pos[|tables[src]|] == tables[next][|tables[src]|] == n;
      assert pos[|tables[src]|..] == [n] + pos[|tables[next]|..];
    }
  }

  lemma DestinationWritten(m0: Mem, m2: Mem, tables: map<nat, seq<nat>>, src: nat, dst: nat, n: nat, w: Word,
                           free0: set<nat>, free2: set<nat>)
    requires ValidMem(m0) && ValidMem(m2) && |m0| == |m2| && src in tables && dst < |m0| && dst !in tables && n < 512
    requires ParentKept(m0, m2, tables, tables[src], n + 1) && OthersKept(m0, m2, tables, dst, free0, free2)
    ensures var m3 := PutWord(m2, dst, n, w);
      ParentKept(m0, m3, tables, tables[src], n + 1) && OthersKept(m0, m3, tables, dst, free0, free2)
  {
    hide Decode, Protect, Low;
  }

  lemma OthersShrink(m0: Mem, m1: Mem, tables: map<nat, seq<nat>>, dst: nat, free0: set<nat>, free1: set<nat>)
    requires |m0| == |m1| && OthersKept(m0, m1, tables, dst, free0, free1)
    ensures free1 <= free0
  {
  }

  /** The entry that leads to the copy. */
  lemma EntryOfTable(m0: Mem, m3: Mem, src: nat, dst: nat, n: nat, p: nat, next: nat, all: Copies)
    requires ValidMem(m0) && ValidMem(m3) && |m0| == |m3| && src < |m0| && dst < |m0| && n < 256 && p < |m0|
    requires Leads(m0, src, n) && Next(m0, src, n) == next && p in all && all[p] == next
    requires m3[dst][n] == TableEntry(m0[src][n], p)
    ensures forall level: nat :: level < 3 ==> EntryCopied(m0, m3, all, dst, src, n, level)
  {
    TableEntryParts(m0[src][n], p);
    hide Decode, TableEntry;
  }

  /** Below the last level the entry's table is copied to a fresh page p. */
  lemma CopyTable(m0: Mem, m1: Mem, m2: Mem, root: nat, tables: map<nat, seq<nat>>, src: nat, dst: nat, n: nat, p: nat,
                  free0: set<nat>, free1: set<nat>, free2: set<nat>, copies: Copies, lower: Copies)
    requires ValidMem(m0) && ValidMem(m1) && ValidMem(m2) && |m0| == |m1| == |m2| && src < |m0| && dst < |m0| && n < 256
    requires Ready(m0, root, tables, src, dst, free0) && |tables[src]| < 3 && p in free1 && p < |m0|
    requires Copied(m0, m1, tables, src, dst, n, free0, free1, copies) && ChildAt(m1, tables, src, n)
    requires Copied(m1, m2, tables, Next(m1, src, n), p, 512, free1 - {p}, free2, lower)
    ensures Copied(m0, PutWord(m2, dst, n, TableEntry(m2[src][n], p)), tables, src, dst, n + 1,
                   free0, free2, copies + lower)
  {
    hide ParentKept, OthersKept, EntryCopied, Decode, Protect, TableEntry, Low, Tree;
    var m3 := PutWord(m2, dst, n, TableEntry(m2[src][n], p));
    var next, all := Next(m1, src, n), copies + lower;
    AheadKept(m0, m1, tables, src, n, n);
    KeptCompose(m0, m1, m2, tables, src, n);
    OthersCompose(m0, m1, m2, tables, dst, p, free0, free1, free2);
    DestinationWritten(m0, m2, tables, src, dst, n, TableEntry(m2[src][n], p), free0, free2);
    OthersShrink(m0, m1, tables, dst, free0, free1);
    OthersShrink(m1, m2, tables, p, free1 - {p}, free2);
    EarlierKept(m0, m1, m2, tables, src, dst, n, p, free0, free1, free2, copies, dst);
    EntryOfTable(m0, m3, src, dst, n, p, next, all);
    forall c | c in all && c != dst
      ensures FreshCopy(|m0|, tables, src, n + 1, free0, free2, all, c)
    {
      CopiesGrow(|m0|, tables, src, dst, n, next, p, free0, free1, free2, copies, lower, c);
    }
    forall c, j | c in all && 0 <= j < 512 && (c == dst ==> j < n + 1)
      ensures EntryCopied(m0, m3, all, c, all[c], j, |tables[all[c]]|)
    {
      if c in lower {
        LowerKept(m0, m1, tables, src, dst, n, next, p, free0, free1, free2, lower, c);
        EntryKept(m1, m2, lower, m0, m3, all, c, lower[c], j, |tables[lower[c]]|);
      } else if !(c == dst && j == n) {
        EarlierKept(m0, m1, m2, tables, src, dst, n, p, free0, free1, free2, copies, c);
        EntryKept(m0, m1, copies, m0, m3, all, c, copies[c], j, |tables[copies[c]]|);
      }
    }
  }

  // ---------------------------------------------------------------------------
  // How many pages a copy takes

  /** The pages needed to copy what is under entries i to 255 of table t: one for each
      table reached by indices below 256. */
  ghost function PagesNeeded(m: Mem, t: nat, height: nat, i: nat): nat
    requires ValidMem(m) && t < |m| && i <= 256
    decreases height, 256 - i
  {
    if height == 0 || i == 256 then 0
    else
      PagesNeeded(m, t, height, i + 1) +
      if Leads(m, t, i) then 1 + PagesNeeded(m, Next(m, t, i), height - 1, 0) else 0
  }

  /** The count depends on no last-level table. */
  lemma {:induction false} NeededSame(m0: Mem, m1: Mem, root: nat, tables: map<nat, seq<nat>>, t: nat, height: nat,
                                      i: nat)
    requires ValidMem(m0) && ValidMem(m1) && |m0| == |m1| && Tree(m0, root, tables) && t in tables && t < |m0|
    requires i <= 256
    requires |tables[t]| + height == 3 && forall f :: f in tables && f < |m0| && |tables[f]| < 3 ==> m1[f] == m0[f]
    ensures PagesNeeded(m1, t, height, i) == PagesNeeded(m0, t, height, i)
    decreases height, 256 - i
  {
    hide Decode, Tree;
    if height > 0 && i < 256 {
      NeededSame(m0, m1, root, tables, t, height, i + 1);
      if Get(m0, t, i).present {
        PresentChild(m0, root, tables, t, i);
        NeededSame(m0, m1, root, tables, Next(m0, t, i), height - 1, 0);
      }
    }
  }

  lemma KeptAbove(m0: Mem, m1: Mem, tables: map<nat, seq<nat>>, top: seq<nat>, n: nat)
    requires ValidMem(m0) && ValidMem(m1) && |m0| == |m1| && ParentKept(m0, m1, tables, top, n)
    ensures forall f :: f in tables && f < |m0| && |tables[f]| < 3 ==> m1[f] == m0[f]
  {
    hide Decode, Protect, Low;
    forall f | f in tables && f < |m0| && |tables[f]| < 3
      ensures m1[f] == m0[f]
    {
      assert forall j :: 0 <= j < 512 ==> m1[f][j] == m0[f][j];
    }
  }
}
