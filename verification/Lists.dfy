/** Doubly linked lists whose links live in the nodes, as mm.cpp threads its free
    lists through the page frames and heap.cpp threads its slab lists through the
    slab headers. A node is a number; a null pointer is NIL. */
module Lists {

  const NIL: int := -1

  ghost predicate NoDup(s: seq<nat>) {
    forall i, j :: 0 <= i < j < |s| ==> s[i] != s[j]
  }

  /** No node is on two different lists. */
  ghost predicate Separate(lists: seq<seq<nat>>) {
    forall j, k, x :: 0 <= j < |lists| && 0 <= k < |lists| && x in lists[j] && x in lists[k] ==> j == k
  }

  function At(s: seq<nat>, i: int): int {
    if 0 <= i < |s| then s[i] else NIL
  }

  function Without(s: seq<nat>, x: nat): (r: seq<nat>)
    ensures x !in s ==> r == s
    ensures forall y: nat :: y != x ==> (y in r <==> y in s)
  {
    if s == [] then []
    else if s[0] == x then
      assert s == [s[0]] + s[1..];
      s[1..]
    else
      assert s == [s[0]] + s[1..];
      [s[0]] + Without(s[1..], x)
  }

  lemma {:induction false} WithoutAt(s: seq<nat>, i: nat)
    requires i < |s| && NoDup(s)
    ensures Without(s, s[i]) == s[..i] + s[i + 1..]
    ensures s[i] !in Without(s, s[i])
    ensures NoDup(Without(s, s[i]))
  {
    if i > 0 {
      assert s[1..][i - 1] == s[i];
      WithoutAt(s[1..], i - 1);
      assert s[..i] == [s[0]] + s[1..][..i - 1];
      assert s[1..][i..] == s[i + 1..];
    }
  }

  lemma WithoutGone(s: seq<nat>, x: nat)
    requires x in s && NoDup(s)
    ensures x !in Without(s, x) && NoDup(Without(s, x))
  {
    var i :| 0 <= i < |s| && s[i] == x;
    WithoutAt(s, i);
  }

  lemma WithoutLength(s: seq<nat>, x: nat)
    requires x in s
    ensures |Without(s, x)| == |s| - 1
  {
  }

  /** A list with this head is threaded, front to back, through exactly the nodes of s. */
  ghost predicate Thread(s: seq<nat>, head: int, next: seq<int>, prev: seq<int>) {
    && NoDup(s)
    && head == At(s, 0)
    && (forall i :: 0 <= i < |s| ==> s[i] < |next| && s[i] < |prev|)
    && (forall i {:trigger next[s[i]]} :: 0 <= i < |s| ==> next[s[i]] == At(s, i + 1))
    && (forall i {:trigger prev[s[i]]} :: 0 <= i < |s| ==> prev[s[i]] == At(s, i - 1))
  }

  lemma ThreadFrame(s: seq<nat>, head: int, next: seq<int>, prev: seq<int>, next': seq<int>, prev': seq<int>)
    requires Thread(s, head, next, prev) && |next'| == |next| && |prev'| == |prev|
    requires forall y :: y in s ==> next'[y] == next[y] && prev'[y] == prev[y]
    ensures Thread(s, head, next', prev')
  {
    forall i | 0 <= i < |s|
      ensures next'[s[i]] == At(s, i + 1) && prev'[s[i]] == At(s, i - 1)
    {
      assert s[i] in s;
      assert next[s[i]] == At(s, i + 1) && prev[s[i]] == At(s, i - 1);
    }
  }

  /** The links after pushing x in front of a list whose head was h. */
  function PushedPrev(prev: seq<int>, h: int, x: nat): (prev': seq<int>)
    requires x < |prev| && h < |prev|
  {
    if h >= 0 then prev[x := NIL][h := x] else prev[x := NIL]
  }

  lemma ThreadPush(s: seq<nat>, head: int, next: seq<int>, prev: seq<int>, x: nat)
    requires Thread(s, head, next, prev) && x < |next| == |prev| && x !in s
    ensures head < |prev| && Thread([x] + s, x, next[x := head], PushedPrev(prev, head, x))
  {
    var s', n', p' := [x] + s, next[x := head], PushedPrev(prev, head, x);
    forall i | 0 <= i < |s'|
      ensures n'[s'[i]] == At(s', i + 1) && p'[s'[i]] == At(s', i - 1)
    {
      if i > 0 {
        assert s'[i] == s[i - 1] && s[i - 1] in s;
        assert next[s[i - 1]] == At(s, i) && prev[s[i - 1]] == At(s, i - 2);
      }
    }
  }

  /** The links after unlinking node i of s. */
  function RemovedNext(next: seq<int>, s: seq<nat>, i: nat): (r: seq<int>)
    requires i < |s| && forall j :: 0 <= j < |s| ==> s[j] < |next|
    ensures |r| == |next|
  {
    if i > 0 then next[s[i - 1] := At(s, i + 1)] else next
  }

  function RemovedPrev(prev: seq<int>, s: seq<nat>, i: nat): (r: seq<int>)
    requires i < |s| && forall j :: 0 <= j < |s| ==> s[j] < |prev|
    ensures |r| == |prev|
  {
    if i + 1 < |s| then prev[s[i + 1] := At(s, i - 1)] else prev
  }

  lemma RemovedLinks(s: seq<nat>, i: nat, head: int, next: seq<int>, prev: seq<int>, j: nat)
    requires Thread(s, head, next, prev) && i < |s| && j < |s| - 1
    ensures var s' := s[..i] + s[i + 1..];
      && RemovedNext(next, s, i)[s'[j]] == At(s', j + 1)
      && RemovedPrev(prev, s, i)[s'[j]] == At(s', j - 1)
  {
    var m := if j < i then j else j + 1;
    assert next[s[m]] == At(s, m + 1) && prev[s[m]] == At(s, m - 1);
  }

  lemma ThreadRemove(s: seq<nat>, i: nat, head: int, next: seq<int>, prev: seq<int>)
    requires Thread(s, head, next, prev) && i < |s|
    ensures next[s[i]] == At(s, i + 1) && prev[s[i]] == At(s, i - 1)
    ensures Thread(Without(s, s[i]), if i == 0 then At(s, 1) else head, RemovedNext(next, s, i),
                   RemovedPrev(prev, s, i))
  {
    hide Without, RemovedNext, RemovedPrev;
    WithoutAt(s, i);
    var s', next', prev' := s[..i] + s[i + 1..], RemovedNext(next, s, i), RemovedPrev(prev, s, i);
    assert next[s[i]] == At(s, i + 1) && prev[s[i]] == At(s, i - 1);
    forall j | 0 <= j < |s'|
      ensures s'[j] < |next'| && s'[j] < |prev'|
      ensures next'[s'[j]] == At(s', j + 1) && prev'[s'[j]] == At(s', j - 1)
    {
      RemovedLinks(s, i, head, next, prev, j);
      assert s'[j] == s[if j < i then j else j + 1];
    }
  }

  lemma RemoveFrame(lists: seq<seq<nat>>, k: nat, i: nat, j: nat, head: int, next: seq<int>, prev: seq<int>)
    requires Separate(lists) && k < |lists| && j < |lists| && j != k && i < |lists[k]|
    requires forall m :: 0 <= m < |lists[k]| ==> lists[k][m] < |next| && lists[k][m] < |prev|
    requires Thread(lists[j], head, next, prev)
    ensures Thread(lists[j], head, RemovedNext(next, lists[k], i), RemovedPrev(prev, lists[k], i))
  {
    ThreadFrame(lists[j], head, next, prev, RemovedNext(next, lists[k], i), RemovedPrev(prev, lists[k], i));
  }

  /** All lists at once, no node on two of them. */
  ghost predicate Threads(lists: seq<seq<nat>>, heads: seq<int>, next: seq<int>, prev: seq<int>) {
    && |heads| == |lists| && |next| == |prev|
    && (forall k :: 0 <= k < |lists| ==> Thread(lists[k], heads[k], next, prev))
    && Separate(lists)
  }

  lemma SeparateRemoved(lists: seq<seq<nat>>, k: nat, x: nat)
    requires Separate(lists) && k < |lists|
    ensures Separate(lists[k := Without(lists[k], x)])
  {
    var s := Without(lists[k], x);
    assert forall y: nat :: y in s ==> y in lists[k];
  }

  lemma ThreadsRemove(lists: seq<seq<nat>>, heads: seq<int>, next: seq<int>, prev: seq<int>, k: nat, i: nat)
    requires Threads(lists, heads, next, prev) && k < |lists| && i < |lists[k]|
    ensures var s := lists[k];
      && (forall m :: 0 <= m < |s| ==> s[m] < |next|)
      && next[s[i]] == At(s, i + 1) && prev[s[i]] == At(s, i - 1)
      && Threads(lists[k := Without(s, s[i])], heads[k := if i == 0 then At(s, 1) else heads[k]],
                 RemovedNext(next, s, i), RemovedPrev(prev, s, i))
  {
    hide Separate, Without;
    var s := lists[k];
    ThreadRemove(s, i, heads[k], next, prev);
    forall j | 0 <= j < |lists| && j != k
      ensures Thread(lists[j], heads[j], RemovedNext(next, s, i), RemovedPrev(prev, s, i))
    {
      RemoveFrame(lists, k, i, j, heads[j], next, prev);
    }
    SeparateRemoved(lists, k, s[i]);
  }

  class ListPool {
    const heads: array<int>
    const next: array<int>
    const prev: array<int>
    ghost var lists: seq<seq<nat>>

    ghost predicate Valid()
      reads this, heads, next, prev
    {
      && heads != next && heads != prev && next != prev
      && |lists| == heads.Length && next.Length == prev.Length
      && Threads(lists, heads[..], next[..], prev[..])
    }

    constructor (listCount: nat, nodeCount: nat)
      ensures Valid() && fresh(heads) && fresh(next) && fresh(prev)
      ensures next.Length == nodeCount
      ensures lists == seq(listCount, i => [])
    {
      heads := new int[listCount](i => NIL);
      next := new int[nodeCount](i => NIL);
      prev := new int[nodeCount](i => NIL);
      lists := seq(listCount, i => []);
    }

    /** What the head cell of list k holds. */
    lemma HeadIs(k: nat)
      requires Valid() && k < |lists|
      ensures k < heads.Length && heads[k] == At(lists[k], 0)
      ensures NoDup(lists[k])
    {
    }

    method PushFront(k: nat, x: nat)
      requires Valid() && k < |lists| && x < next.Length
      requires forall j :: 0 <= j < |lists| ==> x !in lists[j]
      modifies this, heads, next, prev
      ensures Valid()
      ensures lists == old(lists)[k := [x] + old(lists)[k]]
    {
      ghost var h := heads[k];
      ghost var n, p := next[..], prev[..];
      ThreadPush(lists[k], h, n, p, x);
      next[x] := heads[k];
      prev[x] := NIL;
      if heads[k] != NIL {
        prev[heads[k]] := x;
      }
      heads[k] := x;
      assert next[..] == n[x := h] && prev[..] == PushedPrev(p, h, x);
      forall j | 0 <= j < |lists| && j != k
        ensures Thread(lists[j], heads[j], next[..], prev[..])
      {
        ThreadFrame(lists[j], heads[j], n, p, next[..], prev[..]);
      }
      lists := lists[k := [x] + lists[k]];
    }

    method Remove(k: nat, x: nat)
      requires Valid() && k < |lists| && x in lists[k]
      modifies this, heads, next, prev
      ensures Valid()
      ensures lists == old(lists)[k := Without(old(lists)[k], x)]
    {
      hide Threads, Without;
      ghost var s := lists[k];
      ghost var i :| 0 <= i < |s| && s[i] == x;
      ghost var h, n, p := heads[..], next[..], prev[..];
      ThreadsRemove(lists, h, n, p, k, i);
      if prev[x] != NIL {
        next[prev[x]] := next[x];
      } else {
        heads[k] := next[x];
      }
      if next[x] != NIL {
        prev[next[x]] := prev[x];
      }
      assert next[..] == RemovedNext(n, s, i) && prev[..] == RemovedPrev(p, s, i);
      assert heads[..] == h[k := if i == 0 then At(s, 1) else h[k]];
      lists := lists[k := Without(s, x)];
    }
  }
}
