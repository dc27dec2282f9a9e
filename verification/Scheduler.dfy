/** The scheduler of scheduler.cpp and thread.cpp, updated in place: 140 singly linked
    queues threaded through the thread control blocks. */
module Scheduler {
  import opened Lists
  import opened ReadyQueues

  /** A queue with this head and tail is linked through exactly the threads of s. */
  ghost predicate Chain(s: seq<nat>, head: int, tail: int, next: seq<int>) {
    && NoDup(s) && head == At(s, 0) && tail == At(s, |s| - 1)
    && (forall i :: 0 <= i < |s| ==> s[i] < |next|)
    && (forall i {:trigger next[s[i]]} :: 0 <= i < |s| ==> next[s[i]] == At(s, i + 1))
  }

  lemma ChainFrame(s: seq<nat>, head: int, tail: int, next: seq<int>, next': seq<int>)
    requires Chain(s, head, tail, next) && |next'| == |next| && forall t :: t in s && t < |next| ==> next'[t] == next[t]
    ensures Chain(s, head, tail, next')
  {
    forall i | 0 <= i < |s|
      ensures next'[s[i]] == At(s, i + 1)
    {
      var t := s[i];
      assert t in s && next[s[i]] == At(s, i + 1);
    }
  }

  /** The links after appending t behind the tail. */
  function AppendedNext(next: seq<int>, tail: int, t: nat): seq<int>
    requires t < |next| && tail < |next|
  {
    if tail >= 0 then next[t := NIL][tail := t] else next[t := NIL]
  }

  lemma ChainAppend(s: seq<nat>, head: int, tail: int, next: seq<int>, t: nat)
    requires Chain(s, head, tail, next) && t < |next| && t !in s
    ensures tail < |next| && Chain(s + [t], if tail >= 0 then head else t, t, AppendedNext(next, tail, t))
  {
    var s', next' := s + [t], AppendedNext(next, tail, t);
    NoDupAppend(s, t);
    forall i | 0 <= i < |s'|
      ensures next'[s'[i]] == At(s', i + 1)
    {
      if i < |s| {
        var u := s[i];
        assert u in s && next[s[i]] == At(s, i + 1);
      }
    }
  }

  /** The links after unlinking the thread at index i. */
  function UnlinkedNext(next: seq<int>, s: seq<nat>, i: nat): (r: seq<int>)
    requires i < |s| && forall j :: 0 <= j < |s| ==> s[j] < |next|
    ensures |r| == |next|
  {
    (if i > 0 then next[s[i - 1] := At(s, i + 1)] else next)[s[i] := NIL]
  }

  lemma UnlinkedAt(s: seq<nat>, i: nat, head: int, tail: int, next: seq<int>, j: nat)
    requires Chain(s, head, tail, next) && i < |s| && j < |s| - 1
    ensures var s' := s[..i] + s[i + 1..];
      UnlinkedNext(next, s, i)[s'[j]] == At(s', j + 1)
  {
    var m := if j < i then j else j + 1;
    assert next[s[m]] == At(s, m + 1);
  }

  lemma ChainRemove(s: seq<nat>, i: nat, head: int, tail: int, next: seq<int>)
    requires Chain(s, head, tail, next) && i < |s|
    ensures next[s[i]] == At(s, i + 1)
    ensures Chain(Without(s, s[i]), if i == 0 then At(s, 1) else head,
                  if i == |s| - 1 then At(s, i - 1) else tail, UnlinkedNext(next, s, i))
  {
    hide Without, UnlinkedNext;
    WithoutAt(s, i);
    var s', next' := s[..i] + s[i + 1..], UnlinkedNext(next, s, i);
    RemovedEnds(s, i);
    forall j | 0 <= j < |s'|
      ensures s'[j] < |next'| && next'[s'[j]] == At(s', j + 1)
    {
      UnlinkedAt(s, i, head, tail, next, j);
      assert s'[j] == s[if j < i then j else j + 1];
    }
  }

  /** The first and the last after a removal. */
  lemma RemovedEnds(s: seq<nat>, i: nat)
    requires i < |s|
    ensures var s' := s[..i] + s[i + 1..];
      At(s', 0) == At(s, if i == 0 then 1 else 0) && At(s', |s'| - 1) == At(s, if i == |s| - 1 then i - 1 else |s| - 1)
  {
  }

  /** All queues at once, no thread on two of them. */
  ghost predicate Chains(queues: seq<seq<nat>>, heads: seq<int>, tails: seq<int>, next: seq<int>) {
    && |heads| == |tails| == |queues|
    && (forall p :: 0 <= p < |queues| ==> Chain(queues[p], heads[p], tails[p], next))
    && Separate(queues)
  }

  lemma ChainsAppend(queues: seq<seq<nat>>, heads: seq<int>, tails: seq<int>, next: seq<int>, p: nat, t: nat)
    requires Chains(queues, heads, tails, next) && p < |queues| && t < |next|
    requires forall k :: 0 <= k < |queues| ==> t !in queues[k]
    ensures tails[p] < |next|
    ensures Chains(PushBack(queues, p, t), if tails[p] >= 0 then heads else heads[p := t], tails[p := t],
                   AppendedNext(next, tails[p], t))
  {
    ChainAppend(queues[p], heads[p], tails[p], next, t);
    forall k | 0 <= k < |queues| && k != p
      ensures Chain(queues[k], heads[k], tails[k], AppendedNext(next, tails[p], t))
    {
      if queues[p] != [] {
        var u := queues[p][|queues[p]| - 1];
        assert u in queues[p];
      }
      ChainFrame(queues[k], heads[k], tails[k], next, AppendedNext(next, tails[p], t));
    }
    hide Chain;
    SeparateAppend(queues, p, t);
  }

  lemma SeparateAppend(queues: seq<seq<nat>>, p: nat, t: nat)
    requires Separate(queues) && p < |queues| && forall k :: 0 <= k < |queues| ==> t !in queues[k]
    ensures Separate(PushBack(queues, p, t))
  {
  }

  lemma ChainsRemove(queues: seq<seq<nat>>, heads: seq<int>, tails: seq<int>, next: seq<int>, p: nat, i: nat)
    requires Chains(queues, heads, tails, next) && p < |queues| && i < |queues[p]|
    ensures var s := queues[p];
      && (forall j :: 0 <= j < |s| ==> s[j] < |next|)
      && Chains(queues[p := Without(s, s[i])], heads[p := if i == 0 then At(s, 1) else heads[p]],
                tails[p := if i == |s| - 1 then At(s, i - 1) else tails[p]], UnlinkedNext(next, s, i))
  {
    hide Chain, Without, Separate;
    var s := queues[p];
    ChainRemove(s, i, heads[p], tails[p], next);
    ChainBounds(s, heads[p], tails[p], next);
    forall k | 0 <= k < |queues| && k != p
      ensures Chain(queues[k], heads[k], tails[k], UnlinkedNext(next, s, i))
    {
      UnlinkFrame(queues, p, i, k, heads[k], tails[k], next);
    }
    SeparateRemove(queues, p, s[i]);
  }

  lemma ChainBounds(s: seq<nat>, head: int, tail: int, next: seq<int>)
    requires Chain(s, head, tail, next)
    ensures forall j :: 0 <= j < |s| ==> s[j] < |next|
  {
  }

  lemma UnlinkFrame(queues: seq<seq<nat>>, p: nat, i: nat, k: nat, head: int, tail: int, next: seq<int>)
    requires p < |queues| && k < |queues| && k != p && i < |queues[p]| && Separate(queues)
    requires forall j :: 0 <= j < |queues[p]| ==> queues[p][j] < |next|
    requires Chain(queues[k], head, tail, next)
    ensures Chain(queues[k], head, tail, UnlinkedNext(next, queues[p], i))
  {
    var s := queues[p];
    var u := s[i];
    assert u in s;
    if i > 0 {
      var w := s[i - 1];
      assert w in s;
    }
    ChainFrame(queues[k], head, tail, next, UnlinkedNext(next, s, i));
  }

  lemma SeparateRemove(queues: seq<seq<nat>>, p: nat, t: nat)
    requires Separate(queues) && p < |queues|
    ensures Separate(queues[p := Without(queues[p], t)])
  {
    var s' := Without(queues[p], t);
    assert forall x: nat :: x in s' ==> x in queues[p];
  }

  lemma ChainAt(queues: seq<seq<nat>>, heads: seq<int>, tails: seq<int>, next: seq<int>, p: nat)
    requires Chains(queues, heads, tails, next) && p < |queues|
    ensures Chain(queues[p], heads[p], tails[p], next)
  {
  }

  // ---------------------------------------------------------------------------
  // The number of ready threads

  lemma {:induction false} InOrderUpdate(queues: seq<seq<nat>>, p: nat, q: seq<nat>)
    requires p < |queues|
    ensures |InOrder(queues[p := q])| == |InOrder(queues)| + |q| - |queues[p]|
  {
    var n := |queues| - 1;
    var after := queues[p := q];
    if p == n {
      assert after[..n] == queues[..n];
    } else {
      InOrderUpdate(queues[..n], p, q);
      assert after[..n] == queues[..n][p := q];
    }
  }

  lemma {:induction false} InOrderPrefix(queues: seq<seq<nat>>, p: nat)
    requires p < |queues|
    ensures InOrder(queues[..p + 1]) == InOrder(queues[..p]) + queues[p]
  {
    assert queues[..p + 1][..p] == queues[..p];
  }

  class Scheduler {
    const th: seq<Params>
    const idle: nat
    const heads: array<int>
    const tails: array<int>
    const next: array<int>
    const states: array<ThreadState>
    var current: nat
    var totalReady: nat
    var enabled: bool
    ghost var queues: seq<seq<nat>>

    ghost function Abs(): State
      reads `current, `queues, states
    {
      State(queues, states[..], current)
    }

    /** Heads, tails and links agree with the queues, and the counter with their length. */
    ghost predicate Linked()
      reads `queues, `totalReady, heads, tails, next
    {
      && heads != tails && heads != next && tails != next
      && heads.Length == tails.Length == LEVELS == |queues| && next.Length == states.Length == |th|
      && Chains(queues, heads[..], tails[..], next[..]) && totalReady == |InOrder(queues)|
    }

    ghost predicate Valid()
      reads this, heads, tails, next, states
    {
      Linked() && Inv(th, idle, Abs())
    }

    /** thread_init: the idle thread is the running one and nothing is queued. */
    constructor (th: seq<Params>, idle: nat)
      requires ValidThreads(th) && idle < |th|
      ensures Valid() && this.th == th && this.idle == idle && !enabled
      ensures fresh(heads) && fresh(tails) && fresh(next) && fresh(states)
      ensures current == idle && Runnable(Abs()) == {idle}
    {
      this.th, this.idle := th, idle;
      heads := new int[LEVELS](i => NIL);
      tails := new int[LEVELS](i => NIL);
      next := new int[|th|](i => NIL);
      states := new ThreadState[|th|](i => if i == idle then RUNNING else BLOCKED);
      current, totalReady, enabled := idle, 0, false;
      queues := seq(LEVELS, i => []);
      new;
      NothingInOrder(queues);
    }

    method QueuePushBack(p: nat, t: nat)
      requires Linked() && p < LEVELS && t < |th| && forall k :: 0 <= k < LEVELS ==> t !in queues[k]
      modifies `queues, `totalReady, heads, tails, next
      ensures Linked() && queues == PushBack(old(queues), p, t)
    {
      hide Chains;
      ghost var h, l, n := heads[..], tails[..], next[..];
      ChainsAppend(queues, h, l, n, p, t);
      InOrderUpdate(queues, p, queues[p] + [t]);
      next[t] := NIL;
      if tails[p] != NIL {
        TailKnown(queues, h, l, n, p);
        next[tails[p]] := t;
      } else {
        heads[p] := t;
      }
      tails[p] := t;
      totalReady := totalReady + 1;
      assert next[..] == AppendedNext(n, l[p], t) && tails[..] == l[p := t];
      assert heads[..] == if l[p] >= 0 then h else h[p := t];
      queues := PushBack(queues, p, t);
    }

    method QueuePopFront(p: nat) returns (t: int)
      requires Linked() && p < LEVELS
      modifies `queues, `totalReady, heads, tails, next
      ensures Linked() && (t == NIL <==> old(queues)[p] == [])
      ensures t == NIL ==> queues == old(queues)
      ensures t != NIL ==> t == old(queues)[p][0] && queues == old(queues)[p := Without(old(queues)[p], t)]
    {
      hide Chains, Without;
      ghost var h, l, n, s := heads[..], tails[..], next[..], queues[p];
      ChainAt(queues, h, l, n, p);
      if heads[p] == NIL {
        return NIL;
      }
      ChainsRemove(queues, h, l, n, p, 0);
      t := heads[p];
      assert n[s[0]] == At(s, 1);
      heads[p] := next[t];
      if heads[p] == NIL {
        tails[p] := NIL;
      }
      next[t] := NIL;
      WithoutLength(s, t);
      InOrderUpdate(queues, p, Without(s, t));
      totalReady := totalReady - 1;
      assert next[..] == UnlinkedNext(n, s, 0);
      assert tails[..] == l[p := if 0 == |s| - 1 then At(s, -1) else l[p]];
      assert heads[..] == h[p := At(s, 1)];
      queues := queues[p := Without(s, t)];
    }

    /** Search a queue for a thread's predecessor; NIL when it is the head. */
    method FindPrev(p: nat, t: nat) returns (prev: int, ghost i: nat)
      requires Linked() && p < LEVELS && t in queues[p]
      ensures i < |queues[p]| && queues[p][i] == t && prev == At(queues[p], i - 1)
      ensures forall j :: 0 <= j < |queues[p]| && queues[p][j] == t ==> prev == At(queues[p], j - 1)
    {
      hide Chains;
      ghost var s := queues[p];
      ChainAt(queues, heads[..], tails[..], next[..], p);
      ghost var at :| 0 <= at < |s| && s[at] == t;
      var curr := heads[p];
      prev, i := NIL, 0;
      while curr != t
        invariant 0 <= i <= at && curr == s[i] && prev == At(s, i - 1)
        decreases at - i
      {
        assert next[..][s[i]] == At(s, i + 1);
        prev := curr;
        curr := next[curr];
        i := i + 1;
      }
    }

    /** Unlink a thread from anywhere in its queue. */
    method QueueRemove(p: nat, t: nat)
      requires Linked() && p < LEVELS && t in queues[p]
      modifies `queues, `totalReady, heads, tails, next
      ensures Linked() && queues == old(queues)[p := Without(old(queues)[p], t)]
    {
      hide Chains, Without, Chain;
      ghost var h, l, n, s := heads[..], tails[..], next[..], queues[p];
      var prev, i := FindPrev(p, t);
      LinkAt(queues, h, l, n, p, i);
      ChainsRemove(queues, h, l, n, p, i);
      if prev != NIL {
        next[prev] := next[t];
      } else {
        heads[p] := next[t];
      }
      if next[t] == NIL {
        tails[p] := prev;
      }
      next[t] := NIL;
      WithoutLength(s, t);
      InOrderUpdate(queues, p, Without(s, t));
      totalReady := totalReady - 1;
      assert next[..] == UnlinkedNext(n, s, i);
      assert tails[..] == l[p := if i == |s| - 1 then prev else l[p]];
      assert heads[..] == h[p := if i == 0 then At(s, 1) else h[p]];
      queues := queues[p := Without(s, t)];
    }

    /** The earliest-deadline scan over every queue. */
    method FindEarliest() returns (best: int)
      requires Linked() && AllThreads(th, InOrder(queues))
      ensures best == Scan(th, InOrder(queues), NONE).thread
    {
      hide Chains;
      best := NIL;
      var earliest := NO_DEADLINE;
      var p := 0;
      while p < LEVELS
        invariant 0 <= p <= LEVELS && AllThreads(th, InOrder(queues[..p]))
        invariant Best(earliest, best) == Scan(th, InOrder(queues[..p]), NONE)
      {
        ghost var s, b := queues[p], Best(earliest, best);
        ChainAt(queues, heads[..], tails[..], next[..], p);
        PrefixThreads(th, queues, p);
        var curr := heads[p];
        ghost var i := 0;
        while curr != NIL
          invariant 0 <= i <= |s| && curr == At(s, i) && AllThreads(th, s[..i])
          invariant Best(earliest, best) == Scan(th, s[..i], b)
          decreases |s| - i
        {
          assert s[..i + 1][..i] == s[..i];
          assert next[..][s[i]] == At(s, i + 1);
          if th[curr].policy == DL && th[curr].absDeadline < earliest {
            earliest := th[curr].absDeadline;
            best := curr;
          }
          curr := next[curr];
          i := i + 1;
        }
        assert s[..i] == s;
        InOrderPrefix(queues, p);
        ScanAppend(th, InOrder(queues[..p]), s, NONE);
        p := p + 1;
      }
      assert queues[..p] == queues;
    }

    /** The priority scan: real-time levels from the top, then normal levels from the
        lowest; pops the first head it meets. */
    method PopTop() returns (t: int, ghost j: nat)
      requires Linked()
      modifies `queues, `totalReady, heads, tails, next
      ensures Linked() && j == FirstLevel(old(queues), 0)
      ensures t == NIL <==> j == LEVELS
      ensures t == NIL ==> queues == old(queues)
      ensures t != NIL ==>
        t == old(queues)[LevelAt(j)][0] && queues == old(queues)[LevelAt(j) := Without(old(queues)[LevelAt(j)], t)]
    {
      hide Linked, Chains;
      QueuesShape();
      ghost var q0 := queues;
      t, j := NIL, 0;
      var p := RT_LEVELS - 1;
      while p >= 0
        invariant -1 <= p < RT_LEVELS && Linked() && queues == q0 && t == NIL
        invariant FirstLevel(q0, 0) == FirstLevel(q0, RT_LEVELS - 1 - p)
      {
        j := RT_LEVELS - 1 - p;
        assert LevelAt(j) == p;
        t := QueuePopFront(p);
        if t != NIL {
          return;
        }
        p := p - 1;
      }
      p := RT_LEVELS;
      while p < LEVELS
        invariant RT_LEVELS <= p <= LEVELS && Linked() && queues == q0 && t == NIL
        invariant FirstLevel(q0, 0) == FirstLevel(q0, p)
      {
        j := p;
        assert LevelAt(j) == p;
        t := QueuePopFront(p);
        if t != NIL {
          return;
        }
        p := p + 1;
      }
      j := LEVELS;
    }

    lemma QueuesShape()
      requires Linked()
      ensures |queues| == LEVELS
    {
    }

    /** Pick and unlink the next thread; NIL when no thread is ready. */
    method PickNext() returns (t: int)
      requires Linked() && InvReady(th, idle, Abs())
      modifies `queues, `totalReady, heads, tails, next
      ensures Linked() && -1 <= t < |th|
      ensures t == NIL ==> queues == old(queues) && forall p :: 0 <= p < LEVELS ==> old(queues)[p] == []
      ensures t != NIL ==> t == Choose(th, old(queues), idle) && queues == Dequeue(th, old(queues), t)
      ensures t == NIL ==> Choose(th, old(queues), idle) == idle
    {
      hide Chains, Chain, Scan, InOrder, Linked, NoneUrgent, IsTopHead, NoDup, Without;
      QueuesShape();
      ghost var s := Abs();
      ghost var k := ScanFinds(th, InOrder(queues));
      t := FindEarliest();
      if t != NIL {
        ScanQueued(th, idle, s, k);
        QueueRemove(th[t].priority, t);
        return;
      }
      ghost var j;
      t, j := PopTop();
      LevelsTried(s.queues, j);
      if t != NIL {
        HeadLevel(th, idle, s, LevelAt(j));
      }
    }

    /** schedule(), up to the switch of contexts. */
    method Schedule()
      requires Valid()
      modifies `queues, `totalReady, `current, heads, tails, next, states
      ensures Valid() && (enabled ==> AllThreads(th, InOrder(Reenqueued(th, old(Abs())).queues)))
      ensures Abs() == if enabled then ReadyQueues.Schedule(th, idle, old(Abs())) else old(Abs())
    {
      hide Chains, Inv, InvReady, Choose, InOrder, Runnable, IsChoice, Dequeue, Linked;
      if !enabled {
        return;
      }
      ghost var s := Abs();
      ScheduleSafe(th, idle, s);
      ReenqueuedInv(th, idle, s);
      InvFacts(th, idle, s);
      ChosenQueued(th, idle, Reenqueued(th, s));
      if states[current] == RUNNING {
        states[current] := READY;
        QueuePushBack(th[current].priority, current);
      }
      ghost var s1 := Abs();
      assert s1 == Reenqueued(th, s);
      InvReadyFacts(th, idle, s1);
      var t := PickNext();
      if t == NIL {
        EmptyDequeue(th, s1.queues, idle);
        t := idle;
      }
      states[t] := RUNNING;
      current := t;
      assert Abs() == ReadyQueues.Schedule(th, idle, s);
    }

    method EnqueueThread(t: nat)
      requires Valid() && t < |th| && t != current && !Queued(th, Abs(), t)
      modifies `queues, `totalReady, heads, tails, next, states
      ensures Valid() && Abs() == Enqueue(th, old(Abs()), t)
    {
      hide Chains, Inv;
      ghost var s := Abs();
      EnqueueSafe(th, idle, s, t);
      InvFacts(th, idle, s);
      NotInAny(th, idle, s, t);
      states[t] := READY;
      QueuePushBack(th[t].priority, t);
      assert Abs() == Enqueue(th, s, t);
    }

    method ThreadExit()
      requires Valid()
      modifies states
      ensures Valid() && Abs() == Exit(old(Abs()))
    {
      hide Chains, Inv;
      ghost var s := Abs();
      ExitSafe(th, idle, s);
      InvFacts(th, idle, s);
      states[current] := DEAD;
      assert Abs() == Exit(s);
    }

    method Start()
      requires Valid()
      modifies `enabled
      ensures Valid() && enabled && Abs() == old(Abs())
    {
      enabled := true;
    }

    /** ready_queue_size */
    method ReadyQueueSize() returns (n: nat)
      requires Valid()
      ensures n == |InOrder(queues)|
    {
      n := totalReady;
    }
  }

  lemma InvFacts(th: seq<Params>, idle: nat, s: State)
    requires Inv(th, idle, s)
    ensures ValidThreads(th) && idle < |th| && s.current < |th| == |s.states| && |s.queues| == LEVELS
    ensures forall k :: 0 <= k < LEVELS ==> s.current !in s.queues[k]
  {
  }

  lemma InvReadyFacts(th: seq<Params>, idle: nat, s: State)
    requires InvReady(th, idle, s)
    ensures ValidThreads(th) && idle < |th| == |s.states| && |s.queues| == LEVELS
  {
  }

  lemma NotInAny(th: seq<Params>, idle: nat, s: State, t: nat)
    requires Inv(th, idle, s) && t < |th| && !Queued(th, s, t)
    ensures forall k :: 0 <= k < LEVELS ==> t !in s.queues[k]
  {
  }

  lemma EmptyDequeue(th: seq<Params>, queues: seq<seq<nat>>, t: nat)
    requires t < |th| && ValidThreads(th) && |queues| == LEVELS && forall p :: 0 <= p < LEVELS ==> queues[p] == []
    ensures Dequeue(th, queues, t) == queues
  {
  }

  /** The thread the scan found is in the queue of its own priority. */
  lemma ScanQueued(th: seq<Params>, idle: nat, s: State, k: nat)
    requires InvReady(th, idle, s) && k < |InOrder(s.queues)|
    ensures var t := InOrder(s.queues)[k];
      t < |th| && t in s.queues[th[t].priority]
  {
    var t := InOrder(s.queues)[k];
    assert t in InOrder(s.queues);
    InOrderMembers(s.queues, t);
  }

  lemma HeadLevel(th: seq<Params>, idle: nat, s: State, p: nat)
    requires InvReady(th, idle, s) && p < LEVELS && s.queues[p] != []
    ensures s.queues[p][0] < |th| && th[s.queues[p][0]].priority == p
  {
    var t := s.queues[p][0];
    assert t in s.queues[p];
  }

  lemma LinkAt(queues: seq<seq<nat>>, heads: seq<int>, tails: seq<int>, next: seq<int>, p: nat, i: nat)
    requires Chains(queues, heads, tails, next) && p < |queues| && i < |queues[p]|
    ensures var s := queues[p];
      && s[i] < |next| && next[s[i]] == At(s, i + 1) && (i > 0 ==> s[i - 1] < |next| && s[i - 1] != s[i])
  {
    assert Chain(queues[p], heads[p], tails[p], next);
  }

  lemma PrefixThreads(th: seq<Params>, queues: seq<seq<nat>>, p: nat)
    requires p < |queues| && AllThreads(th, InOrder(queues))
    ensures AllThreads(th, queues[p])
  {
    forall i | 0 <= i < |queues[p]|
      ensures queues[p][i] < |th|
    {
      var t := queues[p][i];
      assert t in queues[p];
      InOrderMembers(queues, t);
    }
  }

  lemma TailKnown(queues: seq<seq<nat>>, heads: seq<int>, tails: seq<int>, next: seq<int>, p: nat)
    requires Chains(queues, heads, tails, next) && p < |queues| && tails[p] != NIL
    ensures 0 <= tails[p] < |next|
  {
    assert Chain(queues[p], heads[p], tails[p], next);
  }

  lemma NothingInOrder(queues: seq<seq<nat>>)
    requires forall p :: 0 <= p < |queues| ==> queues[p] == []
    ensures InOrder(queues) == []
  {
    if queues != [] {
      NothingInOrder(queues[..|queues| - 1]);
    }
  }
}
