/** The scheduler of scheduler.cpp on values: 140 FIFO queues of thread numbers,
    thread states and the current thread. Scheduler.dfy proves the linked code
    against it. */
module ReadyQueues {
  import opened Lists

  const LEVELS: nat := 140
  const RT_LEVELS: nat := 100
  const NO_DEADLINE: nat := 0xFFFF_FFFF_FFFF_FFFF

  datatype Policy = FIFO | RR | DL | NORMAL
  datatype ThreadState = READY | RUNNING | BLOCKED | DEAD

  /** A thread's scheduling parameters. */
  datatype Params = Params(priority: nat, policy: Policy, absDeadline: nat)

  predicate ValidThreads(th: seq<Params>) {
    forall t :: 0 <= t < |th| ==> th[t].priority < LEVELS
  }

  datatype State = State(queues: seq<seq<nat>>, states: seq<ThreadState>, current: nat)

  // ---------------------------------------------------------------------------
  // The earliest-deadline scan

  /** A deadline thread the scan can choose. */
  predicate Urgent(p: Params) {
    p.policy == DL && p.absDeadline < NO_DEADLINE
  }

  /** The best found so far: its deadline and the thread, NIL when there is none. */
  datatype Best = Best(deadline: nat, thread: int)

  const NONE: Best := Best(NO_DEADLINE, NIL)

  predicate AllThreads(th: seq<Params>, q: seq<nat>) {
    forall i :: 0 <= i < |q| ==> q[i] < |th|
  }

  function Look(th: seq<Params>, t: nat, best: Best): Best
    requires t < |th|
  {
    if th[t].policy == DL && th[t].absDeadline < best.deadline then Best(th[t].absDeadline, t) else best
  }

  function Scan(th: seq<Params>, q: seq<nat>, best: Best): Best
    requires AllThreads(th, q)
  {
    if q == [] then best else Look(th, q[|q| - 1], Scan(th, q[..|q| - 1], best))
  }

  lemma {:induction false} ScanAppend(th: seq<Params>, q: seq<nat>, r: seq<nat>, best: Best)
    requires AllThreads(th, q) && AllThreads(th, r)
    ensures AllThreads(th, q + r) && Scan(th, q + r, best) == Scan(th, r, Scan(th, q, best))
  {
    if r == [] {
      assert q + r == q;
    } else {
      ScanAppend(th, q, r[..|r| - 1], best);
      assert (q + r)[..|q + r| - 1] == q + r[..|r| - 1];
    }
  }

  /** All ready threads: lower queues first, each queue front first. */
  function InOrder(queues: seq<seq<nat>>): seq<nat> {
    if queues == [] then [] else InOrder(queues[..|queues| - 1]) + queues[|queues| - 1]
  }

  /** i is where the earliest deadline is found first. */
  ghost predicate IsEarliest(th: seq<Params>, q: seq<nat>, i: nat)
    requires AllThreads(th, q)
  {
    && i < |q| && Urgent(th[q[i]])
    && (forall j :: 0 <= j < |q| && Urgent(th[q[j]]) ==> th[q[i]].absDeadline <= th[q[j]].absDeadline)
    && (forall j :: 0 <= j < i && Urgent(th[q[j]]) ==> th[q[i]].absDeadline < th[q[j]].absDeadline)
  }

  ghost predicate NoneUrgent(th: seq<Params>, q: seq<nat>)
    requires AllThreads(th, q)
  {
    forall j :: 0 <= j < |q| ==> !Urgent(th[q[j]])
  }

  /** The scan finds the first thread with the earliest deadline, or none when no
      thread is urgent. */
  lemma {:induction false} ScanFinds(th: seq<Params>, q: seq<nat>) returns (i: nat)
    requires AllThreads(th, q)
    ensures Scan(th, q, NONE).thread == NIL ==> NoneUrgent(th, q) && Scan(th, q, NONE) == NONE
    ensures Scan(th, q, NONE).thread != NIL ==>
      IsEarliest(th, q, i) && Scan(th, q, NONE) == Best(th[q[i]].absDeadline, q[i])
  {
    i := 0;
    if q != [] {
      var r, t := q[..|q| - 1], q[|q| - 1];
      i := ScanFinds(th, r);
      var b := Scan(th, r, NONE);
      if th[t].policy == DL && th[t].absDeadline < b.deadline {
        i := |q| - 1;
        assert forall j :: 0 <= j < |r| ==> q[j] == r[j];
      }
    }
  }

  // ---------------------------------------------------------------------------
  // The priority scan

  /** The levels in the order they are tried: 99 down to 0, then 100 up to 139. */
  function LevelAt(j: nat): nat
    requires j < LEVELS
  {
    if j < RT_LEVELS then RT_LEVELS - 1 - j else j
  }

  function FirstLevel(queues: seq<seq<nat>>, j: nat): (r: nat)
    requires |queues| == LEVELS && j <= LEVELS
    ensures j <= r <= LEVELS
    ensures r < LEVELS ==> queues[LevelAt(r)] != []
    ensures forall k :: j <= k < r ==> queues[LevelAt(k)] == []
    decreases LEVELS - j
  {
    if j == LEVELS || queues[LevelAt(j)] != [] then j else FirstLevel(queues, j + 1)
  }

  /** The head of the highest occupied real-time level, else of the lowest occupied
      normal level. */
  ghost predicate IsTopHead(queues: seq<seq<nat>>, t: nat)
    requires |queues| == LEVELS
  {
    exists p :: 0 <= p < LEVELS && queues[p] != [] && t == queues[p][0] &&
      if p < RT_LEVELS then forall k :: p < k < RT_LEVELS ==> queues[k] == []
      else forall k :: 0 <= k < p ==> queues[k] == []
  }

  // ---------------------------------------------------------------------------
  // schedule()

  function Choose(th: seq<Params>, queues: seq<seq<nat>>, idle: nat): nat
    requires |queues| == LEVELS && AllThreads(th, InOrder(queues))
  {
    var b := Scan(th, InOrder(queues), NONE);
    if b.thread >= 0 then b.thread
    else
      var j := FirstLevel(queues, 0);
      if j < LEVELS then queues[LevelAt(j)][0] else idle
  }

  /** The declarative choice among all ready threads. */
  ghost predicate IsChoice(th: seq<Params>, queues: seq<seq<nat>>, idle: nat, t: nat)
    requires |queues| == LEVELS && AllThreads(th, InOrder(queues))
  {
    var order := InOrder(queues);
    if !NoneUrgent(th, order) then exists i: nat :: IsEarliest(th, order, i) && order[i] == t
    else if exists p :: 0 <= p < LEVELS && queues[p] != [] then IsTopHead(queues, t)
    else t == idle
  }

  lemma ChooseIsChoice(th: seq<Params>, queues: seq<seq<nat>>, idle: nat)
    requires |queues| == LEVELS && AllThreads(th, InOrder(queues))
    ensures IsChoice(th, queues, idle, Choose(th, queues, idle))
  {
    var i := ScanFinds(th, InOrder(queues));
    if Scan(th, InOrder(queues), NONE).thread == NIL {
      LevelsTried(queues, FirstLevel(queues, 0));
    }
  }

  /** Trying the levels in order finds the top head. */
  lemma LevelsTried(queues: seq<seq<nat>>, j: nat)
    requires |queues| == LEVELS && j <= LEVELS && (j < LEVELS ==> queues[LevelAt(j)] != [])
    requires forall k :: 0 <= k < j ==> queues[LevelAt(k)] == []
    ensures j < LEVELS ==> IsTopHead(queues, queues[LevelAt(j)][0])
    ensures j == LEVELS ==> forall p :: 0 <= p < LEVELS ==> queues[p] == []
  {
    forall p | 0 <= p < LEVELS && (if p < RT_LEVELS then RT_LEVELS - 1 - p < j else p < j)
      ensures queues[p] == []
    {
      var k := if p < RT_LEVELS then RT_LEVELS - 1 - p else p;
      assert LevelAt(k) == p;
    }
  }

  /** The declarative choice is unique. */
  lemma ChoiceUnique(th: seq<Params>, queues: seq<seq<nat>>, idle: nat, t: nat, u: nat)
    requires |queues| == LEVELS && AllThreads(th, InOrder(queues))
    requires IsChoice(th, queues, idle, t) && IsChoice(th, queues, idle, u)
    ensures t == u
  {
    var order := InOrder(queues);
    if !NoneUrgent(th, order) {
      var i: nat :| IsEarliest(th, order, i) && order[i] == t;
      var j: nat :| IsEarliest(th, order, j) && order[j] == u;
      assert i <= j && j <= i;
    } else if exists p :: 0 <= p < LEVELS && queues[p] != [] {
      TopHeadUnique(queues, t, u);
    }
  }

  lemma TopHeadUnique(queues: seq<seq<nat>>, t: nat, u: nat)
    requires |queues| == LEVELS && IsTopHead(queues, t) && IsTopHead(queues, u)
    ensures t == u
  {
  }

  // ---------------------------------------------------------------------------
  // The scheduler's steps

  /** Every queued thread is READY, is in the queue of its own priority, once, and is
      not the current thread; only the current thread can be RUNNING. */
  ghost predicate Inv(th: seq<Params>, idle: nat, s: State) {
    && ValidThreads(th) && idle < |th| && s.current < |th|
    && |s.queues| == LEVELS && |s.states| == |th|
    && (forall p :: 0 <= p < LEVELS ==> NoDup(s.queues[p]))
    && (forall p, t {:trigger t in s.queues[p]} :: 0 <= p < LEVELS && t in s.queues[p] ==>
          t < |th| && th[t].priority == p && s.states[t] == READY && t != s.current)
    && (forall t :: 0 <= t < |th| && s.states[t] == RUNNING ==> t == s.current)
  }

  predicate Queued(th: seq<Params>, s: State, t: nat)
    requires t < |th| && ValidThreads(th) && |s.queues| == LEVELS
  {
    t in s.queues[th[t].priority]
  }

  function PushBack(queues: seq<seq<nat>>, p: nat, t: nat): seq<seq<nat>>
    requires p < |queues|
  {
    queues[p := queues[p] + [t]]
  }

  function Enqueue(th: seq<Params>, s: State, t: nat): State
    requires t < |th| == |s.states| && ValidThreads(th) && |s.queues| == LEVELS
  {
    s.(queues := PushBack(s.queues, th[t].priority, t), states := s.states[t := READY])
  }

  /** The ready threads that schedule() chooses from: a current thread that is still
      running goes to the back of its queue first. */
  function Reenqueued(th: seq<Params>, s: State): State
    requires s.current < |th| == |s.states| && ValidThreads(th) && |s.queues| == LEVELS
  {
    if s.states[s.current] == RUNNING then Enqueue(th, s, s.current) else s
  }

  function Dequeue(th: seq<Params>, queues: seq<seq<nat>>, t: nat): seq<seq<nat>>
    requires t < |th| && ValidThreads(th) && |queues| == LEVELS
  {
    var p := th[t].priority;
    queues[p := Without(queues[p], t)]
  }

  function Schedule(th: seq<Params>, idle: nat, s: State): State
    requires s.current < |th| == |s.states| && ValidThreads(th) && |s.queues| == LEVELS && idle < |th|
    requires AllThreads(th, InOrder(Reenqueued(th, s).queues))
  {
    var s1 := Reenqueued(th, s);
    var t := Choose(th, s1.queues, idle);
    if t < |th| then State(Dequeue(th, s1.queues, t), s1.states[t := RUNNING], t) else s1
  }

  function Exit(s: State): State
    requires s.current < |s.states|
  {
    s.(states := s.states[s.current := DEAD])
  }

  // ---------------------------------------------------------------------------
  // What every step keeps

  lemma {:induction false} InOrderMembers(queues: seq<seq<nat>>, t: nat)
    ensures t in InOrder(queues) <==> exists p :: 0 <= p < |queues| && t in queues[p]
  {
    if queues != [] {
      var r := queues[..|queues| - 1];
      InOrderMembers(r, t);
      assert forall p :: 0 <= p < |r| ==> r[p] == queues[p];
    }
  }

  lemma AllMembers(th: seq<Params>, queues: seq<seq<nat>>)
    requires forall p, t :: 0 <= p < |queues| && t in queues[p] ==> t < |th|
    ensures AllThreads(th, InOrder(queues))
  {
    forall i | 0 <= i < |InOrder(queues)|
      ensures InOrder(queues)[i] < |th|
    {
      var t := InOrder(queues)[i];
      assert t in InOrder(queues);
      InOrderMembers(queues, t);
    }
  }

  /** Ready threads including the outgoing one; during schedule() the current thread
      may be queued. */
  ghost predicate InvReady(th: seq<Params>, idle: nat, s: State) {
    && ValidThreads(th) && idle < |th| && s.current < |th|
    && |s.queues| == LEVELS && |s.states| == |th|
    && (forall p :: 0 <= p < LEVELS ==> NoDup(s.queues[p]))
    && (forall p, t {:trigger t in s.queues[p]} :: 0 <= p < LEVELS && t in s.queues[p] ==>
          t < |th| && th[t].priority == p && s.states[t] == READY)
    && (forall t :: 0 <= t < |th| ==> s.states[t] != RUNNING)
    && AllThreads(th, InOrder(s.queues))
  }

  lemma NoDupAppend(q: seq<nat>, t: nat)
    requires NoDup(q) && t !in q
    ensures NoDup(q + [t])
  {
  }

  lemma ReenqueuedInv(th: seq<Params>, idle: nat, s: State)
    requires Inv(th, idle, s)
    ensures InvReady(th, idle, Reenqueued(th, s))
  {
    var s1 := Reenqueued(th, s);
    if s.states[s.current] == RUNNING {
      NoDupAppend(s.queues[th[s.current].priority], s.current);
    }
    assert forall p, t {:trigger t in s1.queues[p]} :: 0 <= p < LEVELS && t in s1.queues[p] ==>
      t in s.queues[p] || t == s.current;
    AllMembers(th, s1.queues);
  }

  /** The chosen thread is a queued one, or idle when nothing is queued. */
  lemma ChosenQueued(th: seq<Params>, idle: nat, s1: State)
    requires InvReady(th, idle, s1)
    ensures var t := Choose(th, s1.queues, idle);
      && t < |th|
      && (t in s1.queues[th[t].priority] || (t == idle && forall p :: 0 <= p < LEVELS ==> s1.queues[p] == []))
  {
    var i := ScanFinds(th, InOrder(s1.queues));
    var b := Scan(th, InOrder(s1.queues), NONE);
    if b.thread >= 0 {
      InOrderMembers(s1.queues, InOrder(s1.queues)[i]);
    } else {
      var j := FirstLevel(s1.queues, 0);
      LevelsTried(s1.queues, j);
      if j < LEVELS {
        assert s1.queues[LevelAt(j)][0] in s1.queues[LevelAt(j)];
      }
    }
  }

  lemma DequeueInv(th: seq<Params>, idle: nat, s1: State, t: nat)
    requires InvReady(th, idle, s1) && t < |th|
    requires t in s1.queues[th[t].priority] || forall p :: 0 <= p < LEVELS ==> s1.queues[p] == []
    ensures Inv(th, idle, State(Dequeue(th, s1.queues, t), s1.states[t := RUNNING], t))
  {
    if t in s1.queues[th[t].priority] {
      WithoutGone(s1.queues[th[t].priority], t);
    }
  }

  /** Threads that can run: queued, or current and running. */
  ghost function Runnable(s: State): set<nat>
    requires s.current < |s.states|
  {
    (set p, t | 0 <= p < |s.queues| && t in s.queues[p] :: t) +
    if s.states[s.current] == RUNNING then {s.current} else {}
  }

  /** The threads ready at level p when schedule() chooses: those queued, and behind them
      the current thread when it is of this level and still running. */
  ghost function ReadyAt(th: seq<Params>, s: State, p: nat): seq<nat>
    requires s.current < |th| == |s.states| && p < |s.queues|
  {
    s.queues[p] + if s.states[s.current] == RUNNING && th[s.current].priority == p then [s.current] else []
  }

  /** t, when it is there, is taken out and the others keep their order. */
  ghost predicate TakenOut(before: seq<nat>, after: seq<nat>, t: nat) {
    if t !in before then after == before
    else exists i: nat :: i < |before| && before[i] == t && after == before[..i] + before[i + 1..]
  }

  /** At every level schedule() takes out the thread it chose and nothing else moves;
      the chosen thread runs, the outgoing one is ready, the others stay as they are. */
  ghost predicate OnlyChosenMoves(th: seq<Params>, s: State, s': State)
    requires s.current < |th| == |s.states| && |s.queues| == LEVELS
  {
    && |s'.queues| == LEVELS && |s'.states| == |th| && s'.current < |th|
    && (forall p: nat :: p < LEVELS ==> TakenOut(ReadyAt(th, s, p), s'.queues[p], s'.current))
    && (forall u: nat :: u < |th| && u != s'.current ==>
          s'.states[u] == if u == s.current && s.states[u] == RUNNING then READY else s.states[u])
    && s'.states[s'.current] == RUNNING
  }

  lemma WithoutTakesOut(q: seq<nat>, t: nat)
    requires NoDup(q)
    ensures TakenOut(q, Without(q, t), t)
  {
    if t in q {
      var i :| 0 <= i < |q| && q[i] == t;
      WithoutAt(q, i);
    }
  }

  lemma ScheduleOrder(th: seq<Params>, idle: nat, s: State)
    requires Inv(th, idle, s) && AllThreads(th, InOrder(Reenqueued(th, s).queues))
    ensures OnlyChosenMoves(th, s, Schedule(th, idle, s))
  {
    hide Choose, InOrder, Without, TakenOut;
    var s1 := Reenqueued(th, s);
    ReenqueuedInv(th, idle, s);
    ChosenQueued(th, idle, s1);
    var t := Choose(th, s1.queues, idle);
    forall p: nat | p < LEVELS
      ensures TakenOut(ReadyAt(th, s, p), Dequeue(th, s1.queues, t)[p], t)
    {
      assert s1.queues[p] == ReadyAt(th, s, p);
      WithoutTakesOut(s1.queues[p], t);
      assert p != th[t].priority ==> t !in s1.queues[p] && Without(s1.queues[p], t) == s1.queues[p];
    }
  }

  /** schedule() keeps the invariant and loses no runnable thread: the runnable ones
      are the same, with idle brought in when there was none. */
  lemma ScheduleSafe(th: seq<Params>, idle: nat, s: State)
    requires Inv(th, idle, s)
    ensures AllThreads(th, InOrder(Reenqueued(th, s).queues))
    ensures Inv(th, idle, Schedule(th, idle, s))
    ensures Schedule(th, idle, s).states[Schedule(th, idle, s).current] == RUNNING
    ensures Runnable(Schedule(th, idle, s)) == if Runnable(s) == {} then {idle} else Runnable(s)
    ensures IsChoice(th, Reenqueued(th, s).queues, idle, Schedule(th, idle, s).current)
    ensures forall p: nat :: p < LEVELS ==> Reenqueued(th, s).queues[p] == ReadyAt(th, s, p)
    ensures OnlyChosenMoves(th, s, Schedule(th, idle, s))
  {
    hide OnlyChosenMoves;
    var s1 := Reenqueued(th, s);
    ReenqueuedInv(th, idle, s);
    ScheduleOrder(th, idle, s);
    ChosenQueued(th, idle, s1);
    ChooseIsChoice(th, s1.queues, idle);
    var t := Choose(th, s1.queues, idle);
    DequeueInv(th, idle, s1, t);
    RunnableReenqueued(th, idle, s);
    RunnableDequeued(th, idle, s1, t);
  }

  lemma RunnableReenqueued(th: seq<Params>, idle: nat, s: State)
    requires Inv(th, idle, s)
    ensures Runnable(Reenqueued(th, s)) == Runnable(s)
  {
    var s1 := Reenqueued(th, s);
    if s.states[s.current] == RUNNING {
      var p := th[s.current].priority;
      assert s1.queues[p] == s.queues[p] + [s.current];
      assert s.current in s1.queues[p];
      forall k, t | 0 <= k < LEVELS && t in s.queues[k]
        ensures t in s1.queues[k]
      {
      }
    }
  }

  lemma RunnableDequeued(th: seq<Params>, idle: nat, s1: State, t: nat)
    requires InvReady(th, idle, s1) && t < |th|
    requires t in s1.queues[th[t].priority] || (t == idle && forall p :: 0 <= p < LEVELS ==> s1.queues[p] == [])
    ensures Runnable(State(Dequeue(th, s1.queues, t), s1.states[t := RUNNING], t)) ==
      if Runnable(s1) == {} then {idle} else Runnable(s1)
  {
    var s2 := State(Dequeue(th, s1.queues, t), s1.states[t := RUNNING], t);
    if t in s1.queues[th[t].priority] {
      WithoutGone(s1.queues[th[t].priority], t);
      assert t in Runnable(s1);
      forall x | x in Runnable(s1)
        ensures x in Runnable(s2)
      {
        var k :| 0 <= k < LEVELS && x in s1.queues[k];
        assert x != t ==> x in s2.queues[k];
      }
      forall x | x in Runnable(s2)
        ensures x in Runnable(s1)
      {
        if x != t {
          var k :| 0 <= k < LEVELS && x in s2.queues[k];
          assert x in s1.queues[k];
        }
      }
    } else {
      assert s2.queues == s1.queues;
    }
  }

  lemma EnqueueSafe(th: seq<Params>, idle: nat, s: State, t: nat)
    requires Inv(th, idle, s) && t < |th| && t != s.current && !Queued(th, s, t)
    ensures Inv(th, idle, Enqueue(th, s, t)) && Runnable(Enqueue(th, s, t)) == Runnable(s) + {t}
    ensures forall p: nat :: p < LEVELS ==>
      Enqueue(th, s, t).queues[p] == s.queues[p] + if p == th[t].priority then [t] else []
    ensures Enqueue(th, s, t).states == s.states[t := READY]
  {
    var s1, p := Enqueue(th, s, t), th[t].priority;
    assert s1.queues[p] == s.queues[p] + [t] && t in s1.queues[p];
    forall k, x | 0 <= k < LEVELS && x in s.queues[k]
      ensures x in s1.queues[k]
    {
    }
  }

  lemma ExitSafe(th: seq<Params>, idle: nat, s: State)
    requires Inv(th, idle, s)
    ensures Inv(th, idle, Exit(s)) && Runnable(Exit(s)) == Runnable(s) - {s.current}
  {
  }

  // ---------------------------------------------------------------------------
  // Runs

  datatype Op = EnqueueOp(thread: nat) | ScheduleOp | ExitOp

  /** Only a thread that is neither queued nor current may be enqueued. */
  ghost predicate LegalStep(th: seq<Params>, idle: nat, s: State, op: Op)
    requires Inv(th, idle, s)
  {
    op.EnqueueOp? ==> op.thread < |th| && op.thread != s.current && !Queued(th, s, op.thread)
  }

  ghost function Step(th: seq<Params>, idle: nat, s: State, op: Op): (s': State)
    requires Inv(th, idle, s) && LegalStep(th, idle, s, op)
    ensures Inv(th, idle, s')
  {
    match op
    case EnqueueOp(t) => EnqueueSafe(th, idle, s, t); Enqueue(th, s, t)
    case ScheduleOp => ScheduleSafe(th, idle, s); Schedule(th, idle, s)
    case ExitOp => ExitSafe(th, idle, s); Exit(s)
  }

  ghost predicate Legal(th: seq<Params>, idle: nat, s: State, ops: seq<Op>)
    requires Inv(th, idle, s)
    decreases |ops|
  {
    ops != [] ==> LegalStep(th, idle, s, ops[0]) && Legal(th, idle, Step(th, idle, s, ops[0]), ops[1..])
  }

  ghost function Run(th: seq<Params>, idle: nat, s: State, ops: seq<Op>): (s': State)
    requires Inv(th, idle, s) && Legal(th, idle, s, ops)
    ensures Inv(th, idle, s')
    decreases |ops|
  {
    if ops == [] then s else Run(th, idle, Step(th, idle, s, ops[0]), ops[1..])
  }

  /** Thread t does not exit in this run. */
  ghost predicate Survives(th: seq<Params>, idle: nat, s: State, ops: seq<Op>, t: nat)
    requires Inv(th, idle, s) && Legal(th, idle, s, ops)
    decreases |ops|
  {
    ops != [] ==> (ops[0].ExitOp? ==> s.current != t) && Survives(th, idle, Step(th, idle, s, ops[0]), ops[1..], t)
  }

  /** A runnable thread stays runnable until it exits, whatever else happens. */
  lemma {:induction false} NoneLost(th: seq<Params>, idle: nat, s: State, ops: seq<Op>, t: nat)
    requires Inv(th, idle, s) && Legal(th, idle, s, ops) && Survives(th, idle, s, ops, t) && t in Runnable(s)
    ensures t in Runnable(Run(th, idle, s, ops))
    decreases |ops|
  {
    if ops != [] {
      match ops[0] {
        case EnqueueOp(u) => EnqueueSafe(th, idle, s, u);
        case ScheduleOp => ScheduleSafe(th, idle, s);
        case ExitOp => ExitSafe(th, idle, s);
      }
      NoneLost(th, idle, Step(th, idle, s, ops[0]), ops[1..], t);
    }
  }

  // ---------------------------------------------------------------------------
  // Bounded wait

  /** When schedule() chooses, no deadline thread is urgent and no real-time level
      above p is occupied. */
  ghost predicate Calm(th: seq<Params>, idle: nat, s: State, p: nat)
    requires Inv(th, idle, s)
  {
    ReenqueuedInv(th, idle, s);
    var queues := Reenqueued(th, s).queues;
    NoneUrgent(th, InOrder(queues)) && forall k :: p < k < RT_LEVELS ==> queues[k] == []
  }

  /** One call: the head of level p becomes current and the rest moves up by one. */
  lemma CalmSchedule(th: seq<Params>, idle: nat, s: State, p: nat)
    requires Inv(th, idle, s) && p < RT_LEVELS && s.queues[p] != [] && Calm(th, idle, s, p)
    ensures AllThreads(th, InOrder(Reenqueued(th, s).queues))
    ensures var s' := Schedule(th, idle, s);
      && |s'.queues| == LEVELS && s'.current == s.queues[p][0]
      && s.queues[p][1..] <= s'.queues[p]
  {
    ScheduleSafe(th, idle, s);
    ReenqueuedInv(th, idle, s);
    var s1 := Reenqueued(th, s);
    assert s1.queues[p] != [] && s1.queues[p][0] == s.queues[p][0] && s.queues[p] <= s1.queues[p];
    assert IsTopHead(s1.queues, s1.queues[p][0]);
    TopHeadUnique(s1.queues, s1.queues[p][0], Schedule(th, idle, s).current);
    var t := s1.queues[p][0];
    assert t in s1.queues[p] && th[t].priority == p;
    assert Without(s1.queues[p], t) == s1.queues[p][1..];
  }

  function Schedules(ops: seq<Op>): nat {
    if ops == [] then 0 else (if ops[0].ScheduleOp? then 1 else 0) + Schedules(ops[1..])
  }

  ghost predicate CalmRun(th: seq<Params>, idle: nat, s: State, ops: seq<Op>, p: nat)
    requires Inv(th, idle, s) && Legal(th, idle, s, ops)
    decreases |ops|
  {
    ops != [] ==>
      (ops[0].ScheduleOp? ==> Calm(th, idle, s, p)) && CalmRun(th, idle, Step(th, idle, s, ops[0]), ops[1..], p)
  }

  lemma StepKeepsPlace(th: seq<Params>, idle: nat, s: State, op: Op, p: nat, i: nat)
    requires Inv(th, idle, s) && LegalStep(th, idle, s, op) && !op.ScheduleOp? && p < LEVELS && i < |s.queues[p]|
    ensures var s' := Step(th, idle, s, op);
      i < |s'.queues[p]| && s'.queues[p][i] == s.queues[p][i]
  {
  }

  /** After k <= i calls the thread at index i of level p is at index i - k. */
  lemma {:induction false} MovesUp(th: seq<Params>, idle: nat, s: State, ops: seq<Op>, p: nat, i: nat)
    requires Inv(th, idle, s) && Legal(th, idle, s, ops) && p < RT_LEVELS && i < |s.queues[p]|
    requires CalmRun(th, idle, s, ops, p) && Schedules(ops) <= i
    ensures var s' := Run(th, idle, s, ops);
      i - Schedules(ops) < |s'.queues[p]| && s'.queues[p][i - Schedules(ops)] == s.queues[p][i]
    decreases |ops|
  {
    hide Inv, LegalStep, Calm;
    InvShape(th, idle, s);
    if ops != [] {
      var s1, rest := Step(th, idle, s, ops[0]), ops[1..];
      InvShape(th, idle, s1);
      if !ops[0].ScheduleOp? {
        StepKeepsPlace(th, idle, s, ops[0], p, i);
        MovesUp(th, idle, s1, rest, p, i);
      } else {
        CalmSchedule(th, idle, s, p);
        assert s1.queues[p][i - 1] == s.queues[p][1..][i - 1];
        MovesUp(th, idle, s1, rest, p, i - 1);
      }
    }
  }

  lemma InvShape(th: seq<Params>, idle: nat, s: State)
    requires Inv(th, idle, s)
    ensures |s.queues| == LEVELS
  {
  }

  /** The thread at index i of real-time level p becomes current on exactly the
      (i + 1)-th schedule() call, whatever arrives at or below p meanwhile: up to the
      i-th it waits, and the next makes it current. */
  lemma {:induction false} BoundedWait(th: seq<Params>, idle: nat, s: State, ops: seq<Op>, p: nat, i: nat)
    requires Inv(th, idle, s) && Legal(th, idle, s, ops) && p < RT_LEVELS && i < |s.queues[p]|
    requires CalmRun(th, idle, s, ops, p)
    ensures Schedules(ops) <= i ==> Run(th, idle, s, ops).current != s.queues[p][i]
    ensures Schedules(ops) == i && Calm(th, idle, Run(th, idle, s, ops), p) ==>
      Step(th, idle, Run(th, idle, s, ops), ScheduleOp).current == s.queues[p][i]
  {
    if Schedules(ops) <= i {
      MovesUp(th, idle, s, ops, p, i);
      var s' := Run(th, idle, s, ops);
      NotCurrent(th, idle, s', p, i - Schedules(ops));
      if Schedules(ops) == i && Calm(th, idle, s', p) {
        CalmSchedule(th, idle, s', p);
      }
    }
  }

  lemma NotCurrent(th: seq<Params>, idle: nat, s: State, p: nat, i: nat)
    requires Inv(th, idle, s) && p < LEVELS && i < |s.queues[p]|
    ensures s.current != s.queues[p][i]
  {
    var t := s.queues[p][i];
    assert t in s.queues[p];
  }

  // ---------------------------------------------------------------------------
  // Normal levels

  /** The idle thread is an ordinary real-time thread of level 0, and it is runnable. */
  ghost predicate IdleRunnable(th: seq<Params>, idle: nat, s: State)
    requires Inv(th, idle, s)
  {
    th[idle].priority == 0 && idle in Runnable(s)
  }

  predicate Normal(p: Params) {
    p.priority >= RT_LEVELS && !Urgent(p)
  }

  /** A normal thread is chosen exactly when no thread is urgent, every real-time level
      is empty, the outgoing thread's included, and some normal level is not. */
  lemma NormalChosen(th: seq<Params>, idle: nat, s: State)
    requires Inv(th, idle, s) && th[idle].priority < RT_LEVELS
    ensures AllThreads(th, InOrder(Reenqueued(th, s).queues))
    ensures var queues, t := Reenqueued(th, s).queues, Schedule(th, idle, s).current;
      && t < |th|
      && (Normal(th[t]) <==>
            && NoneUrgent(th, InOrder(queues))
            && (forall k :: 0 <= k < RT_LEVELS ==> queues[k] == [])
            && exists p :: RT_LEVELS <= p < LEVELS && queues[p] != [])
  {
    ScheduleSafe(th, idle, s);
    ReenqueuedInv(th, idle, s);
    var s1, t := Reenqueued(th, s), Schedule(th, idle, s).current;
    if NoneUrgent(th, InOrder(s1.queues)) && exists p :: 0 <= p < LEVELS && s1.queues[p] != [] {
      var p :| 0 <= p < LEVELS && s1.queues[p] != [] && t == s1.queues[p][0] &&
        if p < RT_LEVELS then forall k :: p < k < RT_LEVELS ==> s1.queues[k] == []
        else forall k :: 0 <= k < p ==> s1.queues[k] == [];
      assert t in s1.queues[p];
      InOrderMembers(s1.queues, t);
    }
  }

  /** The idle thread keeps a real-time level occupied. */
  lemma IdleOccupies(th: seq<Params>, idle: nat, s: State)
    requires Inv(th, idle, s) && IdleRunnable(th, idle, s)
    ensures Reenqueued(th, s).queues[0] != []
  {
    ReenqueuedInv(th, idle, s);
    RunnableReenqueued(th, idle, s);
    var k :| 0 <= k < LEVELS && idle in Reenqueued(th, s).queues[k];
  }

  /** So a normal thread never runs while the idle thread lives. */
  lemma {:induction false} NormalStarves(th: seq<Params>, idle: nat, s: State, ops: seq<Op>)
    requires Inv(th, idle, s) && Legal(th, idle, s, ops) && IdleRunnable(th, idle, s)
    requires Survives(th, idle, s, ops, idle)
    requires !Normal(th[s.current])
    ensures !Normal(th[Run(th, idle, s, ops).current])
    decreases |ops|
  {
    if ops != [] {
      match ops[0] {
        case EnqueueOp(u) => EnqueueSafe(th, idle, s, u);
        case ScheduleOp => ScheduleSafe(th, idle, s); IdleOccupies(th, idle, s); NormalChosen(th, idle, s);
        case ExitOp => ExitSafe(th, idle, s);
      }
      NormalStarves(th, idle, Step(th, idle, s, ops[0]), ops[1..]);
    }
  }
}
