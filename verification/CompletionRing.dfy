/** The NVMe completion ring as a two-party protocol: a controller posts completions
    with alternating phase tags, the host polls (section 4.6 of the NVM Express Base
    Specification 1.4). */
module CompletionRing {
  import opened Bits
  import opened Options

  type Word16 = w: nat | w < 0x1_0000

  /** A completion entry: its status word, whose lowest bit is the phase tag, and the
      command it completes. */
  datatype Cqe = Cqe(status: Word16, command: nat)

  /** The tag of the i-th completion posted to a ring of n entries: 1 on the first
      pass, alternating with each. */
  function PhaseOf(i: nat, n: nat): nat
    requires n > 0
  {
    1 - (i / n) % 2
  }

  lemma NextSlot(i: nat, n: nat)
    requires n > 0
    ensures (i + 1) % n == (if i % n == n - 1 then 0 else i % n + 1) == (i % n + 1) % n
    ensures PhaseOf(i + 1, n) == if (i + 1) % n == 0 then 1 - PhaseOf(i, n) else PhaseOf(i, n)
  {
    var q, r := i / n, i % n;
    assert i == q * n + r;
    if r == n - 1 {
      assert (q + 1) * n == q * n + n;
      ModUnique(i + 1, n, q + 1, 0);
      ModUnique(n, n, 1, 0);
    } else {
      ModUnique(i + 1, n, q, r + 1);
      ModUnique(r + 1, n, 0, r + 1);
    }
  }

  /** One pass later: the same slot, the other tag. */
  lemma NextPass(i: nat, n: nat)
    requires n > 0
    ensures (i + n) % n == i % n && PhaseOf(i + n, n) == 1 - PhaseOf(i, n)
  {
    var q, r := i / n, i % n;
    assert i == q * n + r && (q + 1) * n == q * n + n;
    ModUnique(i + n, n, q + 1, r);
  }

  lemma FirstPass(i: nat, n: nat)
    requires i < n
    ensures i % n == i && PhaseOf(i, n) == 1
  {
    ModUnique(i, n, 0, i);
  }

  /** Entries less than one pass apart lie in different slots. */
  lemma SlotsDiffer(i: nat, j: nat, n: nat)
    requires i < j < i + n
    ensures i % n != j % n
  {
    if i % n == j % n {
      var a, b := i / n, j / n;
      assert i == a * n + i % n && j == b * n + j % n;
      assert (b - a) * n == b * n - a * n;
      assert (a - b) * n == a * n - b * n;
      if b > a {
        MulAtLeast(b - a, n);
      } else {
        MulNonNegative(a - b, n);
      }
    }
  }

  // ---------------------------------------------------------------------------
  // The protocol

  /** The shared ring, the host's head and expected tag, everything ever posted, and
      everything the host has taken. */
  datatype Ring = Ring(cq: seq<Cqe>, head: nat, phase: nat, posted: seq<Cqe>, taken: seq<Cqe>)

  function Create(n: nat): Ring {
    Ring(seq(n, i => Cqe(0, 0)), 0, 1, [], [])
  }

  ghost predicate Inv(r: Ring) {
    var n := |r.cq|;
    && n > 0 && |r.taken| <= |r.posted| <= |r.taken| + n
    && r.head == |r.taken| % n && r.phase == PhaseOf(|r.taken|, n)
    && (forall i :: 0 <= i < |r.posted| ==> r.posted[i].status % 2 == PhaseOf(i, n))
    && (forall i :: 0 <= i < |r.posted| && |r.posted| - n <= i ==> r.cq[i % n] == r.posted[i])
    && (forall j :: |r.posted| <= j < n ==> r.cq[j].status % 2 == 0)
    && r.taken == r.posted[..|r.taken|]
  }

  /** The controller may post while an entry the host has taken, or an unused one, is
      left; the entry's tag is that of the current pass. */
  predicate CanPost(r: Ring, c: Cqe) {
    |r.cq| > 0 && |r.posted| < |r.taken| + |r.cq| && c.status % 2 == PhaseOf(|r.posted|, |r.cq|)
  }

  function Post(r: Ring, c: Cqe): Ring
    requires CanPost(r, c)
  {
    r.(cq := r.cq[|r.posted| % |r.cq| := c], posted := r.posted + [c])
  }

  /** The host's test of the entry at its head. */
  predicate Sees(r: Ring)
    requires r.head < |r.cq|
  {
    r.cq[r.head].status % 2 == r.phase
  }

  function Poll(r: Ring): Ring
    requires r.head < |r.cq| && r.phase <= 1
  {
    if Sees(r) then
      var h := (r.head + 1) % |r.cq|;
      r.(head := h, phase := if h == 0 then 1 - r.phase else r.phase, taken := r.taken + [r.cq[r.head]])
    else r
  }

  lemma CreateInv(n: nat)
    requires n > 0
    ensures Inv(Create(n))
  {
    FirstPass(0, n);
  }

  /** The host sees an entry exactly when one is posted and not taken, and then it is
      the next one in posting order; it is never stale and never missing. */
  lemma SeesExactly(r: Ring)
    requires Inv(r)
    ensures r.head < |r.cq| && r.phase <= 1
    ensures Sees(r) <==> |r.taken| < |r.posted|
    ensures Sees(r) ==> r.cq[r.head] == r.posted[|r.taken|]
  {
    var n, c := |r.cq|, |r.taken|;
    if c < |r.posted| {
      assert r.cq[c % n] == r.posted[c];
    } else if c >= n {
      NextPass(c - n, n);
      assert r.cq[(c - n) % n] == r.posted[c - n];
    } else {
      FirstPass(c, n);
    }
  }

  lemma PostInv(r: Ring, c: Cqe)
    requires Inv(r) && CanPost(r, c)
    ensures Inv(Post(r, c))
  {
    var n, m := |r.cq|, |r.posted|;
    var r' := Post(r, c);
    forall i | 0 <= i < |r'.posted| && |r'.posted| - n <= i
      ensures r'.cq[i % n] == r'.posted[i]
    {
      if i < m {
        SlotsDiffer(i, m, n);
        assert r.cq[i % n] == r.posted[i];
      }
    }
    forall j | |r'.posted| <= j < n
      ensures r'.cq[j].status % 2 == 0
    {
      FirstPass(m, n);
    }
  }

  lemma PollInv(r: Ring)
    requires Inv(r)
    ensures r.head < |r.cq| && r.phase <= 1 && Inv(Poll(r)) && Poll(r).posted == r.posted
    ensures |Poll(r).taken| == |r.taken| + if |r.taken| < |r.posted| then 1 else 0
  {
    SeesExactly(r);
    NextSlot(|r.taken|, |r.cq|);
  }

  // ---------------------------------------------------------------------------
  // Interleavings

  datatype Event = PostEvent(entry: Cqe) | PollEvent

  ghost predicate Legal(r: Ring, events: seq<Event>)
    requires Inv(r)
    decreases |events|
  {
    events != [] ==>
      && (events[0].PostEvent? ==> CanPost(r, events[0].entry))
      && Legal(Step(r, events[0]), events[1..])
  }

  ghost function Step(r: Ring, e: Event): (r': Ring)
    requires Inv(r)
    ensures Inv(r')
  {
    match e
    case PostEvent(c) => if CanPost(r, c) then PostInv(r, c); Post(r, c) else r
    case PollEvent => PollInv(r); Poll(r)
  }

  ghost function Run(r: Ring, events: seq<Event>): (r': Ring)
    requires Inv(r)
    ensures Inv(r')
    decreases |events|
  {
    if events == [] then r else Run(Step(r, events[0]), events[1..])
  }

  function PostsOf(e: Event): seq<Cqe> {
    if e.PostEvent? then [e.entry] else []
  }

  /** The completions the controller posts in a run, in order. */
  function Posts(events: seq<Event>): seq<Cqe> {
    if events == [] then []
    else PostsOf(events[0]) + Posts(events[1..])
  }

  function Polls(events: seq<Event>): nat {
    if events == [] then 0 else (if events[0].PollEvent? then 1 else 0) + Polls(events[1..])
  }

  lemma TakenPrefix(r: Ring)
    requires Inv(r)
    ensures r.taken <= r.posted
  {
  }

  lemma StepTakes(r: Ring, e: Event)
    requires Inv(r) && (e.PostEvent? ==> CanPost(r, e.entry))
    ensures var r' := Step(r, e);
      && r.taken <= r'.taken && |r'.taken| <= |r.taken| + (if e.PollEvent? then 1 else 0)
      && r'.posted == r.posted + PostsOf(e)
  {
    if e.PollEvent? {
      PollInv(r);
    }
  }

  lemma Assoc(a: seq<Cqe>, b: seq<Cqe>, c: seq<Cqe>)
    ensures (a + b) + c == a + (b + c)
  {
  }

  lemma {:induction false} RunPosts(r: Ring, events: seq<Event>)
    requires Inv(r) && Legal(r, events)
    ensures Run(r, events).posted == r.posted + Posts(events)
    decreases |events|
  {
    hide Inv, Step, CanPost, PostsOf;
    if events != [] {
      StepTakes(r, events[0]);
      RunPosts(Step(r, events[0]), events[1..]);
      Assoc(r.posted, PostsOf(events[0]), Posts(events[1..]));
    }
  }

  lemma {:induction false} RunTakes(r: Ring, events: seq<Event>)
    requires Inv(r) && Legal(r, events)
    ensures r.taken <= Run(r, events).taken && |Run(r, events).taken| <= |r.taken| + Polls(events)
    decreases |events|
  {
    hide Inv, Step;
    if events != [] {
      StepTakes(r, events[0]);
      RunTakes(Step(r, events[0]), events[1..]);
    }
  }

  /** In every interleaving, across any number of wraps, what the host has taken is a
      prefix of what was posted, entry for entry, and it takes at most one per poll. */
  lemma InOrderDelivery(r: Ring, events: seq<Event>)
    requires Inv(r) && Legal(r, events)
    ensures var r' := Run(r, events);
      && r'.posted == r.posted + Posts(events)
      && r'.taken <= r'.posted && r.taken <= r'.taken
      && |r'.taken| <= |r.taken| + Polls(events)
  {
    hide Inv;
    RunPosts(r, events);
    RunTakes(r, events);
    TakenPrefix(Run(r, events));
  }

  /** Polling k times with the controller silent takes the next k entries, or all that
      are left. */
  lemma {:induction false} Drains(r: Ring, events: seq<Event>)
    requires Inv(r) && Legal(r, events) && Posts(events) == []
    ensures |Run(r, events).taken| ==
      if |r.taken| + Polls(events) <= |r.posted| then |r.taken| + Polls(events) else |r.posted|
    decreases |events|
  {
    if events != [] {
      PollInv(r);
      Drains(Step(r, events[0]), events[1..]);
    }
  }

  // ---------------------------------------------------------------------------
  // Calls: submit one command, poll for one completion

  /** A controller completes only submitted commands, each at most once. */
  predicate MayPost(r: Ring, submitted: nat, c: Cqe) {
    CanPost(r, c) && c.command < submitted && forall i :: 0 <= i < |r.posted| ==> r.posted[i].command != c.command
  }

  /** The entries of a batch that the controller may post, posted in order. */
  function PostAll(r: Ring, submitted: nat, batch: seq<Cqe>): Ring
    decreases |batch|
  {
    if batch == [] then r
    else PostAll(if MayPost(r, submitted, batch[0]) then Post(r, batch[0]) else r, submitted, batch[1..])
  }

  /** The polling loop: arrivals[k] is what the controller tries to post before the
      k-th poll; None is the timeout after the last. */
  function Serve(r: Ring, submitted: nat, arrivals: seq<seq<Cqe>>): (Ring, Option<Cqe>)
    decreases |arrivals|
  {
    if arrivals == [] then (r, None)
    else
      var r1 := PostAll(r, submitted, arrivals[0]);
      if r1.head < |r1.cq| && r1.phase <= 1 && Sees(r1) then (Poll(r1), Some(r1.cq[r1.head]))
      else Serve(r1, submitted, arrivals[1..])
  }

  ghost predicate Honest(r: Ring, submitted: nat) {
    && (forall i :: 0 <= i < |r.posted| ==> r.posted[i].command < submitted)
    && (forall i, j :: 0 <= i < j < |r.posted| ==> r.posted[i].command != r.posted[j].command)
  }

  lemma {:induction false} PostAllKeeps(r: Ring, submitted: nat, batch: seq<Cqe>)
    requires Inv(r) && Honest(r, submitted)
    ensures var r' := PostAll(r, submitted, batch);
      Inv(r') && Honest(r', submitted) && r.posted <= r'.posted && r'.taken == r.taken && |r'.cq| == |r.cq|
    decreases |batch|
  {
    hide Inv;
    if batch != [] {
      var r1 := if MayPost(r, submitted, batch[0]) then Post(r, batch[0]) else r;
      if MayPost(r, submitted, batch[0]) {
        PostInv(r, batch[0]);
      }
      PostAllKeeps(r1, submitted, batch[1..]);
    }
  }

  /** One call takes exactly the next posted completion; it times out exactly when
      none was posted by the last poll. */
  lemma {:induction false} ServeTakesNext(r: Ring, submitted: nat, arrivals: seq<seq<Cqe>>)
    requires Inv(r) && Honest(r, submitted) && arrivals != []
    ensures var (r', e) := Serve(r, submitted, arrivals);
      && Inv(r') && Honest(r', submitted) && r.posted <= r'.posted && |r'.cq| == |r.cq|
      && (e.None? <==> |r'.posted| == |r.taken|)
      && (e.None? ==> r'.taken == r.taken)
      && (e.Some? ==> |r.taken| < |r'.posted| && e.value == r'.posted[|r.taken|] && r'.taken == r.taken + [e.value])
    decreases |arrivals|
  {
    hide Inv, Honest, MayPost;
    var r1 := PostAll(r, submitted, arrivals[0]);
    PostAllKeeps(r, submitted, arrivals[0]);
    SeesExactly(r1);
    TakenPrefix(r1);
    PollInv(r1);
    if Sees(r1) {
      HonestPoll(r1, submitted);
    } else if |arrivals| > 1 {
      ServeTakesNext(r1, submitted, arrivals[1..]);
    }
  }

  lemma HonestPoll(r: Ring, submitted: nat)
    requires r.head < |r.cq| && r.phase <= 1 && Honest(r, submitted)
    ensures Honest(Poll(r), submitted)
  {
  }

  /** A driver session: the ring, the commands submitted, the calls that timed out. */
  datatype Session = Session(ring: Ring, submitted: nat, timeouts: nat)

  function Call(s: Session, arrivals: seq<seq<Cqe>>): (Session, Option<Cqe>) {
    var (r, e) := Serve(s.ring, s.submitted + 1, arrivals);
    (Session(r, s.submitted + 1, s.timeouts + if e.None? then 1 else 0), e)
  }

  /** Every call took one completion or timed out; while none has timed out, the i-th
      completion taken is that of the i-th command. */
  ghost predicate SessionInv(s: Session) {
    && Inv(s.ring) && Honest(s.ring, s.submitted)
    && |s.ring.taken| + s.timeouts == s.submitted
    && (s.timeouts == 0 ==> forall i :: 0 <= i < |s.ring.taken| ==> s.ring.taken[i].command == i)
  }

  lemma SessionStart(n: nat)
    requires n > 0
    ensures SessionInv(Session(Create(n), 0, 0))
  {
    CreateInv(n);
  }

  /** While no call has timed out, the completion a call takes is that of the command
      it submitted. */
  lemma OwnCompletion(s: Session, arrivals: seq<seq<Cqe>>)
    requires SessionInv(s) && arrivals != []
    ensures var (s', e) := Call(s, arrivals);
      && SessionInv(s')
      && (s.timeouts == 0 && e.Some? ==> e.value.command == s.submitted)
  {
    hide Inv;
    ServeTakesNext(s.ring, s.submitted + 1, arrivals);
    var (s', e) := Call(s, arrivals);
    if s.timeouts == 0 && e.Some? {
      TakenPrefix(s'.ring);
      var m := |s.ring.taken|;
      forall i | 0 <= i < m
        ensures s'.ring.posted[i].command == i
      {
        assert s'.ring.taken[i] == s'.ring.posted[i] && s'.ring.taken[i] == s.ring.taken[i];
      }
      var c := e.value.command;
      assert c == s'.ring.posted[m].command && c <= s.submitted;
      NotAgain(s'.ring, s.submitted + 1, m, m);
    }
  }

  /** If the first m completions are those of commands 0 to m - 1, the next is of a
      later one. */
  lemma {:induction false} NotAgain(r: Ring, submitted: nat, m: nat, k: nat)
    requires Honest(r, submitted) && k <= m < |r.posted| && forall i :: 0 <= i < m ==> r.posted[i].command == i
    ensures r.posted[m].command >= k
  {
    if k > 0 {
      NotAgain(r, submitted, m, k - 1);
      assert r.posted[k - 1].command == k - 1 != r.posted[m].command;
    }
  }

  ghost predicate InOrderController(r: Ring) {
    forall i :: 0 <= i < |r.posted| ==> r.posted[i].command == i
  }

  /** With a controller that completes commands in order, a call's completion belongs
      to the command as many calls back as there were timeouts before it: it is the
      call's own exactly when no earlier call timed out. */
  lemma TimeoutSkew(s: Session, arrivals: seq<seq<Cqe>>)
    requires SessionInv(s) && arrivals != [] && Call(s, arrivals).1.Some? && InOrderController(Call(s, arrivals).0.ring)
    ensures var e := Call(s, arrivals).1.value;
      && e.command == s.submitted - s.timeouts
      && (e.command == s.submitted <==> s.timeouts == 0)
  {
    ServeTakesNext(s.ring, s.submitted + 1, arrivals);
  }

  /** Fewer completions than commands leave a command without one. */
  lemma {:induction false} Outstanding(posted: seq<Cqe>, n: nat) returns (c: nat)
    requires |posted| < n
    ensures c < n && forall i :: 0 <= i < |posted| ==> posted[i].command != c
    decreases n
  {
    if i :| 0 <= i < |posted| && posted[i].command == n - 1 {
      var rest := posted[..i] + posted[i + 1..];
      c := Outstanding(rest, n - 1);
      assert forall k :: 0 <= k < i ==> posted[k] == rest[k];
      assert forall k :: i < k < |posted| ==> posted[k] == rest[k - 1];
    } else {
      c := n - 1;
    }
  }

  /** A completion that comes while none is waiting is what the next call takes. */
  lemma TakesArrival(r: Ring, submitted: nat, c: Cqe)
    requires Inv(r) && Honest(r, submitted) && |r.posted| == |r.taken| && MayPost(r, submitted, c)
    ensures Serve(r, submitted, [[c]]).1 == Some(c)
  {
    hide Inv, Honest;
    assert [c][1..] == [] && PostAll(Post(r, c), submitted, []) == Post(r, c);
    PostInv(r, c);
    SeesExactly(Post(r, c));
    ServeTakesNext(r, submitted, [[c]]);
  }

  /** With any controller: every completion a call could take is its own exactly when no
      earlier call timed out. */
  lemma TimeoutExactly(s: Session)
    requires SessionInv(s)
    ensures (forall arrivals :: arrivals != [] && Call(s, arrivals).1.Some? ==>
               Call(s, arrivals).1.value.command == s.submitted)
       <==> s.timeouts == 0
  {
    hide SessionInv, Serve;
    if s.timeouts == 0 {
      forall arrivals | arrivals != [] && Call(s, arrivals).1.Some?
        ensures Call(s, arrivals).1.value.command == s.submitted
      {
        OwnCompletion(s, arrivals);
      }
    } else {
      var arrivals := OtherCompletion(s);
    }
  }

  /** After a timeout some arrival gives the next call another command's completion. */
  lemma OtherCompletion(s: Session) returns (arrivals: seq<seq<Cqe>>)
    requires SessionInv(s) && s.timeouts > 0
    ensures arrivals != [] && Call(s, arrivals).1.Some? && Call(s, arrivals).1.value.command < s.submitted
  {
    hide Inv, Serve;
    var r := s.ring;
    if |r.posted| > |r.taken| {
      arrivals := [[]];
      ServeTakesNext(r, s.submitted + 1, arrivals);
      var r' := Serve(r, s.submitted + 1, arrivals).0;
      assert r'.posted[|r.taken|] == r.posted[|r.taken|];
    } else {
      TakenPrefix(r);
      var command := Outstanding(r.posted, s.submitted);
      var c := NextCqe(r, command);
      arrivals := [[c]];
      TakesArrival(r, s.submitted + 1, c);
    }
  }

  lemma NextCqe(r: Ring, command: nat) returns (c: Cqe)
    requires Inv(r) && |r.posted| == |r.taken|
    ensures CanPost(r, c) && c.command == command
  {
    c := Cqe(PhaseOf(|r.posted|, |r.cq|), command);
  }

  function Results(s: Session, calls: seq<seq<seq<Cqe>>>): seq<Option<Cqe>>
    decreases |calls|
  {
    if calls == [] then [] else
      var (s', e) := Call(s, calls[0]);
      [e] + Results(s', calls[1..])
  }

  /** Over a whole session: up to the first timeout, call k returns the completion of
      command k. */
  lemma {:induction false} SessionOwn(s: Session, calls: seq<seq<seq<Cqe>>>, k: nat)
    requires SessionInv(s) && s.timeouts == 0 && k < |calls| && forall i :: 0 <= i < |calls| ==> calls[i] != []
    ensures |Results(s, calls)| == |calls|
    ensures (forall i :: 0 <= i <= k ==> Results(s, calls)[i].Some?) ==>
      Results(s, calls)[k].value.command == s.submitted + k
    decreases |calls|
  {
    hide SessionInv, Serve;
    OwnCompletion(s, calls[0]);
    ResultsLength(s, calls);
    var (s', e) := Call(s, calls[0]);
    var rest := Results(s', calls[1..]);
    assert Results(s, calls) == [e] + rest && Results(s, calls)[0] == e;
    if k > 0 && e.Some? {
      SessionOwn(s', calls[1..], k - 1);
      if forall i :: 0 <= i <= k ==> Results(s, calls)[i].Some? {
        forall i | 0 <= i <= k - 1
          ensures rest[i].Some?
        {
          assert rest[i] == Results(s, calls)[i + 1];
        }
        assert rest[k - 1] == Results(s, calls)[k];
      }
    }
  }

  lemma {:induction false} ResultsLength(s: Session, calls: seq<seq<seq<Cqe>>>)
    ensures |Results(s, calls)| == |calls|
    decreases |calls|
  {
    if calls != [] {
      ResultsLength(Call(s, calls[0]).0, calls[1..]);
    }
  }
}
