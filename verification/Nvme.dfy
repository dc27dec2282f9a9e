/** The NVMe queue pair of nvme.cpp: submit a command, ring the doorbell, poll for its
    completion. */
module Nvme {
  import opened CompletionRing

  const TIMEOUT: nat := 1000000
  const TIMED_OUT: int := -2

  /** The 15 status bits above the phase tag, which with it make up the status word. */
  function StatusCode(e: Cqe): (code: nat)
    ensures e.status == 2 * code + e.status % 2
  {
    (e.status / 2) % 0x8000
  }

  class NvmeQueue<Command> {
    const sq: array<Command>
    const cq: array<Cqe>
    var sqTail: nat
    var cqHead: nat
    var phase: nat
    /** What was last written to the two doorbell registers. */
    var sqDoorbell: nat
    var cqDoorbell: nat
    /** The protocol's history, kept beside the driver's own fields: what the controller
        has posted, what the host has taken, and how many commands were submitted. */
    var posted: seq<Cqe>
    var taken: seq<Cqe>
    var submitted: nat

    function Abs(): Ring
      reads `cqHead, `phase, `posted, `taken, cq
    {
      Ring(cq[..], cqHead, phase, posted, taken)
    }

    ghost predicate Valid()
      reads this, cq, sq
    {
      && sq as object != cq && sq.Length == cq.Length && cq.Length > 0 && sqTail == submitted % cq.Length
      && CompletionRing.Inv(Abs()) && Honest(Abs(), submitted) && cqDoorbell == cqHead
    }

    constructor (qsize: nat, blank: Command)
      requires qsize > 0
      ensures Valid() && Abs() == Create(qsize) && submitted == 0 && sqDoorbell == sqTail && fresh(sq) && fresh(cq)
    {
      sq := new Command[qsize](i => blank);
      cq := new Cqe[qsize](i => Cqe(0, 0));
      sqTail, cqHead, phase := 0, 0, 1;
      sqDoorbell, cqDoorbell := 0, 0;
      posted, taken, submitted := [], [], 0;
      new;
      CreateInv(qsize);
      FirstPass(0, qsize);
      assert Abs() == Create(qsize);
    }

    method PostOne(c: Cqe)
      requires Valid() && MayPost(Abs(), submitted, c)
      modifies `posted, cq
      ensures Valid() && Abs() == Post(old(Abs()), c)
    {
      hide CompletionRing.Inv, Honest;
      ghost var r := Abs();
      PostInv(r, c);
      HonestPost(r, submitted, c);
      cq[|posted| % cq.Length] := c;
      posted := posted + [c];
      assert Abs() == Post(r, c);
    }

    /** The controller's side: it posts what it may of a batch, in order. */
    method ControllerPosts(batch: seq<Cqe>)
      requires Valid()
      modifies `posted, cq
      ensures Valid() && Abs() == PostAll(old(Abs()), submitted, batch)
    {
      hide CompletionRing.Inv, Honest, MayPost;
      ghost var r := Abs();
      assert batch[0..] == batch;
      var k := 0;
      while k < |batch|
        invariant 0 <= k <= |batch| && Valid() && PostAll(Abs(), submitted, batch[k..]) == PostAll(r, submitted, batch)
      {
        assert batch[k..][1..] == batch[k + 1..];
        if MayPost(Abs(), submitted, batch[k]) {
          PostOne(batch[k]);
        }
        k := k + 1;
      }
    }

    /** Take the entry at the head: advance, toggling the phase at the wrap. */
    method TakeHead() returns (e: Cqe)
      requires Valid() && cqHead < cq.Length && Sees(Abs())
      modifies `cqHead, `phase, `taken, `cqDoorbell
      ensures Valid() && e == old(Abs()).cq[old(cqHead)] && phase <= 1 && old(phase) <= 1 && Abs() == Poll(old(Abs()))
    {
      ghost var r := Abs();
      PollInv(r);
      HonestPoll(r, submitted);
      e := cq[cqHead];
      cqHead := (cqHead + 1) % cq.Length;
      if cqHead == 0 {
        phase := 1 - phase;
      }
      taken := taken + [e];
      cqDoorbell := cqHead;
      assert Abs() == Poll(r);
    }

    /** nvme_admin_cmd, and the ring part of the block reads and writes: put the command
        in the submission queue, then poll; arrivals[k] is what the controller tries to
        post before the k-th poll. The status is that of the next posted completion, or
        TIMED_OUT exactly when none was posted by the last poll. */
    method Submit(cmd: Command, arrivals: seq<seq<Cqe>>) returns (status: int)
      requires Valid() && |arrivals| == TIMEOUT
      modifies this, sq, cq
      ensures Valid() && submitted == old(submitted) + 1
      ensures sq[..] == old(sq[..])[old(sqTail) := cmd] && sqDoorbell == sqTail
      ensures Abs() == Serve(old(Abs()), old(submitted) + 1, arrivals).0
      ensures status == TIMED_OUT <==> |posted| == |old(taken)|
      ensures status != TIMED_OUT ==>
        && |old(taken)| < |posted| && taken == old(taken) + [posted[|old(taken)|]]
        && posted[|old(taken)|].status == 2 * status + PhaseOf(|old(taken)|, cq.Length)
    {
      hide CompletionRing.Inv, Honest, Serve, PostAll, PhaseOf, StatusCode;
      ghost var r := Abs();
      NextSlot(submitted, cq.Length);
      HonestMore(r, submitted);
      sq[sqTail] := cmd;
      sqTail := (sqTail + 1) % sq.Length;
      submitted := submitted + 1;
      sqDoorbell := sqTail;
      ServeTakesNext(r, submitted, arrivals);
      status := Wait(arrivals);
      if status != TIMED_OUT {
        PostedTag(Abs(), |r.taken|);
      }
    }

    /** The block reads and writes: they report success exactly when a completion came and
        all its status bits are clear. */
    method Transfer(cmd: Command, arrivals: seq<seq<Cqe>>) returns (ok: bool)
      requires Valid() && |arrivals| == TIMEOUT
      modifies this, sq, cq
      ensures Valid() && submitted == old(submitted) + 1
      ensures sq[..] == old(sq[..])[old(sqTail) := cmd] && sqDoorbell == sqTail
      ensures Abs() == Serve(old(Abs()), old(submitted) + 1, arrivals).0
      ensures ok <==> |old(taken)| < |posted| && posted[|old(taken)|].status < 2
    {
      hide CompletionRing.Inv, Honest, Serve, PostAll, PhaseOf;
      ghost var before := |taken|;
      var status := Submit(cmd, arrivals);
      if status != TIMED_OUT {
        PostedTag(Abs(), before);
      }
      ok := status == 0;
    }

    /** The spin-wait. */
    method Wait(arrivals: seq<seq<Cqe>>) returns (status: int)
      requires Valid() && arrivals != []
      modifies `cqHead, `phase, `posted, `taken, `cqDoorbell, cq
      ensures Valid() && Abs() == Serve(old(Abs()), submitted, arrivals).0
      ensures Serve(old(Abs()), submitted, arrivals).1.None? ==> status == TIMED_OUT
      ensures Serve(old(Abs()), submitted, arrivals).1.Some? ==>
        status == StatusCode(Serve(old(Abs()), submitted, arrivals).1.value) >= 0
    {
      hide CompletionRing.Inv, Honest, PostAll, PhaseOf;
      ghost var r := Abs();
      var timeout := |arrivals|;
      assert arrivals[0..] == arrivals;
      while timeout > 0
        invariant 0 <= timeout <= |arrivals| && Valid()
        invariant Serve(Abs(), submitted, arrivals[|arrivals| - timeout..]) == Serve(r, submitted, arrivals)
      {
        ghost var rest := arrivals[|arrivals| - timeout..];
        ControllerPosts(arrivals[|arrivals| - timeout]);
        SeesExactly(Abs());
        assert rest[0] == arrivals[|arrivals| - timeout] && rest[1..] == arrivals[|arrivals| - (timeout - 1)..];
        if cq[cqHead].status % 2 == phase {
          var e := TakeHead();
          return StatusCode(e);
        }
        timeout := timeout - 1;
      }
      return TIMED_OUT;
    }
  }

  /** The tag of a posted entry. */
  lemma PostedTag(r: Ring, i: nat)
    requires CompletionRing.Inv(r) && i < |r.posted|
    ensures |r.cq| > 0 && r.posted[i].status % 2 == PhaseOf(i, |r.cq|) <= 1
  {
  }

  lemma HonestPost(r: Ring, submitted: nat, c: Cqe)
    requires Honest(r, submitted) && MayPost(r, submitted, c)
    ensures Honest(Post(r, c), submitted)
  {
  }

  lemma HonestMore(r: Ring, submitted: nat)
    requires Honest(r, submitted)
    ensures Honest(r, submitted + 1)
  {
  }
}
