/** The cooperative round-robin scheduler: exact tick counts and fairness. */
module Scheduler {
  import opened Common

  datatype Poll = Pending | Ready

  /** A queued task that becomes ready at its `left`-th poll from now. */
  datatype Entry = Entry(id: nat, left: nat)

  type Queue = seq<Entry>

  /** Every queued task has at least one poll to go, as any task that was not ready has. */
  ghost predicate AllLive(q: Queue) {
    forall i :: 0 <= i < |q| ==> q[i].left > 0
  }

  ghost predicate DistinctIds(q: Queue) {
    forall i, j :: 0 <= i < j < |q| ==> q[i].id != q[j].id
  }

  /** The queue after polling its first task: gone if ready, else at the back. */
  function Next(q: Queue): Queue
    requires q != []
  {
    if q[0].left <= 1 then q[1..] else q[1..] + [Entry(q[0].id, q[0].left - 1)]
  }

  function PollsLeft(q: Queue): nat {
    if q == [] then 0 else q[0].left + PollsLeft(q[1..])
  }

  lemma {:induction false} PollsLeftAppend(a: Queue, b: Queue)
    ensures PollsLeft(a + b) == PollsLeft(a) + PollsLeft(b)
  {
    if a == [] {
      assert a + b == b;
    } else {
      assert (a + b)[0] == a[0] && (a + b)[1..] == a[1..] + b;
      PollsLeftAppend(a[1..], b);
    }
  }

  /** Each tick uses up exactly one poll. */
  lemma TickUsesOnePoll(q: Queue)
    requires AllLive(q) && q != []
    ensures PollsLeft(q) == PollsLeft(Next(q)) + 1 && AllLive(Next(q))
  {
    var e := Entry(q[0].id, q[0].left - 1);
    PollsLeftAppend(q[1..], [e]);
    assert [e][1..] == [];
    assert PollsLeft([e]) == e.left;
  }

  // ---------------------------------------------------------------- who is polled when

  /** The queue after `n` ticks, empty once all tasks are done. */
  function After(q: Queue, n: nat): Queue
    decreases n
  {
    if n == 0 then q else if q == [] then [] else After(Next(q), n - 1)
  }

  /** The id polled by tick `n`, counting from zero. */
  function PolledAt(q: Queue, n: nat): Option<nat> {
    var r := After(q, n);
    if r == [] then None else Some(r[0].id)
  }

  /** A task at position `p` is polled after exactly `p` polls of others. */
  lemma {:induction false} PolledInTurn(q: Queue, p: nat)
    requires p < |q|
    ensures PolledAt(q, p) == Some(q[p].id) && After(q, p) != [] && After(q, p)[0] == q[p]
    decreases p
  {
    if p > 0 {
      assert Next(q)[p - 1] == q[p];
      PolledInTurn(Next(q), p - 1);
    }
  }

  /**
    Between two polls of one task every other queued task is polled exactly once, in queue order,
    and nothing else is.
  */
  lemma FairRound(q: Queue, i: nat)
    requires q != [] && q[0].left > 1 && 1 <= i <= |q|
    ensures PolledAt(q, i) == Some(if i < |q| then q[i].id else q[0].id)
  {
    var next := Next(q);
    PolledInTurn(next, i - 1);
    assert next[i - 1] == if i < |q| then q[i] else Entry(q[0].id, q[0].left - 1);
  }

  // ---------------------------------------------------------------- the whole run

  /** The ids polled from here to completion. */
  function Trace(q: Queue): seq<nat>
    requires AllLive(q)
    decreases PollsLeft(q)
  {
    if q == [] then []
    else
      TickUsesOnePoll(q);
      [q[0].id] + Trace(Next(q))
  }

  /** How many polls of task `id` the queue still holds. */
  function PollsOf(q: Queue, id: nat): nat {
    if q == [] then 0 else (if q[0].id == id then q[0].left else 0) + PollsOf(q[1..], id)
  }

  lemma {:induction false} PollsOfAppend(a: Queue, b: Queue, id: nat)
    ensures PollsOf(a + b, id) == PollsOf(a, id) + PollsOf(b, id)
  {
    if a == [] {
      assert a + b == b;
    } else {
      assert (a + b)[0] == a[0] && (a + b)[1..] == a[1..] + b;
      PollsOfAppend(a[1..], b, id);
    }
  }

  lemma {:induction false} TraceCounts(q: Queue, id: nat)
    requires AllLive(q)
    ensures |Trace(q)| == PollsLeft(q) && multiset(Trace(q))[id] == PollsOf(q, id)
    decreases PollsLeft(q)
  {
    if q != [] {
      var e := Entry(q[0].id, q[0].left - 1);
      TickUsesOnePoll(q);
      TraceCounts(Next(q), id);
      PollsOfAppend(q[1..], [e], id);
      assert [e][1..] == [];
      assert PollsOf([e], id) == if e.id == id then e.left else 0;
    }
  }

  lemma {:induction false} OtherPolls(q: Queue, id: nat)
    requires forall i :: 0 <= i < |q| ==> q[i].id != id
    ensures PollsOf(q, id) == 0
  {
    if q != [] {
      OtherPolls(q[1..], id);
    }
  }

  lemma {:induction false} PollsOfTask(q: Queue, i: nat)
    requires DistinctIds(q) && i < |q|
    ensures PollsOf(q, q[i].id) == q[i].left
  {
    if i == 0 {
      OtherPolls(q[1..], q[0].id);
    } else {
      PollsOfTask(q[1..], i - 1);
    }
  }

  /** No task starves: running to completion polls each task exactly as often as it needs, and no more. */
  lemma EveryTaskRuns(q: Queue, i: nat)
    requires AllLive(q) && DistinctIds(q) && i < |q|
    ensures multiset(Trace(q))[q[i].id] == q[i].left && |Trace(q)| == PollsLeft(q)
  {
    TraceCounts(q, q[i].id);
    PollsOfTask(q, i);
  }

  // ---------------------------------------------------------------- the scheduler object

  class Scheduler {
    var ready: Queue
    var nextId: nat

    ghost predicate Valid()
      reads this
    {
      AllLive(ready) && DistinctIds(ready) && forall i :: 0 <= i < |ready| ==> ready[i].id < nextId
    }

    constructor ()
      ensures Valid() && ready == [] && nextId == 0
    {
      ready := [];
      nextId := 0;
    }

    /** Queues a task that needs `polls` polls. */
    method Spawn(polls: nat) returns (id: nat)
      requires Valid() && polls > 0
      modifies this
      ensures Valid() && id == old(nextId) && nextId == id + 1
      ensures ready == old(ready) + [Entry(id, polls)]
    {
      id := nextId;
      nextId := nextId + 1;
      ready := ready + [Entry(id, polls)];
    }

    method Tick() returns (r: Option<(nat, Poll)>)
      requires Valid()
      modifies this`ready
      ensures Valid()
      ensures old(ready) == [] ==> r == None && ready == []
      ensures old(ready) != [] ==> ready == Next(old(ready))
      ensures old(ready) != [] ==> r == Some((old(ready)[0].id, if old(ready)[0].left == 1 then Ready else Pending))
    {
      if ready == [] {
        return None;
      }
      TickUsesOnePoll(ready);
      var e := Entry(ready[0].id, ready[0].left - 1);
      ready := ready[1..];
      var result := if e.left == 0 then Ready else Pending;
      if result == Pending {
        ready := ready + [e];
      }
      r := Some((e.id, result));
    }

    /** Ticks until nothing is queued; `polled` lists the ids in order. */
    method RunToCompletion() returns (ticks: nat, ghost polled: seq<nat>)
      requires Valid()
      modifies this`ready
      ensures Valid() && ready == []
      ensures ticks == PollsLeft(old(ready)) && polled == Trace(old(ready))
    {
      ticks, polled := 0, [];
      while ready != []
        invariant Valid() && ticks + PollsLeft(ready) == PollsLeft(old(ready))
        invariant polled + Trace(ready) == Trace(old(ready))
        decreases PollsLeft(ready)
      {
        TickUsesOnePoll(ready);
        polled := polled + [ready[0].id];
        var _ := Tick();
        ticks := ticks + 1;
      }
      assert polled + [] == polled;
    }
  }
}
