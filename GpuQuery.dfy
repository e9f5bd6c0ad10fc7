/**
 * The GPU timer query of src/Query.ts: a three-state machine that brackets GPU
 * work with `beginQuery`/`endQuery` and later polls for the elapsed time. The
 * GPU is abstracted: the commands the query issues are recorded, and what
 * `getQueryParameter` answers is a parameter of each poll.
 */
module GpuQuery {
  import opened Wrappers

  datatype QueryState = Pending | Running | Finished

  /** A command the query sends to the GPU. */
  datatype Command = BeginQuery | EndQuery

  /** A call on the query; a poll carries the GPU's answers (is the result available, and what it is). */
  datatype Call = Start | Finish | Poll(available: bool, result: nat)

  /** What one call does: the state it leaves, the value it returns and the commands it issues. */
  datatype Effect = Effect(next: QueryState, returned: Option<nat>, issued: seq<Command>)

  /** One call, from state `s`. */
  function Step(s: QueryState, c: Call): Effect {
    match c
    case Start => if s == Pending then Effect(Running, None, [BeginQuery]) else Effect(s, None, [])
    case Finish => if s == Running then Effect(Finished, None, [EndQuery]) else Effect(s, None, [])
    case Poll(available, result) =>
      if s != Finished || !available then Effect(s, None, []) else Effect(Pending, Some(result), [])
  }

  /** The whole effect of a sequence of calls: the final state, every returned value and every command. */
  datatype Trace = Trace(final: QueryState, returned: seq<Option<nat>>, issued: seq<Command>)

  function Run(s: QueryState, calls: seq<Call>): (t: Trace)
    ensures |t.returned| == |calls|
    decreases |calls|
  {
    if |calls| == 0 then Trace(s, [], [])
    else
      var e := Step(s, calls[0]);
      var t := Run(e.next, calls[1..]);
      Trace(t.final, [e.returned] + t.returned, e.issued + t.issued)
  }

  /** How many times `c` occurs in `log`. */
  function Count(log: seq<Command>, c: Command): nat {
    if |log| == 0 then 0 else Count(log[..|log| - 1], c) + if log[|log| - 1] == c then 1 else 0
  }

  /** Commands alternate, beginning first. */
  predicate Alternating(log: seq<Command>) {
    forall i :: 0 <= i < |log| ==> log[i] == if i % 2 == 0 then BeginQuery else EndQuery
  }

  /** The invariant of a query: its commands alternate, and a begin is unmatched exactly while the query is running. */
  predicate Agrees(s: QueryState, log: seq<Command>) {
    Alternating(log) && (|log| % 2 == 1 <==> s == Running)
  }

  /** Every call keeps the invariant. */
  lemma StepKeeps(s: QueryState, log: seq<Command>, c: Call)
    requires Agrees(s, log)
    ensures Agrees(Step(s, c).next, log + Step(s, c).issued)
  {
    var e := Step(s, c);
    if e.issued != [] {
      var log' := log + e.issued;
      forall i | 0 <= i < |log'| ensures log'[i] == if i % 2 == 0 then BeginQuery else EndQuery {
        if i < |log| { assert log'[i] == log[i]; }
      }
    }
  }

  /** Any sequence of calls keeps the invariant. */
  lemma {:induction false} RunKeeps(s: QueryState, log: seq<Command>, calls: seq<Call>)
    requires Agrees(s, log)
    ensures Agrees(Run(s, calls).final, log + Run(s, calls).issued)
    decreases |calls|
  {
    if |calls| > 0 {
      var e := Step(s, calls[0]);
      StepKeeps(s, log, calls[0]);
      RunKeeps(e.next, log + e.issued, calls[1..]);
      assert log + e.issued + Run(e.next, calls[1..]).issued == log + Run(s, calls).issued;
    }
  }

  /** In an alternating log the begins number the ends, plus one after an unmatched begin. */
  lemma {:induction false} AlternatingCounts(log: seq<Command>)
    requires Alternating(log)
    ensures Count(log, BeginQuery) == Count(log, EndQuery) + |log| % 2
  {
    if |log| > 0 {
      assert Alternating(log[..|log| - 1]);
      AlternatingCounts(log[..|log| - 1]);
    }
  }

  /**
   * Over any sequence of calls on a new query, `beginQuery` and `endQuery`
   * alternate starting with a begin: the begins outnumber the ends by one
   * while the query is running, and equal them otherwise.
   */
  lemma Alternates(calls: seq<Call>)
    ensures Alternating(Run(Pending, calls).issued)
    ensures var t := Run(Pending, calls);
      Count(t.issued, BeginQuery) == Count(t.issued, EndQuery) + if t.final == Running then 1 else 0
  {
    var t := Run(Pending, calls);
    RunKeeps(Pending, [], calls);
    assert [] + t.issued == t.issued;
    AlternatingCounts(t.issued);
  }

  predicate AllPolls(calls: seq<Call>) {
    forall i :: 0 <= i < |calls| ==> calls[i].Poll?
  }

  /** The position of the first poll that finds the result available, or the number of polls. */
  function FirstAvailable(polls: seq<Call>): (k: nat)
    requires AllPolls(polls)
    ensures k <= |polls|
    ensures forall j :: 0 <= j < k ==> !polls[j].available
    ensures k < |polls| ==> polls[k].available
  {
    if |polls| == 0 then 0
    else if polls[0].available then 0
    else 1 + FirstAvailable(polls[1..])
  }

  /** Polls of a query that is not running return nothing, change nothing and issue nothing. */
  lemma {:induction false} PollsWhilePending(polls: seq<Call>)
    requires AllPolls(polls)
    ensures var t := Run(Pending, polls);
      t.final == Pending && t.issued == [] && forall j :: 0 <= j < |polls| ==> t.returned[j] == None
  {
    if |polls| > 0 {
      PollsWhilePending(polls[1..]);
    }
  }

  /**
   * Polls of a finished query return nothing until the result is available,
   * then return it once, and nothing after; no command is issued.
   */
  lemma {:induction false} PollsWhileFinished(polls: seq<Call>)
    requires AllPolls(polls)
    ensures var t := Run(Finished, polls);
      && t.issued == []
      && t.final == (if FirstAvailable(polls) < |polls| then Pending else Finished)
      && forall j :: 0 <= j < |polls| ==>
           t.returned[j] == if j == FirstAvailable(polls) then Some(polls[j].result) else None
  {
    if |polls| > 0 {
      if polls[0].available {
        PollsWhilePending(polls[1..]);
      } else {
        PollsWhileFinished(polls[1..]);
      }
    }
  }

  /** `start` then `finish` on an idle query issue one begin and one end and leave it finished. */
  lemma StartFinish(polls: seq<Call>)
    ensures var t := Run(Finished, polls);
      Run(Pending, [Start, Finish] + polls) == Trace(t.final, [None, None] + t.returned, [BeginQuery, EndQuery] + t.issued)
  {
    var calls := [Start, Finish] + polls;
    assert calls[0] == Start && calls[1..] == [Finish] + polls;
    assert ([Finish] + polls)[0] == Finish && ([Finish] + polls)[1..] == polls;
  }

  /** After `start` and `finish` on an idle query, polls behave as on a finished query. */
  lemma StartFinishPolls(polls: seq<Call>)
    requires AllPolls(polls)
    ensures var t := Run(Pending, [Start, Finish] + polls);
      && t.issued == [BeginQuery, EndQuery]
      && t.final == (if FirstAvailable(polls) < |polls| then Pending else Finished)
      && t.returned[..2] == [None, None]
      && forall j :: 0 <= j < |polls| ==>
           t.returned[j + 2] == if j == FirstAvailable(polls) then Some(polls[j].result) else None
  {
    StartFinish(polls);
    PollsWhileFinished(polls);
  }

  /** The query object: its state, and (ghost) the commands it has sent to the GPU so far. */
  class Query {
    var state: QueryState
    ghost var log: seq<Command>

    ghost predicate Valid()
      reads this
    {
      Agrees(state, log)
    }

    constructor ()
      ensures state == Pending && log == [] && Valid()
    {
      state := Pending;
      log := [];
    }

    /** `start`: from Pending, move to Running and begin the query; otherwise do nothing. */
    method Start()
      requires Valid()
      modifies this
      ensures Valid()
      ensures old(state) == Pending ==> state == Running && log == old(log) + [BeginQuery]
      ensures old(state) != Pending ==> state == old(state) && log == old(log)
      ensures state == Step(old(state), Call.Start).next && log == old(log) + Step(old(state), Call.Start).issued
    {
      StepKeeps(state, log, Call.Start);
      if state != Pending {
        return;
      }
      state := Running;
      log := log + [BeginQuery];
    }

    /** `finish`: from Running, move to Finished and end the query; otherwise do nothing. */
    method Finish()
      requires Valid()
      modifies this
      ensures Valid()
      ensures old(state) == Running ==> state == Finished && log == old(log) + [EndQuery]
      ensures old(state) != Running ==> state == old(state) && log == old(log)
      ensures state == Step(old(state), Call.Finish).next && log == old(log) + Step(old(state), Call.Finish).issued
    {
      StepKeeps(state, log, Call.Finish);
      if state != Running {
        return;
      }
      state := Finished;
      log := log + [EndQuery];
    }

    /**
     * `poll`: once Finished and the GPU reports the result available, return
     * it and go back to Pending; otherwise return undefined and change nothing.
     */
    method Poll(available: bool, result: nat) returns (r: Option<nat>)
      requires Valid()
      modifies this
      ensures Valid() && log == old(log)
      ensures r.Some? <==> old(state) == Finished && available
      ensures r.Some? ==> r.value == result && state == Pending
      ensures r.None? ==> state == old(state)
      ensures Effect(state, r, []) == Step(old(state), Call.Poll(available, result))
    {
      StepKeeps(state, log, Call.Poll(available, result));
      if state != Finished {
        return None;
      }
      if !available {
        return None;
      }
      state := Pending;
      return Some(result);
    }
  }
}
