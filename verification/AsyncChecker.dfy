/**
  The asynchronous path checker as a client of the runner: over any sequence of check, pending
  and free calls every runner it obtains is released exactly once and not used afterwards.
 */
module AsyncChecker {
  import opened Basics
  import opened Runner

  const MAX_NR_TIMEOUTS := 1

  datatype PathState = Unchecked | Pending | TimedOut | Checked(code: int)
  datatype Message = NoMessage | TimeoutMessage | RunningMessage | CheckerMessage(id: int)

  /** The part of `struct runner_data` that the runner hands back. */
  datatype RunnerData = RunnerData(state: PathState, msg: Message)

  /** What the checker does with runner `id`, in program order. */
  datatype Event = Got(id: nat) | Used(id: nat) | Released(id: nat)

  /** The bookkeeping of a disciplined client: at most one live runner, never used when not live. */
  datatype Book = Broken | Book(next: nat, live: Option<nat>)

  function Record(b: Book, e: Event): Book {
    if b.Broken? then Broken else
    match e
    case Got(id) => if id == b.next && b.live.None? then Book(b.next + 1, Some(id)) else Broken
    case Used(id) => if b.live == Some(id) then b else Broken
    case Released(id) => if b.live == Some(id) then Book(b.next, None) else Broken
  }

  function Replay(log: seq<Event>): Book
    decreases |log|
  {
    if log == [] then Book(0, None) else Record(Replay(log[..|log| - 1]), log[|log| - 1])
  }

  function CountReleases(log: seq<Event>, id: nat): nat
    decreases |log|
  {
    if log == [] then 0 else
    CountReleases(log[..|log| - 1], id) + (if log[|log| - 1] == Released(id) then 1 else 0)
  }

  /** Every runner handed out and no longer live was released once; live or future ones never. */
  lemma {:induction false} ReleasedExactlyOnce(log: seq<Event>, id: nat)
    requires Replay(log).Book?
    ensures var b := Replay(log);
            CountReleases(log, id) == if id < b.next && b.live != Some(id) then 1 else 0
    ensures Replay(log).live.Some? ==> Replay(log).live.value < Replay(log).next
    decreases |log|
  {
    if log != [] {
      var front := log[..|log| - 1];
      ReleasedExactlyOnce(front, id);
      if Replay(front).live.Some? {
        ReleasedExactlyOnce(front, Replay(front).live.value);
      }
    }
  }

  /** After its release no event mentions a runner again. */
  lemma {:induction false} NotUsedAfterRelease(log: seq<Event>, i: nat, j: nat)
    requires Replay(log).Book? && i < j < |log| && log[i].Released?
    ensures log[j].id != log[i].id
    decreases |log|
  {
    var front := log[..|log| - 1];
    if j < |front| {
      NotUsedAfterRelease(front, i, j);
    } else {
      ReleasedExactlyOnce(front, log[i].id);
      CountAtLeast(front, i);
    }
  }

  lemma {:induction false} CountAtLeast(log: seq<Event>, i: nat)
    requires i < |log| && log[i].Released?
    ensures CountReleases(log, log[i].id) >= 1
    decreases |log|
  {
    if i < |log| - 1 {
      CountAtLeast(log[..|log| - 1], i);
    }
  }

  lemma ReplayAppend(log: seq<Event>, e: Event)
    ensures Replay(log + [e]) == Record(Replay(log), e)
  {
    assert (log + [e])[..|log|] == log;
  }

  /** The log so far: how many runners were handed out, and which one is live. */
  ghost predicate Booked(log: seq<Event>, issued: nat, live: Option<nat>) { Replay(log) == Book(issued, live) }

  lemma GotOne(log: seq<Event>, issued: nat)
    requires Booked(log, issued, None)
    ensures Booked(log + [Got(issued)], issued + 1, Some(issued))
  {
    ReplayAppend(log, Got(issued));
  }

  lemma UsedOne(log: seq<Event>, issued: nat, id: nat)
    requires Booked(log, issued, Some(id))
    ensures Booked(log + [Used(id)], issued, Some(id))
  {
    ReplayAppend(log, Used(id));
  }

  lemma ReleasedOne(log: seq<Event>, issued: nat, id: nat)
    requires Booked(log, issued, Some(id))
    ensures Booked(log + [Released(id)], issued, None)
  {
    ReplayAppend(log, Released(id));
  }

  /** Cancellations in a row, counted up to two; a runner that has ended starts over. */
  function Timeouts(rc: Status, before: nat): nat {
    match rc
    case Done => 0
    case Dead => 0
    case Cancelled => if before < 2 then before + 1 else before
    case _ => before
  }

  /** `struct checker` together with its `struct async_checker_context`. */
  class Checker {
    var hasContext: bool
    var rtx: Option<nat>
    var nrTimeouts: nat
    var lastRunnerState: Status
    var rdata: RunnerData
    var msg: Message
    ghost var log: seq<Event>
    var issued: nat    // runners handed out so far; names the next one

    ghost predicate Valid()
      reads this
    {
      && Booked(log, issued, rtx)
      && (!hasContext ==> rtx.None?)
      && nrTimeouts <= MAX_NR_TIMEOUTS + 1
    }

    constructor ()
      ensures Valid() && hasContext && rtx.None? && rdata.state == Unchecked && log == []
    {
      hasContext, rtx, nrTimeouts, lastRunnerState := true, None, 0, Idle;
      rdata, msg := RunnerData(Unchecked, NoMessage), NoMessage;
      log, issued := [], 0;
    }

    method ReleaseRunner()
      requires Valid() && rtx.Some?
      modifies this`rtx, this`log
      ensures Valid() && rtx.None? && log == old(log) + [Released(old(rtx).value)]
    {
      ReleasedOne(log, issued, rtx.value);
      log := log + [Released(rtx.value)];
      rtx := None;
    }

    /**
      check_runner_state: `rc` is what check_runner returned and `out` the data it copied when
      that was Done.
     */
    method CheckRunnerState(rc: Status, out: RunnerData)
      requires Valid() && rtx.Some?
      modifies this`rtx, this`log, this`nrTimeouts, this`lastRunnerState, this`rdata
      ensures Valid()
      ensures log == old(log) + [Used(old(rtx).value)] + (if rtx.None? then [Released(old(rtx).value)] else [])
      ensures rtx.Some? ==> rtx == old(rtx)
      ensures rtx.None? <==> rc == Done || rc == Dead || (rc == Cancelled && old(nrTimeouts) < MAX_NR_TIMEOUTS)
      ensures rc == Done ==> rdata == out
      ensures rc == Dead || rc == Cancelled ==> rdata == RunnerData(TimedOut, TimeoutMessage)
      ensures rc == Idle || rc == Running ==> rdata == old(rdata).(msg := RunningMessage)
      ensures nrTimeouts == Timeouts(rc, old(nrTimeouts))
      ensures lastRunnerState == if rc == Idle || rc == Running then old(lastRunnerState) else rc
    {
      UsedOne(log, issued, rtx.value);
      log := log + [Used(rtx.value)];
      match rc {
        case Done =>
          rdata := out;
          ReleaseRunner();
          lastRunnerState, nrTimeouts := rc, 0;
        case Dead =>
          rdata := RunnerData(TimedOut, TimeoutMessage);
          ReleaseRunner();
          lastRunnerState, nrTimeouts := rc, 0;
        case Cancelled =>
          lastRunnerState := rc;
          rdata := RunnerData(TimedOut, TimeoutMessage);
          if nrTimeouts < MAX_NR_TIMEOUTS {
            nrTimeouts := nrTimeouts + 1;
            ReleaseRunner();
          } else if nrTimeouts == MAX_NR_TIMEOUTS {
            nrTimeouts := nrTimeouts + 1;
          }
        case _ =>
          rdata := rdata.(msg := RunningMessage);
      }
    }

    /** async_check_pending */
    method CheckPending(pathState: PathState, rc: Status, out: RunnerData) returns (state: PathState)
      requires Valid()
      modifies this
      ensures Valid() && hasContext == old(hasContext) && issued == old(issued)
      ensures old(rtx).None? ==> state == pathState && log == old(log) && rtx == old(rtx)
      ensures old(rtx).None? ==> nrTimeouts == old(nrTimeouts) && rdata == old(rdata) && msg == old(msg)
      ensures old(rtx).Some? ==> state == rdata.state && msg == rdata.msg && nrTimeouts == Timeouts(rc, old(nrTimeouts))
      ensures old(rtx).Some? && rc == Cancelled ==> (rtx.None? <==> old(nrTimeouts) == 0)
      ensures old(rtx).Some? && rc == Dead ==> rtx.None?
      ensures old(rtx).Some? && rtx.Some? ==> rtx == old(rtx)
      ensures old(rtx).Some? && rc == Done ==> rdata == out && rtx.None?
      ensures old(rtx).Some? && (rc == Dead || rc == Cancelled) ==>
                state == TimedOut && rdata == RunnerData(TimedOut, TimeoutMessage)
      ensures old(rtx).Some? && (rc == Idle || rc == Running) ==>
                rtx == old(rtx) && state == old(rdata).state && rdata == old(rdata).(msg := RunningMessage)
    {
      if !hasContext || rtx.None? {
        return pathState;
      }
      CheckRunnerState(rc, out);
      msg := rdata.msg;
      state := rdata.state;
    }

    /**
      async_check_check: `started` says whether get_runner succeeded, `direct` is the result of
      calling the checker function in this thread.
     */
    method Check(isSync: bool, started: bool, direct: PathState, rc: Status, out: RunnerData)
        returns (state: PathState)
      requires Valid()
      modifies this
      ensures Valid() && hasContext == old(hasContext)
      ensures !old(hasContext) ==> state == Unchecked && log == old(log)
      ensures old(hasContext) && old(rtx).None? ==>
                (rtx.Some? <==> !isSync && started)
                && log == (if rtx.Some? then old(log) + [Got(rtx.value)] else old(log))
                && state == (if rtx.Some? then Pending else direct)
                && (rtx.Some? ==> rdata == RunnerData(Pending, RunningMessage))
                && msg == if rtx.Some? then RunningMessage else old(msg)
      ensures old(rtx).None? ==> nrTimeouts == old(nrTimeouts)
      ensures old(rtx).None? && rtx.Some? ==> rtx.value == old(issued) && issued == old(issued) + 1
      ensures old(rtx).Some? ==> issued == old(issued) && state == rdata.state && msg == rdata.msg
      ensures old(rtx).Some? ==> nrTimeouts == Timeouts(rc, old(nrTimeouts))
      ensures old(rtx).Some? && rc == Cancelled ==> (rtx.None? <==> old(nrTimeouts) == 0)
      ensures old(rtx).Some? && rc == Dead ==> rtx.None?
      ensures old(rtx).Some? && rtx.Some? ==> rtx == old(rtx)
      ensures old(rtx).Some? && rc == Done ==> rdata == out && rtx.None?
      ensures old(rtx).Some? && (rc == Dead || rc == Cancelled) ==>
                state == TimedOut && rdata == RunnerData(TimedOut, TimeoutMessage)
      ensures old(rtx).Some? && (rc == Idle || rc == Running) ==>
                rtx == old(rtx) && state == old(rdata).state && rdata == old(rdata).(msg := RunningMessage)
    {
      if !hasContext {
        return Unchecked;
      }
      if rtx.Some? {
        state := CheckPending(Unchecked, rc, out);
        return;
      }
      state := Start(isSync, started, direct);
    }

    /** A new runner, or the checker function in this thread. */
    method Start(isSync: bool, started: bool, direct: PathState) returns (state: PathState)
      requires Valid() && hasContext && rtx.None?
      modifies this`rdata, this`log, this`rtx, this`issued, this`msg
      ensures Valid() && (rtx.Some? <==> !isSync && started)
      ensures log == if rtx.Some? then old(log) + [Got(rtx.value)] else old(log)
      ensures state == if rtx.Some? then Pending else direct
      ensures rtx.Some? ==> rdata == RunnerData(Pending, RunningMessage)
      ensures msg == if rtx.Some? then RunningMessage else old(msg)
      ensures rtx.Some? ==> rtx.value == old(issued) && issued == old(issued) + 1
      ensures rtx.None? ==> issued == old(issued)
    {
      rdata := RunnerData(Pending, RunningMessage);
      if isSync {
        return direct;
      }
      if started {
        GotOne(log, issued);
        log := log + [Got(issued)];
        rtx, issued := Some(issued), issued + 1;
        msg := rdata.msg;
        state := rdata.state;
      } else {
        state := direct;
      }
    }

    /** async_check_free */
    method Free()
      requires Valid()
      modifies this
      ensures Valid() && !hasContext && rtx.None? && issued == old(issued)
      ensures log == old(log) + (if old(rtx).Some? then [Released(old(rtx).value)] else [])
    {
      if !hasContext {
        return;
      }
      if rtx.Some? {
        ReleaseRunner();
      }
      hasContext := false;
    }
  }

  /**
    A checker that times out once gets a new thread, one that times out again in a row is waited for:
    no third thread is started before the second one has ended, however often it is checked.
   */
  method SecondTimeoutWaits(c: Checker, waits: nat, out: RunnerData, direct: PathState)
    requires c.Valid() && c.hasContext && c.rtx.None? && c.nrTimeouts == 0
    modifies c
    ensures c.Valid() && c.issued == old(c.issued) + 2 && c.rtx.None? && c.nrTimeouts == 0
  {
    var state := c.Check(false, true, direct, Idle, out);
    state := c.Check(false, true, direct, Cancelled, out);
    assert c.rtx.None? && c.issued == old(c.issued) + 1;
    state := c.Check(false, true, direct, Idle, out);
    for i := 0 to waits
      invariant c.Valid() && c.hasContext && c.rtx == Some(old(c.issued) + 1) && c.issued == old(c.issued) + 2
      invariant c.nrTimeouts > 0
    {
      state := c.Check(false, true, direct, Cancelled, out);
      assert state == TimedOut;
    }
    state := c.Check(false, true, direct, Dead, out);
  }

  /** One call a user of the checker may make, with what the environment answers. */
  datatype Call =
    | DoCheck(isSync: bool, started: bool, direct: PathState, rc: Status, out: RunnerData)
    | DoPending(pathState: PathState, rc: Status, out: RunnerData)
    | DoFree

  /** Any sequence of calls followed by a free leaves every runner released exactly once. */
  method Drive(calls: seq<Call>) returns (c: Checker)
    ensures fresh(c) && c.Valid() && c.rtx.None?
    ensures forall id | 0 <= id < c.issued :: CountReleases(c.log, id) == 1
    ensures forall i, j | 0 <= i < j < |c.log| && c.log[i].Released? :: c.log[j].id != c.log[i].id
  {
    c := new Checker();
    for i := 0 to |calls|
      invariant c.Valid() && fresh(c)
    {
      var ignored: PathState;
      match calls[i] {
        case DoCheck(isSync, started, direct, rc, out) => ignored := c.Check(isSync, started, direct, rc, out);
        case DoPending(pathState, rc, out) => ignored := c.CheckPending(pathState, rc, out);
        case DoFree => c.Free();
      }
    }
    c.Free();
    forall id | 0 <= id < c.issued
      ensures CountReleases(c.log, id) == 1
    {
      ReleasedExactlyOnce(c.log, id);
    }
    forall i, j | 0 <= i < j < |c.log| && c.log[i].Released?
      ensures c.log[j].id != c.log[i].id
    {
      NotUsedAfterRelease(c.log, i, j);
    }
  }
}
