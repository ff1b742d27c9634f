/**
  Runner threads: the status word swapped by a worker thread and by its owner,
  and the reference count that decides who frees the shared context.

  Every atomic access of the source is one step.  The worker and the owner are
  two sequential programs given by their program counters; a run is any
  interleaving of their steps.
 */
module Runner {

  import opened Basics

  newtype byte = x: int | 0 <= x < 256

  /** The values of the shared status word. */
  datatype Status = Idle | Running | Done | Cancelled | Dead

  /** Where the worker thread is: `runner_thread` and then `cleanup_context`. */
  datatype WorkerPc =
    | NotCreated
    | Start                    // about to swap Idle -> Running
    | InFunc                   // inside the user function
    | Cleanup                  // about to swap Running -> Done
    | Spin                     // waits until the status leaves Cancelled
    | MarkDead(seen: Status)   // about to swap `seen` -> Dead
    | Log                      // inside the final log message, a cancellation point
    | Put                      // about to drop its reference
    | Free                     // dropped the last reference
    | Exited

  /** Who called `cancel_runner`. */
  datatype Caller = ByCheck | ByRelease

  /** Where the owner is: `get_runner`, then any number of calls. */
  datatype OwnerPc =
    | TakeRef
    | Create
    | UndoFirst
    | UndoSecond
    | Ready                                                  // between calls
    | Copy                                                   // check_runner saw Done
    | Deadline                                               // check_runner saw Idle or Running
    | SwapRunning(caller: Caller, retry: nat, pass: nat)     // label `repeat` of cancel_runner
    | SwapIdle(caller: Caller, pass: nat)
    | Kill(caller: Caller)                                   // about to call pthread_cancel
    | SwapDead(caller: Caller)                               // the asserted swap Cancelled -> Dead
    | Return(caller: Caller, result: Status)
    | PutRef
    | Reclaim                                                // dropped the last reference
    | Gone

  /** What check_runner returns, and the bytes it copies out. */
  datatype Reply = Reply(status: Status, bytes: seq<byte>)

  /**
    The shared context and both program counters.  The last seven fields record history:
    how often the memory was freed, how often the function was called, whether it returned and
    with which bytes, what the last check_runner gave back, whether a cancellation hit status Idle,
    and whether the thread was cancelled inside its final log message.
   */
  datatype State = State(
    status: Status,
    refcnt: int,
    data: seq<byte>,
    killPending: bool,
    worker: WorkerPc,
    owner: OwnerPc,
    frees: nat,
    calls: nat,
    returned: bool,
    output: seq<byte>,
    reply: Option<Reply>,
    idleCancel: bool,
    logCancel: bool)

  /** What the scheduler and the callers decide at one step. */
  datatype Action =
    | OwnerGo
    | CreateThread(ok: bool)
    | CallCheck
    | CallRelease
    | CopyOut(size: nat)
    | DeadlineTest(expired: bool)          // is there a deadline, and is it not after now?
    | WorkerGo
    | FuncWrites(bytes: seq<byte>)
    | FuncReturns
    | ActOnCancel

  function Init(data: seq<byte>): State {
    State(Idle, 1, data, false, NotCreated, TakeRef, 0, 0, false, [], None, false, false)
  }

  /** put_shared_ptr: the new state, and whether the caller must free the context. */
  function DropRef(s: State): (State, bool) {
    (s.(refcnt := s.refcnt - 1), s.refcnt - 1 == 0)
  }

  function OwnerDrops(s: State, otherwise: OwnerPc): State {
    var (s', last) := DropRef(s);
    s'.(owner := if last then Reclaim else otherwise)
  }

  /** One step of the owner; None when the action does not fit its program counter. */
  function OwnerStep(s: State, a: Action): Option<State> {
    match s.owner
    case TakeRef =>
      if a == OwnerGo then Some(s.(refcnt := s.refcnt + 1, status := Idle, owner := Create)) else None
    case Create =>
      if a == CreateThread(true) then Some(s.(worker := Start, owner := Ready))
      else if a == CreateThread(false) then Some(s.(owner := UndoFirst))
      else None
    case UndoFirst => if a == OwnerGo then Some(OwnerDrops(s, UndoSecond)) else None
    case UndoSecond => if a == OwnerGo then Some(OwnerDrops(s, Gone)) else None
    case Ready =>
      if a == CallCheck then
        Some(match s.status
             case Done => s.(reply := None, owner := Copy)
             case Dead => s.(reply := Some(Reply(Dead, [])))
             case Cancelled => s.(reply := Some(Reply(Cancelled, [])))
             case _ => s.(reply := None, owner := Deadline))
      else if a == CallRelease then Some(s.(owner := SwapRunning(ByRelease, 1, 1)))
      else None
    case Copy =>
      if a.CopyOut? && a.size <= |s.data| then
        Some(s.(reply := Some(Reply(Done, s.data[..a.size])), owner := Ready))
      else None
    case Deadline =>
      if a.DeadlineTest? then
        Some(if a.expired then s.(owner := SwapRunning(ByCheck, 1, 1))
             else s.(reply := Some(Reply(Running, [])), owner := Ready))
      else None
    case SwapRunning(caller, retry, pass) =>
      if a != OwnerGo then None else
      Some(match s.status
           case Idle =>
             if retry > 0 then s.(owner := SwapIdle(caller, pass))
             else s.(owner := Return(caller, Idle))
           case Running => s.(status := Cancelled, owner := Kill(caller))
           case Cancelled => s.(owner := Return(caller, Cancelled))
           case Done => s.(owner := Return(caller, Dead))
           case Dead => s.(owner := Return(caller, Dead)))
    case SwapIdle(caller, pass) =>
      if a != OwnerGo then None
      else if s.status == Idle then
        Some(s.(status := Cancelled, idleCancel := true, owner := Return(caller, Cancelled)))
      else Some(s.(owner := SwapRunning(caller, 0, pass + 1)))
    case Kill(caller) =>
      if a == OwnerGo then Some(s.(killPending := true, owner := SwapDead(caller))) else None
    case SwapDead(caller) =>
      if a == OwnerGo then
        Some(s.(status := if s.status == Cancelled then Dead else s.status,
                owner := Return(caller, Cancelled)))
      else None
    case Return(caller, result) =>
      if a != OwnerGo then None
      else if caller == ByCheck then Some(s.(reply := Some(Reply(result, [])), owner := Ready))
      else Some(s.(owner := PutRef))
    case PutRef => if a == OwnerGo then Some(OwnerDrops(s, Gone)) else None
    case Reclaim => if a == OwnerGo then Some(s.(frees := s.frees + 1, owner := Gone)) else None
    case Gone => None
  }

  /** One step of the worker thread. */
  function WorkerStep(s: State, a: Action): Option<State> {
    match s.worker
    case NotCreated => None
    case Start =>
      if a != WorkerGo then None
      else if s.status == Idle then Some(s.(status := Running, calls := s.calls + 1, worker := InFunc))
      else Some(s.(worker := Cleanup))
    case InFunc =>
      if a.FuncWrites? && |a.bytes| == |s.data| then Some(s.(data := a.bytes))
      else if a == FuncReturns then Some(s.(returned := true, output := s.data, worker := Cleanup))
      else if a == ActOnCancel && s.killPending then Some(s.(worker := Cleanup))
      else None
    case Cleanup =>
      if a != WorkerGo then None
      else if s.status == Running then Some(s.(status := Done, worker := Put))
      else if s.status == Cancelled then Some(s.(worker := Spin))
      else Some(s.(worker := MarkDead(s.status)))
    case Spin =>
      if a != WorkerGo then None
      else if s.status == Cancelled then Some(s)
      else Some(s.(worker := MarkDead(Cancelled)))
    case MarkDead(seen) =>
      if a == WorkerGo then
        Some(s.(status := if s.status == seen then Dead else s.status, worker := Log))
      else None
    // The handler was popped if the function returned: a cancellation acted on here skips the rest of it.
    case Log =>
      if a == WorkerGo then Some(s.(worker := Put))
      else if a == ActOnCancel && s.killPending && s.returned then Some(s.(logCancel := true, worker := Exited))
      else None
    case Put =>
      if a != WorkerGo then None else
      var (s', last) := DropRef(s);
      Some(s'.(worker := if last then Free else Exited))
    case Free => if a == WorkerGo then Some(s.(frees := s.frees + 1, worker := Exited)) else None
    case Exited => None
  }

  predicate IsWorkerAction(a: Action) {
    a.WorkerGo? || a.FuncWrites? || a.FuncReturns? || a.ActOnCancel?
  }

  function Step(s: State, a: Action): Option<State> {
    if IsWorkerAction(a) then WorkerStep(s, a) else OwnerStep(s, a)
  }

  /** The state after a schedule; None when some action was not enabled. */
  function Run(s: State, schedule: seq<Action>): Option<State>
    decreases |schedule|
  {
    if schedule == [] then Some(s) else
    var n := |schedule| - 1;
    match Run(s, schedule[..n])
    case None => None
    case Some(m) => Step(m, schedule[n])
  }

  /** `s` is reachable from a fresh context holding some data. */
  ghost predicate Reachable(s: State) {
    exists data, schedule :: Run(Init(data), schedule) == Some(s)
  }

  /** Does the step that `a` stands for read or write the shared context? */
  predicate Touches(s: State, a: Action) {
    if IsWorkerAction(a) then !s.worker.NotCreated? && !s.worker.Exited?
    else !s.owner.Gone?
  }

  // ---------------------------------------------------------------- invariant

  function OwnerRefs(pc: OwnerPc): int {
    match pc
    case TakeRef => 1
    case Create => 2
    case UndoFirst => 2
    case UndoSecond => 1
    case Reclaim => 0
    case Gone => 0
    case _ => 1
  }

  function WorkerRefs(pc: WorkerPc): int {
    if pc.NotCreated? || pc.Free? || pc.Exited? then 0 else 1
  }

  /** The count is the number of references held or lost, and memory is freed by whoever dropped the last. */
  predicate CountInv(s: State) {
    && s.refcnt == OwnerRefs(s.owner) + WorkerRefs(s.worker) + (if s.logCancel then 1 else 0)
    && (s.logCancel ==> s.worker.Exited? && s.killPending && s.returned)
    && s.frees + (if s.owner.Reclaim? then 1 else 0) + (if s.worker.Free? then 1 else 0)
       == (if s.refcnt == 0 then 1 else 0)
  }

  predicate WorkerInv(s: State) {
    match s.worker
    case NotCreated => s.calls == 0 && !s.returned && s.status == Idle && !s.killPending && !s.idleCancel
    case Start => s.calls == 0 && !s.returned && !s.killPending && s.status == if s.idleCancel then Cancelled else Idle
    case InFunc =>
      s.calls == 1 && !s.returned && !s.idleCancel && (s.status == Running || s.status == Cancelled || s.status == Dead)
    case Cleanup =>
      if s.idleCancel then s.calls == 0 && !s.returned && !s.killPending && s.status == Cancelled
      else s.calls == 1 &&
           if s.returned then (s.status == Running || s.status == Cancelled || s.status == Dead) && s.data == s.output
           else s.killPending && (s.status == Cancelled || s.status == Dead)
    case Spin =>
      && (s.status == Cancelled || s.status == Dead) && s.calls <= 1
      && (s.idleCancel ==> s.status == Cancelled && s.calls == 0)
    case MarkDead(seen) => s.status == Dead && (seen == Cancelled || seen == Dead) && !s.idleCancel && s.calls <= 1
    case Log => s.status == Dead && !s.idleCancel && s.calls <= 1
    case _ =>
      && !s.idleCancel && s.calls <= 1
      && (s.status == Dead || (s.status == Done && s.returned && s.calls == 1 && s.data == s.output))
  }

  predicate OwnerInv(s: State) {
    && (s.owner.TakeRef? || s.owner.Create? || s.owner.UndoFirst? || s.owner.UndoSecond? ==> s.worker.NotCreated?)
    && (s.worker.NotCreated? ==>
         s.owner.TakeRef? || s.owner.Create? || s.owner.UndoFirst? || s.owner.UndoSecond? || s.owner.Reclaim? ||
         s.owner.Gone?)
    && OwnerPcInv(s)
    && (s.status == Cancelled && !s.idleCancel ==> s.owner.Kill? || s.owner.SwapDead?)
    && (s.killPending ==> s.status == Cancelled || s.status == Dead)
  }

  predicate OwnerPcInv(s: State) {
    match s.owner
    case Copy => s.status == Done
    case Deadline => (s.status == Idle || s.status == Running || s.status == Done)
    case SwapRunning(_, retry, pass) =>
      retry <= 1 && pass == 2 - retry && (retry == 0 ==> (s.status == Running || s.status == Done))
    case SwapIdle(_, pass) => pass == 1 && (s.status == Idle || s.status == Running || s.status == Done)
    case Kill(_) => s.status == Cancelled && !s.idleCancel && !s.killPending
    case SwapDead(_) => s.status == Cancelled && !s.idleCancel
    case Return(_, result) => (result == Cancelled || result == Dead) && s.status != Idle && s.status != Running
    case PutRef => s.status != Idle && s.status != Running
    case Gone => s.worker.NotCreated? || (s.status != Idle && s.status != Running)
    case Reclaim => s.worker.NotCreated? || (s.status != Idle && s.status != Running)
    case _ => true
  }

  /** Bytes copied out are a prefix of what the function left behind. */
  predicate CopyInv(s: State) {
    s.reply.Some? && s.reply.value.status == Done ==> s.status == Done && s.reply.value.bytes <= s.output
  }

  predicate Inv(s: State) {
    CountInv(s) && WorkerInv(s) && OwnerInv(s) && CopyInv(s)
  }

  lemma SetupKeepsInv(s: State, a: Action)
    requires Inv(s) && OwnerStep(s, a).Some?
    requires s.owner.TakeRef? || s.owner.Create? || s.owner.UndoFirst? || s.owner.UndoSecond?
    ensures Inv(OwnerStep(s, a).value)
  {
  }

  lemma CallKeepsInv(s: State, a: Action)
    requires Inv(s) && OwnerStep(s, a).Some?
    requires s.owner.Ready?
    ensures Inv(OwnerStep(s, a).value)
  {
    if a == CallRelease {
      CallReleaseKeepsInv(s);
    } else {
      CallCheckKeepsInv(s);
    }
  }

  lemma CallReleaseKeepsInv(s: State)
    requires Inv(s) && s.owner.Ready?
    ensures Inv(s.(owner := SwapRunning(ByRelease, 1, 1)))
  {
  }

  lemma CallCheckKeepsInv(s: State)
    requires Inv(s) && s.owner.Ready?
    ensures s.status == Done ==> Inv(s.(reply := None, owner := Copy))
    ensures s.status == Dead || s.status == Cancelled ==> Inv(s.(reply := Some(Reply(s.status, []))))
    ensures s.status == Idle || s.status == Running ==> Inv(s.(reply := None, owner := Deadline))
  {
  }

  lemma CopyKeepsInv(s: State, a: Action)
    requires Inv(s) && OwnerStep(s, a).Some?
    requires s.owner.Copy?
    ensures Inv(OwnerStep(s, a).value)
  {
  }

  lemma DeadlineKeepsInv(s: State, a: Action)
    requires Inv(s) && OwnerStep(s, a).Some?
    requires s.owner.Deadline?
    ensures Inv(OwnerStep(s, a).value)
  {
    if a.expired {
      ExpiredKeepsInv(s);
    } else {
      InTimeKeepsInv(s);
    }
  }

  lemma ExpiredKeepsInv(s: State)
    requires Inv(s) && s.owner.Deadline?
    ensures Inv(s.(owner := SwapRunning(ByCheck, 1, 1)))
  {
  }

  lemma InTimeKeepsInv(s: State)
    requires Inv(s) && s.owner.Deadline?
    ensures Inv(s.(reply := Some(Reply(Running, [])), owner := Ready))
  {
  }

  lemma ReturnKeepsInv(s: State, a: Action)
    requires Inv(s) && OwnerStep(s, a).Some?
    requires s.owner.Return?
    ensures Inv(OwnerStep(s, a).value)
  {
    if s.owner.caller == ByCheck {
      ReplyKeepsInv(s, Reply(s.owner.result, []));
    }
  }

  lemma ReplyKeepsInv(s: State, r: Reply)
    requires Inv(s) && s.owner.Return? && r.status != Done
    ensures Inv(s.(reply := Some(r), owner := Ready))
  {
  }

  lemma SwapRunningHitsKeepsInv(s: State, a: Action)
    requires Inv(s) && OwnerStep(s, a).Some?
    requires s.owner.SwapRunning? && s.status == Running
    ensures Inv(OwnerStep(s, a).value)
  {
  }

  lemma SwapRunningMissesKeepsInv(s: State, a: Action)
    requires Inv(s) && OwnerStep(s, a).Some?
    requires s.owner.SwapRunning? && s.status != Running
    ensures Inv(OwnerStep(s, a).value)
  {
  }

  lemma SwapRunningKeepsInv(s: State, a: Action)
    requires Inv(s) && OwnerStep(s, a).Some?
    requires s.owner.SwapRunning?
    ensures Inv(OwnerStep(s, a).value)
  {
    if s.status == Running {
      SwapRunningHitsKeepsInv(s, a);
    } else {
      SwapRunningMissesKeepsInv(s, a);
    }
  }

  lemma SwapIdleKeepsInv(s: State, a: Action)
    requires Inv(s) && OwnerStep(s, a).Some?
    requires s.owner.SwapIdle?
    ensures Inv(OwnerStep(s, a).value)
  {
  }

  lemma KillKeepsInv(s: State, a: Action)
    requires Inv(s) && OwnerStep(s, a).Some?
    requires s.owner.Kill? || s.owner.SwapDead?
    ensures Inv(OwnerStep(s, a).value)
  {
  }

  lemma LeaveKeepsInv(s: State, a: Action)
    requires Inv(s) && OwnerStep(s, a).Some?
    requires s.owner.PutRef? || s.owner.Reclaim?
    ensures Inv(OwnerStep(s, a).value)
  {
  }

  lemma BodyKeepsInv(s: State, a: Action)
    requires Inv(s) && WorkerStep(s, a).Some?
    requires s.worker.Start? || s.worker.InFunc?
    ensures Inv(WorkerStep(s, a).value)
  {
  }

  lemma CleanupKeepsInv(s: State, a: Action)
    requires Inv(s) && WorkerStep(s, a).Some?
    requires s.worker.Cleanup? || s.worker.Spin? || s.worker.MarkDead? || s.worker.Log?
    ensures Inv(WorkerStep(s, a).value)
  {
  }

  lemma ExitKeepsInv(s: State, a: Action)
    requires Inv(s) && WorkerStep(s, a).Some?
    requires s.worker.Put? || s.worker.Free?
    ensures Inv(WorkerStep(s, a).value)
  {
  }

  lemma StepKeepsInv(s: State, a: Action)
    requires Inv(s) && Step(s, a).Some?
    ensures Inv(Step(s, a).value)
  {
    if IsWorkerAction(a) {
      match s.worker {
        case Start => BodyKeepsInv(s, a);
        case InFunc => BodyKeepsInv(s, a);
        case Put => ExitKeepsInv(s, a);
        case Free => ExitKeepsInv(s, a);
        case _ => CleanupKeepsInv(s, a);
      }
    } else {
      match s.owner {
        case Ready => CallKeepsInv(s, a);
        case Copy => CopyKeepsInv(s, a);
        case Deadline => DeadlineKeepsInv(s, a);
        case SwapRunning(_, _, _) => SwapRunningKeepsInv(s, a);
        case SwapIdle(_, _) => SwapIdleKeepsInv(s, a);
        case Kill(_) => KillKeepsInv(s, a);
        case SwapDead(_) => KillKeepsInv(s, a);
        case Return(_, _) => ReturnKeepsInv(s, a);
        case PutRef => LeaveKeepsInv(s, a);
        case Reclaim => LeaveKeepsInv(s, a);
        case _ => SetupKeepsInv(s, a);
      }
    }
  }

  lemma {:induction false} RunKeepsInv(s: State, schedule: seq<Action>)
    requires Inv(s) && Run(s, schedule).Some?
    ensures Inv(Run(s, schedule).value)
    decreases |schedule|
  {
    if schedule != [] {
      var n := |schedule| - 1;
      RunKeepsInv(s, schedule[..n]);
      StepKeepsInv(Run(s, schedule[..n]).value, schedule[n]);
    }
  }

  lemma {:induction false} ReachableInv(s: State)
    requires Reachable(s)
    ensures Inv(s)
  {
    var data, schedule :| Run(Init(data), schedule) == Some(s);
    RunKeepsInv(Init(data), schedule);
  }

  // ---------------------------------------------------------------- theorems

  /**
    In every interleaving the context is freed at most once, only after both sides dropped
    their reference, and no step that is still possible touches it afterwards.
   */
  lemma {:induction false} FreedOnceAndNeverTouchedAgain(s: State)
    requires Reachable(s)
    ensures s.frees <= 1
    ensures s.frees == 1 ==> s.refcnt == 0 && s.owner.Gone? && (s.worker.Exited? || s.worker.NotCreated?)
    ensures forall a :: Touches(s, a) ==> s.frees == 0
  {
    ReachableInv(s);
  }

  /**
    pthread_cancel hits only a thread that is still inside its function or cleanup_context, the
    swap after it finds Cancelled, and cancel_runner needs at most two passes and returns
    Cancelled or Dead only.
   */
  lemma {:induction false} CancelTargetsLiveThread(s: State)
    requires Reachable(s)
    ensures s.owner.Kill? ==> s.worker.InFunc? || s.worker.Cleanup? || s.worker.Spin?
    ensures s.owner.SwapDead? ==> s.status == Cancelled
    ensures s.owner.SwapRunning? ==> s.owner.pass <= 2
    ensures s.owner.Return? ==> s.owner.result == Cancelled || s.owner.result == Dead
    ensures s.owner.Return? ==> s.status != Idle && s.status != Running
  {
    ReachableInv(s);
  }

  /**
    The function runs at most once; what check_runner copies are bytes of its final output,
    taken after it returned.
   */
  lemma {:induction false} CopiedDataIsFinal(s: State)
    requires Reachable(s)
    ensures s.calls <= 1
    ensures s.owner.Copy? ==> s.returned && s.calls == 1 && s.data == s.output
    ensures s.reply.Some? && s.reply.value.status == Done ==>
            s.returned && s.reply.value.bytes <= s.output && s.output == s.data
  {
    ReachableInv(s);
  }

  // ------------------------------------------------- whom check_runner cancels, and what it answers

  /** Nobody has started to cancel: the worker is on its regular way. */
  predicate Undisturbed(s: State) {
    && (s.owner.TakeRef? || s.owner.Create? || s.owner.UndoFirst? || s.owner.UndoSecond? || s.owner.Ready? ||
        s.owner.Copy? || s.owner.Deadline? || s.owner.Reclaim? || s.owner.Gone?)
    && !s.killPending && !s.idleCancel && !s.logCancel
    && match s.worker
       case NotCreated => s.status == Idle
       case Start => s.status == Idle
       case InFunc => s.status == Running
       case Cleanup => s.status == Running
       case Put => s.status == Done
       case Free => s.status == Done
       case Exited => s.status == Done
       case _ => false
  }

  /** An action that can start a cancellation. */
  predicate Cancels(a: Action) { a.CallRelease? || (a.DeadlineTest? && a.expired) }

  lemma UndisturbedOwner(s: State, a: Action)
    requires OwnerInv(s) && Undisturbed(s) && !Cancels(a) && OwnerStep(s, a).Some?
    ensures Undisturbed(OwnerStep(s, a).value)
  {
  }

  lemma UndisturbedWorker(s: State, a: Action)
    requires Undisturbed(s) && WorkerStep(s, a).Some?
    ensures Undisturbed(WorkerStep(s, a).value)
  {
  }

  lemma {:induction false} UndisturbedRun(s: State, more: seq<Action>)
    requires Inv(s) && Undisturbed(s) && (forall a | a in more :: !Cancels(a)) && Run(s, more).Some?
    ensures Undisturbed(Run(s, more).value)
    decreases |more|
  {
    if more != [] {
      var n := |more| - 1;
      UndisturbedRun(s, more[..n]);
      RunKeepsInv(s, more[..n]);
      var m := Run(s, more[..n]).value;
      if IsWorkerAction(more[n]) {
        UndisturbedWorker(m, more[n]);
      } else {
        UndisturbedOwner(m, more[n]);
      }
    }
  }

  /**
    A runner that is neither released nor found behind its deadline is not cancelled in any run,
    however often it is checked: its function runs to the end, and then the status is Done.
   */
  lemma {:induction false} NotCancelledInTime(data: seq<byte>, schedule: seq<Action>)
    requires (forall a | a in schedule :: !Cancels(a)) && Run(Init(data), schedule).Some?
    ensures var s := Run(Init(data), schedule).value;
            s.status != Cancelled && s.status != Dead && !s.killPending &&
            (s.worker.Exited? ==> s.status == Done && s.returned)
  {
    UndisturbedRun(Init(data), schedule);
    RunKeepsInv(Init(data), schedule);
  }

  /** Inside cancel_runner. */
  predicate Cancelling(pc: OwnerPc, caller: Caller) {
    match pc
    case SwapRunning(c, _, _) => c == caller
    case SwapIdle(c, _) => c == caller
    case Kill(c) => c == caller
    case SwapDead(c) => c == caller
    case _ => false
  }

  /** Cancelling has begun for a check, or there is nothing left to cancel. */
  predicate Ending(s: State) { Cancelling(s.owner, ByCheck) || (s.status != Idle && s.status != Running) }

  lemma EndingStep(s: State, a: Action)
    requires Inv(s) && Ending(s) && Step(s, a).Some?
    ensures Ending(Step(s, a).value)
  {
    if s.status != Idle && s.status != Running {
      StepOrder(s, a);
    } else if IsWorkerAction(a) {
      WorkerLeavesOwner(s, a);
    } else {
      EndingOwner(s, a);
    }
  }

  lemma WorkerLeavesOwner(s: State, a: Action)
    requires WorkerStep(s, a).Some?
    ensures WorkerStep(s, a).value.owner == s.owner && WorkerStep(s, a).value.reply == s.reply
  {
  }

  lemma EndingOwner(s: State, a: Action)
    requires OwnerPcInv(s) && Ending(s) && (s.status == Idle || s.status == Running) && OwnerStep(s, a).Some?
    ensures Ending(OwnerStep(s, a).value)
  {
  }

  lemma {:induction false} EndingRun(s: State, more: seq<Action>)
    requires Inv(s) && Ending(s) && Run(s, more).Some?
    ensures Ending(Run(s, more).value)
    decreases |more|
  {
    if more != [] {
      var n := |more| - 1;
      EndingRun(s, more[..n]);
      RunKeepsInv(s, more[..n]);
      EndingStep(Run(s, more[..n]).value, more[n]);
    }
  }

  /** Once a check finds the deadline passed, the runner is over when that check returns, and from then on. */
  lemma {:induction false} ExpiredIsEnded(s: State, t: State, more: seq<Action>)
    requires Reachable(s) && s.owner.Deadline? && Step(s, DeadlineTest(true)) == Some(t) && Run(t, more).Some?
    ensures var u := Run(t, more).value;
            u.owner.Ready? || u.owner.Gone? ==> u.status == Done || u.status == Cancelled || u.status == Dead
  {
    ReachableInv(s);
    StepKeepsInv(s, DeadlineTest(true));
    EndingRun(t, more);
  }

  /** What a check that found status `seen` answers, given whether it found the deadline passed. */
  predicate Answers(seen: Status, expired: bool, reply: Option<Reply>) {
    reply.Some? &&
    match seen
    case Done => reply.value.status == Done
    case Dead => reply.value == Reply(Dead, [])
    case Cancelled => reply.value == Reply(Cancelled, [])
    case _ =>
      if expired then reply.value == Reply(Cancelled, []) || reply.value == Reply(Dead, [])
      else reply.value == Reply(Running, [])
  }

  /** How far a check has come that found status `seen`. */
  predicate Checking(seen: Status, expired: bool, pc: OwnerPc, reply: Option<Reply>) {
    match pc
    case Ready => Answers(seen, expired, reply)
    case Copy => seen == Done && !expired
    case Deadline => (seen == Idle || seen == Running) && !expired
    case Return(caller, _) => caller == ByCheck && (seen == Idle || seen == Running) && expired
    case _ => Cancelling(pc, ByCheck) && (seen == Idle || seen == Running) && expired
  }

  predicate IsCall(a: Action) { a.CallCheck? || a.CallRelease? }

  lemma CheckingFirst(seen: Status, expired: bool, s: State, a: Action)
    requires s.owner.Ready? || s.owner.Copy? || s.owner.Deadline?
    requires Checking(seen, expired, s.owner, s.reply) && !IsCall(a) && OwnerStep(s, a).Some?
    ensures var t := OwnerStep(s, a).value; Checking(seen, expired || a == DeadlineTest(true), t.owner, t.reply)
  {
  }

  lemma CheckingSwap(seen: Status, s: State, a: Action)
    requires s.owner.SwapRunning? || s.owner.SwapIdle?
    requires Checking(seen, true, s.owner, s.reply) && OwnerStep(s, a).Some?
    ensures var t := OwnerStep(s, a).value; Checking(seen, true, t.owner, t.reply)
  {
  }

  lemma CheckingKill(seen: Status, s: State, a: Action)
    requires s.owner.Kill? || s.owner.SwapDead?
    requires Checking(seen, true, s.owner, s.reply) && OwnerStep(s, a).Some?
    ensures var t := OwnerStep(s, a).value; Checking(seen, true, t.owner, t.reply)
  {
  }

  lemma CheckingReturn(seen: Status, s: State, a: Action)
    requires s.owner.Return? && OwnerPcInv(s)
    requires Checking(seen, true, s.owner, s.reply) && OwnerStep(s, a).Some?
    ensures var t := OwnerStep(s, a).value; Checking(seen, true, t.owner, t.reply)
  {
  }

  lemma CheckingStep(seen: Status, expired: bool, s: State, a: Action)
    requires Inv(s) && Checking(seen, expired, s.owner, s.reply) && !IsCall(a) && Step(s, a).Some?
    ensures var t := Step(s, a).value; Checking(seen, expired || a == DeadlineTest(true), t.owner, t.reply)
  {
    if IsWorkerAction(a) {
      WorkerLeavesOwner(s, a);
    } else if s.owner.Ready? || s.owner.Copy? || s.owner.Deadline? {
      CheckingFirst(seen, expired, s, a);
    } else if s.owner.SwapRunning? || s.owner.SwapIdle? {
      CheckingSwap(seen, s, a);
    } else if s.owner.Return? {
      CheckingReturn(seen, s, a);
    } else {
      CheckingKill(seen, s, a);
    }
  }

  lemma {:induction false} CheckingRun(seen: Status, s: State, more: seq<Action>)
    requires Inv(s) && Checking(seen, false, s.owner, s.reply)
    requires (forall a | a in more :: !IsCall(a)) && Run(s, more).Some?
    ensures var t := Run(s, more).value; Checking(seen, DeadlineTest(true) in more, t.owner, t.reply)
    decreases |more|
  {
    if more != [] {
      var n := |more| - 1;
      var front, a := more[..n], more[n];
      assert more == front + [a];
      CheckingRun(seen, s, front);
      RunKeepsInv(s, front);
      CheckingStep(seen, DeadlineTest(true) in front, Run(s, front).value, a);
    }
  }

  /**
    In every run of one check call: a finished runner's status is returned, a live one that is in time
    is reported as Running, and one behind its deadline as Cancelled or Dead.
   */
  lemma {:induction false} CheckAnswers(s: State, t: State, more: seq<Action>)
    requires Reachable(s) && s.owner.Ready? && Step(s, CallCheck) == Some(t)
    requires (forall a | a in more :: !IsCall(a)) && Run(t, more).Some? && Run(t, more).value.owner.Ready?
    ensures Answers(s.status, DeadlineTest(true) in more, Run(t, more).value.reply)
    ensures s.status == Done ==> HandedBack(Run(t, more).value, more)
  {
    ReachableInv(s);
    StepKeepsInv(s, CallCheck);
    if s.status == Done {
      CopyRun(t, more);
    }
    CheckingRun(s.status, t, more);
  }

  /** What a check that found the deadline passed answers: Dead if the function was done after all. */
  function Verdict(s: State): Status { if s.status == Done then Dead else Cancelled }

  /** A check that found the deadline passed: the status it will answer is the one it leaves. */
  predicate Expiring(s: State) {
    match s.owner
    case SwapRunning(c, _, _) => c == ByCheck && (s.status == Idle || s.status == Running || s.status == Done)
    case SwapIdle(c, _) => c == ByCheck && (s.status == Idle || s.status == Running || s.status == Done)
    case Kill(c) => c == ByCheck && (s.status == Cancelled || s.status == Dead)
    case SwapDead(c) => c == ByCheck && (s.status == Cancelled || s.status == Dead)
    case Return(c, result) => c == ByCheck && s.status != Idle && s.status != Running && result == Verdict(s)
    case Ready => s.status != Idle && s.status != Running && s.reply == Some(Reply(Verdict(s), []))
    case _ => false
  }

  lemma ExpiringSwap(s: State, a: Action)
    requires s.owner.SwapRunning? || s.owner.SwapIdle?
    requires OwnerPcInv(s) && Expiring(s) && !IsCall(a) && OwnerStep(s, a).Some?
    ensures Expiring(OwnerStep(s, a).value)
  {
  }

  lemma ExpiringKill(s: State, a: Action)
    requires s.owner.Kill? || s.owner.SwapDead?
    requires OwnerPcInv(s) && Expiring(s) && !IsCall(a) && OwnerStep(s, a).Some?
    ensures Expiring(OwnerStep(s, a).value)
  {
  }

  lemma ExpiringReturn(s: State, a: Action)
    requires s.owner.Return? || s.owner.Ready?
    requires OwnerPcInv(s) && Expiring(s) && !IsCall(a) && OwnerStep(s, a).Some?
    ensures Expiring(OwnerStep(s, a).value)
  {
  }

  lemma ExpiringOwner(s: State, a: Action)
    requires OwnerPcInv(s) && Expiring(s) && !IsCall(a) && OwnerStep(s, a).Some?
    ensures Expiring(OwnerStep(s, a).value)
  {
    if s.owner.SwapRunning? || s.owner.SwapIdle? {
      ExpiringSwap(s, a);
    } else if s.owner.Return? || s.owner.Ready? {
      ExpiringReturn(s, a);
    } else {
      ExpiringKill(s, a);
    }
  }

  lemma ExpiringWorker(s: State, a: Action)
    requires Inv(s) && Expiring(s) && WorkerStep(s, a).Some?
    ensures Expiring(WorkerStep(s, a).value)
  {
    WorkerLeavesOwner(s, a);
  }

  /** In every run of a check that finds the deadline passed: Dead if the function was done, else Cancelled. */
  lemma {:induction false} ExpiredAnswers(s: State, t: State, more: seq<Action>)
    requires Reachable(s) && s.owner.Deadline? && Step(s, DeadlineTest(true)) == Some(t)
    requires (forall a | a in more :: !IsCall(a)) && Run(t, more).Some?
    ensures Run(t, more).value.owner.Ready? ==>
              Run(t, more).value.reply == Some(Reply(if Run(t, more).value.status == Done then Dead else Cancelled, []))
  {
    ReachableInv(s);
    StepKeepsInv(s, DeadlineTest(true));
    ExpiringRun(t, more);
  }

  lemma {:induction false} ExpiringRun(s: State, more: seq<Action>)
    requires Inv(s) && Expiring(s) && (forall a | a in more :: !IsCall(a)) && Run(s, more).Some?
    ensures Expiring(Run(s, more).value)
    decreases |more|
  {
    if more != [] {
      var n := |more| - 1;
      ExpiringRun(s, more[..n]);
      RunKeepsInv(s, more[..n]);
      var u := Run(s, more[..n]).value;
      if IsWorkerAction(more[n]) {
        ExpiringWorker(u, more[n]);
      } else {
        ExpiringOwner(u, more[n]);
      }
    }
  }

  /** The bytes handed back are as many of the function's final output as were asked for. */
  ghost predicate HandedBack(s: State, more: seq<Action>) {
    s.returned && exists n: nat :: CopyOut(n) in more && n <= |s.output| && s.reply == Some(Reply(Done, s.output[..n]))
  }

  /** Handing back has still to happen, or has happened. */
  ghost predicate Copying(s: State, more: seq<Action>) {
    s.owner.Copy? || (s.owner.Ready? && s.status == Done && HandedBack(s, more))
  }

  lemma HandedOn(s: State, t: State, a: Action, front: seq<Action>, more: seq<Action>)
    requires HandedBack(s, front) && more == front + [a] && t.reply == s.reply && t.output == s.output
    requires s.returned ==> t.returned
    ensures HandedBack(t, more)
  {
    var n: nat :| CopyOut(n) in front && n <= |s.output| && s.reply == Some(Reply(Done, s.output[..n]));
    assert CopyOut(n) in more;
  }

  lemma CopyStep(s: State, t: State, a: Action, front: seq<Action>, more: seq<Action>)
    requires Inv(s) && !IsCall(a) && Step(s, a) == Some(t) && more == front + [a] && Copying(s, front)
    ensures Copying(t, more)
  {
    StepOrder(s, a);
    if IsWorkerAction(a) {
      WorkerLeavesOwner(s, a);
      if s.owner.Ready? {
        HandedOn(s, t, a, front, more);
      }
    } else if a.CopyOut? {
      assert CopyOut(a.size) in more;
    }
  }

  lemma {:induction false} CopyRun(s: State, more: seq<Action>)
    requires Inv(s) && s.owner.Copy? && (forall a | a in more :: !IsCall(a)) && Run(s, more).Some?
    ensures Copying(Run(s, more).value, more)
    decreases |more|
  {
    if more != [] {
      var n := |more| - 1;
      var front, a := more[..n], more[n];
      assert more == front + [a];
      CopyRun(s, front);
      RunKeepsInv(s, front);
      CopyStep(Run(s, front).value, Run(s, more).value, a, front, more);
    }
  }

  /** A check of a finished runner hands back as many bytes of the function's final output as asked for. */
  lemma {:induction false} CheckHandsBack(s: State, size: nat)
    requires Reachable(s) && s.owner.Copy? && size <= |s.output|
    ensures s.returned && var t := Step(s, CopyOut(size));
            t.Some? && t.value.owner.Ready? && t.value.reply == Some(Reply(Done, s.output[..size]))
  {
    ReachableInv(s);
  }

  // ------------------------------------------------- the owner's calls come to an end

  /** Steps that a call of the owner still has to take. */
  function OwnerRemaining(pc: OwnerPc): nat {
    match pc
    case Copy => 1
    case Deadline => 10
    case SwapRunning(_, retry, _) => if retry > 0 then 9 else 7
    case SwapIdle(_, _) => 8
    case Kill(_) => 6
    case SwapDead(_) => 5
    case Return(_, _) => 4
    case PutRef => 3
    case Reclaim => 2
    case _ => 0
  }

  function OwnerSteps(schedule: seq<Action>): nat {
    if schedule == [] then 0
    else
      var n := |schedule| - 1;
      OwnerSteps(schedule[..n]) + if IsWorkerAction(schedule[n]) then 0 else 1
  }

  /** Inside release_runner, or behind it. */
  predicate Releasing(pc: OwnerPc) {
    match pc
    case Return(caller, _) => caller == ByRelease
    case PutRef => true
    case Reclaim => true
    case Gone => true
    case _ => Cancelling(pc, ByRelease)
  }

  lemma ReleasingSwap(s: State, a: Action)
    requires OwnerPcInv(s) && Releasing(s.owner) && s.owner.SwapRunning? && OwnerStep(s, a).Some?
    ensures var t := OwnerStep(s, a).value; Releasing(t.owner) && OwnerRemaining(t.owner) < OwnerRemaining(s.owner)
  {
  }

  lemma ReleasingSwapIdle(s: State, a: Action)
    requires OwnerPcInv(s) && Releasing(s.owner) && s.owner.SwapIdle? && OwnerStep(s, a).Some?
    ensures var t := OwnerStep(s, a).value; Releasing(t.owner) && OwnerRemaining(t.owner) < OwnerRemaining(s.owner)
  {
  }

  lemma ReleasingKill(s: State, a: Action)
    requires Releasing(s.owner) && (s.owner.Kill? || s.owner.SwapDead?) && OwnerStep(s, a).Some?
    ensures var t := OwnerStep(s, a).value; Releasing(t.owner) && OwnerRemaining(t.owner) < OwnerRemaining(s.owner)
  {
  }

  lemma ReleasingRest(s: State, a: Action)
    requires Releasing(s.owner) && (s.owner.Return? || s.owner.PutRef? || s.owner.Reclaim?) && OwnerStep(s, a).Some?
    ensures var t := OwnerStep(s, a).value; Releasing(t.owner) && OwnerRemaining(t.owner) < OwnerRemaining(s.owner)
  {
  }

  lemma ReleasingStep(s: State, a: Action)
    requires Inv(s) && Releasing(s.owner) && Step(s, a).Some?
    ensures var t := Step(s, a).value;
            Releasing(t.owner) &&
            OwnerRemaining(t.owner) + (if IsWorkerAction(a) then 0 else 1) <= OwnerRemaining(s.owner)
  {
    if IsWorkerAction(a) {
      WorkerLeavesOwner(s, a);
    } else if s.owner.SwapRunning? {
      ReleasingSwap(s, a);
    } else if s.owner.SwapIdle? {
      ReleasingSwapIdle(s, a);
    } else if s.owner.Kill? || s.owner.SwapDead? {
      ReleasingKill(s, a);
    } else {
      ReleasingRest(s, a);
    }
  }

  lemma {:induction false} ReleasingRun(s: State, more: seq<Action>)
    requires Inv(s) && Releasing(s.owner) && Run(s, more).Some?
    ensures var t := Run(s, more).value;
            Releasing(t.owner) && OwnerSteps(more) + OwnerRemaining(t.owner) <= OwnerRemaining(s.owner)
    decreases |more|
  {
    if more != [] {
      var n := |more| - 1;
      ReleasingRun(s, more[..n]);
      RunKeepsInv(s, more[..n]);
      ReleasingStep(Run(s, more[..n]).value, more[n]);
    }
  }

  /**
    release_runner never waits for the worker: in every run from the call on the owner takes at most
    nine steps, can always take the next one, and ends with its reference dropped.
   */
  lemma {:induction false} ReleaseReturns(s: State, t: State, more: seq<Action>)
    requires Reachable(s) && s.owner.Ready? && Step(s, CallRelease) == Some(t) && Run(t, more).Some?
    ensures OwnerSteps(more) <= 9
    ensures var u := Run(t, more).value; u.owner.Gone? || Step(u, OwnerGo).Some?
  {
    ReachableInv(s);
    StepKeepsInv(s, CallRelease);
    ReleasingRun(t, more);
  }

  // ------------------------------------------------- the status only moves forward

  /** Done and Dead are final, and a cancelled runner can only become Dead. */
  predicate MayFollow(before: Status, after: Status) {
    match before
    case Done => after == Done
    case Dead => after == Dead
    case Cancelled => after == Cancelled || after == Dead
    case Running => after != Idle
    case Idle => true
  }

  lemma OwnerOrder(s: State, a: Action)
    requires Inv(s) && OwnerStep(s, a).Some?
    ensures var t := OwnerStep(s, a).value;
            MayFollow(s.status, t.status) && (s.returned ==> t.returned && t.output == s.output)
  {
    if s.owner.SwapRunning? || s.owner.SwapIdle? {
      SwapOrder(s, a);
    } else {
      OtherOrder(s, a);
    }
  }

  lemma SwapOrder(s: State, a: Action)
    requires Inv(s) && OwnerStep(s, a).Some? && (s.owner.SwapRunning? || s.owner.SwapIdle?)
    ensures var t := OwnerStep(s, a).value;
            MayFollow(s.status, t.status) && (s.returned ==> t.returned && t.output == s.output)
  {
  }

  lemma OtherOrder(s: State, a: Action)
    requires Inv(s) && OwnerStep(s, a).Some? && !s.owner.SwapRunning? && !s.owner.SwapIdle?
    ensures var t := OwnerStep(s, a).value;
            MayFollow(s.status, t.status) && (s.returned ==> t.returned && t.output == s.output)
  {
  }

  lemma WorkerOrder(s: State, a: Action)
    requires Inv(s) && WorkerStep(s, a).Some?
    ensures var t := WorkerStep(s, a).value;
            MayFollow(s.status, t.status) && (s.returned ==> t.returned && t.output == s.output)
  {
  }

  lemma StepOrder(s: State, a: Action)
    requires Inv(s) && Step(s, a).Some?
    ensures MayFollow(s.status, Step(s, a).value.status)
    ensures s.returned ==> Step(s, a).value.returned && Step(s, a).value.output == s.output
  {
    if IsWorkerAction(a) {
      WorkerOrder(s, a);
    } else {
      OwnerOrder(s, a);
    }
  }

  /** Over any continuation of any run the status only moves forward. */
  lemma {:induction false} StatusIsMonotone(s: State, more: seq<Action>)
    requires Reachable(s) && Run(s, more).Some?
    ensures MayFollow(s.status, Run(s, more).value.status)
    ensures s.returned ==> Run(s, more).value.output == s.output
  {
    ReachableInv(s);
    StatusIsMonotoneFrom(s, more);
  }

  lemma {:induction false} StatusIsMonotoneFrom(s: State, more: seq<Action>)
    requires Inv(s) && Run(s, more).Some?
    ensures MayFollow(s.status, Run(s, more).value.status)
    ensures s.returned ==> Run(s, more).value.returned && Run(s, more).value.output == s.output
    decreases |more|
  {
    if more != [] {
      var n := |more| - 1;
      StatusIsMonotoneFrom(s, more[..n]);
      RunKeepsInv(s, more[..n]);
      StepOrder(Run(s, more[..n]).value, more[n]);
    }
  }

  // ------------------------------------------------- is the context ever freed?

  /** The worker waits for a status change that nobody will make. */
  predicate Stuck(s: State) {
    s.owner.Gone? && s.worker.Spin? && s.status == Cancelled
  }

  /** The owner has released the runner and the thread can do nothing but wait or has ended. */
  predicate Quiet(s: State) {
    s.owner.Gone? && (s.worker.NotCreated? || s.worker.Exited? || Stuck(s))
  }

  /**
    When everything has come to rest, the context has been freed exactly if no cancellation found
    the status Idle and none was acted on inside the final log message; both leak the context.
   */
  lemma {:induction false} FreedUnlessLeaked(s: State)
    requires Reachable(s) && Quiet(s)
    ensures s.frees == 1 <==> !s.idleCancel && !s.logCancel
    ensures s.idleCancel <==> Stuck(s)
    ensures s.logCancel ==> s.returned && s.killPending && s.refcnt == 1
  {
    ReachableInv(s);
  }

  lemma StuckStep(s: State, a: Action)
    requires Stuck(s) && Step(s, a).Some?
    ensures Step(s, a) == Some(s)
  {
  }

  /** A stuck worker stays stuck: no schedule ever frees its context. */
  lemma {:induction false} StuckForever(s: State, more: seq<Action>)
    requires Stuck(s) && Run(s, more).Some?
    ensures Run(s, more).value == s
    decreases |more|
  {
    if more != [] {
      var n := |more| - 1;
      StuckForever(s, more[..n]);
      StuckStep(s, more[n]);
    }
  }

  /** Steps the worker still has to take, apart from the writes of its function. */
  function Remaining(pc: WorkerPc): nat {
    match pc
    case Start => 8
    case InFunc => 7
    case Cleanup => 6
    case Spin => 5
    case MarkDead(_) => 4
    case Log => 3
    case Put => 2
    case Free => 1
    case _ => 0
  }

  /** Worker steps in a schedule, apart from the writes of the function. */
  function WorkerSteps(schedule: seq<Action>): nat {
    if schedule == [] then 0
    else
      var n := |schedule| - 1;
      WorkerSteps(schedule[..n]) + if IsWorkerAction(schedule[n]) && !schedule[n].FuncWrites? then 1 else 0
  }

  /** Released, and not cancelled before the start. */
  predicate Leaving(s: State) { Inv(s) && s.owner.Gone? && !s.idleCancel }

  lemma LeavingWorker(s: State, a: Action)
    requires WorkerInv(s) && s.status != Cancelled && WorkerStep(s, a).Some?
    ensures var t := WorkerStep(s, a).value;
            t.owner == s.owner && t.idleCancel == s.idleCancel &&
            if a.FuncWrites? then Remaining(t.worker) == Remaining(s.worker)
            else Remaining(t.worker) < Remaining(s.worker)
  {
  }

  lemma LeavingStep(s: State, a: Action)
    requires Leaving(s) && Step(s, a).Some?
    ensures var t := Step(s, a).value;
            Leaving(t) && IsWorkerAction(a) &&
            if a.FuncWrites? then Remaining(t.worker) == Remaining(s.worker)
            else Remaining(t.worker) < Remaining(s.worker)
  {
    StepKeepsInv(s, a);
    assert OwnerStep(s, a).None?;
    LeavingWorker(s, a);
  }

  lemma {:induction false} LeavingRun(s: State, more: seq<Action>)
    requires Leaving(s) && Run(s, more).Some?
    ensures Leaving(Run(s, more).value)
    ensures WorkerSteps(more) + Remaining(Run(s, more).value.worker) <= Remaining(s.worker)
    decreases |more|
  {
    if more != [] {
      var n := |more| - 1;
      LeavingRun(s, more[..n]);
      LeavingStep(Run(s, more[..n]).value, more[n]);
    }
  }

  /**
    Over every run from the release on, a runner not cancelled before its start takes at most as many
    worker steps as remain, apart from writes of its function; as long as it has not ended it can take
    one, and when it can take none it has ended, with the context freed unless the thread was
    cancelled inside its final log message.
   */
  lemma {:induction false} ReleasedRunEnds(s: State, more: seq<Action>)
    requires Reachable(s) && s.owner.Gone? && !s.idleCancel && Run(s, more).Some?
    ensures WorkerSteps(more) <= Remaining(s.worker)
    ensures var t := Run(s, more).value;
            if exists a :: Step(t, a).Some? && !a.FuncWrites? then Remaining(t.worker) > 0
            else (t.worker.Exited? || t.worker.NotCreated?) && t.frees == if t.logCancel then 0 else 1
  {
    ReachableInv(s);
    LeavingRun(s, more);
    var t := Run(s, more).value;
    if Remaining(t.worker) > 0 {
      if t.worker.InFunc? {
        assert Step(t, FuncReturns).Some?;
      } else {
        assert t.status != Cancelled;
        assert Step(t, WorkerGo).Some?;
      }
    } else {
      forall a
        ensures Step(t, a).None?
      {
      }
    }
  }

  // ------------------------------------------------- two runs that leak the context

  /** Each action leads from one state to the next. */
  ghost predicate IsTrace(states: seq<State>, acts: seq<Action>) {
    |states| == |acts| + 1 &&
    forall i {:trigger acts[i]} | 0 <= i < |acts| :: Step(states[i], acts[i]) == Some(states[i + 1])
  }

  lemma {:induction false} TraceRuns(states: seq<State>, acts: seq<Action>)
    requires IsTrace(states, acts)
    ensures Run(states[0], acts) == Some(states[|acts|])
    decreases |acts|
  {
    if acts != [] {
      var n := |acts| - 1;
      var front := acts[..n];
      assert forall i | 0 <= i < n :: front[i] == acts[i];
      TraceRuns(states[..n + 1], front);
      assert Step(states[n], acts[n]) == Some(states[n + 1]);
    }
  }

  /** The owner starts the thread and calls release_runner. */
  lemma {:induction false} OwnerReleases(data: seq<byte>) returns (states: seq<State>, acts: seq<Action>)
    ensures IsTrace(states, acts) && states[0] == Init(data)
    ensures states[|acts|] == Init(data).(refcnt := 2, worker := Start, owner := SwapRunning(ByRelease, 1, 1))
  {
    var s0 := Init(data);
    var s1 := s0.(refcnt := 2, owner := Create);
    var s2 := s1.(worker := Start, owner := Ready);
    var s3 := s2.(owner := SwapRunning(ByRelease, 1, 1));
    states, acts := [s0, s1, s2, s3], [OwnerGo, CreateThread(true), CallRelease];
  }

  /** The owner swaps Idle to Cancelled and leaves. */
  lemma {:induction false} OwnerLeaves(s: State) returns (states: seq<State>, acts: seq<Action>)
    requires s.status == Idle && s.refcnt == 2 && s.owner == SwapRunning(ByRelease, 1, 1)
    ensures IsTrace(states, acts) && states[0] == s
    ensures states[|acts|] == s.(status := Cancelled, idleCancel := true, refcnt := 1, owner := Gone)
  {
    var s1 := s.(owner := SwapIdle(ByRelease, 1));
    var s2 := s1.(status := Cancelled, idleCancel := true, owner := Return(ByRelease, Cancelled));
    var s3 := s2.(owner := PutRef);
    var s4 := s3.(refcnt := 1, owner := Gone);
    states, acts := [s, s1, s2, s3, s4], [OwnerGo, OwnerGo, OwnerGo, OwnerGo];
  }

  lemma TraceConcat(a: seq<State>, x: seq<Action>, b: seq<State>, y: seq<Action>)
    requires IsTrace(a, x) && IsTrace(b, y) && a[|x|] == b[0]
    ensures IsTrace(a + b[1..], x + y) && (a + b[1..])[0] == a[0] && (a + b[1..])[|x| + |y|] == b[|y|]
  {
    var states, acts := a + b[1..], x + y;
    forall i | 0 <= i < |acts|
      ensures Step(states[i], acts[i]) == Some(states[i + 1])
    {
      if i < |x| {
        assert acts[i] == x[i];
      } else {
        assert acts[i] == y[i - |x|];
      }
    }
  }

  /**
    Whatever the data, there is a run in which release_runner wins the race against the start of
    the thread: the owner swaps Idle to Cancelled and leaves, the thread finds Cancelled and waits.
   */
  lemma {:induction false} CancelBeforeStartLeaks(data: seq<byte>) returns (schedule: seq<Action>, s: State)
    ensures Run(Init(data), schedule) == Some(s)
    ensures Stuck(s) && s.idleCancel && s.frees == 0 && s.refcnt == 1
  {
    var a, x := OwnerReleases(data);
    var b, y := OwnerLeaves(a[|x|]);
    TraceConcat(a, x, b, y);
    var left := b[|y|];
    var c, z := [left, left.(worker := Cleanup), left.(worker := Spin)], [WorkerGo, WorkerGo];
    WorkerFindsCancelled(left, c, z);
    TraceConcat(a + b[1..], x + y, c, z);
    schedule, s := x + y + z, left.(worker := Spin);
    TraceRuns(a + b[1..] + c[1..], schedule);
  }

  lemma WorkerFindsCancelled(s: State, states: seq<State>, acts: seq<Action>)
    requires s.status == Cancelled && s.worker == Start && acts == [WorkerGo, WorkerGo]
    requires states == [s, s.(worker := Cleanup), s.(worker := Spin)]
    ensures IsTrace(states, acts)
  {
  }

  lemma {:induction false} FunctionReturns(s: State) returns (states: seq<State>, acts: seq<Action>)
    requires s.status == Idle && s.worker == Start
    ensures IsTrace(states, acts) && states[0] == s
    ensures states[|acts|] ==
            s.(status := Running, calls := s.calls + 1, returned := true, output := s.data, worker := Cleanup)
  {
    var s1 := s.(status := Running, calls := s.calls + 1, worker := InFunc);
    var s2 := s1.(returned := true, output := s1.data, worker := Cleanup);
    states, acts := [s, s1, s2], [WorkerGo, FuncReturns];
  }

  lemma {:induction false} OwnerCancels(s: State) returns (states: seq<State>, acts: seq<Action>)
    requires s.status == Running && s.owner == SwapRunning(ByRelease, 1, 1)
    ensures IsTrace(states, acts) && states[0] == s
    ensures states[|acts|] == s.(status := Dead, killPending := true, owner := Return(ByRelease, Cancelled))
  {
    var s3 := s.(status := Cancelled, owner := Kill(ByRelease));
    var s4 := s3.(killPending := true, owner := SwapDead(ByRelease));
    var s5 := s4.(status := Dead, owner := Return(ByRelease, Cancelled));
    states, acts := [s, s3, s4, s5], [OwnerGo, OwnerGo, OwnerGo];
  }

  /** The function returns, and the thread is cancelled before its cleanup sees the status. */
  lemma {:induction false} CancelledLate(s: State) returns (states: seq<State>, acts: seq<Action>)
    requires s.status == Idle && s.worker == Start && s.owner == SwapRunning(ByRelease, 1, 1)
    ensures IsTrace(states, acts) && states[0] == s
    ensures states[|acts|] == s.(calls := s.calls + 1, returned := true, output := s.data, worker := Cleanup,
                                 status := Dead, killPending := true, owner := Return(ByRelease, Cancelled))
  {
    var a, x := FunctionReturns(s);
    var b, y := OwnerCancels(a[|x|]);
    TraceConcat(a, x, b, y);
    states, acts := a + b[1..], x + y;
  }

  /** The thread ends inside its log message, the owner drops the other reference. */
  lemma {:induction false} EndsInLog(s: State) returns (states: seq<State>, acts: seq<Action>)
    requires s.status == Dead && s.worker == Cleanup && s.returned && s.killPending
    requires s.owner == Return(ByRelease, Cancelled) && s.refcnt == 2
    ensures IsTrace(states, acts) && states[0] == s
    ensures states[|acts|] == s.(logCancel := true, worker := Exited, refcnt := 1, owner := Gone)
  {
    var s1 := s.(worker := MarkDead(Dead));
    var s2 := s1.(worker := Log);
    var s3 := s2.(logCancel := true, worker := Exited);
    var s4 := s3.(owner := PutRef);
    var s5 := s4.(refcnt := 1, owner := Gone);
    states, acts := [s, s1, s2, s3, s4, s5], [WorkerGo, WorkerGo, ActOnCancel, OwnerGo, OwnerGo];
  }

  /**
    Whatever the data, there is a run in which the function returns just before it is cancelled and
    the thread ends inside its final log message: both sides are gone and nothing is freed.
   */
  lemma {:induction false} CancelInLogLeaks(data: seq<byte>) returns (schedule: seq<Action>, s: State)
    ensures Run(Init(data), schedule) == Some(s)
    ensures Quiet(s) && !s.idleCancel && s.logCancel && s.frees == 0 && s.refcnt == 1
  {
    var a, x := OwnerReleases(data);
    var b, y := CancelledLate(a[|x|]);
    TraceConcat(a, x, b, y);
    var c, z := EndsInLog(b[|y|]);
    TraceConcat(a + b[1..], x + y, c, z);
    schedule, s := x + y + z, c[|z|];
    TraceRuns(a + b[1..] + c[1..], schedule);
  }
}
