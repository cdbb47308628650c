/** The fork server protocol, as steps of four actors: the fuzzer in one call of `run_target`
    after the other, the server's loop, the process under test, and the timer whose signal
    handler kills it.  Any actor may step at any time, so the kill may fall between any two
    steps of the others. */
module ForkServer {
  datatype WaitStatus = Exited(code: nat) | Signaled(signal: nat) | StoppedSelf

  const SIGKILL := 9
  const KILLED := Signaled(SIGKILL)
  const MSAN_ERROR := 86

  datatype Fault = NoFault | Timeout | Crash

  /** A process the server has started and not waited for. */
  datatype Proc = Running | Stopped | Zombie(status: WaitStatus)

  /** What travels on the status pipe.  `owner` is not on the wire: it says whose status it is. */
  datatype Msg = Pid(pid: nat) | Status(owner: nat, status: WaitStatus)

  datatype FuzzerPc =
    | FIdle | FReadPid | FArm | FReadStatus | FClear(status: WaitStatus)
    | FDisarm(status: WaitStatus) | FRecord(status: WaitStatus)

  datatype ServerPc =
    | SRead | SCheck(wasKilled: bool) | SReap | SLaunch | SWritePid | SWait | SWriteStatus(status: WaitStatus)

  /** What the fuzzer sees and reports, in order, what the server does to processes, what becomes of
      them, and the timer's kills; `hit` when there was a process left to kill. */
  datatype Event =
    | Request | GotPid(pid: nat) | GotStatus(owner: nat, status: WaitStatus) | Verdict(fault: Fault)
    | Forked(child: nat, unreaped: nat) | Continued(child: nat, was: Proc)
    | Changed(child: nat, status: WaitStatus) | Alarm(child: nat, hit: bool)

  datatype Fuzzer = Fuzzer(pc: FuzzerPc, childPid: nat, timedOut: bool, prevTimedOut: bool, armed: bool)

  datatype Server = Server(pc: ServerPc, pid: nat, childStopped: bool)

  /** The two programs, the control and status pipes, the processes, the next process number. */
  datatype State = State(persistent: bool, usesAsan: bool, f: Fuzzer, v: Server, ctl: seq<bool>, st: seq<Msg>, procs: map<nat, Proc>,
                         nextPid: nat, log: seq<Event>)

  /** What an actor can do: nothing now, or one step. */
  datatype Outcome = Blocked | Step(state: State)

  /** After the handshake; process number 0 is no process. */
  predicate Init(s: State) {
    && s.f.pc == FIdle && s.f.childPid == 0 && !s.f.timedOut && !s.f.prevTimedOut && !s.f.armed
    && s.ctl == [] && s.st == [] && s.v.pc == SRead && s.v.pid == 0 && !s.v.childStopped
    && s.procs == map[] && s.nextPid == 1 && s.log == []
  }

  function Without(procs: map<nat, Proc>, pid: nat): map<nat, Proc> {
    map p | p in procs && p != pid :: procs[p]
  }

  predicate CanDie(procs: map<nat, Proc>, pid: nat) {
    pid in procs && !procs[pid].Zombie?
  }

  /** SIGKILL: no effect on a process that is gone, or dead already. */
  function Kill(procs: map<nat, Proc>, pid: nat): map<nat, Proc> {
    if CanDie(procs, pid) then procs[pid := Zombie(KILLED)] else procs
  }

  function Continue(procs: map<nat, Proc>, pid: nat): map<nat, Proc> {
    if pid in procs && procs[pid] == Stopped then procs[pid := Running] else procs
  }

  // ----- the actors -----

  function FuzzerStep(s: State): Outcome {
    match s.f.pc
    case FIdle =>
      Step(s.(f := s.f.(timedOut := false, pc := FReadPid), ctl := s.ctl + [s.f.prevTimedOut], log := s.log + [Request]))
    case FReadPid =>
      if |s.st| > 0 && s.st[0].Pid? then
        Step(s.(f := s.f.(childPid := s.st[0].pid, pc := FArm), st := s.st[1..], log := s.log + [GotPid(s.st[0].pid)]))
      else Blocked
    case FArm => Step(s.(f := s.f.(armed := true, pc := FReadStatus)))
    case FReadStatus =>
      if |s.st| > 0 && s.st[0].Status? then
        Step(s.(f := s.f.(pc := FClear(s.st[0].status)), st := s.st[1..], log := s.log + [GotStatus(s.st[0].owner, s.st[0].status)]))
      else Blocked
    case FClear(status) => Step(s.(f := s.f.(childPid := if status != StoppedSelf then 0 else s.f.childPid, pc := FDisarm(status))))
    case FDisarm(status) => Step(s.(f := s.f.(armed := false, pc := FRecord(status))))
    case FRecord(status) =>
      Step(s.(f := s.f.(prevTimedOut := s.f.timedOut, pc := FIdle),
              log := s.log + [Verdict(Reported(status, s.f.timedOut, s.usesAsan))]))
  }

  /** What a run is reported as. */
  function Reported(status: WaitStatus, timedOut: bool, usesAsan: bool): Fault {
    if status.Signaled? then (if timedOut && status.signal == SIGKILL then Timeout else Crash)
    else if usesAsan && status == Exited(MSAN_ERROR) then Crash
    else NoFault
  }

  /** The signal handler: one kill, and only while a process number is held. */
  function TimerStep(s: State): Outcome {
    if !s.f.armed then Blocked
    else if s.f.childPid > 0 then
      Step(s.(f := s.f.(armed := false, timedOut := true), procs := Kill(s.procs, s.f.childPid),
              log := s.log + [Alarm(s.f.childPid, CanDie(s.procs, s.f.childPid))]))
    else Step(s.(f := s.f.(armed := false)))
  }

  function ServerStep(s: State): Outcome {
    match s.v.pc
    case SRead => if |s.ctl| > 0 then Step(s.(ctl := s.ctl[1..], v := s.v.(pc := SCheck(s.ctl[0])))) else Blocked
    case SCheck(wasKilled) => Step(s.(v := s.v.(pc := if s.v.childStopped && wasKilled then SReap else SLaunch)))
    case SReap =>
      if Dead(s) then Step(s.(procs := Without(s.procs, s.v.pid), v := s.v.(childStopped := false, pc := SLaunch)))
      else Blocked
    case SLaunch => Step(if s.v.childStopped then Resume(s) else Fork(s))
    case SWritePid => Step(s.(st := s.st + [Pid(s.v.pid)], v := s.v.(pc := SWait)))
    case SWait =>
      if Dead(s) then
        Step(s.(procs := Without(s.procs, s.v.pid), v := s.v.(pc := SWriteStatus(s.procs[s.v.pid].status))))
      else if s.persistent && s.v.pid in s.procs && s.procs[s.v.pid] == Stopped then
        Step(s.(v := s.v.(childStopped := true, pc := SWriteStatus(StoppedSelf))))
      else Blocked
    case SWriteStatus(status) => Step(s.(st := s.st + [Status(s.v.pid, status)], v := s.v.(pc := SRead)))
  }

  predicate Dead(s: State) {
    s.v.pid in s.procs && s.procs[s.v.pid].Zombie?
  }

  function Fork(s: State): State {
    s.(v := s.v.(pid := s.nextPid, pc := SWritePid), procs := s.procs[s.nextPid := Running], nextPid := s.nextPid + 1,
       log := s.log + [Forked(s.nextPid, |s.procs|)])
  }

  /** SIGCONT to the process left stopped. */
  function Resume(s: State): State {
    s.(v := s.v.(childStopped := false, pc := SWritePid), procs := Continue(s.procs, s.v.pid),
       log := s.log + [Continued(s.v.pid, if s.v.pid in s.procs then s.procs[s.v.pid] else Zombie(KILLED))])
  }

  /** A running process stops itself, exits or is ended by a signal. */
  ghost predicate ChildStep(s: State, s': State) {
    exists p, w :: p in s.procs && s.procs[p] == Running && s' == After(s, p, w)
  }

  function After(s: State, p: nat, w: WaitStatus): State {
    s.(procs := s.procs[p := if w == StoppedSelf then Stopped else Zombie(w)], log := s.log + [Changed(p, w)])
  }

  ghost predicate Next(s: State, s': State) {
    FuzzerStep(s) == Step(s') || TimerStep(s) == Step(s') || ServerStep(s) == Step(s') || ChildStep(s, s')
  }

  ghost predicate IsRun(run: seq<State>) {
    |run| > 0 && Init(run[0]) && forall i :: 0 <= i < |run| - 1 ==> Next(run[i], run[i + 1])
  }

  // ----- the invariant -----

  /** No process, or the one the server left stopped: still stopped, or killed by the timer of
      the run that `killed` speaks of. */
  predicate Parked(s: State, killed: bool) {
    if s.v.childStopped then
      s.procs.Keys == {s.v.pid} && s.procs[s.v.pid] == if killed then Zombie(KILLED) else Stopped
    else s.procs.Keys == {}
  }

  /** Exactly one process, not waited for; a dead one was not stopped. */
  predicate Alive(s: State) {
    && s.procs.Keys == {s.v.pid}
    && s.procs[s.v.pid] != Zombie(StoppedSelf)
  }

  /** The server works on a request, the fuzzer waits for the process number. */
  predicate Launching(s: State) {
    && s.f.pc == FReadPid && s.st == [] && s.ctl == [] && !s.f.armed && !s.f.timedOut
    && match s.v.pc
       case SCheck(k) => k == s.f.prevTimedOut && Parked(s, k)
       case SReap => s.v.childStopped && Parked(s, true)
       case SLaunch => Parked(s, false) && !(s.v.childStopped && s.f.prevTimedOut)
       case SWritePid => !s.v.childStopped && Alive(s)
       case _ => false
  }

  /** The process runs, or its status is on the way. */
  predicate Executing(s: State) {
    && s.ctl == [] && s.v.pid > 0
    && (s.f.pc == FReadPid || s.f.pc == FArm || s.f.pc == FReadStatus)
    && (s.f.pc == FReadPid || s.f.childPid == s.v.pid)
    && (s.f.pc != FReadStatus ==> !s.f.armed && !s.f.timedOut)
    && (s.f.pc == FReadStatus ==> s.f.armed != s.f.timedOut)
    && InTransit(s)
    && match s.v.pc
       case SWait =>
         !s.v.childStopped && Alive(s) && (s.f.timedOut ==> s.procs[s.v.pid].Zombie?)
       case SWriteStatus(w) => Parked(s, s.f.timedOut) && (w == StoppedSelf <==> s.v.childStopped)
       case SRead => Parked(s, s.f.timedOut) && (LastStatus(s) == StoppedSelf <==> s.v.childStopped)
       case _ => false
  }

  /** The process number until the fuzzer has read it, then the status once it is written. */
  predicate InTransit(s: State) {
    if s.f.pc == FReadPid then
      if s.v.pc == SRead then |s.st| == 2 && s.st[0] == Pid(s.v.pid) && s.st[1] == Status(s.v.pid, LastStatus(s))
      else |s.st| == 1 && s.st[0] == Pid(s.v.pid)
    else
      if s.v.pc == SRead then |s.st| == 1 && s.st[0] == Status(s.v.pid, LastStatus(s)) else |s.st| == 0
  }

  function LastStatus(s: State): WaitStatus {
    if |s.st| > 0 && s.st[|s.st| - 1].Status? then s.st[|s.st| - 1].status else KILLED
  }

  predicate Finishing(s: State) {
    && s.ctl == [] && s.st == [] && s.v.pc == SRead && Parked(s, s.f.timedOut)
    && match s.f.pc
       case FClear(w) => s.f.armed != s.f.timedOut && s.f.childPid == s.v.pid && s.v.pid > 0 && (w == StoppedSelf <==> s.v.childStopped)
       case FDisarm(_) =>
         (s.v.childStopped ==> s.f.armed != s.f.timedOut && s.v.pid > 0) && s.f.childPid == (if s.v.childStopped then s.v.pid else 0)
       case FRecord(_) => !s.f.armed
       case _ => false
  }

  predicate Idle(s: State) {
    && s.st == [] && s.v.pc == SRead && !s.f.armed
    && ((s.f.pc == FIdle && s.ctl == [] && Parked(s, s.f.prevTimedOut))
        || (s.f.pc == FReadPid && s.ctl == [s.f.prevTimedOut] && Parked(s, s.f.prevTimedOut) && !s.f.timedOut))
  }

  /** The fuzzer's view is requests, each followed by one process number and one status of that
      process; a fork found no other process, a continue found its process stopped. */
  predicate LogOk(s: State) {
    && (forall i :: 0 <= i < |s.log| && s.log[i].Forked? ==> s.log[i].unreaped == 0)
    && (forall i :: 0 <= i < |s.log| && s.log[i].Continued? ==> s.log[i].was == Stopped)
    && Answered(View(s.log), s.f.pc, s.f.childPid)
  }

  predicate Seen(e: Event) {
    e.Request? || e.GotPid? || e.GotStatus?
  }

  /** What the fuzzer sees. */
  function View(log: seq<Event>): seq<Event> {
    if |log| == 0 then []
    else View(log[..|log| - 1]) + if Seen(log[|log| - 1]) then [log[|log| - 1]] else []
  }

  /** Complete rounds. */
  predicate Rounds(v: seq<Event>) {
    |v| == 0 ||
    (|v| >= 3 && v[|v| - 1].GotStatus? && v[|v| - 2] == GotPid(v[|v| - 1].owner) && v[|v| - 3] == Request && Rounds(v[..|v| - 3]))
  }

  predicate Answered(v: seq<Event>, fpc: FuzzerPc, childPid: nat) {
    match fpc
    case FReadPid => |v| >= 1 && v[|v| - 1] == Request && Rounds(v[..|v| - 1])
    case FArm => |v| >= 2 && v[|v| - 1] == GotPid(childPid) && v[|v| - 2] == Request && Rounds(v[..|v| - 2])
    case FReadStatus => |v| >= 2 && v[|v| - 1] == GotPid(childPid) && v[|v| - 2] == Request && Rounds(v[..|v| - 2])
    case _ => Rounds(v)
  }

  // ----- what became of a process -----

  /** What happened to process `p` since it was last forked or continued, in order. */
  function Fates(log: seq<Event>, p: nat): seq<WaitStatus> {
    if |log| == 0 then [] else FatesWith(Fates(log[..|log| - 1], p), log[|log| - 1], p)
  }

  function FatesWith(f: seq<WaitStatus>, e: Event, p: nat): seq<WaitStatus> {
    match e
    case Forked(c, _) => if c == p then [] else f
    case Continued(c, _) => if c == p then [] else f
    case Changed(c, w) => if c == p then f + [w] else f
    case Alarm(c, hit) => if c == p && hit then f + [KILLED] else f
    case _ => f
  }

  /** The status is the one thing that happened to the process.  Or the process stopped itself and the
      timer killed it, and the status is of one of the two.  Only a persistent run reports a stop. */
  predicate Told(f: seq<WaitStatus>, persistent: bool, w: WaitStatus) {
    && (f == [w] || (f == [StoppedSelf, KILLED] && (w == StoppedSelf || w == KILLED)))
    && (w == StoppedSelf ==> persistent)
  }

  predicate Matches(proc: Proc, f: seq<WaitStatus>) {
    match proc
    case Running => f == []
    case Stopped => f == [StoppedSelf]
    case Zombie(w) => w != StoppedSelf && (f == [w] || (f == [StoppedSelf, w] && w == KILLED))
  }

  /** Entry `k`, a status, tells what became of its process. */
  predicate StatusTold(log: seq<Event>, persistent: bool, k: nat)
    requires k < |log| && log[k].GotStatus?
  {
    Told(Fates(log[..k], log[k].owner), persistent, log[k].status)
  }

  /** The last status the fuzzer read. */
  function LastGot(log: seq<Event>): Event {
    if |log| == 0 then Request else if log[|log| - 1].GotStatus? then log[|log| - 1] else LastGot(log[..|log| - 1])
  }

  /** The timer's kill was sent since the last request. */
  predicate Alarmed(log: seq<Event>) {
    |log| > 0 && !log[|log| - 1].Request? && (log[|log| - 1].Alarm? || Alarmed(log[..|log| - 1]))
  }

  /** Entry `k`, a verdict, is that of the last status read and of the timer in the same request. */
  predicate VerdictTold(log: seq<Event>, usesAsan: bool, k: nat)
    requires k < |log| && log[k].Verdict?
  {
    LastGot(log[..k]).GotStatus? && log[k].fault == Reported(LastGot(log[..k]).status, Alarmed(log[..k]), usesAsan)
  }

  predicate ToldSoFar(s: State) {
    && (forall k :: 0 <= k < |s.log| && s.log[k].GotStatus? ==> StatusTold(s.log, s.persistent, k))
    && (forall k :: 0 <= k < |s.log| && s.log[k].Verdict? ==> VerdictTold(s.log, s.usesAsan, k))
  }

  predicate ProcsOk(s: State) {
    forall p <- s.procs :: Matches(s.procs[p], Fates(s.log, p))
  }

  /** The status on its way to the fuzzer. */
  predicate PendingOk(s: State) {
    match s.v.pc
    case SWriteStatus(w) => Told(Fates(s.log, s.v.pid), s.persistent, w)
    case SRead => |s.st| > 0 && s.st[|s.st| - 1].Status? ==> Told(Fates(s.log, s.v.pid), s.persistent, s.st[|s.st| - 1].status)
    case _ => true
  }

  predicate FuzzerKnows(s: State) {
    && s.f.timedOut == Alarmed(s.log)
    && match s.f.pc
       case FClear(w) => LastGot(s.log).GotStatus? && LastGot(s.log).status == w
       case FDisarm(w) => LastGot(s.log).GotStatus? && LastGot(s.log).status == w
       case FRecord(w) => LastGot(s.log).GotStatus? && LastGot(s.log).status == w
       case _ => true
  }

  predicate FateOk(s: State) {
    ToldSoFar(s) && ProcsOk(s) && PendingOk(s) && FuzzerKnows(s)
  }

  /** Which actor waits for which. */
  predicate Control(s: State) {
    && (Idle(s) || Launching(s) || Executing(s) || Finishing(s))
    && PidsOk(s)
  }

  predicate Inv(s: State) {
    Control(s) && LogOk(s) && FateOk(s)
  }

  lemma ViewAppend(log: seq<Event>, e: Event)
    ensures View(log + [e]) == View(log) + if Seen(e) then [e] else []
  {
    assert (log + [e])[..|log|] == log;
  }

  // ----- each actor, in each phase -----

  lemma IdleFuzzer(s: State, s': State)
    requires Idle(s) && FuzzerStep(s) == Step(s')
    ensures Idle(s')
  {
    hide Parked;
    assert Parked(s, s.f.prevTimedOut) ==> Parked(s', s.f.prevTimedOut) by { ParkedFrame(s, s', s.f.prevTimedOut); }
  }

  lemma ParkedFrame(s: State, s': State, killed: bool)
    requires s'.procs == s.procs && s'.v.childStopped == s.v.childStopped && s'.v.pid == s.v.pid
    ensures Parked(s, killed) == Parked(s', killed)
    ensures Alive(s) == Alive(s')
  {
  }

  lemma IdleServer(s: State, s': State)
    requires Idle(s) && ServerStep(s) == Step(s')
    ensures Launching(s')
  {
    hide Parked;
    ParkedFrame(s, s', s.ctl[0]);
  }

  lemma LaunchingServer(s: State, s': State)
    requires Launching(s) && ServerStep(s) == Step(s') && (s.v.childStopped || s.v.pc == SWritePid ==> s.v.pid > 0) && s.nextPid > 0
    ensures s.v.pc == SWritePid ==> Executing(s')
    ensures s.v.pc != SWritePid ==> Launching(s')
  {
  }

  lemma ExecutingFuzzer(s: State, s': State)
    requires Executing(s) && FuzzerStep(s) == Step(s')
    ensures Executing(s') || Finishing(s')
  {
    hide Parked, Alive;
    ParkedFrame(s, s', s.f.timedOut);
  }

  lemma ExecutingServer(s: State, s': State)
    requires Executing(s) && ServerStep(s) == Step(s')
    ensures Executing(s')
  {
  }

  lemma ExecutingTimer(s: State, s': State)
    requires Executing(s) && TimerStep(s) == Step(s')
    ensures Executing(s')
  {
  }

  lemma FinishingFuzzer(s: State, s': State)
    requires Finishing(s) && FuzzerStep(s) == Step(s')
    ensures Finishing(s') || Idle(s')
  {
    hide Parked, Alive;
    ParkedFrame(s, s', s.f.timedOut);
  }

  lemma FinishingTimer(s: State, s': State)
    requires Finishing(s) && TimerStep(s) == Step(s')
    ensures Finishing(s')
  {
  }

  lemma ChildPhase(s: State, s': State)
    requires (Launching(s) || Executing(s)) && ChildStep(s, s')
    ensures Launching(s) ==> Launching(s')
    ensures Executing(s) ==> Executing(s')
  {
  }

  lemma ChildOnlyRunning(s: State, s': State)
    requires Idle(s) || Finishing(s)
    ensures !ChildStep(s, s')
  {
  }

  lemma ControlStep(s: State, s': State)
    requires Control(s) && Next(s, s')
    ensures Control(s')
  {
    hide Idle, Launching, Executing, Finishing, FuzzerStep, TimerStep, ServerStep, ChildStep;
    NextPids(s, s');
    if FuzzerStep(s) == Step(s') {
      if Idle(s) {
        IdleFuzzer(s, s');
      } else if Executing(s) {
        ExecutingFuzzer(s, s');
      } else if Finishing(s) {
        FinishingFuzzer(s, s');
      } else {
        LaunchingWaits(s);
      }
    } else if TimerStep(s) == Step(s') {
      if Executing(s) {
        ExecutingTimer(s, s');
      } else if Finishing(s) {
        FinishingTimer(s, s');
      } else {
        Unarmed(s);
      }
    } else if ServerStep(s) == Step(s') {
      if Idle(s) {
        IdleServer(s, s');
      } else if Launching(s) {
        LaunchingServer(s, s');
      } else if Executing(s) {
        ExecutingServer(s, s');
      } else {
        FinishingWaits(s);
      }
    } else if Launching(s) || Executing(s) {
      ChildPhase(s, s');
    } else {
      ChildOnlyRunning(s, s');
    }
  }

  predicate PidsOk(s: State) {
    && s.nextPid > 0 && s.v.pid < s.nextPid
    && (s.v.childStopped || s.v.pc == SWritePid || s.v.pc == SWait ==> s.v.pid > 0)
  }

  lemma FuzzerPids(s: State, s': State)
    requires PidsOk(s) && FuzzerStep(s) == Step(s')
    ensures PidsOk(s')
  {
    match s.f.pc
    case FIdle =>
    case FReadPid =>
    case FArm =>
    case FReadStatus =>
    case FClear(_) =>
    case FDisarm(_) =>
    case FRecord(_) =>
  }

  lemma TimerPids(s: State, s': State)
    requires PidsOk(s) && TimerStep(s) == Step(s')
    ensures PidsOk(s')
  {
  }

  lemma ServerPids(s: State, s': State)
    requires PidsOk(s) && ServerStep(s) == Step(s')
    ensures PidsOk(s')
  {
    match s.v.pc
    case SRead =>
    case SCheck(_) =>
    case SReap =>
    case SLaunch =>
    case SWritePid =>
    case SWait =>
    case SWriteStatus(_) =>
  }

  lemma ChildPids(s: State, s': State)
    requires PidsOk(s) && ChildStep(s, s')
    ensures PidsOk(s')
  {
  }

  lemma NextPids(s: State, s': State)
    requires PidsOk(s) && Next(s, s')
    ensures PidsOk(s')
  {
    hide PidsOk, FuzzerStep, TimerStep, ServerStep, ChildStep;
    if FuzzerStep(s) == Step(s') {
      FuzzerPids(s, s');
    } else if TimerStep(s) == Step(s') {
      TimerPids(s, s');
    } else if ServerStep(s) == Step(s') {
      ServerPids(s, s');
    } else {
      ChildPids(s, s');
    }
  }

  lemma LaunchingWaits(s: State)
    requires Launching(s)
    ensures FuzzerStep(s) == Blocked
  {
  }

  lemma FinishingWaits(s: State)
    requires Finishing(s)
    ensures ServerStep(s) == Blocked
  {
  }

  lemma Unarmed(s: State)
    requires Idle(s) || Launching(s)
    ensures TimerStep(s) == Blocked
  {
  }

  // ----- the log -----

  lemma StatusOwner(s: State)
    requires Control(s) && s.f.pc == FReadStatus && |s.st| > 0 && s.st[0].Status?
    ensures s.st[0].owner == s.f.childPid
  {
    assert Executing(s);
  }

  lemma FuzzerLog(s: State, s': State)
    requires LogOk(s) && FuzzerStep(s) == Step(s')
    requires s.f.pc == FReadStatus && |s.st| > 0 && s.st[0].Status? ==> s.st[0].owner == s.f.childPid
    ensures LogOk(s')
  {
    hide View, Rounds, Answered;
    var v := View(s.log);
    match s.f.pc
    case FIdle =>
      ViewAppend(s.log, Request);
      RoundRequest(v, s.f.childPid);
    case FReadPid =>
      ViewAppend(s.log, GotPid(s.st[0].pid));
      RoundPid(v, s.st[0].pid, s.f.childPid);
    case FArm => RoundArmed(v, s.f.childPid);
    case FReadStatus =>
      ViewAppend(s.log, GotStatus(s.f.childPid, s.st[0].status));
      RoundStatus(v, s.f.childPid, s.st[0].status);
    case FClear(w) => RoundDone(v, FClear(w), s.f.childPid, s'.f.pc, s'.f.childPid);
    case FDisarm(w) => RoundDone(v, FDisarm(w), s.f.childPid, s'.f.pc, s'.f.childPid);
    case FRecord(w) =>
      ViewAppend(s.log, s'.log[|s.log|]);
      assert v + [] == v;
      RoundDone(v, FRecord(w), s.f.childPid, s'.f.pc, s'.f.childPid);
  }

  lemma RoundRequest(v: seq<Event>, c: nat)
    requires Answered(v, FIdle, c)
    ensures Answered(v + [Request], FReadPid, c)
  {
    assert (v + [Request])[..|v|] == v;
  }

  lemma RoundPid(v: seq<Event>, p: nat, c: nat)
    requires Answered(v, FReadPid, c)
    ensures Answered(v + [GotPid(p)], FArm, p)
  {
    assert (v + [GotPid(p)])[..|v| - 1] == v[..|v| - 1];
  }

  lemma RoundArmed(v: seq<Event>, c: nat)
    requires Answered(v, FArm, c)
    ensures Answered(v, FReadStatus, c)
  {
  }

  lemma RoundStatus(v: seq<Event>, p: nat, status: WaitStatus)
    requires Answered(v, FReadStatus, p)
    ensures Answered(v + [GotStatus(p, status)], FClear(status), p)
  {
    assert (v + [GotStatus(p, status)])[..|v| - 2] == v[..|v| - 2];
  }

  lemma RoundDone(v: seq<Event>, from: FuzzerPc, c: nat, to: FuzzerPc, d: nat)
    requires Answered(v, from, c) && (from.FClear? || from.FDisarm? || from.FRecord?)
    requires to.FDisarm? || to.FRecord? || to.FIdle?
    ensures Answered(v, to, d)
  {
  }

  lemma LaunchLog(s: State, s': State)
    requires LogOk(s) && s.v.pc == SLaunch && ServerStep(s) == Step(s')
    requires if s.v.childStopped then s.v.pid in s.procs && s.procs[s.v.pid] == Stopped else |s.procs| == 0
    ensures LogOk(s')
  {
    hide View, Answered;
    ViewAppend(s.log, s'.log[|s.log|]);
    assert View(s.log) + [] == View(s.log);
  }

  lemma ServerQuiet(s: State, s': State)
    requires s.v.pc != SLaunch && ServerStep(s) == Step(s')
    ensures s'.log == s.log && s'.f == s.f
  {
  }

  lemma ServerLog(s: State, s': State)
    requires Control(s) && LogOk(s) && ServerStep(s) == Step(s')
    ensures LogOk(s')
  {
    hide Control, LogOk, ServerStep;
    if s.v.pc == SLaunch {
      FoundAtLaunch(s);
      LaunchLog(s, s');
    } else {
      ServerQuiet(s, s');
      QuietLog(s, s');
    }
  }

  lemma FoundAtLaunch(s: State)
    requires Control(s) && s.v.pc == SLaunch
    ensures if s.v.childStopped then s.v.pid in s.procs && s.procs[s.v.pid] == Stopped else |s.procs| == 0
  {
    assert Launching(s);
    assert |s.procs| == |s.procs.Keys|;
  }

  // ----- the record of fates -----

  lemma {:induction false} Appended(log: seq<Event>, e: Event)
    ensures (log + [e])[..|log|] == log && (log + [e])[|log|] == e
    ensures LastGot(log + [e]) == if e.GotStatus? then e else LastGot(log)
    ensures Alarmed(log + [e]) == (!e.Request? && (e.Alarm? || Alarmed(log)))
  {
  }

  lemma {:induction false} FatesAppend(log: seq<Event>, e: Event, p: nat)
    ensures Fates(log + [e], p) == FatesWith(Fates(log, p), e, p)
  {
    Appended(log, e);
  }

  lemma ToldAppend(s: State, s': State, e: Event)
    requires ToldSoFar(s) && s'.log == s.log + [e] && s'.persistent == s.persistent && s'.usesAsan == s.usesAsan
    requires e.GotStatus? ==> Told(Fates(s.log, e.owner), s.persistent, e.status)
    requires e.Verdict? ==> LastGot(s.log).GotStatus? && e.fault == Reported(LastGot(s.log).status, Alarmed(s.log), s.usesAsan)
    ensures ToldSoFar(s')
  {
    hide Told, Fates, Reported, LastGot, Alarmed;
    Appended(s.log, e);
    forall k | 0 <= k < |s.log|
      ensures s'.log[k] == s.log[k] && s'.log[..k] == s.log[..k]
    {
    }
  }

  /** What the fuzzer adds to the log in a step. */
  function Noted(s: State): Event {
    match s.f.pc
    case FIdle => Request
    case FReadPid => if |s.st| > 0 && s.st[0].Pid? then GotPid(s.st[0].pid) else Request
    case FReadStatus => if |s.st| > 0 && s.st[0].Status? then GotStatus(s.st[0].owner, s.st[0].status) else Request
    case FRecord(w) => Verdict(Reported(w, s.f.timedOut, s.usesAsan))
    case _ => Request
  }

  lemma FuzzerNotes(s: State, s': State)
    requires FuzzerStep(s) == Step(s')
    ensures s'.log == if s.f.pc.FArm? || s.f.pc.FClear? || s.f.pc.FDisarm? then s.log else s.log + [Noted(s)]
    ensures s'.procs == s.procs && s'.v == s.v && s'.persistent == s.persistent && s'.usesAsan == s.usesAsan
    ensures s'.st == s.st || (|s.st| > 0 && s'.st == s.st[1..])
  {
    hide Reported;
    match s.f.pc
    case FIdle =>
    case FReadPid =>
    case FArm =>
    case FReadStatus =>
    case FClear(_) =>
    case FDisarm(_) =>
    case FRecord(_) =>
  }

  /** Events of the fuzzer change no fates. */
  lemma FuzzerFates(s: State, s': State)
    requires FuzzerStep(s) == Step(s')
    ensures forall p :: Fates(s'.log, p) == Fates(s.log, p)
  {
    FuzzerNotes(s, s');
    hide FuzzerStep, Fates;
    forall p
      ensures Fates(s'.log, p) == Fates(s.log, p)
    {
      FatesAppend(s.log, Noted(s), p);
    }
  }

  lemma SameFates(s: State, s': State)
    requires ProcsOk(s) && PendingOk(s) && s'.procs == s.procs && s'.v == s.v && s'.persistent == s.persistent
    requires s'.st == s.st || (|s.st| > 0 && s'.st == s.st[1..])
    requires forall p :: Fates(s'.log, p) == Fates(s.log, p)
    ensures ProcsOk(s') && PendingOk(s')
  {
    hide Fates, Told, Matches;
  }

  lemma FuzzerLearns(s: State, s': State)
    requires FuzzerKnows(s) && FuzzerStep(s) == Step(s')
    ensures FuzzerKnows(s')
  {
    Appended(s.log, Noted(s));
    hide LastGot, Alarmed, Reported;
    match s.f.pc
    case FIdle =>
    case FReadPid =>
    case FArm =>
    case FReadStatus =>
    case FClear(_) =>
    case FDisarm(_) =>
    case FRecord(_) =>
  }

  lemma FuzzerTold(s: State, s': State)
    requires Control(s) && FateOk(s) && FuzzerStep(s) == Step(s') && s'.log == s.log + [Noted(s)]
    requires s'.persistent == s.persistent && s'.usesAsan == s.usesAsan
    ensures ToldSoFar(s')
  {
    if Noted(s).GotStatus? {
      PendingStatus(s);
    }
    hide Fates, Told, LastGot, Alarmed, Reported, Control, ToldSoFar, ProcsOk, PendingOk, FuzzerStep;
    ToldAppend(s, s', Noted(s));
  }

  lemma FuzzerFate(s: State, s': State)
    requires Control(s) && FateOk(s) && FuzzerStep(s) == Step(s')
    ensures FateOk(s')
  {
    hide Control, Fates, FuzzerStep, ProcsOk, PendingOk, FuzzerKnows, StatusTold, VerdictTold, Noted;
    FuzzerNotes(s, s');
    FuzzerFates(s, s');
    SameFates(s, s');
    FuzzerLearns(s, s');
    if s'.log != s.log {
      FuzzerTold(s, s');
    }
  }

  lemma PendingStatus(s: State)
    requires Control(s) && PendingOk(s) && s.f.pc == FReadStatus && |s.st| > 0 && s.st[0].Status?
    ensures Told(Fates(s.log, s.st[0].owner), s.persistent, s.st[0].status) && |s.st| == 1
  {
    hide Fates, Told;
    assert Executing(s);
  }

  lemma TimerFates(s: State, s': State)
    requires TimerStep(s) == Step(s') && s'.log != s.log
    ensures |s'.log| == |s.log| + 1 && s'.log == s.log + [Alarm(s.f.childPid, CanDie(s.procs, s.f.childPid))]
    ensures forall p :: Fates(s'.log, p) ==
                        if p == s.f.childPid && CanDie(s.procs, p) then Fates(s.log, p) + [KILLED] else Fates(s.log, p)
  {
    forall p
      ensures Fates(s'.log, p) == if p == s.f.childPid && CanDie(s.procs, p) then Fates(s.log, p) + [KILLED] else Fates(s.log, p)
    {
      FatesAppend(s.log, s'.log[|s.log|], p);
    }
  }

  lemma TimerProcs(s: State, s': State)
    requires ProcsOk(s) && TimerStep(s) == Step(s') && s'.log != s.log
    ensures ProcsOk(s')
  {
    TimerFates(s, s');
    hide Fates;
  }

  lemma TimerPending(s: State, s': State)
    requires Control(s) && ProcsOk(s) && PendingOk(s) && TimerStep(s) == Step(s') && s'.log != s.log
    ensures PendingOk(s')
  {
    TimerFates(s, s');
    ArmedPhase(s);
    hide Fates, Control;
  }

  lemma TimerFate(s: State, s': State)
    requires Control(s) && FateOk(s) && TimerStep(s) == Step(s')
    ensures FateOk(s')
  {
    if s'.log != s.log {
      TimerFates(s, s');
      TimerProcs(s, s');
      TimerPending(s, s');
      Appended(s.log, Alarm(s.f.childPid, CanDie(s.procs, s.f.childPid)));
      hide Fates, LastGot, Alarmed, Control, Told, Matches, CanDie, ToldSoFar, ProcsOk, PendingOk;
      ToldAppend(s, s', Alarm(s.f.childPid, CanDie(s.procs, s.f.childPid)));
    } else {
      hide Fates, LastGot, Alarmed, Control, Told, Matches, CanDie, StatusTold, VerdictTold;
    }
  }

  /** When the timer can fire, the process it would kill has no status on the way, or has stopped. */
  lemma ArmedPhase(s: State)
    requires Control(s) && s.f.armed
    ensures s.v.pc == SWait || s.v.pc.SWriteStatus? || s.v.pc == SRead
    ensures s.v.pc.SWriteStatus? && CanDie(s.procs, s.f.childPid) ==> s.v.pc.status == StoppedSelf
    ensures s.v.pc == SRead && |s.st| > 0 && s.st[|s.st| - 1].Status? && CanDie(s.procs, s.f.childPid) ==>
              s.st[|s.st| - 1].status == StoppedSelf
    ensures s.v.pc != SWait && CanDie(s.procs, s.f.childPid) ==> s.procs[s.f.childPid] == Stopped
  {
  }

  lemma Launched(s: State, s': State)
    requires s.v.pc == SLaunch && ServerStep(s) == Step(s')
    requires if s.v.childStopped then s.v.pid in s.procs && s.procs[s.v.pid] == Stopped else |s.procs| == 0
    ensures s'.f == s.f && s'.v.pc == SWritePid && s'.persistent == s.persistent && s'.usesAsan == s.usesAsan
    ensures s'.procs == s.procs[s'.v.pid := Running]
    ensures |s'.log| == |s.log| + 1 && s'.log == s.log + [s'.log[|s.log|]]
    ensures var e := s'.log[|s.log|]; (e.Forked? || e.Continued?) && e.child == s'.v.pid
  {
  }

  lemma LaunchFate(s: State, s': State)
    requires Control(s) && FateOk(s) && s.v.pc == SLaunch && ServerStep(s) == Step(s')
    ensures FateOk(s')
  {
    FoundAtLaunch(s);
    Launched(s, s');
    var e := s'.log[|s.log|];
    Appended(s.log, e);
    hide ServerStep, LastGot, Alarmed, Control, Told, ToldSoFar;
    forall p
      ensures Fates(s'.log, p) == if p == s'.v.pid then [] else Fates(s.log, p)
    {
      FatesAppend(s.log, e, p);
    }
    hide Fates;
    ToldAppend(s, s', e);
  }

  /** The status is taken where the process is found dead or stopped. */
  lemma WaitFate(s: State, s': State)
    requires ProcsOk(s) && s.v.pc == SWait && ServerStep(s) == Step(s')
    ensures s'.log == s.log && s'.f == s.f && ProcsOk(s') && PendingOk(s')
  {
    hide Fates;
  }

  lemma OtherFate(s: State, s': State)
    requires ProcsOk(s) && PendingOk(s) && s.v.pc != SLaunch && s.v.pc != SWait && ServerStep(s) == Step(s')
    requires s.v.pc == SWritePid ==> s'.v.pc == SWait
    ensures s'.log == s.log && s'.f == s.f && ProcsOk(s') && PendingOk(s')
  {
    hide Fates, Told, Matches;
  }

  lemma ServerFate(s: State, s': State)
    requires Control(s) && FateOk(s) && ServerStep(s) == Step(s')
    ensures FateOk(s')
  {
    if s.v.pc == SLaunch {
      LaunchFate(s, s');
    } else {
      assert s'.persistent == s.persistent && s'.usesAsan == s.usesAsan;
      hide Fates, Control, ServerStep, ProcsOk, PendingOk, StatusTold, VerdictTold;
      if s.v.pc == SWait {
        WaitFate(s, s');
      } else {
        NextPc(s, s');
        OtherFate(s, s');
      }
    }
  }

  lemma NextPc(s: State, s': State)
    requires ServerStep(s) == Step(s')
    ensures s.v.pc == SWritePid ==> s'.v.pc == SWait
  {
  }

  lemma ChildFate(s: State, s': State)
    requires Control(s) && FateOk(s) && ChildStep(s, s')
    ensures FateOk(s')
  {
    var p, w :| p in s.procs && s.procs[p] == Running && s' == After(s, p, w);
    var e := Changed(p, w);
    Appended(s.log, e);
    forall q
      ensures Fates(s'.log, q) == if q == p then Fates(s.log, q) + [w] else Fates(s.log, q)
    {
      FatesAppend(s.log, e, q);
    }
    RunningPhase(s, p);
    hide Fates, LastGot, Alarmed, Control;
    ToldAppend(s, s', e);
  }

  lemma RunningPhase(s: State, p: nat)
    requires Control(s) && p in s.procs && s.procs[p] == Running
    ensures s.v.pc == SWritePid || s.v.pc == SWait
  {
  }

  lemma InvStep(s: State, s': State)
    requires Inv(s) && Next(s, s')
    ensures Inv(s')
  {
    hide Control, LogOk, FateOk, FuzzerStep, TimerStep, ServerStep, ChildStep;
    ControlStep(s, s');
    if FuzzerStep(s) == Step(s') {
      if s.f.pc == FReadStatus && |s.st| > 0 && s.st[0].Status? {
        StatusOwner(s);
      }
      FuzzerLog(s, s');
      FuzzerFate(s, s');
    } else if ServerStep(s) == Step(s') {
      ServerLog(s, s');
      ServerFate(s, s');
    } else if TimerStep(s) == Step(s') {
      TimerLog(s, s');
      TimerFate(s, s');
    } else {
      ChildLog(s, s');
      ChildFate(s, s');
    }
  }

  lemma TimerLog(s: State, s': State)
    requires LogOk(s) && TimerStep(s) == Step(s')
    ensures LogOk(s')
  {
    hide View, Answered;
    if s'.log == s.log {
      QuietLog(s, s');
    } else {
      UnseenLog(s, s', s'.log[|s.log|]);
    }
  }

  lemma ChildLog(s: State, s': State)
    requires LogOk(s) && ChildStep(s, s')
    ensures LogOk(s')
  {
    hide View, Answered;
    UnseenLog(s, s', s'.log[|s.log|]);
  }

  lemma UnseenLog(s: State, s': State, e: Event)
    requires LogOk(s) && s'.log == s.log + [e] && (e.Changed? || e.Alarm?) && s'.f.pc == s.f.pc && s'.f.childPid == s.f.childPid
    ensures LogOk(s')
  {
    hide View, Answered;
    ViewAppend(s.log, e);
    assert View(s.log) + [] == View(s.log);
  }

  lemma QuietLog(s: State, s': State)
    requires LogOk(s) && s'.log == s.log && s'.f.pc == s.f.pc && s'.f.childPid == s.f.childPid
    ensures LogOk(s')
  {
  }

  // ----- whole runs -----

  lemma {:induction false} RunInv(run: seq<State>, i: nat)
    requires IsRun(run) && i < |run|
    ensures Inv(run[i])
  {
    if i > 0 {
      RunInv(run, i - 1);
      assert Next(run[i - 1], run[i]);
      InvStep(run[i - 1], run[i]);
    } else {
      assert View([]) == [];
    }
  }

  /** In every run, at every moment: a fork found no process that was not waited for; SIGCONT
      went to a stopped process; what the fuzzer saw is requests, each answered by one process
      number and then one status of that very process. */
  lemma ProtocolSafe(run: seq<State>, i: nat)
    requires IsRun(run) && i < |run|
    ensures forall k :: 0 <= k < |run[i].log| && run[i].log[k].Forked? ==> run[i].log[k].unreaped == 0
    ensures forall k :: 0 <= k < |run[i].log| && run[i].log[k].Continued? ==> run[i].log[k].was == Stopped
    ensures Answered(View(run[i].log), run[i].f.pc, run[i].f.childPid)
    ensures |run[i].procs| <= 1
  {
    RunInv(run, i);
    AtMostOne(run[i]);
  }

  /** In every run each status the fuzzer reads tells what became of the process since it was forked
      or continued: an exit with its code, the signal of a crash or of the timer, or a stop. */
  lemma StatusIsFate(run: seq<State>, i: nat, k: nat)
    requires IsRun(run) && i < |run| && k < |run[i].log| && run[i].log[k].GotStatus?
    ensures Told(Fates(run[i].log[..k], run[i].log[k].owner), run[0].persistent, run[i].log[k].status)
  {
    RunInv(run, i);
    SameMode(run, i);
    hide Control, LogOk, Told, Fates;
    assert StatusTold(run[i].log, run[i].persistent, k);
  }

  /** And each run is reported from the status just read: as a timeout exactly when the process was
      ended by SIGKILL and the timer's kill was sent in this request, as a crash exactly when it was
      ended by a signal otherwise, or exited with the code of a sanitizer that is in use. */
  lemma VerdictIsFate(run: seq<State>, i: nat, k: nat)
    requires IsRun(run) && i < |run| && k < |run[i].log| && run[i].log[k].Verdict?
    ensures var log, fault := run[i].log[..k], run[i].log[k].fault;
            var got := LastGot(log);
            && got.GotStatus?
            && (fault == Timeout <==> got.status == KILLED && Alarmed(log))
            && (fault == Crash <==> (got.status.Signaled? && !(got.status == KILLED && Alarmed(log)))
                                    || (run[0].usesAsan && got.status == Exited(MSAN_ERROR)))
  {
    RunInv(run, i);
    SameMode(run, i);
    hide Control, LogOk, Told, Fates;
    assert VerdictTold(run[i].log, run[i].usesAsan, k);
  }

  lemma {:induction false} SameMode(run: seq<State>, i: nat)
    requires IsRun(run) && i < |run|
    ensures run[i].persistent == run[0].persistent && run[i].usesAsan == run[0].usesAsan
  {
    if i > 0 {
      SameMode(run, i - 1);
      assert Next(run[i - 1], run[i]);
    }
  }

  lemma AtMostOne(s: State)
    requires Control(s)
    ensures |s.procs| <= 1
  {
    assert s.procs.Keys == {} || s.procs.Keys == {s.v.pid};
    assert |s.procs| == |s.procs.Keys|;
  }

  /** SIGCONT is never sent in the run after one in which the timer's kill was sent: the flag
      the fuzzer passes on makes the server reap that process and fork instead. */
  lemma KilledIsNotContinued(run: seq<State>, i: nat)
    requires IsRun(run) && i < |run| && run[i].v.pc == SLaunch && run[i].v.childStopped
    ensures run[i].f.pc == FReadPid && !run[i].f.prevTimedOut
    ensures run[i].v.pid in run[i].procs && run[i].procs[run[i].v.pid] == Stopped
  {
    RunInv(run, i);
  }

  // ----- progress -----

  /** In every state of every run the fuzzer, the server or the timer can step, even if the
      process under test never does: the protocol cannot get stuck. */
  lemma NoDeadlock(run: seq<State>, i: nat)
    requires IsRun(run) && i < |run|
    ensures CanStep(run[i])
  {
    RunInv(run, i);
    hide CanStep, Idle, Launching, Executing, Finishing;
    PhaseCanStep(run[i]);
  }

  predicate CanStep(s: State) {
    FuzzerStep(s).Step? || ServerStep(s).Step? || TimerStep(s).Step?
  }

  lemma PhaseCanStep(s: State)
    ensures Idle(s) || Finishing(s) || Launching(s) ==> CanStep(s)
    ensures Executing(s) ==> CanStep(s)
  {
    if Executing(s) {
      match s.f.pc
      case FReadPid => assert FuzzerStep(s).Step?;
      case FArm => assert FuzzerStep(s).Step?;
      case FReadStatus =>
        match s.v.pc {
          case SRead => assert FuzzerStep(s).Step?;
          case SWriteStatus(_) => assert ServerStep(s).Step?;
          case SWait => assert s.f.timedOut ==> Dead(s);
        }
    }
  }

  function FuzzerRank(pc: FuzzerPc): nat {
    match pc
    case FIdle => 0
    case FRecord(_) => 1
    case FDisarm(_) => 2
    case FClear(_) => 3
    case FReadStatus => 4
    case FArm => 6
    case FReadPid => 7
  }

  function ServerRank(s: State): nat {
    match s.v.pc
    case SRead => if |s.ctl| > 0 then 9 else 0
    case SCheck(_) => 8
    case SReap => 7
    case SLaunch => 6
    case SWritePid => 3
    case SWait => 2
    case SWriteStatus(_) => 1
  }

  function ProcRank(s: State): nat {
    if s.v.pid in s.procs && s.procs[s.v.pid] == Running then 2
    else if s.v.pid in s.procs && s.procs[s.v.pid] == Stopped then 1 else 0
  }

  /** The steps left until the request is answered and recorded. */
  function Rank(s: State): nat {
    FuzzerRank(s.f.pc) + ServerRank(s) + ProcRank(s) + if s.f.armed then 1 else 0
  }

  lemma FuzzerRanks(s: State, s': State)
    requires Control(s) && s.f.pc != FIdle && FuzzerStep(s) == Step(s')
    ensures Rank(s') < Rank(s)
  {
  }

  lemma TimerRanks(s: State, s': State)
    requires TimerStep(s) == Step(s')
    ensures Rank(s') < Rank(s)
  {
  }

  lemma ServerRanks(s: State, s': State)
    requires Control(s) && ServerStep(s) == Step(s')
    ensures Rank(s') < Rank(s)
  {
  }

  lemma ChildRanks(s: State, s': State)
    requires Control(s) && ChildStep(s, s')
    ensures Rank(s') < Rank(s)
  {
  }

  /** Until the request is recorded every step of any actor lowers the rank. */
  lemma RankDrops(run: seq<State>, i: nat)
    requires IsRun(run) && i + 1 < |run|
    ensures Rank(run[i]) <= 20
    ensures run[i].f.pc != FIdle ==> Rank(run[i + 1]) < Rank(run[i])
  {
    RunInv(run, i);
    var s, s' := run[i], run[i + 1];
    RankBound(s);
    assert Next(s, s');
    if s.f.pc != FIdle {
      hide Control, LogOk, FuzzerStep, TimerStep, ServerStep, ChildStep, Rank;
      if FuzzerStep(s) == Step(s') {
        FuzzerRanks(s, s');
      } else if TimerStep(s) == Step(s') {
        TimerRanks(s, s');
      } else if ServerStep(s) == Step(s') {
        ServerRanks(s, s');
      } else {
        ChildRanks(s, s');
      }
    }
  }

  lemma RankBound(s: State)
    ensures Rank(s) <= 20
    ensures Rank(s) == 0 ==> s.f.pc == FIdle
  {
  }

  lemma {:induction false} RankAfter(run: seq<State>, i: nat, n: nat)
    requires IsRun(run) && i + n < |run|
    requires forall j :: i <= j < i + n ==> run[j].f.pc != FIdle
    ensures Rank(run[i + n]) <= 20 - n
  {
    hide IsRun, Rank;
    if n == 0 {
      RankBound(run[i]);
    } else {
      RankAfter(run, i, n - 1);
      RankDrops(run, i + n - 1);
    }
  }

  /** Whatever the order of the steps and at whatever moment: within 20 steps of the four actors
      the request is answered and recorded, and the fuzzer idle. */
  lemma RequestEnds(run: seq<State>, i: nat)
    requires IsRun(run) && i + 20 < |run|
    ensures exists j :: i <= j <= i + 20 && run[j].f.pc == FIdle
  {
    hide IsRun, Rank;
    if forall j :: i <= j < i + 20 ==> run[j].f.pc != FIdle {
      RankAfter(run, i, 20);
      RankBound(run[i + 20]);
    }
  }
}
