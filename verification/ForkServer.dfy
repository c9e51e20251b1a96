/** The fork-server protocol between afl-fuzz and an instrumented target, as a state machine
    whose steps are the system calls of either side, the child's own moves and the alarm. */
module ForkServer {
  const SIGKILL := 9
  const SIGTERM := 15

  datatype Config = Config(is_persistent: bool, use_net: bool, max_cnt: nat)
  {
    ghost predicate Valid() {
      max_cnt < 0x1_0000_0000
    }
  }

  datatype Status = Exited | Signaled(sig: nat) | WasStopped

  /** A child, with what is left of its __AFL_LOOP counter and the number of inputs given to
      it.  A terminated child stays until it is waited for. */
  datatype Proc =
    | Running(cycle_cnt: nat, inputs: nat, terminating: bool)
    | Stopped(cycle_cnt: nat, inputs: nat, terminating: bool)
    | Zombie(status: Status)

  /** What is written into the status pipe: four bytes either way, so a reader cannot tell. */
  datatype Word = PidWord(pid: int) | StatusWord(status: Status)

  /** Where the loop of __afl_start_forkserver is. */
  datatype Server = Reading | Got(was_killed: bool) | Told | Waiting | Reporting(status: Status)

  /** Where run_target is; Misled if it took a wrong word for a process id or a status. */
  datatype Fuzzer =
    | Ready | AwaitPid | Sending | Polling | Sent
    | Judged(status: Status) | Forgotten(status: Status) | Disarmed(status: Status)
    | Misled

  datatype Fault = FAULT_NONE | FAULT_TMOUT | FAULT_CRASH

  datatype Served = Served(pid: int, status: Status)

  datatype State = State(
    // afl-llvm-rt
    server: Server, server_child: int, child_stopped: bool,
    // the kernel
    ctl: seq<bool>, st: seq<Word>, procs: map<int, Proc>, timer: bool, forksrv_alive: bool,
    // afl-fuzz
    fuzzer: Fuzzer, child_pid: int, child_timed_out: bool, prev_timed_out: bool,
    // what was waited for, what run_target saw and what it returned
    served: seq<Served>, observed: seq<Served>, faults: seq<Fault>)

  /** After init_forkserver. */
  function Init(): State {
    State(Reading, 0, false, [], [], map[], false, true, Ready, -1, false, false, [], [], [])
  }

  datatype Action =
    | FRequest | FReadPid | FSendBriefly | FSendAll(terminate: bool) | FPolled | FReadStatus
    | FForget | FDisarm | FReturn | Alarm
    | SRead | SReap | SFork(pid: int) | SContinue | SWritePid | SWait | SWriteStatus
    | ChildExit | ChildCrash(sig: nat) | ChildTerminate | ChildLoop

  // ----- signals -----

  /** kill(pid, SIGKILL). */
  function Kill(procs: map<int, Proc>, pid: int): map<int, Proc> {
    if pid in procs && !procs[pid].Zombie? then procs[pid := Zombie(Signaled(SIGKILL))] else procs
  }

  /** kill(pid, SIGTERM): a stopped process only takes notice when it continues. */
  function Terminate(procs: map<int, Proc>, pid: int): map<int, Proc> {
    if pid in procs && !procs[pid].Zombie? then procs[pid := procs[pid].(terminating := true)] else procs
  }

  /** kill(pid, SIGCONT), on behalf of the next input. */
  function Continue(procs: map<int, Proc>, pid: int): map<int, Proc> {
    if pid in procs && procs[pid].Stopped?
    then procs[pid := Running(procs[pid].cycle_cnt, procs[pid].inputs + 1, procs[pid].terminating)]
    else procs
  }

  function Decrement(n: nat): nat {
    if n == 0 then 0xFFFF_FFFF else n - 1
  }

  /** What run_target makes of the status. */
  function Judge(status: Status, timed_out: bool): Fault {
    if status.Signaled? then
      if timed_out && status.sig == SIGKILL then FAULT_TMOUT
      else if status.sig == SIGTERM then FAULT_NONE
      else FAULT_CRASH
    else FAULT_NONE
  }

  // ----- steps -----

  predicate FuzzerAction(a: Action) {
    a.FRequest? || a.FReadPid? || a.FSendBriefly? || a.FSendAll? || a.FPolled? || a.FReadStatus? ||
    a.FForget? || a.FDisarm? || a.FReturn?
  }

  predicate ServerAction(a: Action) {
    a.SRead? || a.SReap? || a.SFork? || a.SContinue? || a.SWritePid? || a.SWait? || a.SWriteStatus?
  }

  /** Reads block on an empty pipe, waitpid on a child with nothing to report. */
  predicate Enabled(c: Config, s: State, a: Action) {
    match a
    case FRequest => s.fuzzer == Ready
    case FReadPid => s.fuzzer == AwaitPid && s.st != []
    case FSendBriefly => s.fuzzer == Sending
    case FSendAll(_) => s.fuzzer == Sending && c.use_net
    case FPolled => s.fuzzer == Polling && s.child_pid !in s.procs
    case FReadStatus => s.fuzzer == Sent && s.st != []
    case FForget => s.fuzzer.Judged?
    case FDisarm => s.fuzzer.Forgotten?
    case FReturn => s.fuzzer.Disarmed?
    case Alarm => s.timer
    case SRead => s.server == Reading && s.ctl != []
    case SReap =>
      s.server == Got(true) && s.child_stopped && s.server_child in s.procs && s.procs[s.server_child].Zombie?
    case SFork(pid) => s.server.Got? && !s.child_stopped && pid > 0 && pid !in s.procs
    case SContinue => s.server == Got(false) && s.child_stopped
    case SWritePid => s.server == Told
    case SWait =>
      s.server == Waiting && s.server_child in s.procs &&
      (s.procs[s.server_child].Zombie? || (c.is_persistent && s.procs[s.server_child].Stopped?))
    case SWriteStatus => s.server.Reporting?
    case ChildExit => ChildRuns(s)
    case ChildCrash(sig) => ChildRuns(s) && sig != SIGKILL
    case ChildTerminate => ChildRuns(s) && s.procs[s.server_child].terminating
    case ChildLoop => c.is_persistent && ChildRuns(s) && Decrement(s.procs[s.server_child].cycle_cnt) != 0
  }

  predicate ChildRuns(s: State) {
    s.server_child in s.procs && s.procs[s.server_child].Running?
  }

  function FuzzerStep(s: State, a: Action): State
    requires FuzzerAction(a)
  {
    match a
    case FRequest => s.(ctl := s.ctl + [s.prev_timed_out], child_timed_out := false, fuzzer := AwaitPid)
    case FReadPid =>
      if s.st != [] && s.st[0].PidWord? && s.st[0].pid > 0
      then s.(child_pid := s.st[0].pid, st := s.st[1..], timer := true, fuzzer := Sending)
      else s.(fuzzer := Misled)
    case FSendBriefly => s.(fuzzer := Sent)
    case FSendAll(terminate) =>
      s.(procs := if terminate && s.child_pid > 0 then Terminate(s.procs, s.child_pid) else s.procs,
         fuzzer := Polling)
    case FPolled => s.(fuzzer := Sent)
    case FReadStatus =>
      if s.st != [] && s.st[0].StatusWord?
      then s.(st := s.st[1..], observed := s.observed + [Served(s.child_pid, s.st[0].status)],
              fuzzer := Judged(s.st[0].status))
      else s.(fuzzer := Misled)
    case FForget =>
      if s.fuzzer.Judged?
      then s.(child_pid := if s.fuzzer.status.WasStopped? then s.child_pid else 0, fuzzer := Forgotten(s.fuzzer.status))
      else s
    case FDisarm =>
      if s.fuzzer.Forgotten? then s.(timer := false, fuzzer := Disarmed(s.fuzzer.status)) else s
    case FReturn =>
      if s.fuzzer.Disarmed?
      then s.(prev_timed_out := s.child_timed_out, faults := s.faults + [Judge(s.fuzzer.status, s.child_timed_out)],
              fuzzer := Ready)
      else s
  }

  /** handle_timeout, once per arming. */
  function AlarmStep(s: State): State {
    if s.child_pid > 0
    then s.(timer := false, child_timed_out := true, procs := Kill(s.procs, s.child_pid))
    else if s.child_pid == -1 then s.(timer := false, child_timed_out := true, forksrv_alive := false)
    else s.(timer := false)
  }

  function ServerStep(c: Config, s: State, a: Action): State
    requires ServerAction(a) && Enabled(c, s, a)
  {
    match a
    case SRead => s.(server := Got(s.ctl[0]), ctl := s.ctl[1..])
    case SReap => s.(child_stopped := false, procs := s.procs - {s.server_child})
    case SFork(pid) =>
      s.(server_child := pid, procs := s.procs[pid := Running(c.max_cnt, 1, false)], server := Told)
    case SContinue =>
      s.(procs := Continue(s.procs, s.server_child), child_stopped := false, server := Told)
    case SWritePid => s.(st := s.st + [PidWord(s.server_child)], server := Waiting)
    case SWait =>
      var p := s.procs[s.server_child];
      if p.Zombie?
      then s.(procs := s.procs - {s.server_child}, served := s.served + [Served(s.server_child, p.status)],
              server := Reporting(p.status))
      else s.(child_stopped := true, served := s.served + [Served(s.server_child, WasStopped)],
              server := Reporting(WasStopped))
    case SWriteStatus => s.(st := s.st + [StatusWord(s.server.status)], server := Reading)
  }

  /** __afl_persistent_loop stops the child between inputs until the counter runs out. */
  function ChildStep(s: State, a: Action): State
    requires ChildRuns(s)
  {
    var p := s.procs[s.server_child];
    s.(procs := s.procs[s.server_child :=
      match a
      case ChildCrash(sig) => Zombie(Signaled(sig))
      case ChildTerminate => Zombie(Signaled(SIGTERM))
      case ChildLoop => Stopped(Decrement(p.cycle_cnt), p.inputs, p.terminating)
      case _ => Zombie(Exited)])
  }

  function Step(c: Config, s: State, a: Action): State
    requires Enabled(c, s, a)
  {
    if FuzzerAction(a) then FuzzerStep(s, a)
    else if a.Alarm? then AlarmStep(s)
    else if ServerAction(a) then ServerStep(c, s, a)
    else ChildStep(s, a)
  }

  ghost predicate IsRun(c: Config, s: State, run: seq<Action>)
    decreases |run|
  {
    run == [] || (Enabled(c, s, run[0]) && IsRun(c, Step(c, s, run[0]), run[1..]))
  }

  function After(c: Config, s: State, run: seq<Action>): State
    requires IsRun(c, s, run)
    decreases |run|
  {
    if run == [] then s else After(c, Step(c, s, run[0]), run[1..])
  }

  // ----- the invariant -----

  /** A request has been answered with a process id the fuzzer has yet to read. */
  ghost predicate PidPending(s: State) {
    s.fuzzer == AwaitPid && (s.server == Waiting || s.server.Reporting? || s.st != [])
  }

  /** A child is being run for the fuzzer, from fork or SIGCONT until the status is read. */
  ghost predicate Serving(s: State) {
    s.fuzzer == Sending || s.fuzzer == Polling || s.fuzzer == Sent || PidPending(s)
  }

  /** A status was collected that the fuzzer has not read. */
  ghost predicate StatusPending(s: State) {
    s.server.Reporting? || (Serving(s) && s.server == Reading)
  }

  ghost predicate BetweenRuns(f: Fuzzer) {
    f == Ready || f.Judged? || f.Forgotten? || f.Disarmed?
  }

  /** What is in the pipes. */
  ghost predicate Pipes(s: State) {
    s.fuzzer != Misled &&
    if BetweenRuns(s.fuzzer) then s.server == Reading && s.ctl == [] && s.st == []
    else if Serving(s) then
      && s.ctl == []
      && s.st == (if PidPending(s) then [PidWord(s.server_child)] else []) +
                 (if s.server == Reading && s.served != [] then [StatusWord(s.served[|s.served| - 1].status)] else [])
      && (s.server == Waiting || s.server.Reporting? || (s.server == Reading && s.served != []))
    else
      && s.st == []
      && (s.server == Reading ==> |s.ctl| == 1)
      && (s.server != Reading ==> s.ctl == [] && (s.server.Got? || s.server == Told))
  }

  /** The timeout flag of the last run, wherever it is on its way to the server. */
  ghost predicate TimedOut(s: State) {
    if s.fuzzer == Ready then s.prev_timed_out
    else if s.fuzzer == AwaitPid && s.server == Reading && s.ctl != [] then s.ctl[0]
    else if s.fuzzer == AwaitPid && s.server.Got? then s.server.was_killed
    else s.child_timed_out
  }

  ghost predicate Attended(s: State) {
    s.server == Told || s.server == Waiting
  }

  /** There is no child but the server's; left stopped, it is dead exactly if timed out. */
  ghost predicate Children(s: State) {
    && s.procs.Keys <= {s.server_child}
    && (s.procs != map[] ==> s.server_child > 0)
    && (s.server_child in s.procs <==> s.child_stopped || Attended(s))
    && (Attended(s) ==> !s.child_stopped)
    && (s.child_stopped ==> (s.procs[s.server_child].Stopped? || s.procs[s.server_child] == Zombie(Signaled(SIGKILL))))
    && (s.child_stopped ==> (s.procs[s.server_child].Zombie? <==> TimedOut(s)))
    && (s.server == Waiting && s.child_timed_out ==> s.procs[s.server_child].Zombie?)
    && (Attended(s) && s.procs[s.server_child] == Zombie(Signaled(SIGKILL)) ==> s.child_timed_out)
    && (forall pid :: pid in s.procs ==> s.procs[pid] != Zombie(WasStopped))
    && (s.fuzzer == AwaitPid ==> !s.child_timed_out)
  }

  /** What the fuzzer believes about the child. */
  ghost predicate Beliefs(s: State) {
    && s.forksrv_alive
    && (Serving(s) || s.server == Told ==> s.server_child > 0)
    && (Serving(s) && s.fuzzer != AwaitPid ==> s.child_pid == s.server_child)
    && (s.fuzzer.Judged? ==> s.child_pid == s.server_child > 0)
    && (s.fuzzer.Forgotten? || s.fuzzer.Disarmed? ==>
        s.child_pid == (if s.fuzzer.status.WasStopped? then s.server_child else 0))
    && (s.fuzzer.Forgotten? && s.fuzzer.status.WasStopped? ==> s.server_child > 0)
    && (s.fuzzer.Forgotten? || s.fuzzer.Disarmed? || s.fuzzer.Judged? ==>
        (s.fuzzer.status.WasStopped? <==> s.child_stopped))
    && (Serving(s) && s.fuzzer != AwaitPid ==> s.timer || s.child_timed_out)
    && (s.timer ==> (Serving(s) && s.fuzzer != AwaitPid) || s.fuzzer.Judged? || s.fuzzer.Forgotten?)
  }

  /** Statuses are read in the order they were collected, and a kill is known as a timeout. */
  ghost predicate History(s: State) {
    && |s.served| == |s.observed| + (if StatusPending(s) then 1 else 0)
    && s.observed == s.served[..|s.observed|]
    && (StatusPending(s) ==>
          var last := s.served[|s.served| - 1];
          last.pid == s.server_child
          && (last.status == WasStopped <==> s.child_stopped)
          && (last.status == Signaled(SIGKILL) ==> s.child_timed_out)
          && (s.server.Reporting? ==> s.server.status == last.status))
    && (s.fuzzer.Judged? || s.fuzzer.Forgotten? || s.fuzzer.Disarmed? ==>
          s.observed != [] && s.observed[|s.observed| - 1] == Served(s.server_child, s.fuzzer.status)
          && (s.fuzzer.status == Signaled(SIGKILL) ==> s.child_timed_out))
  }

  function Inputs(max_cnt: nat): nat {
    if max_cnt == 0 then 0x1_0000_0000 else max_cnt
  }

  /** The loop counter and the inputs given add up. */
  ghost predicate Cycles(c: Config, s: State) {
    forall pid :: pid in s.procs && !s.procs[pid].Zombie? ==>
      && s.procs[pid].inputs > 0
      && s.procs[pid].inputs + Inputs(s.procs[pid].cycle_cnt) == Inputs(c.max_cnt) +
         (if s.procs[pid].Running? then 1 else 0)
      && s.procs[pid].cycle_cnt < 0x1_0000_0000
      && (s.procs[pid].Stopped? ==> s.procs[pid].cycle_cnt != 0 && c.is_persistent)
  }

  /** The fault a status stands for when every SIGKILL came from the alarm. */
  function Verdict(status: Status): Fault {
    if status == Signaled(SIGKILL) then FAULT_TMOUT
    else if status.Signaled? && status.sig != SIGTERM then FAULT_CRASH
    else FAULT_NONE
  }

  ghost predicate Verdicts(s: State) {
    && |s.observed| == |s.faults| + (if s.fuzzer.Judged? || s.fuzzer.Forgotten? || s.fuzzer.Disarmed? then 1 else 0)
    && forall k :: 0 <= k < |s.faults| ==> s.faults[k] == Verdict(s.observed[k].status)
  }

  ghost predicate Modes(c: Config, s: State) {
    && (s.child_stopped ==> c.is_persistent && c.max_cnt != 1)
    && (s.fuzzer == Polling ==> c.use_net)
  }

  ghost predicate Inv(c: Config, s: State) {
    Pipes(s) && Children(s) && Beliefs(s) && History(s) && Verdicts(s) && Cycles(c, s) && Modes(c, s)
  }

  lemma InitKeeps(c: Config)
    requires c.Valid()
    ensures Inv(c, Init())
  {
  }

  lemma RequestKeeps(c: Config, s: State)
    requires Inv(c, s) && s.fuzzer == Ready
    ensures Inv(c, FuzzerStep(s, FRequest))
  {
  }

  lemma ReadPidKeeps(c: Config, s: State)
    requires Inv(c, s) && Enabled(c, s, FReadPid)
    ensures Inv(c, FuzzerStep(s, FReadPid))
  {
  }

  lemma ReadStatusKeeps(c: Config, s: State)
    requires Inv(c, s) && Enabled(c, s, FReadStatus)
    ensures Inv(c, FuzzerStep(s, FReadStatus))
  {
  }

  lemma SendKeeps(c: Config, s: State, a: Action)
    requires Inv(c, s) && Enabled(c, s, a) && (a.FSendBriefly? || a.FSendAll? || a.FPolled?)
    ensures Inv(c, FuzzerStep(s, a))
  {
  }

  lemma FinishKeeps(c: Config, s: State, a: Action)
    requires Inv(c, s) && Enabled(c, s, a) && (a.FForget? || a.FDisarm? || a.FReturn?)
    ensures Inv(c, FuzzerStep(s, a))
  {
  }

  lemma AlarmKills(c: Config, s: State)
    requires Children(s) && Beliefs(s) && Cycles(c, s) && s.timer
    ensures Children(AlarmStep(s)) && Cycles(c, AlarmStep(s))
  {
  }

  lemma AlarmKeeps(c: Config, s: State)
    requires Inv(c, s) && s.timer
    ensures Inv(c, AlarmStep(s))
  {
    hide Children, Cycles, Kill;
    AlarmKills(c, s);
  }

  lemma WaitKeeps(c: Config, s: State)
    requires Inv(c, s) && Enabled(c, s, SWait)
    ensures Inv(c, ServerStep(c, s, SWait))
  {
  }

  lemma WritesKeep(c: Config, s: State, a: Action)
    requires Inv(c, s) && (a == SWritePid || a == SWriteStatus) && Enabled(c, s, a)
    ensures Inv(c, ServerStep(c, s, a))
  {
  }

  lemma WakeKeeps(c: Config, s: State, a: Action)
    requires c.Valid() && Inv(c, s) && (a.SRead? || a.SReap? || a.SFork? || a.SContinue?) && Enabled(c, s, a)
    ensures Inv(c, ServerStep(c, s, a))
  {
  }

  lemma ChildKeeps(c: Config, s: State, a: Action)
    requires Inv(c, s) && Enabled(c, s, a) && !FuzzerAction(a) && !ServerAction(a) && a != Alarm
    ensures Inv(c, ChildStep(s, a))
  {
  }

  lemma StepKeeps(c: Config, s: State, a: Action)
    requires c.Valid() && Inv(c, s) && Enabled(c, s, a)
    ensures Inv(c, Step(c, s, a))
  {
    hide Inv;
    match a
    case FRequest => RequestKeeps(c, s);
    case FReadPid => ReadPidKeeps(c, s);
    case FReadStatus => ReadStatusKeeps(c, s);
    case FSendBriefly | FSendAll(_) | FPolled => SendKeeps(c, s, a);
    case FForget | FDisarm | FReturn => FinishKeeps(c, s, a);
    case Alarm => AlarmKeeps(c, s);
    case ChildExit | ChildCrash(_) | ChildTerminate | ChildLoop => ChildKeeps(c, s, a);
    case SWait => WaitKeeps(c, s);
    case SWritePid | SWriteStatus => WritesKeep(c, s, a);
    case _ => WakeKeeps(c, s, a);
  }

  lemma {:induction false} RunKeeps(c: Config, s: State, run: seq<Action>)
    requires c.Valid() && Inv(c, s) && IsRun(c, s, run)
    ensures Inv(c, After(c, s, run))
    decreases |run|
  {
    hide Inv, Step;
    if run != [] {
      StepKeeps(c, s, run[0]);
      RunKeeps(c, Step(c, s, run[0]), run[1..]);
    }
  }

  // ----- safety over every run -----

  /** At any moment of any run: there is at most one child, its status and process id are what
      the fuzzer takes them for, and neither the fork server nor run_target goes astray. */
  lemma HandshakeIsSafe(c: Config, run: seq<Action>)
    requires c.Valid() && IsRun(c, Init(), run)
    ensures var s := After(c, Init(), run);
            && |s.procs| <= 1
            && s.fuzzer != Misled && s.forksrv_alive
            && s.observed <= s.served && |s.served| <= |s.observed| + 1
            && (s.timer && s.child_pid > 0 ==> s.child_pid == s.server_child)
            && (s.fuzzer.Forgotten? || s.fuzzer.Disarmed? ==> (s.child_pid == 0 <==> !s.fuzzer.status.WasStopped?))
  {
    InitKeeps(c);
    RunKeeps(c, Init(), run);
    var s := After(c, Init(), run);
    AtMostOne(s.procs, s.server_child);
  }

  lemma AtMostOne(procs: map<int, Proc>, pid: int)
    requires procs.Keys <= {pid}
    ensures |procs| <= 1
  {
    assert |procs| == |procs.Keys|;
    if pid in procs { assert procs.Keys == {pid}; } else { assert procs.Keys == {}; }
  }

  /** SIGCONT only ever goes to a child that is stopped, never to one the timeout killed; a
      killed one is reaped without waiting. */
  lemma OnlyStoppedIsContinued(c: Config, run: seq<Action>)
    requires c.Valid() && IsRun(c, Init(), run)
    ensures var s := After(c, Init(), run);
            && (Enabled(c, s, SContinue) ==> s.server_child in s.procs && s.procs[s.server_child].Stopped?)
            && (s.server == Got(true) && s.child_stopped ==> Enabled(c, s, SReap))
  {
    InitKeeps(c);
    RunKeeps(c, Init(), run);
  }

  /** The k-th result depends on the k-th status alone: a child killed by the timeout is a
      timeout, never a crash, and nothing else is a timeout. */
  lemma KillsAreTimeouts(c: Config, run: seq<Action>)
    requires c.Valid() && IsRun(c, Init(), run)
    ensures var s := After(c, Init(), run);
            |s.faults| <= |s.observed| && forall k :: 0 <= k < |s.faults| ==>
              && (s.faults[k] == FAULT_TMOUT <==> s.observed[k].status == Signaled(9))
              && (s.faults[k] == FAULT_CRASH <==>
                  s.observed[k].status.Signaled? && s.observed[k].status.sig !in {9, 15})
  {
    InitKeeps(c);
    RunKeeps(c, Init(), run);
  }

  /** One process takes at most max_cnt inputs, 2^32 if max_cnt is 0. */
  lemma InputsPerProcess(c: Config, run: seq<Action>)
    requires c.Valid() && IsRun(c, Init(), run)
    ensures var s := After(c, Init(), run);
            forall pid :: pid in s.procs && !s.procs[pid].Zombie? ==> s.procs[pid].inputs <= Inputs(c.max_cnt)
  {
    InitKeeps(c);
    RunKeeps(c, Init(), run);
  }

  // ----- termination requests -----

  /** The process, if it is still there, is dead or has a SIGTERM coming. */
  ghost predicate Doomed(s: State, pid: int) {
    pid in s.procs ==> s.procs[pid].Zombie? || s.procs[pid].terminating
  }

  ghost predicate Reaps(a: Action) {
    a.SWait? || a.SReap? || a.SFork?
  }

  lemma FuzzerOnlyTerminates(s: State, a: Action)
    requires FuzzerAction(a)
    ensures FuzzerStep(s, a).procs == s.procs || FuzzerStep(s, a).procs == Terminate(s.procs, s.child_pid)
  {
    hide Terminate, Judge, FuzzerAction;
    match a
    case FRequest => case FReadPid => case FSendBriefly => case FSendAll(_) => case FPolled => case FReadStatus =>
    case FForget => case FDisarm => case FReturn =>
    case _ => NoFuzzerAction(a);
  }

  lemma NoFuzzerAction(a: Action)
    requires a.Alarm? || ServerAction(a) || ChildAction(a)
    ensures !FuzzerAction(a)
  {
  }

  lemma FuzzerSpares(s: State, a: Action, pid: int)
    requires FuzzerAction(a)
    ensures FuzzerStep(s, a).procs.Keys == s.procs.Keys && (Doomed(s, pid) ==> Doomed(FuzzerStep(s, a), pid))
  {
    FuzzerOnlyTerminates(s, a);
    hide FuzzerStep;
  }

  lemma AlarmSpares(s: State, pid: int)
    ensures AlarmStep(s).procs.Keys == s.procs.Keys && (Doomed(s, pid) ==> Doomed(AlarmStep(s), pid))
  {
  }

  lemma ServerSpares(c: Config, s: State, a: Action, pid: int)
    requires ServerAction(a) && Enabled(c, s, a) && !a.SFork?
    ensures !Reaps(a) ==> ServerStep(c, s, a).procs.Keys == s.procs.Keys
    ensures Doomed(s, pid) ==> Doomed(ServerStep(c, s, a), pid)
  {
  }

  lemma ChildSpares(s: State, a: Action, pid: int)
    requires ChildRuns(s)
    ensures ChildStep(s, a).procs.Keys == s.procs.Keys && (Doomed(s, pid) ==> Doomed(ChildStep(s, a), pid))
  {
  }

  lemma DoomedStays(c: Config, s: State, a: Action, pid: int)
    requires Enabled(c, s, a) && !a.SFork?
    ensures Doomed(s, pid) ==> Doomed(Step(c, s, a), pid)
    ensures pid in s.procs && !Reaps(a) ==> pid in Step(c, s, a).procs
  {
    hide Doomed, FuzzerStep, ServerStep, AlarmStep, ChildStep;
    if FuzzerAction(a) { FuzzerSpares(s, a, pid); }
    else if a.Alarm? { AlarmSpares(s, pid); }
    else if ServerAction(a) { ServerSpares(c, s, a, pid); }
    else { ChildSpares(s, a, pid); }
  }

  lemma {:induction false} DoomedForGood(c: Config, s: State, run: seq<Action>, pid: int)
    requires IsRun(c, s, run) && Doomed(s, pid) && forall a :: a in run ==> !a.SFork?
    ensures Doomed(After(c, s, run), pid)
    ensures pid in s.procs && (forall a :: a in run ==> !Reaps(a)) ==> pid in After(c, s, run).procs
    decreases |run|
  {
    hide Doomed, Step, Enabled;
    if run != [] {
      assert run[0] in run;
      DoomedStays(c, s, run[0], pid);
      DoomedForGood(c, Step(c, s, run[0]), run[1..], pid);
    }
  }

  /** After send_over_network has asked a child to terminate, the child is dead or going to
      die for as long as it has not been waited for: whenever it runs it may die of SIGTERM. */
  lemma TerminationHolds(c: Config, before: seq<Action>, run: seq<Action>)
    requires c.Valid() && IsRun(c, Init(), before) && Enabled(c, After(c, Init(), before), FSendAll(true))
    requires var s := After(c, Init(), before); IsRun(c, Step(c, s, FSendAll(true)), run)
    requires forall a :: a in run ==> !a.SFork?
    ensures var asked := After(c, Init(), before);
            var s := After(c, Step(c, asked, FSendAll(true)), run);
            && Doomed(s, asked.child_pid)
            && (asked.child_pid in asked.procs && (forall a :: a in run ==> !Reaps(a)) ==> asked.child_pid in s.procs)
            && (ChildRuns(s) && s.server_child == asked.child_pid ==> Enabled(c, s, ChildTerminate))
  {
    InitKeeps(c);
    RunKeeps(c, Init(), before);
    var asked := After(c, Init(), before);
    var next := Step(c, asked, FSendAll(true));
    assert Doomed(next, asked.child_pid);
    DoomedForGood(c, next, run, asked.child_pid);
  }

  /** For instance a server that only ends on SIGTERM: its status is read, no fault is seen. */
  lemma EndsOnRequest(c: Config) returns (run: seq<Action>)
    requires c.Valid() && c.use_net
    ensures IsRun(c, Init(), run) && FSendAll(true) in run
    ensures var s := After(c, Init(), run);
            s.observed == [Served(1, Signaled(15))] && s.faults == [FAULT_NONE]
  {
    hide IsRun, After;
    run := FirstInput(c);
    run := Then(c, run, FSendAll(true));
    run := Then(c, run, ChildTerminate);
    run := Then(c, run, SWait);
    run := Then(c, run, SWriteStatus);
    run := Then(c, run, FPolled);
    run := Then(c, run, FReadStatus);
    run := Then(c, run, FForget);
    run := Then(c, run, FDisarm);
    run := Then(c, run, FReturn);
  }

  // ----- progress -----

  predicate ChildAction(a: Action) {
    a.ChildExit? || a.ChildCrash? || a.ChildTerminate? || a.ChildLoop?
  }

  /** A stopped child still answers kill(pid, 0). */
  predicate MayPollForever(c: Config) {
    c.use_net && c.is_persistent && c.max_cnt != 1
  }

  /** Without the help of the child, fuzzer, server or alarm can always move. */
  lemma Progress(c: Config, s: State) returns (a: Action)
    requires Inv(c, s) && !MayPollForever(c)
    ensures Enabled(c, s, a) && !ChildAction(a)
  {
    if s.fuzzer == Ready { a := FRequest; }
    else if s.fuzzer.Judged? { a := FForget; }
    else if s.fuzzer.Forgotten? { a := FDisarm; }
    else if s.fuzzer.Disarmed? { a := FReturn; }
    else if s.fuzzer == Sending { a := FSendBriefly; }
    else if s.fuzzer == AwaitPid && s.st != [] { a := FReadPid; }
    else if s.fuzzer == AwaitPid {
      a := match s.server
           case Reading => SRead
           case Got(was_killed) =>
             if !s.child_stopped then SFork(1) else if was_killed then SReap else SContinue
           case Told => SWritePid
           case Waiting => Alarm
           case Reporting(_) => SWriteStatus;
    }
    else if s.server.Reporting? { a := SWriteStatus; }
    else if s.server == Reading { a := if s.fuzzer == Polling then FPolled else FReadStatus; }
    else { a := if s.procs[s.server_child].Zombie? then SWait else Alarm; }
  }

  ghost predicate Stuck(c: Config, s: State) {
    forall a :: !Enabled(c, s, a)
  }

  ghost predicate GetsStuck(c: Config, run: seq<Action>) {
    IsRun(c, Init(), run) && Stuck(c, After(c, Init(), run))
  }

  /** A stuck state is reachable exactly in network mode with a persistent target that takes
      more than one input: send_over_network waits for a process that only sleeps, or, killed
      by the alarm, is a zombie nobody reaps. */
  lemma WhenStuck(c: Config)
    requires c.Valid()
    ensures (exists run :: GetsStuck(c, run)) <==> MayPollForever(c)
  {
    if MayPollForever(c) {
      var run := PollingForever(c);
      assert GetsStuck(c, run);
    } else {
      InitKeeps(c);
      forall run | IsRun(c, Init(), run) ensures !GetsStuck(c, run) {
        RunKeeps(c, Init(), run);
        var a := Progress(c, After(c, Init(), run));
      }
    }
  }

  lemma {:induction false} RunExtends(c: Config, s: State, run: seq<Action>, a: Action)
    requires IsRun(c, s, run) && Enabled(c, After(c, s, run), a)
    ensures IsRun(c, s, run + [a]) && After(c, s, run + [a]) == Step(c, After(c, s, run), a)
    decreases |run|
  {
    hide Enabled, Step;
    if run == [] {
      assert run + [a] == [a] && [a][1..] == [];
    } else {
      RunExtends(c, Step(c, s, run[0]), run[1..], a);
      assert (run + [a])[1..] == run[1..] + [a];
    }
  }

  lemma FirstInput(c: Config) returns (run: seq<Action>)
    ensures IsRun(c, Init(), run)
    ensures After(c, Init(), run) ==
            State(Waiting, 1, false, [], [], map[1 := Running(c.max_cnt, 1, false)], true, true,
                  Sending, 1, false, false, [], [], [])
  {
    hide IsRun, After;
    run := Nothing(c);
    run := Then(c, run, FRequest);
    run := Then(c, run, SRead);
    run := Then(c, run, SFork(1));
    run := Then(c, run, SWritePid);
    run := Then(c, run, FReadPid);
    assert map[][1 := Running(c.max_cnt, 1, false)] == map[1 := Running(c.max_cnt, 1, false)];
  }

  lemma Nothing(c: Config) returns (run: seq<Action>)
    ensures IsRun(c, Init(), run) && After(c, Init(), run) == Init()
  {
    run := [];
  }

  lemma PollingForever(c: Config) returns (run: seq<Action>)
    requires c.Valid() && MayPollForever(c)
    ensures GetsStuck(c, run)
  {
    hide IsRun, After;
    run := FirstInput(c);
    run := Then(c, run, FSendAll(false));
    run := Then(c, run, ChildLoop);
    run := Then(c, run, SWait);
    run := Then(c, run, SWriteStatus);
    run := Then(c, run, Alarm);
  }

  lemma Then(c: Config, run: seq<Action>, a: Action) returns (longer: seq<Action>)
    requires IsRun(c, Init(), run) && Enabled(c, After(c, Init(), run), a)
    ensures IsRun(c, Init(), longer) && After(c, Init(), longer) == Step(c, After(c, Init(), run), a)
    ensures longer == run + [a]
  {
    longer := run + [a];
    RunExtends(c, Init(), run, a);
  }

  // ----- how many inputs a process can take -----

  /** Process 1 is about to be sent its n-th input. */
  ghost predicate AtInput(c: Config, s: State, n: nat) {
    && s.server == Waiting && s.server_child == 1 && !s.child_stopped && s.ctl == [] && s.st == []
    && 1 in s.procs && s.procs[1].Running? && s.procs[1].inputs == n
    && n + Inputs(s.procs[1].cycle_cnt) == Inputs(c.max_cnt) + 1 && s.procs[1].cycle_cnt < 0x1_0000_0000
    && s.fuzzer == Sending && s.child_pid == 1 && !s.child_timed_out && !s.prev_timed_out
  }

  lemma OneMoreInput(c: Config, run: seq<Action>, n: nat) returns (longer: seq<Action>)
    requires c.Valid() && c.is_persistent && n < Inputs(c.max_cnt)
    requires IsRun(c, Init(), run) && AtInput(c, After(c, Init(), run), n)
    ensures IsRun(c, Init(), longer) && AtInput(c, After(c, Init(), longer), n + 1)
  {
    hide IsRun, After;
    longer := Then(c, run, FSendBriefly);
    longer := Then(c, longer, ChildLoop);
    longer := Then(c, longer, SWait);
    longer := Then(c, longer, SWriteStatus);
    longer := NoFault(c, longer);
    longer := NextInput(c, longer, n);
  }

  /** run_target reads that the child has stopped, and returns. */
  lemma NoFault(c: Config, run: seq<Action>) returns (longer: seq<Action>)
    requires IsRun(c, Init(), run)
    requires var s := After(c, Init(), run); s.fuzzer == Sent && s.st == [StatusWord(WasStopped)] && !s.child_timed_out
    ensures IsRun(c, Init(), longer)
    ensures var s, t := After(c, Init(), run), After(c, Init(), longer);
            && t.server == s.server && t.server_child == s.server_child && t.child_stopped == s.child_stopped
            && t.ctl == s.ctl && t.st == [] && t.procs == s.procs && t.fuzzer == Ready && !t.prev_timed_out
  {
    hide IsRun, After;
    longer := Then(c, run, FReadStatus);
    longer := Then(c, longer, FForget);
    longer := Then(c, longer, FDisarm);
    longer := Then(c, longer, FReturn);
  }

  /** From the end of one run_target to the start of the next, with a child left stopped. */
  lemma NextInput(c: Config, run: seq<Action>, n: nat) returns (longer: seq<Action>)
    requires IsRun(c, Init(), run)
    requires var s := After(c, Init(), run);
             && s.server == Reading && s.server_child == 1 && s.child_stopped && s.ctl == [] && s.st == []
             && 1 in s.procs && s.procs[1].Stopped? && s.procs[1].inputs == n
             && n + 1 + Inputs(s.procs[1].cycle_cnt) == Inputs(c.max_cnt) + 1 && s.procs[1].cycle_cnt < 0x1_0000_0000
             && s.fuzzer == Ready && !s.prev_timed_out
    ensures IsRun(c, Init(), longer) && AtInput(c, After(c, Init(), longer), n + 1)
  {
    hide IsRun, After;
    longer := Then(c, run, FRequest);
    longer := Then(c, longer, SRead);
    longer := Then(c, longer, SContinue);
    longer := Then(c, longer, SWritePid);
    longer := Then(c, longer, FReadPid);
  }

  /** The bound is met: a persistent process can take as many as max_cnt inputs. */
  lemma {:induction false} TakesInputs(c: Config, n: nat) returns (run: seq<Action>)
    requires c.Valid() && c.is_persistent && 1 <= n <= (if c.max_cnt == 0 then 0x1_0000_0000 else c.max_cnt)
    ensures IsRun(c, Init(), run) && AtInput(c, After(c, Init(), run), n)
  {
    hide IsRun, After;
    if n == 1 {
      run := FirstInput(c);
    } else {
      run := TakesInputs(c, n - 1);
      run := OneMoreInput(c, run, n - 1);
    }
  }

  // ----- every run_target call ends -----

  function FuzzerRank(f: Fuzzer): nat {
    match f
    case Ready => 0
    case Disarmed(_) => 1
    case Forgotten(_) => 2
    case Judged(_) => 3
    case Sent => 4
    case Polling => 5
    case Sending => 6
    case AwaitPid => 7
    case Misled => 0
  }

  function ServerRank(s: State): nat {
    match s.server
    case Reading => if s.ctl == [] then 1 else 7
    case Got(was_killed) => if was_killed && s.child_stopped then 6 else 5
    case Told => 4
    case Waiting => 3
    case Reporting(_) => 2
  }

  function Rank(s: State): nat {
    3 * FuzzerRank(s.fuzzer) + 2 * ServerRank(s) + (if s.timer then 1 else 0) + (if ChildRuns(s) then 1 else 0)
  }

  lemma FuzzerLowersRank(c: Config, s: State, a: Action)
    requires Inv(c, s) && Enabled(c, s, a) && (FuzzerAction(a) || a == Alarm) && a != FRequest
    ensures Rank(Step(c, s, a)) < Rank(s)
  {
    hide History, Verdicts, Cycles, Modes;
  }

  lemma ServerLowersRank(c: Config, s: State, a: Action)
    requires Inv(c, s) && Enabled(c, s, a) && !FuzzerAction(a) && a != Alarm
    ensures Rank(Step(c, s, a)) < Rank(s)
  {
    hide History, Verdicts, Cycles, Modes;
  }

  /** Between two requests no more than 37 steps happen, whatever their order. */
  lemma {:induction false} EveryCallEnds(c: Config, s: State, run: seq<Action>)
    requires c.Valid() && Inv(c, s) && IsRun(c, s, run) && FRequest !in run
    ensures |run| <= Rank(s) <= 37
    decreases |run|
  {
    hide Inv, Step, Enabled, Rank;
    RankBound(c, s);
    if run != [] {
      StepKeeps(c, s, run[0]);
      if FuzzerAction(run[0]) || run[0] == Alarm {
        FuzzerLowersRank(c, s, run[0]);
      } else {
        ServerLowersRank(c, s, run[0]);
      }
      EveryCallEnds(c, Step(c, s, run[0]), run[1..]);
    }
  }

  lemma RankBound(c: Config, s: State)
    requires Inv(c, s)
    ensures Rank(s) <= 37
  {
  }
}
