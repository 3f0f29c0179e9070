/**
 Every interleaving of the process manager: callers of Start, Stop, Kill and WaitForExit, one
 monitor goroutine per child, and children that exit when they like. A step is a lock-held
 section, the return of cmd.Wait, a signal, a close, or the outcome of a wait.
 */
module ProcessProtocol {
  import opened Wrappers
  import opened QemuArgs
  import opened ProcessManager

  /** A monitor goroutine: before it has read p.cmd, inside Wait, after Wait, after its section
      with the channel in hand, and done. */
  datatype Monitor = Spawned | Waiting(cmd: nat) | Returned | Cleared(ch: nat) | Done

  datatype Call = StopCall | KillCall | WaitCall

  /** A caller between two steps of Stop, Kill or WaitForExit, or done: which call it was, the
      command it checked first and the channel whose wait it ended on. `first`, `stopOf` and what
      Finished keeps besides `ok` are read by no step. */
  datatype Caller =
    | Idle
    | StopChecked(cmd: nat)
    | StopSignalled(first: nat)
    | AwaitingExit(ch: nat, stopOf: Option<nat>)
    | KillWanted(first: nat)
    | KillChecked(cmd: nat, stopOf: Option<nat>)
    | Finished(ok: bool, call: Call, checked: Option<nat>, waited: Option<nat>)

  /** `children` names the command each monitor was spawned for; no step reads it. */
  datatype Sys = Sys(
    pm: Pm,
    rt: Runtime,
    monitors: seq<Monitor>,
    children: seq<nat>,
    callers: map<nat, Caller>,
    panicked: bool)

  datatype Action =
    | Start(target: string, startOk: bool)
    | SetMedia(image: string)
    | ChildExits(cmd: nat)
    | MonitorReads(m: nat)
    | MonitorReturns(m: nat)
    | MonitorClears(m: nat)
    | MonitorCloses(m: nat)
    | CallStop(t: nat)
    | CallKill(t: nat)
    | CallWait(t: nat)
    | Signal(t: nat)
    | TakeChannel(t: nat)
    | ObserveExit(t: nat)
    | TimeOut(t: nat)
    | RetryKill(t: nat)

  function Init(baseArgs: Args): Sys {
    Sys(NewPm(baseArgs), INITIAL_RUNTIME, [], [], map[], false)
  }

  function CallerOf(s: Sys, t: nat): Caller {
    if t in s.callers then s.callers[t] else Idle
  }

  function WithCaller(s: Sys, t: nat, c: Caller): Sys {
    s.(callers := s.callers[t := c])
  }

  /** Process.Signal fails once the process has been waited for. */
  predicate SignalOk(rt: Runtime, cmd: nat) {
    cmd < |rt.commands| && rt.commands[cmd].process in {Alive, Exited}
  }

  function StartStep(s: Sys, target: string, startOk: bool): Sys {
    var (pm, rt, ok) := StartSection(s.pm, s.rt, target, startOk);
    if s.pm.running || !ok then s.(pm := pm, rt := rt)
    else s.(pm := pm, rt := rt, monitors := s.monitors + [Spawned], children := s.children + [|s.rt.commands|])
  }

  function MonitorStep(s: Sys, a: Action): Sys
    requires a.MonitorReads? || a.MonitorReturns? || a.MonitorClears? || a.MonitorCloses?
  {
    if a.m >= |s.monitors| then s
    else
      match (a, s.monitors[a.m])
      case (MonitorReads(m), Spawned) =>
        // p.cmd is read without the lock; a nil one would be a nil dereference.
        if s.pm.cmd.None? then s.(panicked := true)
        else s.(monitors := s.monitors[m := Waiting(s.pm.cmd.value)])
      case (MonitorReturns(m), Waiting(cmd)) =>
        if cmd < |s.rt.commands| && s.rt.commands[cmd].process.Exited? then
          s.(rt := SetProcess(s.rt, cmd, Reaped), monitors := s.monitors[m := Returned])
        else s
      case (MonitorClears(m), Returned) =>
        var (pm, ch) := ClearSection(s.pm);
        s.(pm := pm, monitors := s.monitors[m := Cleared(ch)])
      case (MonitorCloses(m), Cleared(ch)) =>
        if IsClosed(s.rt, ch) then s.(panicked := true)
        else s.(rt := CloseChannel(s.rt, ch), monitors := s.monitors[m := Done])
      case _ => s
  }

  /** The section shared by Stop and Kill. */
  function Checked(s: Sys, t: nat, call: Call, first: Option<nat>, then_: nat -> Caller): Sys {
    match CheckSection(s.pm)
    case None => WithCaller(s, t, Finished(true, call, first, None))
    case Some(cmd) => WithCaller(s, t, then_(cmd))
  }

  /** Kill has returned, to its caller or to the Stop that called it. */
  function AfterKill(ok: bool, cmd: nat, stopOf: Option<nat>): Caller {
    match stopOf
    case None => Finished(ok, KillCall, Some(cmd), None)
    case Some(first) => Finished(ok, StopCall, Some(first), None)
  }

  function CallerStep(s: Sys, a: Action): Sys
    requires !(a.Start? || a.SetMedia? || a.ChildExits?)
    requires !(a.MonitorReads? || a.MonitorReturns? || a.MonitorClears? || a.MonitorCloses?)
  {
    match (a, CallerOf(s, a.t))
    case (CallStop(t), Idle) => Checked(s, t, StopCall, None, (cmd: nat) => StopChecked(cmd))
    case (CallKill(t), Idle) => Checked(s, t, KillCall, None, (cmd: nat) => KillChecked(cmd, None))
    case (CallWait(t), Idle) => WithCaller(s, t, AwaitingExit(s.pm.exitCh, None))
    case (Signal(t), StopChecked(cmd)) =>
      if SignalOk(s.rt, cmd) then WithCaller(s.(rt := Deliver(s.rt, Term(cmd))), t, StopSignalled(cmd))
      else WithCaller(s, t, Finished(false, StopCall, Some(cmd), None))
    case (Signal(t), KillChecked(cmd, stopOf)) =>
      if SignalOk(s.rt, cmd) then WithCaller(s.(rt := Deliver(s.rt, Kill(cmd))), t, AfterKill(true, cmd, stopOf))
      else WithCaller(s, t, AfterKill(false, cmd, stopOf))
    case (TakeChannel(t), StopSignalled(first)) => WithCaller(s, t, AwaitingExit(s.pm.exitCh, Some(first)))
    case (ObserveExit(t), AwaitingExit(ch, stopOf)) =>
      if IsClosed(s.rt, ch) then WithCaller(s, t, Finished(true, if stopOf.Some? then StopCall else WaitCall, stopOf, Some(ch))) else s
    case (TimeOut(t), AwaitingExit(ch, stopOf)) =>
      WithCaller(s, t, if stopOf.Some? then KillWanted(stopOf.value) else Finished(false, WaitCall, None, Some(ch)))
    case (RetryKill(t), KillWanted(first)) => Checked(s, t, StopCall, Some(first), (cmd: nat) => KillChecked(cmd, Some(first)))
    case _ => s
  }

  /** An action that is not enabled leaves the state alone. */
  function Step(s: Sys, a: Action): Sys {
    if s.panicked then s
    else
      match a
      case Start(target, startOk) => StartStep(s, target, startOk)
      case SetMedia(image) => s.(pm := s.pm.(media := image))
      case ChildExits(cmd) =>
        if cmd < |s.rt.commands| && s.rt.commands[cmd].process.Alive? then s.(rt := SetProcess(s.rt, cmd, Exited)) else s
      case MonitorReads(_) => MonitorStep(s, a)
      case MonitorReturns(_) => MonitorStep(s, a)
      case MonitorClears(_) => MonitorStep(s, a)
      case MonitorCloses(_) => MonitorStep(s, a)
      case _ => CallerStep(s, a)
  }

  function Run(s: Sys, schedule: seq<Action>): Sys {
    if schedule == [] then s else Step(Run(s, schedule[..|schedule| - 1]), schedule[|schedule| - 1])
  }

  // ----- the invariant -----

  predicate InFlight(m: Monitor) {
    m.Spawned? || m.Waiting? || m.Returned?
  }

  /** Monitor g, its child and its channel g+1: the generation's life, step by step. */
  ghost predicate GenerationOk(s: Sys, g: nat)
    requires g < |s.monitors| == |s.children|
  {
    var cmd, ch := s.children[g], g + 1;
    && cmd < |s.rt.commands|
    && ch < |s.rt.channels|
    && match s.monitors[g]
       case Spawned => s.rt.commands[cmd].process in {Alive, Exited} && !s.rt.channels[ch]
       case Waiting(c) => c == cmd && s.rt.commands[cmd].process in {Alive, Exited} && !s.rt.channels[ch]
       case Returned => s.rt.commands[cmd].process == Reaped && !s.rt.channels[ch]
       case Cleared(c) => c == ch && s.rt.commands[cmd].process == Reaped && !s.rt.channels[ch]
       case Done => s.rt.commands[cmd].process == Reaped && s.rt.channels[ch]
  }

  predicate Started(rt: Runtime, cmd: nat) {
    cmd < |rt.commands| && rt.commands[cmd].process != NotStarted
  }

  predicate IsReaped(rt: Runtime, cmd: nat) {
    cmd < |rt.commands| && rt.commands[cmd].process == Reaped
  }

  /** A Stop past its first signal has sent SIGTERM. A wait that ended well ended on a closed
      channel; a Stop or Kill that ended well and had found a command has seen to it. */
  ghost predicate CallerOk(s: Sys, c: Caller) {
    match c
    case Idle => true
    case StopChecked(cmd) => Started(s.rt, cmd)
    case StopSignalled(first) => Started(s.rt, first) && Term(first) in s.rt.signals
    case AwaitingExit(ch, stopOf) =>
      && ch < |s.rt.channels|
      && (stopOf.Some? ==>
            && Started(s.rt, stopOf.value) && Term(stopOf.value) in s.rt.signals
            && (IsReaped(s.rt, stopOf.value) || ch == s.pm.exitCh))
    case KillWanted(first) => Started(s.rt, first) && Term(first) in s.rt.signals
    case KillChecked(cmd, stopOf) =>
      && Started(s.rt, cmd)
      && (stopOf.Some? ==>
            && Started(s.rt, stopOf.value) && Term(stopOf.value) in s.rt.signals
            && (cmd == stopOf.value || IsReaped(s.rt, stopOf.value)))
    case Finished(ok, call, checked, waited) =>
      ok ==>
        match call
        case WaitCall => waited.Some? && IsClosed(s.rt, waited.value)
        case StopCall => checked.Some? ==> StopDone(s.rt, checked.value)
        case KillCall => checked.Some? ==> Kill(checked.value) in s.rt.signals
  }

  predicate StopDone(rt: Runtime, cmd: nat) {
    Term(cmd) in rt.signals && (IsReaped(rt, cmd) || Kill(cmd) in rt.signals)
  }

  ghost predicate Invariant(s: Sys) {
    && !s.panicked
    && |s.monitors| == |s.children|
    && |s.rt.channels| == |s.monitors| + 1
    && !s.rt.channels[0]
    && s.pm.exitCh == |s.monitors|
    && (forall g :: 0 <= g < |s.monitors| ==> GenerationOk(s, g))
    // each child has its own command, and a command without a monitor never became a process
    && (forall g, h :: 0 <= g < h < |s.children| ==> s.children[g] != s.children[h])
    && (forall k :: 0 <= k < |s.rt.commands| && k !in s.children ==> s.rt.commands[k].process == NotStarted)
    // only the newest monitor can be in flight, and it is exactly while `running` is set
    && (forall g :: 0 <= g < |s.monitors| && InFlight(s.monitors[g]) ==> g == |s.monitors| - 1 && s.pm.running)
    && (s.pm.running ==>
          && |s.monitors| > 0
          && InFlight(s.monitors[|s.monitors| - 1])
          && s.pm.cmd == Some(s.children[|s.children| - 1]))
    && (forall t :: t in s.callers ==> CallerOk(s, s.callers[t]))
  }

  /** A child that was started and is not yet reaped is the one that is running. */
  lemma UnreapedIsCurrent(s: Sys, cmd: nat)
    requires Invariant(s) && Started(s.rt, cmd) && !IsReaped(s.rt, cmd)
    ensures |s.monitors| > 0 && cmd == s.children[|s.monitors| - 1] && s.pm.running
    ensures s.pm.cmd == Some(cmd) && !IsClosed(s.rt, s.pm.exitCh)
  {
    assert cmd in s.children;
    var g :| 0 <= g < |s.children| && s.children[g] == cmd;
    assert GenerationOk(s, g);
    assert InFlight(s.monitors[g]);
  }

  lemma CallersOutliveStart(s: Sys, target: string, startOk: bool)
    requires Invariant(s) && !s.pm.running
    ensures var s' := StartStep(s, target, startOk);
      forall t :: t in s'.callers ==> CallerOk(s', s'.callers[t])
  {
    var s' := StartStep(s, target, startOk);
    assert forall k :: 0 <= k < |s.rt.commands| ==> s'.rt.commands[k] == s.rt.commands[k];
    forall t | t in s'.callers ensures CallerOk(s', s'.callers[t]) {
      var c := s.callers[t];
      assert CallerOk(s, c);
      if c.AwaitingExit? && c.stopOf.Some? && !IsReaped(s.rt, c.stopOf.value) {
        UnreapedIsCurrent(s, c.stopOf.value);
      }
    }
  }

  lemma StartKeeps(s: Sys, target: string, startOk: bool)
    requires Invariant(s)
    ensures Invariant(StartStep(s, target, startOk))
  {
    var s' := StartStep(s, target, startOk);
    if !s.pm.running {
      CallersOutliveStart(s, target, startOk);
      var n := |s.monitors|;
      forall k | 0 <= k < |s.rt.commands| ensures s'.rt.commands[k] == s.rt.commands[k] {
      }
      forall g | 0 <= g < n ensures GenerationOk(s', g) {
        assert GenerationOk(s, g);
      }
      if startOk {
        assert GenerationOk(s', n);
        assert forall k :: 0 <= k < n ==> s.children[k] in s.children && s.children[k] < |s.rt.commands| by {
          forall k | 0 <= k < n ensures s.children[k] < |s.rt.commands| {
            assert GenerationOk(s, k);
          }
        }
      }
      assert startOk ==> s'.children[n] == |s.rt.commands|;
      assert forall x :: x in s.children ==> x in s'.children;
    }
  }

  /** Changing one child's process and its own monitor, within GenerationOk, keeps the rest. */
  lemma ProcessKeeps(s: Sys, g: nat, process: Process, m: Monitor)
    requires Invariant(s) && g < |s.monitors|
    requires InFlight(s.monitors[g]) && InFlight(m) && process != NotStarted
    requires IsReaped(s.rt, s.children[g]) ==> process == Reaped
    requires var s' := s.(rt := SetProcess(s.rt, s.children[g], process), monitors := s.monitors[g := m]);
      s.children[g] < |s.rt.commands| && GenerationOk(s', g)
    ensures Invariant(s.(rt := SetProcess(s.rt, s.children[g], process), monitors := s.monitors[g := m]))
  {
    var s' := s.(rt := SetProcess(s.rt, s.children[g], process), monitors := s.monitors[g := m]);
    forall h | 0 <= h < |s.monitors| && h != g ensures GenerationOk(s', h) {
      assert GenerationOk(s, h);
      assert s.children[h] != s.children[g];
    }
    forall t | t in s'.callers ensures CallerOk(s', s'.callers[t]) {
      assert CallerOk(s, s.callers[t]);
    }
    assert s.children[g] in s.children;
  }

  lemma ExitKeeps(s: Sys, cmd: nat)
    requires Invariant(s) && cmd < |s.rt.commands| && s.rt.commands[cmd].process == Alive
    ensures Invariant(s.(rt := SetProcess(s.rt, cmd, Exited)))
  {
    assert cmd in s.children;
    var g :| 0 <= g < |s.children| && s.children[g] == cmd;
    assert GenerationOk(s, g);
    var s' := s.(rt := SetProcess(s.rt, cmd, Exited));
    assert s' == s.(rt := SetProcess(s.rt, cmd, Exited), monitors := s.monitors[g := s.monitors[g]]);
    ProcessKeeps(s, g, Exited, s.monitors[g]);
  }

  lemma ReadKeeps(s: Sys, m: nat)
    requires Invariant(s) && m < |s.monitors| && s.monitors[m].Spawned?
    ensures s.pm.cmd == Some(s.children[m])
    ensures Invariant(s.(monitors := s.monitors[m := Waiting(s.children[m])]))
  {
    assert GenerationOk(s, m);
    var cmd := s.children[m];
    var process := s.rt.commands[cmd].process;
    assert SetProcess(s.rt, cmd, process) == s.rt;
    var s' := s.(monitors := s.monitors[m := Waiting(cmd)]);
    assert s' == s.(rt := SetProcess(s.rt, cmd, process), monitors := s.monitors[m := Waiting(cmd)]);
    ProcessKeeps(s, m, process, Waiting(cmd));
  }

  lemma ClearKeeps(s: Sys, m: nat)
    requires Invariant(s) && m < |s.monitors| && s.monitors[m].Returned?
    ensures s.pm.exitCh == m + 1
    ensures Invariant(s.(pm := ClearSection(s.pm).0, monitors := s.monitors[m := Cleared(m + 1)]))
  {
    assert InFlight(s.monitors[m]);
    var s' := s.(pm := ClearSection(s.pm).0, monitors := s.monitors[m := Cleared(m + 1)]);
    forall h | 0 <= h < |s.monitors| ensures GenerationOk(s', h) {
      assert GenerationOk(s, h);
    }
    forall t | t in s'.callers ensures CallerOk(s', s'.callers[t]) {
      assert CallerOk(s, s.callers[t]);
    }
  }

  lemma CloseKeeps(s: Sys, m: nat)
    requires Invariant(s) && m < |s.monitors| && s.monitors[m].Cleared?
    ensures s.monitors[m].ch == m + 1 && !IsClosed(s.rt, m + 1)
    ensures Invariant(s.(rt := CloseChannel(s.rt, m + 1), monitors := s.monitors[m := Done]))
  {
    assert GenerationOk(s, m);
    var s' := s.(rt := CloseChannel(s.rt, m + 1), monitors := s.monitors[m := Done]);
    forall h | 0 <= h < |s.monitors| ensures GenerationOk(s', h) {
      assert GenerationOk(s, h);
    }
    forall t | t in s'.callers ensures CallerOk(s', s'.callers[t]) {
      assert CallerOk(s, s.callers[t]);
    }
  }

  lemma MonitorKeeps(s: Sys, a: Action)
    requires Invariant(s)
    requires a.MonitorReads? || a.MonitorReturns? || a.MonitorClears? || a.MonitorCloses?
    ensures Invariant(MonitorStep(s, a))
  {
    if a.m < |s.monitors| {
      assert GenerationOk(s, a.m);
      match (a, s.monitors[a.m])
      case (MonitorReads(m), Spawned) => ReadKeeps(s, m);
      case (MonitorReturns(m), Waiting(cmd)) =>
        if s.rt.commands[cmd].process.Exited? {
          ProcessKeeps(s, m, Reaped, Returned);
        }
      case (MonitorClears(m), Returned) => ClearKeeps(s, m);
      case (MonitorCloses(m), Cleared(ch)) => CloseKeeps(s, m);
      case _ =>
    }
  }

  lemma CallerKeeps(s: Sys, t: nat, c: Caller)
    requires Invariant(s) && CallerOk(s, c)
    ensures Invariant(WithCaller(s, t, c))
  {
    var s' := WithCaller(s, t, c);
    forall h | 0 <= h < |s.monitors| ensures GenerationOk(s', h) {
      assert GenerationOk(s, h);
    }
    forall u | u in s'.callers ensures CallerOk(s', s'.callers[u]) {
      if u != t {
        assert CallerOk(s, s.callers[u]);
      }
    }
  }

  lemma DeliverKeeps(s: Sys, signal: ProcessManager.Signal)
    requires Invariant(s)
    ensures Invariant(s.(rt := Deliver(s.rt, signal)))
  {
    var s' := s.(rt := Deliver(s.rt, signal));
    forall h | 0 <= h < |s.monitors| ensures GenerationOk(s', h) {
      assert GenerationOk(s, h);
    }
    forall u | u in s'.callers ensures CallerOk(s', s'.callers[u]) {
      assert CallerOk(s, s.callers[u]);
    }
  }

  /** The command a call has checked first, once it has. */
  function First(c: Caller): Option<nat> {
    match c
    case Idle => None
    case StopChecked(cmd) => Some(cmd)
    case StopSignalled(first) => Some(first)
    case AwaitingExit(_, stopOf) => stopOf
    case KillWanted(first) => Some(first)
    case KillChecked(cmd, stopOf) => if stopOf.Some? then stopOf else Some(cmd)
    case Finished(_, _, checked, _) => checked
  }

  function CallOf(c: Caller): Option<Call> {
    match c
    case Idle => None
    case StopChecked(_) => Some(StopCall)
    case StopSignalled(_) => Some(StopCall)
    case AwaitingExit(_, stopOf) => Some(if stopOf.Some? then StopCall else WaitCall)
    case KillWanted(_) => Some(StopCall)
    case KillChecked(_, stopOf) => Some(if stopOf.Some? then StopCall else KillCall)
    case Finished(_, call, _, _) => Some(call)
  }

  /** The command a caller is about to signal has always been started. */
  lemma CheckedIsStarted(s: Sys)
    requires Invariant(s) && CheckSection(s.pm).Some?
    ensures var cmd := CheckSection(s.pm).value; cmd < |s.rt.commands| && s.rt.commands[cmd].process != NotStarted
  {
    assert GenerationOk(s, |s.monitors| - 1);
  }

  lemma FirstIsSeenTo(s: Sys, t: nat)
    requires Invariant(s) && First(CallerOf(s, t)).Some?
    ensures var first := First(CallerOf(s, t)).value;
      CallerOf(s, t).Finished? || IsReaped(s.rt, first)
      || (s.pm.running && s.pm.cmd == Some(first) && !IsClosed(s.rt, s.pm.exitCh))
  {
    var c := CallerOf(s, t);
    assert CallerOk(s, c);
    if !c.Finished? && !IsReaped(s.rt, First(c).value) {
      UnreapedIsCurrent(s, First(c).value);
    }
  }

  lemma SignalKeeps(s: Sys, t: nat)
    requires Invariant(s)
    ensures Invariant(CallerStep(s, Signal(t)))
  {
    var s' := CallerStep(s, Signal(t));
    var c := CallerOf(s, t);
    assert CallerOk(s, c);
    if (c.StopChecked? || c.KillChecked?) && SignalOk(s.rt, c.cmd) {
      var signal := if c.StopChecked? then Term(c.cmd) else Kill(c.cmd);
      DeliverKeeps(s, signal);
      CallerKeeps(s.(rt := Deliver(s.rt, signal)), t, s'.callers[t]);
    } else if s' != s {
      CallerKeeps(s, t, s'.callers[t]);
    }
  }

  lemma CallsKeep(s: Sys, a: Action)
    requires Invariant(s)
    requires !(a.Start? || a.SetMedia? || a.ChildExits?)
    requires !(a.MonitorReads? || a.MonitorReturns? || a.MonitorClears? || a.MonitorCloses?)
    ensures Invariant(CallerStep(s, a))
  {
    if a.Signal? {
      SignalKeeps(s, a.t);
    } else {
      var s' := CallerStep(s, a);
      assert CallerOk(s, CallerOf(s, a.t));
      if First(CallerOf(s, a.t)).Some? {
        FirstIsSeenTo(s, a.t);
      }
      if CheckSection(s.pm).Some? {
        CheckedIsStarted(s);
      }
      if s' != s {
        assert s' == WithCaller(s, a.t, s'.callers[a.t]);
        CallerKeeps(s, a.t, s'.callers[a.t]);
      }
    }
  }

  lemma StepKeeps(s: Sys, a: Action)
    requires Invariant(s)
    ensures Invariant(Step(s, a))
  {
    match a
    case Start(target, startOk) => StartKeeps(s, target, startOk);
    case SetMedia(image) => MediaKeeps(s, image);
    case ChildExits(cmd) =>
      if cmd < |s.rt.commands| && s.rt.commands[cmd].process.Alive? {
        ExitKeeps(s, cmd);
      }
    case MonitorReads(_) => MonitorKeeps(s, a);
    case MonitorReturns(_) => MonitorKeeps(s, a);
    case MonitorClears(_) => MonitorKeeps(s, a);
    case MonitorCloses(_) => MonitorKeeps(s, a);
    case _ => CallsKeep(s, a);
  }

  lemma MediaKeeps(s: Sys, image: string)
    requires Invariant(s)
    ensures Invariant(s.(pm := s.pm.(media := image)))
  {
    var s' := s.(pm := s.pm.(media := image));
    forall h | 0 <= h < |s.monitors| ensures GenerationOk(s', h) {
      assert GenerationOk(s, h);
    }
    forall t | t in s'.callers ensures CallerOk(s', s'.callers[t]) {
      assert CallerOk(s, s.callers[t]);
    }
  }

  /** Whatever runs, in whatever order, from any state in which the invariant holds. */
  lemma {:induction false} EveryInterleaving(s: Sys, schedule: seq<Action>)
    requires Invariant(s)
    ensures Invariant(Run(s, schedule))
  {
    if schedule != [] {
      EveryInterleaving(s, schedule[..|schedule| - 1]);
      StepKeeps(Run(s, schedule[..|schedule| - 1]), schedule[|schedule| - 1]);
    }
  }

  // ----- what every interleaving promises -----

  ghost predicate Reachable(s: Sys) {
    exists baseArgs, schedule :: s == Run(Init(baseArgs), schedule)
  }

  lemma ReachableInvariant(s: Sys)
    requires Reachable(s)
    ensures Invariant(s)
  {
    var baseArgs, schedule :| s == Run(Init(baseArgs), schedule);
    EveryInterleaving(Init(baseArgs), schedule);
  }

  predicate Unreaped(c: Command) {
    c.process.Alive? || c.process.Exited?
  }

  /** Nothing panics: a monitor about to read the command finds one, and one about to close its
      channel finds it open. At most one
      child is unreaped. While `running` is set there is exactly one monitor that has not yet
      cleared it, and the command and exit channel in the manager are that monitor's. A closed
      current channel means not running. */
  lemma LifecycleSafety(s: Sys)
    requires Reachable(s)
    ensures
      && !s.panicked
      && |s.monitors| == |s.children|
      && (forall m :: 0 <= m < |s.monitors| && s.monitors[m].Spawned? ==> s.pm.cmd.Some?)
      && (forall m :: 0 <= m < |s.monitors| && s.monitors[m].Cleared? ==> !IsClosed(s.rt, s.monitors[m].ch))
      && (forall i, j | 0 <= i < |s.rt.commands| && 0 <= j < |s.rt.commands| ::
            Unreaped(s.rt.commands[i]) && Unreaped(s.rt.commands[j]) ==> i == j)
      && (s.pm.running ==>
            && |s.monitors| > 0
            && (forall g :: 0 <= g < |s.monitors| ==> (InFlight(s.monitors[g]) <==> g == |s.monitors| - 1))
            && s.pm.cmd == Some(s.children[|s.monitors| - 1])
            && s.pm.exitCh == |s.monitors|)
      && (IsClosed(s.rt, s.pm.exitCh) ==> !s.pm.running)
      && ((exists i :: 0 <= i < |s.rt.commands| && Unreaped(s.rt.commands[i])) ==> s.pm.running)
  {
    ReachableInvariant(s);
    forall i | 0 <= i < |s.rt.commands| && Unreaped(s.rt.commands[i])
      ensures |s.monitors| > 0 && i == s.children[|s.monitors| - 1] && s.pm.running
    {
      UnreapedIsCurrent(s, i);
    }
    forall m | 0 <= m < |s.monitors|
      ensures s.monitors[m].Spawned? ==> s.pm.cmd.Some?
      ensures s.monitors[m].Cleared? ==> !IsClosed(s.rt, s.monitors[m].ch)
    {
      assert GenerationOk(s, m);
    }
    if s.pm.running {
      assert GenerationOk(s, |s.monitors| - 1);
    }
  }

  /** The command that a step signals. */
  function Signalled(s: Sys, a: Action): Option<nat> {
    var signals := Step(s, a).rt.signals;
    if |signals| > |s.rt.signals| then Some(signals[|s.rt.signals|].cmd) else None
  }

  /** A signal that is delivered goes to the child of the running generation, never to one
      already waited for, and it is the command of the latest check before it. */
  lemma SignalsReachCurrentChild(s: Sys, a: Action)
    requires Reachable(s) && Step(s, a).rt.signals != s.rt.signals
    ensures |Step(s, a).rt.signals| == |s.rt.signals| + 1 && s.rt.signals <= Step(s, a).rt.signals
    ensures var cmd := Step(s, a).rt.signals[|s.rt.signals|].cmd;
      && cmd < |s.rt.commands| && Unreaped(s.rt.commands[cmd])
      && s.pm.running && s.pm.cmd == Some(cmd)
      && a.Signal? && (CallerOf(s, a.t).StopChecked? || CallerOf(s, a.t).KillChecked?) && CallerOf(s, a.t).cmd == cmd
  {
    ReachableInvariant(s);
    var cmd := Step(s, a).rt.signals[|s.rt.signals|].cmd;
    UnreapedIsCurrent(s, cmd);
  }

  /** Stop checks again before it kills, so its signals need not go to the command it first
      checked: they do exactly as long as that command has not been reaped. */
  lemma SignalReachesFirstIff(s: Sys, t: nat)
    requires Reachable(s) && Signalled(s, Signal(t)).Some?
    ensures First(CallerOf(s, t)).Some?
    ensures var first := First(CallerOf(s, t)).value;
      Signalled(s, Signal(t)).value == first <==> !IsReaped(s.rt, first)
  {
    ReachableInvariant(s);
    assert CallerOk(s, CallerOf(s, t));
    SignalsReachCurrentChild(s, Signal(t));
    var first := First(CallerOf(s, t)).value;
    if !IsReaped(s.rt, first) {
      UnreapedIsCurrent(s, first);
    }
  }

  /** What a Stop or Kill that returned nil does promise: if it found a command running, that
      command has been sent SIGTERM by a Stop, and SIGKILL unless it was reaped; SIGKILL by a Kill. */
  lemma NilMeansSeenTo(s: Sys, t: nat)
    requires Reachable(s) && CallerOf(s, t).Finished? && CallerOf(s, t).ok && CallerOf(s, t).checked.Some?
    ensures var cmd := CallerOf(s, t).checked.value;
      && (CallerOf(s, t).call == StopCall ==>
            Term(cmd) in s.rt.signals && (IsReaped(s.rt, cmd) || Kill(cmd) in s.rt.signals))
      && (CallerOf(s, t).call == KillCall ==> Kill(cmd) in s.rt.signals)
  {
    ReachableInvariant(s);
    assert CallerOk(s, CallerOf(s, t));
  }

  /** A WaitForExit that returned nil did so on the channel of a generation that is over: its
      monitor has cleared the flag and closed the channel, and its child has been reaped. */
  lemma NilWaitIsReal(s: Sys, t: nat)
    requires Reachable(s) && CallerOf(s, t).Finished? && CallerOf(s, t).ok && CallerOf(s, t).call == WaitCall
    ensures CallerOf(s, t).waited.Some?
    ensures var ch := CallerOf(s, t).waited.value;
      && 1 <= ch <= |s.monitors| == |s.children|
      && IsClosed(s.rt, ch) && s.monitors[ch - 1] == Done
      && IsReaped(s.rt, s.children[ch - 1])
      && (s.pm.running ==> ch < s.pm.exitCh)
  {
    ReachableInvariant(s);
    assert CallerOk(s, CallerOf(s, t));
    ClosedIsOver(s, CallerOf(s, t).waited.value);
  }

  lemma ClosedIsOver(s: Sys, ch: nat)
    requires Invariant(s) && IsClosed(s.rt, ch)
    ensures && 1 <= ch <= |s.monitors| == |s.children|
      && s.monitors[ch - 1] == Done
      && IsReaped(s.rt, s.children[ch - 1])
      && (s.pm.running ==> ch < s.pm.exitCh)
  {
    assert GenerationOk(s, ch - 1);
    if s.pm.running {
      assert GenerationOk(s, |s.monitors| - 1);
    }
  }

  // ----- what a call is, and that it ends -----

  /** A call stays the call it is, on the command it first checked. */
  lemma CallsStay(s: Sys, a: Action, t: nat)
    ensures var c, c' := CallerOf(s, t), CallerOf(Step(s, a), t);
      && (c != Idle ==> CallOf(c') == CallOf(c))
      && (First(c).Some? ==> First(c') == First(c))
      && (c.AwaitingExit? ==> c' == c || c'.KillWanted? || (c'.Finished? && c'.waited == Some(c.ch)))
      && (c.Finished? ==> c' == c)
  {
  }

  /** How the calls begin: Stop and Kill return nil at once exactly when nothing is running, and
      otherwise turn to the manager's command; a wait takes the manager's channel. */
  lemma CallsBegin(s: Sys, t: nat)
    requires !s.panicked && CallerOf(s, t) == Idle && (s.pm.running ==> s.pm.cmd.Some?)
    ensures var c := CallerOf(Step(s, CallStop(t)), t);
      if s.pm.running then c == StopChecked(s.pm.cmd.value) else c.Finished? && c.ok && c.call == StopCall && c.checked == None
    ensures var c := CallerOf(Step(s, CallKill(t)), t);
      if s.pm.running then c == KillChecked(s.pm.cmd.value, None) else c.Finished? && c.ok && c.call == KillCall && c.checked == None
    ensures CallerOf(Step(s, CallWait(t)), t) == AwaitingExit(s.pm.exitCh, None)
  {
  }

  /** How a wait ends: well exactly on a closed channel; with an error on a timeout. */
  lemma WaitEnds(s: Sys, t: nat)
    requires !s.panicked && CallerOf(s, t).AwaitingExit? && CallerOf(s, t).stopOf.None?
    ensures var seen, late := CallerOf(Step(s, ObserveExit(t)), t), CallerOf(Step(s, TimeOut(t)), t);
      && (IsClosed(s.rt, CallerOf(s, t).ch) <==> seen.Finished?) && (seen.Finished? ==> seen.ok)
      && late.Finished? && !late.ok
  {
  }

  /** A signal that cannot be delivered is an error. */
  lemma FailedSignalIsError(s: Sys, t: nat)
    requires !s.panicked && (CallerOf(s, t).StopChecked? || CallerOf(s, t).KillChecked?)
    ensures var c, s' := CallerOf(s, t), Step(s, Signal(t));
      if Signalled(s, Signal(t)).None? then
        CallerOf(s', t).Finished? && !CallerOf(s', t).ok && s'.rt == s.rt
      else
        && s'.rt.signals == s.rt.signals + [if c.StopChecked? then Term(c.cmd) else Kill(c.cmd)]
        && (c.KillChecked? ==> CallerOf(s', t).Finished? && CallerOf(s', t).ok)
  {
  }

  /** No call hangs: one that has not returned can always take a step. */
  lemma CallersNeverStuck(s: Sys, t: nat)
    requires !s.panicked && CallerOf(s, t) != Idle && !CallerOf(s, t).Finished?
    ensures exists a :: CallerOf(Step(s, a), t) != CallerOf(s, t)
  {
    var a := match CallerOf(s, t)
      case StopChecked(_) => Signal(t)
      case StopSignalled(_) => TakeChannel(t)
      case AwaitingExit(_, _) => TimeOut(t)
      case KillWanted(_) => RetryKill(t)
      case _ => Signal(t);
    assert CallerOf(Step(s, a), t) != CallerOf(s, t);
  }

  /** Start: nothing while a child is running; otherwise a new child with the target and medium in
      force, its monitor and a fresh channel, or an error that leaves nothing running. */
  lemma StartStarts(s: Sys, target: string, startOk: bool)
    requires Reachable(s)
    ensures var s' := Step(s, Start(target, startOk));
      && s'.rt.signals == s.rt.signals && s'.callers == s.callers
      && (s.pm.running ==> s' == s)
      && (!s.pm.running && !startOk ==> !s'.pm.running && s'.monitors == s.monitors && s'.children == s.children)
      && (!s.pm.running && startOk ==>
            && s'.pm.running && s'.pm.cmd == Some(|s.rt.commands|) && s'.monitors == s.monitors + [Spawned]
            && s'.children == s.children + [|s.rt.commands|] && |s'.rt.commands| == |s.rt.commands| + 1
            && s'.rt.commands[|s.rt.commands|]
               == Command(target, WithMedia(Override(s.pm.baseArgs, target), s.pm.media), Alive)
            && s'.pm.exitCh == |s.rt.channels| && s'.rt.channels == s.rt.channels + [false])
  {
    ReachableInvariant(s);
  }

  lemma ReachableStep(s: Sys, a: Action)
    requires Reachable(s)
    ensures Reachable(Step(s, a))
  {
    var baseArgs, schedule :| s == Run(Init(baseArgs), schedule);
    assert (schedule + [a])[..|schedule|] == schedule;
    assert Run(Init(baseArgs), schedule + [a]) == Step(s, a);
  }

  lemma OnlySetMediaSets(s: Sys, a: Action)
    requires !a.SetMedia?
    ensures Step(s, a).pm.media == s.pm.media && Step(s, a).pm.baseArgs == s.pm.baseArgs
  {
  }

  /** Setting a medium changes nothing else, and whatever runs next it stays set, so that the next
      start takes it (StartStarts). */
  lemma {:induction false} MediaLasts(s: Sys, image: string, schedule: seq<Action>)
    requires Reachable(s) && forall a :: a in schedule ==> !a.SetMedia?
    ensures Step(s, SetMedia(image)) == s.(pm := s.pm.(media := image))
    ensures var s' := Run(Step(s, SetMedia(image)), schedule);
      Reachable(s') && s'.pm.media == image && s'.pm.baseArgs == s.pm.baseArgs
  {
    ReachableInvariant(s);
    if schedule == [] {
      ReachableStep(s, SetMedia(image));
    } else {
      var before := Run(Step(s, SetMedia(image)), schedule[..|schedule| - 1]);
      MediaLasts(s, image, schedule[..|schedule| - 1]);
      ReachableStep(before, schedule[|schedule| - 1]);
      OnlySetMediaSets(before, schedule[|schedule| - 1]);
    }
  }

  /** A live child can exit at any time. */
  lemma ChildMayExit(s: Sys, cmd: nat)
    requires !s.panicked && cmd < |s.rt.commands| && s.rt.commands[cmd].process == Alive
    ensures Step(s, ChildExits(cmd)).rt.commands == s.rt.commands[cmd := s.rt.commands[cmd].(process := Exited)]
  {
  }

  // ----- a Stop that kills the generation after the one it was called for -----

  /** Stop is called and sends SIGTERM to the first child. */
  function StopRunning(target: string): seq<Action> {
    [Start(target, true), MonitorReads(0), CallStop(1), Signal(1)]
  }

  /** That child exits and is reaped. */
  function FirstExits(): seq<Action> {
    [ChildExits(0), MonitorReturns(0), MonitorClears(0), MonitorCloses(0)]
  }

  /** Another caller starts the next one; only now does Stop take a channel, time out and kill. */
  function StartAndKill(target: string): seq<Action> {
    [Start(target, true), TakeChannel(1), TimeOut(1), RetryKill(1), Signal(1)]
  }

  function RunFrom(s: Sys, schedule: seq<Action>): Sys
    decreases |schedule|
  {
    if schedule == [] then s else RunFrom(Step(s, schedule[0]), schedule[1..])
  }

  lemma {:induction false} RunIsRunFrom(s: Sys, done: seq<Action>, rest: seq<Action>)
    ensures Run(s, done + rest) == RunFrom(Run(s, done), rest)
    decreases |rest|
  {
    if rest == [] {
      assert done + rest == done;
    } else {
      var done' := done + [rest[0]];
      assert done'[..|done|] == done;
      assert done + rest == done' + rest[1..];
      RunIsRunFrom(s, done', rest[1..]);
    }
  }

  lemma RunFromCons(s: Sys, a: Action, rest: seq<Action>)
    ensures RunFrom(s, [a] + rest) == RunFrom(Step(s, a), rest)
  {
    assert ([a] + rest)[1..] == rest;
  }

  /** After SIGTERM, with the first child still up; and once it is gone. */
  ghost predicate FirstSignalled(s: Sys) {
    && !s.panicked && s.pm.running && s.pm.cmd == Some(0) && s.pm.exitCh == 1
    && |s.rt.commands| == 1 && s.rt.commands[0].process == Alive && s.rt.channels == [false, false]
    && s.monitors == [Waiting(0)] && s.rt.signals == [Term(0)]
    && CallerOf(s, 1) == StopSignalled(0)
  }

  ghost predicate FirstDown(s: Sys) {
    && !s.panicked && !s.pm.running && |s.rt.commands| == 1 && s.rt.signals == [Term(0)]
    && CallerOf(s, 1) == StopSignalled(0)
  }

  lemma ReachesSignalled(baseArgs: Args, target: string)
    ensures FirstSignalled(RunFrom(Init(baseArgs), StopRunning(target)))
  {
    var s0 := Init(baseArgs);
    var s1 := Step(s0, Start(target, true));
    var s2 := Step(s1, MonitorReads(0));
    var s3 := Step(s2, CallStop(1));
    var s4 := Step(s3, Signal(1));
    assert s1.monitors == [Spawned] && s1.pm.cmd == Some(0) && s1.rt.commands[0].process == Alive;
    assert s2.monitors == [Waiting(0)];
    assert s3.callers[1] == StopChecked(0);
    assert FirstSignalled(s4);
    var r4: seq<Action> := [];
    var r3 := [Signal(1)] + r4;
    var r2 := [CallStop(1)] + r3;
    var r1 := [MonitorReads(0)] + r2;
    var r0 := [Start(target, true)] + r1;
    assert StopRunning(target) == r0;
    RunFromCons(s0, Start(target, true), r1);
    RunFromCons(s1, MonitorReads(0), r2);
    RunFromCons(s2, CallStop(1), r3);
    RunFromCons(s3, Signal(1), r4);
  }

  lemma ReachesDown(s0: Sys)
    requires FirstSignalled(s0)
    ensures FirstDown(RunFrom(s0, FirstExits()))
  {
    var s1 := Step(s0, ChildExits(0));
    var s2 := Step(s1, MonitorReturns(0));
    var s3 := Step(s2, MonitorClears(0));
    var s4 := Step(s3, MonitorCloses(0));
    assert s1.rt.commands[0].process == Exited && s1.monitors == [Waiting(0)];
    assert s2.rt.commands[0].process == Reaped && s2.monitors == [Returned];
    assert s3.monitors == [Cleared(1)] && !s3.pm.running;
    assert FirstDown(s4);
    var r4: seq<Action> := [];
    var r3 := [MonitorCloses(0)] + r4;
    var r2 := [MonitorClears(0)] + r3;
    var r1 := [MonitorReturns(0)] + r2;
    var r0 := [ChildExits(0)] + r1;
    assert FirstExits() == r0;
    RunFromCons(s0, ChildExits(0), r1);
    RunFromCons(s1, MonitorReturns(0), r2);
    RunFromCons(s2, MonitorClears(0), r3);
    RunFromCons(s3, MonitorCloses(0), r4);
  }

  lemma ReachesSecond(s0: Sys, target: string)
    requires FirstDown(s0)
    ensures var s := RunFrom(s0, StartAndKill(target));
      s.rt.signals == [Term(0), Kill(1)] && CallerOf(s, 1) == Finished(true, StopCall, Some(0), None)
  {
    var s1 := Step(s0, Start(target, true));
    var s2 := Step(s1, TakeChannel(1));
    var s3 := Step(s2, TimeOut(1));
    var s4 := Step(s3, RetryKill(1));
    var s5 := Step(s4, Signal(1));
    assert s1.pm.running && s1.pm.cmd == Some(1) && s1.rt.commands[1].process == Alive;
    assert s2.callers[1] == AwaitingExit(s1.pm.exitCh, Some(0));
    assert s3.callers[1] == KillWanted(0);
    assert s4.callers[1] == KillChecked(1, Some(0));
    assert s5.rt.signals == [Term(0)] + [Kill(1)];
    var r5: seq<Action> := [];
    var r4 := [Signal(1)] + r5;
    var r3 := [RetryKill(1)] + r4;
    var r2 := [TimeOut(1)] + r3;
    var r1 := [TakeChannel(1)] + r2;
    var r0 := [Start(target, true)] + r1;
    assert StartAndKill(target) == r0;
    RunFromCons(s0, Start(target, true), r1);
    RunFromCons(s1, TakeChannel(1), r2);
    RunFromCons(s2, TimeOut(1), r3);
    RunFromCons(s3, RetryKill(1), r4);
    RunFromCons(s4, Signal(1), r5);
  }

  /** One Stop, called while the first child was running, SIGKILLs the second and returns nil. */
  lemma StopKillsLaterGeneration(baseArgs: Args, target1: string, target2: string)
    returns (schedule: seq<Action>, s: Sys)
    ensures schedule == StopRunning(target1) + FirstExits() + StartAndKill(target2)
    ensures s == Run(Init(baseArgs), schedule)
    ensures s.rt.signals == [Term(0), Kill(1)] && CallerOf(s, 1) == Finished(true, StopCall, Some(0), None)
  {
    schedule := StopRunning(target1) + FirstExits() + StartAndKill(target2);
    var s0 := Init(baseArgs);
    s := Run(s0, schedule);
    var a, b, c := StopRunning(target1), FirstExits(), StartAndKill(target2);
    ReachesSignalled(baseArgs, target1);
    ReachesDown(RunFrom(s0, a));
    ReachesSecond(RunFrom(RunFrom(s0, a), b), target2);
    RunIsRunFrom(s0, [], a);
    assert [] + a == a;
    RunIsRunFrom(s0, a, b);
    RunIsRunFrom(s0, a + b, c);
  }

  /** A wait that can report an exit took the channel of some generation: its child has been
      reaped and its monitor has cleared the flag, so nothing is running unless a newer
      generation has been started since. The constructor's channel never reports one. */
  lemma ReportedExitIsReal(s: Sys, t: nat)
    requires Reachable(s)
    ensures CallerOf(s, t).AwaitingExit? && CallerOf(Step(s, ObserveExit(t)), t).Finished? ==>
      var ch := CallerOf(s, t).ch;
      && 1 <= ch <= |s.monitors| == |s.children|
      && s.monitors[ch - 1] == Done
      && IsReaped(s.rt, s.children[ch - 1])
      && (s.pm.running ==> ch < s.pm.exitCh)
  {
    ReachableInvariant(s);
    if CallerOf(s, t).AwaitingExit? && IsClosed(s.rt, CallerOf(s, t).ch) {
      ClosedIsOver(s, CallerOf(s, t).ch);
    }
  }

  /** Closing happens after clearing: at the moment a monitor closes its channel, the manager is
      not running that generation. */
  lemma ClearedBeforeClose(s: Sys, m: nat)
    requires Reachable(s)
    requires Step(s, MonitorCloses(m)).rt != s.rt
    ensures
      && m < |s.monitors| && s.monitors[m] == Cleared(m + 1)
      && !IsClosed(s.rt, m + 1)
      && (s.pm.running ==> s.pm.exitCh != m + 1)
  {
    ReachableInvariant(s);
    CloseKeeps(s, m);
    assert GenerationOk(s, m);
  }

  /** A wait begun before the first Start times out or goes on for ever. */
  lemma InitialChannelStaysOpen(s: Sys)
    requires Reachable(s)
    ensures |s.rt.channels| > 0 && !s.rt.channels[0]
  {
    ReachableInvariant(s);
  }

  /** Nothing gets stuck: a monitor that is not done can take its next step, unless it is inside
      Wait for a child that is still alive. */
  lemma MonitorNeverStuck(s: Sys, g: nat)
    requires Reachable(s) && g < |s.monitors|
    ensures
      || s.monitors[g] == Done
      || (exists a :: Step(s, a).monitors != s.monitors && |Step(s, a).monitors| == |s.monitors|
            && Step(s, a).monitors[g] != s.monitors[g])
      || (g < |s.children| && s.children[g] < |s.rt.commands| && s.rt.commands[s.children[g]].process == Alive)
  {
    ReachableInvariant(s);
    assert GenerationOk(s, g);
    var a := match s.monitors[g]
      case Spawned => MonitorReads(g)
      case Waiting(_) => MonitorReturns(g)
      case Returned => MonitorClears(g)
      case Cleared(_) => MonitorCloses(g)
      case Done => MonitorCloses(g);
    if s.monitors[g].Spawned? {
      ReadKeeps(s, g);
    }
    if s.monitors[g] != Done && s.rt.commands[s.children[g]].process != Alive {
      assert Step(s, a).monitors[g] != s.monitors[g];
    }
  }

  /** The sequential contract of the Manager class is a consequence: every reachable state in
      which no monitor is between two steps is Consistent. */
  lemma ReachableIsConsistent(s: Sys)
    requires Reachable(s)
    requires forall g :: 0 <= g < |s.monitors| ==> !s.monitors[g].Returned?
    ensures Consistent(s.pm, s.rt)
  {
    ReachableInvariant(s);
    if s.pm.running {
      assert GenerationOk(s, |s.monitors| - 1);
    }
  }
}
