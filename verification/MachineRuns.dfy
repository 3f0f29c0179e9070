/**
 What resets and runs of them promise: the generations they launch and with which target, when
 a restart starts one, and how far a one-shot boot override reaches.
 */
module MachineRuns {
  import opened Wrappers
  import opened QemuArgs
  import opened ProcessManager
  import opened Machine

  // ----- launches -----

  function Launched(commands: seq<Command>): seq<string> {
    if commands == [] then []
    else
      var n := |commands| - 1;
      Launched(commands[..n]) + (if commands[n].process.NotStarted? then [] else [commands[n].target])
  }

  /** The boot targets of every generation started so far, in order. */
  function Launches(st: State): seq<string> {
    Launched(st.rt.commands)
  }

  lemma {:induction false} LaunchedIgnoresReaping(commands: seq<Command>, k: nat)
    requires k < |commands| && !commands[k].process.NotStarted?
    ensures Launched(commands[k := commands[k].(process := Reaped)]) == Launched(commands)
  {
    var n := |commands| - 1;
    var commands' := commands[k := commands[k].(process := Reaped)];
    if k < n {
      assert commands'[..n] == commands[..n][k := commands[k].(process := Reaped)];
      LaunchedIgnoresReaping(commands[..n], k);
    } else {
      assert commands'[..n] == commands[..n];
    }
  }

  lemma ExitKeepsLaunches(exits: bool, pm: Pm, rt: Runtime)
    requires Consistent(pm, rt)
    ensures var (pm', rt') := ExitIf(exits, pm, rt);
      && Consistent(pm', rt')
      && Launched(rt'.commands) == Launched(rt.commands)
      && (pm'.running <==> pm.running && !exits)
  {
    if exits && pm.running {
      LaunchedIgnoresReaping(rt.commands, pm.cmd.value);
    }
  }

  lemma StartLaunches(pm: Pm, rt: Runtime, target: string, startOk: bool)
    requires Consistent(pm, rt) && !pm.running
    ensures var (pm', rt', ok) := StartSection(pm, rt, target, startOk);
      && Consistent(pm', rt') && ok == startOk && pm'.running == startOk
      && Launched(rt'.commands) == Launched(rt.commands) + (if startOk then [target] else [])
      && (startOk ==> rt'.commands[|rt.commands|].args == WithMedia(Override(pm.baseArgs, target), pm.media))
  {
    var rt' := StartSection(pm, rt, target, startOk).1;
    assert rt'.commands[..|rt.commands|] == rt.commands;
  }

  ghost predicate StateOk(st: State) {
    Consistent(st.pm, st.rt)
  }

  /** What a power-on does to the launches and the override. */
  lemma PowerOnEffect(st: State, env: Env)
    requires StateOk(st)
    ensures var (st', ok) := PowerOn(st, env);
      var starts := !(st.pm.running && !env.exitsBeforeCheck);
      && StateOk(st')
      && Launches(st') == Launches(st) + (if starts && env.startOk then [st.bootOverride.target] else [])
      && ok == (!starts || (env.startOk && QmpReady(env.polls)))
      && st'.bootOverride == (if starts && ok then Consumed(st.bootOverride) else st.bootOverride)
  {
    ExitKeepsLaunches(env.exitsBeforeCheck, st.pm, st.rt);
    var (pm, rt) := ExitIf(env.exitsBeforeCheck, st.pm, st.rt);
    if !pm.running {
      StartLaunches(pm, rt, st.bootOverride.target, env.startOk);
      var (pm', rt', _) := StartSection(pm, rt, st.bootOverride.target, env.startOk);
      ExitKeepsLaunches(env.exitsInPolls, pm', rt');
    } else {
      assert Launches(st) + [] == Launches(st);
    }
  }

  /** A power-on that launches a generation returns nil exactly when QMP answers. */
  lemma PowerOnAnswers(st: State, env: Env)
    requires StateOk(st) && Launches(PowerOn(st, env).0) != Launches(st)
    ensures PowerOn(st, env).1 <==> QmpReady(env.polls)
  {
    PowerOnEffect(st, env);
    OneLaunchMore(Launches(st), st.bootOverride.target);
  }

  lemma HardOffEffect(st: State, env: Env)
    requires StateOk(st)
    ensures var (st', _) := HardOff(st, env);
      StateOk(st') && Launches(st') == Launches(st) && st'.bootOverride == st.bootOverride
  {
    ExitKeepsLaunches(env.exitsInWait, st.pm, st.rt);
  }

  /** Reading the power state launches nothing and leaves the override alone. */
  lemma PowerStateEffect(st: State, status: QmpStatus, env: Env)
    requires StateOk(st)
    ensures var (st', on) := PowerState(st, status, env);
      && StateOk(st') && Launches(st') == Launches(st) && st'.bootOverride == st.bootOverride
      && (on ==> st'.pm.running)
  {
    ExitKeepsLaunches(env.exitsInWait, st.pm, st.rt);
  }

  lemma KillAndWaitEffect(st: State, env: Env)
    requires StateOk(st)
    ensures var st' := KillAndWait(st, env).0;
      && StateOk(st') && Launches(st') == Launches(st) && st'.bootOverride == st.bootOverride
      && (st'.pm.running ==> st.pm.running)
  {
    ExitKeepsLaunches(env.exitsInSecondWait, st.pm, st.rt);
  }

  lemma PowerDownEffect(st: State, resetType: ResetType, env: Env)
    requires StateOk(st)
    ensures var (st', _) := PowerDown(st, resetType, env);
      StateOk(st') && Launches(st') == Launches(st) && st'.bootOverride == st.bootOverride
  {
    ExitKeepsLaunches(env.exitsInWait, st.pm, st.rt);
    HardOffEffect(st, env);
    var (pm, rt, _) := WaitSection(st.pm, st.rt, env.exitsInWait);
    KillAndWaitEffect(st.(pm := pm, rt := rt), env);
    KillAndWaitEffect(HardOff(st, env).0, env);
  }

  /** Every reset launches at most one generation, with the target in force; the override only
      changes by a reset that launched one and succeeded, which consumes it. */
  lemma ResetEffect(st: State, resetType: ResetType, env: Env)
    requires StateOk(st)
    ensures var (st', ok) := ResetTo(st, resetType, env);
      && StateOk(st')
      && Launches(st') in {Launches(st), Launches(st) + [st.bootOverride.target]}
      && st'.bootOverride == (if ok && Launches(st') != Launches(st) then Consumed(st.bootOverride) else st.bootOverride)
  {
    if resetType == On || resetType == ForceOn {
      PowerOnEffect(st, env);
    } else if resetType == ForceOff {
      HardOffEffect(st, env);
    } else if resetType == GracefulShutdown {
      ExitKeepsLaunches(env.exitsInWait, st.pm, st.rt);
    } else if resetType == GracefulRestart || resetType == PowerCycle {
      PowerDownEffect(st, resetType, env);
      PowerOnEffect(PowerDown(st, resetType, env).0, env);
    }
    assert Launches(st) + [] == Launches(st);
    assert |Launches(st) + [st.bootOverride.target]| != |Launches(st)|;
  }

  // ----- what each reset leaves, in terms of what it ran into -----

  lemma WaitLeaves(pm: Pm, rt: Runtime, exits: bool)
    requires Consistent(pm, rt)
    ensures var (pm', rt', ok) := WaitSection(pm, rt, exits);
      && (ok <==> IsClosed(rt, pm.exitCh) || (pm.running && exits))
      && (pm'.running <==> pm.running && !exits)
      && rt'.signals == rt.signals && pm'.cmd == pm.cmd
  {
  }

  lemma KillLeaves(pm: Pm, rt: Runtime, killOk: bool)
    requires Consistent(pm, rt)
    ensures var (rt', ok) := KillSection(pm, rt, killOk);
      && (ok <==> !pm.running || killOk)
      && rt'.signals == rt.signals + (if pm.running && killOk then [Kill(pm.cmd.value)] else [])
      && Consistent(pm, rt')
  {
  }

  lemma StopLeaves(pm: Pm, rt: Runtime, termOk: bool, exits: bool, killOk: bool)
    requires Consistent(pm, rt)
    ensures var (pm', rt', ok) := StopSection(pm, rt, termOk, exits, killOk);
      && (ok <==> !pm.running || (termOk && (exits || killOk)))
      && (pm'.running <==> pm.running && !(termOk && exits))
      && rt'.signals == rt.signals
           + (if pm.running && termOk then [Term(pm.cmd.value)] + (if !exits && killOk then [Kill(pm.cmd.value)] else []) else [])
  {
    if pm.running && termOk {
      var rt1 := Deliver(rt, Term(pm.cmd.value));
      WaitLeaves(pm, rt1, exits);
      var (pm2, rt2, _) := WaitSection(pm, rt1, exits);
      KillLeaves(pm2, rt2, killOk);
      assert !IsClosed(rt1, pm.exitCh);
    } else {
      assert rt.signals + [] == rt.signals;
    }
  }

  /** ForceOff. After a quit that QMP took, the answer is what the wait saw. Otherwise a machine
      that is down needs nothing; one that is up is sent SIGTERM, and SIGKILL if it does not exit
      in time, and the answer is an error exactly when the signal it came down to failed. */
  lemma ForceOffOutcome(st: State, env: Env)
    requires StateOk(st)
    ensures var (st', ok) := ResetTo(st, ForceOff, env);
      && (ok <==>
            if env.quitOk then IsClosed(st.rt, st.pm.exitCh) || (st.pm.running && env.exitsInWait)
            else !st.pm.running || (env.termOk && (env.exitsInWait || env.killOk)))
      && (st'.pm.running <==> st.pm.running && !(env.exitsInWait && (env.quitOk || env.termOk)))
      && st'.rt.signals == st.rt.signals
           + (if st.pm.running && !env.quitOk && env.termOk
              then [Term(st.pm.cmd.value)] + (if !env.exitsInWait && env.killOk then [Kill(st.pm.cmd.value)] else [])
              else [])
      && st'.bootOverride == st.bootOverride
  {
    assert st.rt.signals + [] == st.rt.signals;
    if env.quitOk {
      WaitLeaves(st.pm, st.rt, env.exitsInWait);
    } else {
      StopLeaves(st.pm, st.rt, env.termOk, env.exitsInWait, env.killOk);
    }
  }

  /** So a nil ForceOff leaves nothing running, or the command that was running sent SIGKILL; and
      with QMP and SIGTERM both failing on a machine that is up, it is an error. */
  lemma NilForceOffPowersOff(st: State, env: Env)
    requires StateOk(st)
    ensures var (st', ok) := ResetTo(st, ForceOff, env);
      && (ok && st'.pm.running ==> st.pm.running && Kill(st.pm.cmd.value) in st'.rt.signals)
      && (st.pm.running && !env.quitOk && !env.termOk ==> !ok)
  {
    ForceOffOutcome(st, env);
    if st.pm.running {
      assert Consistent(st.pm, st.rt);
    }
  }

  /** GracefulShutdown is an error exactly when the powerdown is refused; a child that does not
      exit in time is left running, and nothing is signalled. */
  lemma ShutdownOutcome(st: State, env: Env)
    requires StateOk(st)
    ensures var (st', ok) := ResetTo(st, GracefulShutdown, env);
      && (ok <==> env.powerdownOk)
      && (st'.pm.running <==> st.pm.running && !(env.powerdownOk && env.exitsInWait))
      && st'.rt.signals == st.rt.signals && st'.bootOverride == st.bootOverride
  {
    WaitLeaves(st.pm, st.rt, env.exitsInWait);
  }

  /** ForceRestart resets in place; a type that is not supported does nothing. */
  lemma InPlaceOutcome(st: State, env: Env, name: string)
    ensures ResetTo(st, ForceRestart, env) == (st, env.systemResetOk)
    ensures ResetTo(st, Unsupported(name), env) == (st, false)
  {
  }

  lemma QmpReadyIff(polls: seq<bool>)
    ensures QmpReady(polls) <==> exists i :: 0 <= i < |polls| && polls[i]
  {
  }

  /** On and ForceOn: nil on a machine that is up; otherwise one launch, and nil exactly when the
      start succeeded and QMP answered. No signals. */
  lemma OnOutcome(st: State, resetType: ResetType, env: Env)
    requires StateOk(st) && (resetType == On || resetType == ForceOn)
    ensures var (st', ok) := ResetTo(st, resetType, env);
      var up := st.pm.running && !env.exitsBeforeCheck;
      && (ok <==> up || (env.startOk && exists i :: 0 <= i < |env.polls| && env.polls[i]))
      && Launches(st') == Launches(st) + (if !up && env.startOk then [st.bootOverride.target] else [])
      && st'.rt.signals == st.rt.signals
  {
    QmpReadyIff(env.polls);
    PowerOnEffect(st, env);
  }

  /** The signals of a restart: one that timed out waiting for the guest kills the child, if that
      can be done; a PowerCycle tries QMP, then SIGTERM, and kills whatever is left. */
  lemma RestartSignals(st: State, resetType: ResetType, env: Env)
    requires StateOk(st) && IsRestart(resetType)
    ensures var st' := ResetTo(st, resetType, env).0;
      var term := resetType == PowerCycle && !env.quitOk && env.termOk;
      var waits := if resetType == GracefulRestart then env.powerdownOk else env.quitOk || env.termOk;
      var kills := if resetType == GracefulRestart then env.powerdownOk && env.killAgainOk
                   else env.killAgainOk || (term && env.killOk);
      st'.rt.signals == st.rt.signals
        + (if !st.pm.running then []
           else (if term then [Term(st.pm.cmd.value)] else [])
                + (if !(waits && env.exitsInWait) && kills then [Kill(st.pm.cmd.value)] else []))
  {
    if resetType == GracefulRestart {
      GracefulSignals(st, env);
    } else {
      CycleSignals(st, env);
    }
  }

  lemma PowerOnSignals(st: State, env: Env)
    ensures PowerOn(st, env).0.rt.signals == st.rt.signals
  {
  }

  lemma KillAndWaitLeaves(st: State, env: Env)
    requires StateOk(st)
    ensures KillAndWait(st, env).0.rt.signals
      == st.rt.signals + (if st.pm.running && env.killAgainOk then [Kill(st.pm.cmd.value)] else [])
  {
    KillLeaves(st.pm, st.rt, env.killAgainOk);
    WaitLeaves(st.pm, KillSection(st.pm, st.rt, env.killAgainOk).0, env.exitsInSecondWait);
  }

  lemma GracefulSignals(st: State, env: Env)
    requires StateOk(st)
    ensures ResetTo(st, GracefulRestart, env).0.rt.signals == st.rt.signals
      + (if st.pm.running && env.powerdownOk && !env.exitsInWait && env.killAgainOk then [Kill(st.pm.cmd.value)] else [])
  {
    assert st.rt.signals + [] == st.rt.signals;
    if env.powerdownOk {
      WaitLeaves(st.pm, st.rt, env.exitsInWait);
      var (pm, rt, ok) := WaitSection(st.pm, st.rt, env.exitsInWait);
      var st1 := st.(pm := pm, rt := rt);
      KillAndWaitLeaves(st1, env);
      PowerOnSignals(if ok then st1 else KillAndWait(st1, env).0, env);
    }
  }

  lemma CycleIs(st: State, env: Env)
    ensures var (st1, ok) := HardOff(st, env);
      ResetTo(st, PowerCycle, env) == PowerOn(if ok then st1 else KillAndWait(st1, env).0, env)
  {
  }

  /** What the forced power-off of a PowerCycle sends, and whether the kill after it is needed. */
  lemma CycleOff(st: State, env: Env)
    requires StateOk(st)
    ensures var (st1, ok) := HardOff(st, env);
      && st1.rt.signals == st.rt.signals
           + (if st.pm.running && !env.quitOk && env.termOk
              then [Term(st.pm.cmd.value)] + (if !env.exitsInWait && env.killOk then [Kill(st.pm.cmd.value)] else [])
              else [])
      && (st.pm.running ==>
            (ok <==> if env.quitOk then env.exitsInWait else env.termOk && (env.exitsInWait || env.killOk)))
      && (st1.pm.running <==> st.pm.running && !(env.exitsInWait && (env.quitOk || env.termOk)))
      && st1.pm.cmd == st.pm.cmd && StateOk(st1)
  {
    ForceOffOutcome(st, env);
    HardOffEffect(st, env);
    HardOffCommand(st, env);
    assert ResetTo(st, ForceOff, env) == HardOff(st, env);
  }

  lemma CycleSignals(st: State, env: Env)
    requires StateOk(st)
    ensures ResetTo(st, PowerCycle, env).0.rt.signals == st.rt.signals
      + (if !st.pm.running then []
         else (if !env.quitOk && env.termOk then [Term(st.pm.cmd.value)] else [])
              + (if !((env.quitOk || env.termOk) && env.exitsInWait) && (env.killAgainOk || (!env.quitOk && env.termOk && env.killOk))
                 then [Kill(st.pm.cmd.value)] else []))
  {
    CycleOff(st, env);
    CycleIs(st, env);
    var (st1, ok) := HardOff(st, env);
    KillAndWaitLeaves(st1, env);
    PowerOnSignals(if ok then st1 else KillAndWait(st1, env).0, env);
  }

  lemma HardOffCommand(st: State, env: Env)
    requires StateOk(st)
    ensures HardOff(st, env).0.pm.cmd == st.pm.cmd
  {
  }

  /** Reading the power state: On exactly while a child runs whose guest has not shut down; such a
      guest's process is stopped, and any other is left alone. */
  lemma PowerStateOutcome(st: State, status: QmpStatus, env: Env)
    requires StateOk(st)
    ensures var (st', on) := PowerState(st, status, env);
      && (on <==> st.pm.running && status != Shutdown)
      && (!st.pm.running || status != Shutdown ==> st' == st)
      && (st.pm.running && status == Shutdown ==>
            && (st'.pm.running <==> !(env.termOk && env.exitsInWait))
            && (env.termOk ==> Term(st.pm.cmd.value) in st'.rt.signals)
            && (env.termOk && !env.exitsInWait && env.killOk ==> Kill(st.pm.cmd.value) in st'.rt.signals))
  {
    StopLeaves(st.pm, st.rt, env.termOk, env.exitsInWait, env.killOk);
  }

  /** SetBootOverride takes the five targets and the three modes of enabling, and nothing else. */
  lemma OverrideAccepted(st: State, o: BootOverride)
    ensures var (st', ok) := SetOverride(st, o);
      && (ok <==> (o.target == "None" || o.target == "Pxe" || o.target == "Hdd" || o.target == "Cd" || o.target == "BiosSetup")
                  && (o.enabled == "Disabled" || o.enabled == "Once" || o.enabled == "Continuous"))
      && st' == (if ok then st.(bootOverride := o) else st)
  {
  }

  // ----- restarts -----

  /** The wait inside the forced power-off, if it came to one, reported the exit. */
  predicate HardOffReports(st: State, env: Env) {
    if env.quitOk then WaitSection(st.pm, st.rt, env.exitsInWait).2
    else
      match CheckSection(st.pm)
      case None => false
      case Some(cmd) => env.termOk && WaitSection(st.pm, Deliver(st.rt, Term(cmd)), env.exitsInWait).2
  }

  /** A wait for the exit, in the first or the second place, reported it. */
  predicate ExitObserved(st: State, resetType: ResetType, env: Env) {
    if resetType == GracefulRestart then
      var (pm, rt, ok) := WaitSection(st.pm, st.rt, env.exitsInWait);
      env.powerdownOk && (ok || KillAndWait(st.(pm := pm, rt := rt), env).1)
    else
      var (st', ok) := HardOff(st, env);
      HardOffReports(st, env) || (!ok && KillAndWait(st', env).1)
  }

  /** While the child is running, a wait reports its exit exactly when it is then gone; and a
      child that is gone stays gone. */
  lemma WaitTells(pm: Pm, rt: Runtime, exits: bool)
    requires Consistent(pm, rt)
    ensures var (pm', rt', ok) := WaitSection(pm, rt, exits);
      Consistent(pm', rt') && (pm.running ==> (ok <==> !pm'.running)) && (ok || !pm.running ==> !pm'.running)
  {
    WaitMeansStopped(pm, rt, exits);
  }

  lemma KillAndWaitTells(st: State, env: Env)
    requires StateOk(st)
    ensures var (st', ok) := KillAndWait(st, env);
      (st.pm.running ==> (ok <==> !st'.pm.running)) && (ok || !st.pm.running ==> !st'.pm.running)
  {
    WaitTells(st.pm, KillSection(st.pm, st.rt, env.killAgainOk).0, env.exitsInSecondWait);
  }

  lemma HardOffTells(st: State, env: Env)
    requires StateOk(st)
    ensures var (st', ok) := HardOff(st, env);
      && (st.pm.running ==> (HardOffReports(st, env) <==> !st'.pm.running))
      && (HardOffReports(st, env) ==> ok)
      && (HardOffReports(st, env) || !st.pm.running ==> !st'.pm.running)
  {
    if env.quitOk {
      WaitTells(st.pm, st.rt, env.exitsInWait);
    } else if st.pm.running {
      WaitTells(st.pm, Deliver(st.rt, Term(st.pm.cmd.value)), env.exitsInWait);
    }
  }

  lemma CycleDownTells(st: State, env: Env)
    requires StateOk(st)
    ensures var down := PowerDown(st, PowerCycle, env).0;
      down.pm.running <==> st.pm.running && !ExitObserved(st, PowerCycle, env)
  {
    HardOffTells(st, env);
    HardOffEffect(st, env);
    KillAndWaitTells(HardOff(st, env).0, env);
  }

  lemma GracefulDownTells(st: State, env: Env)
    requires StateOk(st) && env.powerdownOk
    ensures var down := PowerDown(st, GracefulRestart, env).0;
      down.pm.running <==> st.pm.running && !ExitObserved(st, GracefulRestart, env)
  {
    WaitTells(st.pm, st.rt, env.exitsInWait);
    var (pm, rt, ok) := WaitSection(st.pm, st.rt, env.exitsInWait);
    KillAndWaitTells(st.(pm := pm, rt := rt), env);
  }

  predicate IsRestart(resetType: ResetType) {
    resetType == GracefulRestart || resetType == PowerCycle
  }

  /** A restart that returns nil powered on what its power-down left. */
  lemma RestartIsPowerOn(st: State, resetType: ResetType, env: Env)
    requires StateOk(st) && IsRestart(resetType) && ResetTo(st, resetType, env).1
    ensures var down := PowerDown(st, resetType, env).0;
      && ResetTo(st, resetType, env) == PowerOn(down, env)
      && (down.pm.running <==> st.pm.running && !ExitObserved(st, resetType, env))
  {
    if resetType == PowerCycle {
      CycleDownTells(st, env);
    } else {
      GracefulDownTells(st, env);
    }
  }

  /** A power-on of a stopped machine that returns nil. */
  lemma PowerOnFromStopped(st: State, env: Env)
    requires StateOk(st) && !st.pm.running && PowerOn(st, env).1
    ensures var st' := PowerOn(st, env).0;
      && Launches(st') == Launches(st) + [st.bootOverride.target]
      && st'.bootOverride == Consumed(st.bootOverride)
      && (st'.pm.running <==> !env.exitsInPolls)
  {
    PowerOnEffect(st, env);
    ExitKeepsLaunches(env.exitsBeforeCheck, st.pm, st.rt);
    var (pm, rt) := ExitIf(env.exitsBeforeCheck, st.pm, st.rt);
    StartLaunches(pm, rt, st.bootOverride.target, env.startOk);
    var (pm', rt', _) := StartSection(pm, rt, st.bootOverride.target, env.startOk);
    ExitKeepsLaunches(env.exitsInPolls, pm', rt');
  }

  lemma CycleDownRuns(st: State, env: Env)
    requires StateOk(st)
    ensures var firstWait := env.exitsInWait && (env.quitOk || env.termOk);
      var secondWait := env.quitOk || !env.termOk || !env.killOk;
      var (st1, ok) := HardOff(st, env);
      var down := if ok then st1 else KillAndWait(st1, env).0;
      StateOk(down) && (down.pm.running <==> st.pm.running && !firstWait && !(secondWait && env.exitsInSecondWait))
  {
    CycleOff(st, env);
    var (st1, ok) := HardOff(st, env);
    KillAndWaitRuns(st1, env);
    KillAndWaitEffect(st1, env);
  }

  lemma GracefulDownRuns(st: State, env: Env)
    requires StateOk(st) && env.powerdownOk
    ensures var down := PowerDown(st, GracefulRestart, env).0;
      StateOk(down) && (down.pm.running <==> st.pm.running && !env.exitsInWait && !env.exitsInSecondWait)
  {
    WaitLeaves(st.pm, st.rt, env.exitsInWait);
    PowerDownEffect(st, GracefulRestart, env);
    var (pm, rt, ok) := WaitSection(st.pm, st.rt, env.exitsInWait);
    KillAndWaitRuns(st.(pm := pm, rt := rt), env);
  }

  /** When a restart returns nil: a GracefulRestart must get its powerdown accepted; then either the
      child is still up at the power-on, or a new one starts and QMP answers. */
  lemma RestartNilIff(st: State, resetType: ResetType, env: Env)
    requires StateOk(st) && IsRestart(resetType)
    ensures var firstWait := env.exitsInWait && (resetType == GracefulRestart || env.quitOk || env.termOk);
      var secondWait := resetType == GracefulRestart || env.quitOk || !env.termOk || !env.killOk;
      var up := st.pm.running && !firstWait && !(secondWait && env.exitsInSecondWait) && !env.exitsBeforeCheck;
      ResetTo(st, resetType, env).1 <==>
        && (resetType == GracefulRestart ==> env.powerdownOk)
        && (up || (env.startOk && exists i :: 0 <= i < |env.polls| && env.polls[i]))
  {
    QmpReadyIff(env.polls);
    if resetType == PowerCycle {
      CycleIs(st, env);
      CycleDownRuns(st, env);
      var (st1, ok) := HardOff(st, env);
      PowerOnEffect(if ok then st1 else KillAndWait(st1, env).0, env);
    } else if env.powerdownOk {
      GracefulDownRuns(st, env);
      PowerOnEffect(PowerDown(st, resetType, env).0, env);
    }
  }

  lemma KillAndWaitRuns(st: State, env: Env)
    requires StateOk(st)
    ensures KillAndWait(st, env).0.pm.running <==> st.pm.running && !env.exitsInSecondWait
  {
    KillLeaves(st.pm, st.rt, env.killAgainOk);
    WaitLeaves(st.pm, KillSection(st.pm, st.rt, env.killAgainOk).0, env.exitsInSecondWait);
  }

  /** A GracefulRestart or PowerCycle that returns nil after a wait reported the exit has started
      exactly one new generation, with the target then in force, and consumed the override; it is
      still running unless it exited while QMP was polled. */
  lemma RestartAfterExitStartsOne(st: State, resetType: ResetType, env: Env)
    requires StateOk(st) && IsRestart(resetType)
    requires ExitObserved(st, resetType, env) && ResetTo(st, resetType, env).1
    ensures var st' := ResetTo(st, resetType, env).0;
      && Launches(st') == Launches(st) + [st.bootOverride.target]
      && st'.bootOverride == Consumed(st.bootOverride)
      && (st'.pm.running <==> !env.exitsInPolls)
  {
    PowerDownEffect(st, resetType, env);
    RestartIsPowerOn(st, resetType, env);
    PowerOnFromStopped(PowerDown(st, resetType, env).0, env);
  }

  /** Without that report it may have started none. Exactly: a restart that returns nil starts a
      generation unless the machine was running, no wait reported the exit, and the child did not
      exit on its own before the power-on looked. */
  lemma RestartStartsIff(st: State, resetType: ResetType, env: Env)
    requires StateOk(st) && IsRestart(resetType) && ResetTo(st, resetType, env).1
    ensures Launches(ResetTo(st, resetType, env).0) == Launches(st) + [st.bootOverride.target]
      <==> !st.pm.running || ExitObserved(st, resetType, env) || env.exitsBeforeCheck
  {
    PowerDownEffect(st, resetType, env);
    RestartIsPowerOn(st, resetType, env);
    PowerOnLaunches(PowerDown(st, resetType, env).0, env);
  }

  lemma PowerOnLaunches(st: State, env: Env)
    requires StateOk(st) && PowerOn(st, env).1
    ensures Launches(PowerOn(st, env).0) == Launches(st) + [st.bootOverride.target]
      <==> !(st.pm.running && !env.exitsBeforeCheck)
  {
    PowerOnEffect(st, env);
    OneLaunchMore(Launches(st), st.bootOverride.target);
  }

  lemma OneLaunchMore(launches: seq<string>, target: string)
    ensures launches + [target] != launches && launches + [] == launches
  {
    assert |launches + [target]| != |launches|;
  }

  /** Such a case: both signals were delivered, Stop returned without a second wait, and the
      process was still up when the power-on looked. */
  lemma PowerCycleMayKeepOldGeneration(st: State, env: Env)
    requires StateOk(st) && st.pm.running
    requires !env.quitOk && env.termOk && !env.exitsInWait && env.killOk && !env.exitsBeforeCheck
    ensures var cmd := st.pm.cmd.value;
      ResetTo(st, PowerCycle, env) == (st.(rt := Deliver(Deliver(st.rt, Term(cmd)), Kill(cmd))), true)
  {
    var cmd := st.pm.cmd.value;
    assert StopSection(st.pm, st.rt, true, false, true) == (st.pm, Deliver(Deliver(st.rt, Term(cmd)), Kill(cmd)), true);
  }

  // ----- runs and the one-shot override -----

  datatype Op = SetOp(bootOverride: BootOverride) | ResetOp(resetType: ResetType, env: Env) | QueryOp(status: QmpStatus, env: Env) | ChildExit

  /** One operation of the single caller, or the child exiting between two of them. */
  function Apply(st: State, op: Op): (State, bool) {
    match op
    case SetOp(o) => SetOverride(st, o)
    case ResetOp(resetType, env) => ResetTo(st, resetType, env)
    case QueryOp(status, env) => PowerState(st, status, env)
    case ChildExit =>
      var (pm, rt) := ExitAndReap(st.pm, st.rt);
      (st.(pm := pm, rt := rt), true)
  }

  function Run(st: State, ops: seq<Op>): State
    decreases |ops|
  {
    if ops == [] then st else Run(Apply(st, ops[0]).0, ops[1..])
  }

  /** Resets in the run that returned nil and had started a generation while Once was set. */
  function OnceStarts(st: State, ops: seq<Op>): nat
    decreases |ops|
  {
    if ops == [] then 0
    else
      var (st', ok) := Apply(st, ops[0]);
      (if ops[0].ResetOp? && ok && Launches(st') != Launches(st) && st.bootOverride.enabled == "Once" then 1 else 0)
      + OnceStarts(st', ops[1..])
  }

  predicate NoSet(ops: seq<Op>) {
    forall op :: op in ops ==> !op.SetOp?
  }

  lemma ApplyEffect(st: State, op: Op)
    requires StateOk(st)
    ensures StateOk(Apply(st, op).0)
    ensures !op.SetOp? ==>
      var (st', ok) := Apply(st, op);
      && Launches(st') in {Launches(st), Launches(st) + [st.bootOverride.target]}
      && st'.bootOverride ==
           if op.ResetOp? && ok && Launches(st') != Launches(st) then Consumed(st.bootOverride) else st.bootOverride
  {
    match op
    case SetOp(o) =>
    case ResetOp(resetType, env) => ResetEffect(st, resetType, env);
    case QueryOp(status, env) => PowerStateEffect(st, status, env);
    case ChildExit => ExitKeepsLaunches(true, st.pm, st.rt);
  }

  /** Until the override is set again: a Once setting is used by at most one successful start,
      after which it is Disabled; any other setting is left as it was. */
  lemma {:induction false} OnceReachesOneStart(st: State, ops: seq<Op>)
    requires StateOk(st) && NoSet(ops)
    ensures StateOk(Run(st, ops))
    ensures OnceStarts(st, ops) <= if st.bootOverride.enabled == "Once" then 1 else 0
    ensures Run(st, ops).bootOverride == if OnceStarts(st, ops) == 1 then Consumed(st.bootOverride) else st.bootOverride
    decreases |ops|
  {
    if ops != [] {
      ApplyEffect(st, ops[0]);
      assert !ops[0].SetOp?;
      OnceReachesOneStart(Apply(st, ops[0]).0, ops[1..]);
    }
  }

  /** Generations launched in the run while Once was set. */
  function OnceLaunches(st: State, ops: seq<Op>): nat
    decreases |ops|
  {
    if ops == [] then 0
    else
      var st' := Apply(st, ops[0]).0;
      (if Launches(st') != Launches(st) && st.bootOverride.enabled == "Once" then 1 else 0) + OnceLaunches(st', ops[1..])
  }

  /** Those among them for which no poll of QMP was answered. */
  function Unanswered(st: State, ops: seq<Op>): nat
    decreases |ops|
  {
    if ops == [] then 0
    else
      var st' := Apply(st, ops[0]).0;
      (if Launches(st') != Launches(st) && st.bootOverride.enabled == "Once"
          && ops[0].ResetOp? && !QmpReady(ops[0].env.polls) then 1 else 0)
      + Unanswered(st', ops[1..])
  }

  /** A reset that launches a generation returns nil exactly when QMP answers it. */
  lemma LaunchAnswers(st: State, resetType: ResetType, env: Env)
    requires StateOk(st) && Launches(ResetTo(st, resetType, env).0) != Launches(st)
    ensures ResetTo(st, resetType, env).1 <==> QmpReady(env.polls)
  {
    if resetType == On || resetType == ForceOn {
      PowerOnAnswers(st, env);
    } else if resetType == ForceOff {
      HardOffEffect(st, env);
    } else if resetType == GracefulShutdown {
      ExitKeepsLaunches(env.exitsInWait, st.pm, st.rt);
    } else if IsRestart(resetType) {
      PowerDownEffect(st, resetType, env);
      PowerOnAnswers(PowerDown(st, resetType, env).0, env);
    }
  }

  lemma OnlyResetsLaunch(st: State, op: Op)
    requires StateOk(st) && Launches(Apply(st, op).0) != Launches(st)
    ensures op.ResetOp? && (Apply(st, op).1 <==> QmpReady(op.env.polls))
  {
    match op
    case SetOp(o) =>
    case ResetOp(resetType, env) => LaunchAnswers(st, resetType, env);
    case QueryOp(status, env) => PowerStateEffect(st, status, env);
    case ChildExit => ExitKeepsLaunches(true, st.pm, st.rt);
  }

  /** Until the override is set again, the launches under a Once setting are its one successful
      start, if it comes to that, and every launch that QMP never answered. */
  lemma {:induction false} OnceLaunchesCount(st: State, ops: seq<Op>)
    requires StateOk(st) && NoSet(ops)
    ensures OnceLaunches(st, ops) == Unanswered(st, ops) + OnceStarts(st, ops)
    decreases |ops|
  {
    if ops != [] {
      ApplyEffect(st, ops[0]);
      if Launches(Apply(st, ops[0]).0) != Launches(st) {
        OnlyResetsLaunch(st, ops[0]);
      }
      OnceLaunchesCount(Apply(st, ops[0]).0, ops[1..]);
    }
  }

  /** So a Once target is launched at most once exactly when no launch under it goes unanswered,
      or a single one does and no start succeeds. */
  lemma OnceLaunchedAtMostOnceIff(st: State, ops: seq<Op>)
    requires StateOk(st) && NoSet(ops)
    ensures OnceLaunches(st, ops) <= 1 <==>
      Unanswered(st, ops) == 0 || (Unanswered(st, ops) == 1 && OnceStarts(st, ops) == 0)
  {
    OnceLaunchesCount(st, ops);
    OnceReachesOneStart(st, ops);
  }

  /** Every generation launched until the override is set again got its target, or, after a Once
      setting was consumed, no override. */
  lemma {:induction false} LaunchTargets(st: State, ops: seq<Op>)
    requires StateOk(st) && NoSet(ops)
    ensures var launched := Launches(Run(st, ops));
      && |Launches(st)| <= |launched| && launched[..|Launches(st)|] == Launches(st)
      && forall k :: |Launches(st)| <= k < |launched| ==>
           launched[k] == st.bootOverride.target || (st.bootOverride.enabled == "Once" && launched[k] == "None")
    decreases |ops|
  {
    if ops != [] {
      ApplyEffect(st, ops[0]);
      var st' := Apply(st, ops[0]).0;
      LaunchTargets(st', ops[1..]);
      var all := Launches(Run(st', ops[1..]));
      assert all[..|Launches(st)|] == all[..|Launches(st')|][..|Launches(st)|];
      forall k | |Launches(st)| <= k < |all|
        ensures all[k] == st.bootOverride.target || (st.bootOverride.enabled == "Once" && all[k] == "None")
      {
        if k < |Launches(st')| {
          assert all[k] == all[..|Launches(st')|][k];
        }
      }
    } else {
      assert Launches(st)[..|Launches(st)|] == Launches(st);
    }
  }

  /** What one power-on of a stopped machine does while Once is set. */
  lemma OnceStartStep(st: State, env: Env)
    requires StateOk(st) && !st.pm.running && env.startOk && st.bootOverride.enabled == "Once"
    ensures var op := ResetOp(On, env);
      var (st', ok) := Apply(st, op);
      && StateOk(st')
      && Launches(st') == Launches(st) + [st.bootOverride.target]
      && (ok <==> QmpReady(env.polls))
      && st'.bootOverride == (if ok then Consumed(st.bootOverride) else st.bootOverride)
  {
    PowerOnEffect(st, env);
  }

  lemma ChildExitStep(st: State)
    requires StateOk(st)
    ensures var st' := Apply(st, ChildExit).0;
      StateOk(st') && !st'.pm.running && Launches(st') == Launches(st) && st'.bootOverride == st.bootOverride
  {
    ExitKeepsLaunches(true, st.pm, st.rt);
  }

  /** A run in which it is launched twice: QMP never answers the first start, which leaves Once
      set, the child exits, and the next power-on boots the same target again. */
  lemma FailedStartKeepsOnce(st: State, target: string, failing: Env, working: Env)
    requires StateOk(st) && !st.pm.running
    requires st.bootOverride.enabled == "Once" && st.bootOverride.target == target
    requires failing.startOk && !QmpReady(failing.polls)
    requires working.startOk && QmpReady(working.polls)
    ensures var ops := [ResetOp(On, failing), ChildExit, ResetOp(On, working)];
      && Launches(Run(st, ops)) == Launches(st) + [target, target]
      && Run(st, ops).bootOverride.enabled == "Disabled"
  {
    OnceStartStep(st, failing);
    var st1 := Apply(st, ResetOp(On, failing)).0;
    ChildExitStep(st1);
    var st2 := Apply(st1, ChildExit).0;
    OnceStartStep(st2, working);
    RunOfThree(st, ResetOp(On, failing), ChildExit, ResetOp(On, working));
  }

  lemma RunCons(st: State, op: Op, rest: seq<Op>)
    ensures Run(st, [op] + rest) == Run(Apply(st, op).0, rest)
  {
    assert ([op] + rest)[1..] == rest;
  }

  lemma RunOfThree(st: State, a: Op, b: Op, c: Op)
    ensures Run(st, [a, b, c]) == Apply(Apply(Apply(st, a).0, b).0, c).0
  {
    var st1 := Apply(st, a).0;
    var st2 := Apply(st1, b).0;
    assert [a, b, c] == [a] + ([b] + ([c] + []));
    RunCons(st, a, [b] + ([c] + []));
    RunCons(st1, b, [c] + []);
    RunCons(st2, c, []);
  }
}
