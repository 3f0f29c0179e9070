/**
 Process-mode power control of internal/machine/machine.go: Reset over the process manager,
 and the one-shot boot override. One caller at a time; the child may exit whenever the machine
 looks at it.
 */
module Machine {
  import opened Wrappers
  import opened ProcessManager

  datatype BootOverride = BootOverride(enabled: string, target: string, mode: string)

  const NO_OVERRIDE := BootOverride("Disabled", "None", "UEFI")

  /** Everything outside the machine that one Reset runs into: QMP answers, signal and start
      outcomes, the answers to the polls of waitForQMP up to its deadline, and at which point the
      child exits. */
  datatype Env = Env(
    quitOk: bool,
    powerdownOk: bool,
    systemResetOk: bool,
    termOk: bool,
    killOk: bool,
    killAgainOk: bool,
    startOk: bool,
    polls: seq<bool>,
    exitsInWait: bool,
    exitsInSecondWait: bool,
    exitsBeforeCheck: bool,
    exitsInPolls: bool)

  datatype State = State(bootOverride: BootOverride, pm: Pm, rt: Runtime)

  /** The cases of the switch on the reset type. */
  datatype ResetType =
    | On | ForceOn | ForceOff | ForceRestart | GracefulShutdown | GracefulRestart | PowerCycle
    | Unsupported(name: string)

  // ----- what the operations do -----

  predicate ValidOverride(o: BootOverride) {
    && o.target in {"None", "Pxe", "Hdd", "Cd", "BiosSetup"}
    && o.enabled in {"Disabled", "Once", "Continuous"}
  }

  function SetOverride(st: State, o: BootOverride): (State, bool) {
    if ValidOverride(o) then (st.(bootOverride := o), true) else (st, false)
  }

  function Consumed(o: BootOverride): BootOverride {
    if o.enabled == "Once" then o.(enabled := "Disabled", target := "None") else o
  }

  predicate QmpReady(polls: seq<bool>) {
    true in polls
  }

  /** The child may exit just before the running flag is read, or while QMP is polled. */
  function PowerOn(st: State, env: Env): (State, bool) {
    var (pm, rt) := ExitIf(env.exitsBeforeCheck, st.pm, st.rt);
    if pm.running then
      (st.(pm := pm, rt := rt), true)
    else
      var (pm', rt', ok) := StartSection(pm, rt, st.bootOverride.target, env.startOk);
      if !ok then (st.(pm := pm', rt := rt'), false)
      else
        var (pm'', rt'') := ExitIf(env.exitsInPolls, pm', rt');
        var st' := st.(pm := pm'', rt := rt'');
        if !QmpReady(env.polls) then (st', false)
        else (st'.(bootOverride := Consumed(st.bootOverride)), true)
  }

  function HardOff(st: State, env: Env): (State, bool) {
    if !env.quitOk then
      var (pm, rt, ok) := StopSection(st.pm, st.rt, env.termOk, env.exitsInWait, env.killOk);
      (st.(pm := pm, rt := rt), ok)
    else
      var (pm, rt, ok) := WaitSection(st.pm, st.rt, env.exitsInWait);
      (st.(pm := pm, rt := rt), ok)
  }

  /** Kill, whose error is ignored, then a second wait; the callers ignore what it reports. */
  function KillAndWait(st: State, env: Env): (State, bool) {
    var (rt, _) := KillSection(st.pm, st.rt, env.killAgainOk);
    var (pm', rt', exited) := WaitSection(st.pm, rt, env.exitsInSecondWait);
    (st.(pm := pm', rt := rt'), exited)
  }

  /** The part of a GracefulRestart or PowerCycle that comes before powering on again, and
      whether it got that far. */
  function PowerDown(st: State, resetType: ResetType, env: Env): (State, bool) {
    if resetType == GracefulRestart then
      if !env.powerdownOk then (st, false)
      else
        var (pm, rt, ok) := WaitSection(st.pm, st.rt, env.exitsInWait);
        var st' := st.(pm := pm, rt := rt);
        (if ok then st' else KillAndWait(st', env).0, true)
    else
      var (st', ok) := HardOff(st, env);
      (if ok then st' else KillAndWait(st', env).0, true)
  }

  function ResetTo(st: State, resetType: ResetType, env: Env): (State, bool) {
    if resetType == On || resetType == ForceOn then
      PowerOn(st, env)
    else if resetType == ForceOff then
      HardOff(st, env)
    else if resetType == ForceRestart then
      (st, env.systemResetOk)
    else if resetType == GracefulShutdown then
      if !env.powerdownOk then (st, false)
      else
        var (pm, rt, _) := WaitSection(st.pm, st.rt, env.exitsInWait);
        (st.(pm := pm, rt := rt), true)
    else if resetType == GracefulRestart || resetType == PowerCycle then
      var (st', reached) := PowerDown(st, resetType, env);
      if reached then PowerOn(st', env) else (st', false)
    else
      (st, false)
  }

  /** What QMP's query-status answers, if it answers. */
  datatype QmpStatus = Running | Paused | Shutdown | Other | Unavailable

  /** Reading the power state stops a process whose guest has shut down, and then reports Off
      whatever became of the stop. */
  function PowerState(st: State, status: QmpStatus, env: Env): (State, bool) {
    if !st.pm.running then (st, false)
    else if status == Shutdown then
      var (pm, rt, _) := StopSection(st.pm, st.rt, env.termOk, env.exitsInWait, env.killOk);
      (st.(pm := pm, rt := rt), false)
    else (st, true)
  }

  // ----- the machine -----

  class Machine {
    var bootOverride: BootOverride
    const manager: Manager

    ghost predicate Valid()
      reads this, manager
    {
      manager.Valid()
    }

    ghost function View(): State
      reads this, manager
    {
      State(bootOverride, manager.View(), manager.runtime)
    }

    constructor (manager: Manager)
      requires manager.Valid()
      ensures this.manager == manager && Valid() && View() == State(NO_OVERRIDE, manager.View(), manager.runtime)
    {
      this.manager := manager;
      bootOverride := NO_OVERRIDE;
    }

    method SetBootOverride(o: BootOverride) returns (ok: bool)
      requires Valid()
      modifies this
      ensures Valid() && (View(), ok) == SetOverride(old(View()), o)
    {
      if o.target !in {"None", "Pxe", "Hdd", "Cd", "BiosSetup"} {
        return false;
      }
      if o.enabled !in {"Disabled", "Once", "Continuous"} {
        return false;
      }
      bootOverride := o;
      return true;
    }

    method ConsumeBootOnce()
      requires Valid()
      modifies this
      ensures Valid() && View() == old(View()).(bootOverride := Consumed(old(View()).bootOverride))
    {
      if bootOverride.enabled == "Once" {
        bootOverride := bootOverride.(enabled := "Disabled", target := "None");
      }
    }

    /** Polls until Connect succeeds or the deadline has passed. */
    method WaitForQMP(polls: seq<bool>) returns (ok: bool)
      ensures ok == QmpReady(polls)
    {
      var i := 0;
      while i < |polls|
        invariant 0 <= i <= |polls|
        invariant true !in polls[..i]
      {
        if polls[i] {
          return true;
        }
        i := i + 1;
      }
      assert polls[..i] == polls;
      return false;
    }

    method PowerOnQemu(env: Env) returns (ok: bool)
      requires Valid()
      modifies this, manager
      ensures Valid()
      ensures (View(), ok) == PowerOn(old(View()), env)
    {
      if env.exitsBeforeCheck && manager.running {
        manager.Monitor();
      }
      var running := manager.IsRunning();
      if running {
        return true;
      }
      var target := bootOverride.target;
      var started := manager.Start(target, env.startOk);
      if !started {
        return false;
      }
      if env.exitsInPolls {
        manager.Monitor();
      }
      var ready := WaitForQMP(env.polls);
      if !ready {
        return false;
      }
      ConsumeBootOnce();
      return true;
    }

    method GetPowerState(status: QmpStatus, env: Env) returns (on: bool)
      requires Valid()
      modifies manager
      ensures Valid()
      ensures (View(), on) == PowerState(old(View()), status, env)
    {
      var running := manager.IsRunning();
      if !running {
        return false;
      }
      match status
      case Unavailable => return true;
      case Running => return true;
      case Paused => return true;
      case Shutdown =>
        var _ := manager.Stop(env.termOk, env.exitsInWait, env.killOk);
        return false;
      case Other => return true;
    }

    method ForceOffQemu(env: Env) returns (ok: bool)
      requires Valid()
      modifies manager
      ensures Valid()
      ensures (View(), ok) == HardOff(old(View()), env)
    {
      if !env.quitOk {
        ok := manager.Stop(env.termOk, env.exitsInWait, env.killOk);
        return;
      }
      ok := manager.WaitForExit(env.exitsInWait);
    }

    /** The source ignores both outcomes. */
    method KillAndAwait(env: Env)
      requires Valid()
      modifies manager
      ensures Valid() && View() == KillAndWait(old(View()), env).0
    {
      var _ := manager.Kill(env.killAgainOk);
      var _ := manager.WaitForExit(env.exitsInSecondWait);
    }

    method Reset(resetType: ResetType, env: Env) returns (ok: bool)
      requires Valid()
      modifies this, manager
      ensures Valid()
      ensures (View(), ok) == ResetTo(old(View()), resetType, env)
    {
      if resetType == On || resetType == ForceOn {
        ok := PowerOnQemu(env);
      } else if resetType == ForceOff {
        ok := ForceOffQemu(env);
      } else if resetType == ForceRestart {
        return env.systemResetOk;
      } else if resetType == GracefulShutdown {
        if !env.powerdownOk {
          return false;
        }
        var _ := manager.WaitForExit(env.exitsInWait);
        return true;
      } else if resetType == GracefulRestart {
        if !env.powerdownOk {
          return false;
        }
        var exited := manager.WaitForExit(env.exitsInWait);
        if !exited {
          KillAndAwait(env);
        }
        ok := PowerOnQemu(env);
      } else if resetType == PowerCycle {
        var off := ForceOffQemu(env);
        if !off {
          KillAndAwait(env);
        }
        ok := PowerOnQemu(env);
      } else {
        return false;
      }
    }
  }
}
