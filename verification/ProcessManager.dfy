/**
 The QEMU process manager of internal/qemu/process.go: what each lock-held section does to
 its fields, the processes and channels around it, and the class that runs the sections.
 */
module ProcessManager {
  import opened Wrappers
  import opened QemuArgs

  // ----- virtual media -----

  predicate EmptyCdrom(arg: string) {
    Contains(arg, "media=cdrom") && !Contains(arg, "file=")
  }

  function FirstEmptyCdrom(args: Args): (i: nat)
    ensures i <= |args|
    ensures i < |args| ==> EmptyCdrom(args[i])
    ensures forall k :: 0 <= k < i ==> !EmptyCdrom(args[k])
  {
    if args == [] then 0 else if EmptyCdrom(args[0]) then 0 else
      assert forall k :: 0 < k < |args| ==> args[k] == args[1..][k - 1];
      1 + FirstEmptyCdrom(args[1..])
  }

  function WithMedia(args: Args, media: string): Args {
    var i := FirstEmptyCdrom(args);
    if media == "" || i == |args| then args else args[i := args[i] + ",file=" + media]
  }

  method ApplyMedia(args: Args, media: string) returns (out: Args)
    ensures out == WithMedia(args, media)
  {
    if media == "" {
      return args;
    }
    out := args;
    for i := 0 to |out|
      invariant out == args
      invariant forall k :: 0 <= k < i ==> !EmptyCdrom(args[k])
    {
      if Contains(out[i], "media=cdrom") && !Contains(out[i], "file=") {
        assert i == FirstEmptyCdrom(args);
        out := out[i := out[i] + ",file=" + media];
        return;
      }
    }
  }

  // ----- state -----

  /** A child of the BMC process: not a process at all if its start failed; a zombie until waited for. */
  datatype Process = NotStarted | Alive | Exited | Reaped

  datatype Command = Command(target: string, args: Args, process: Process)

  /** A signal that was delivered, and the command it went to. */
  datatype Signal = Term(cmd: nat) | Kill(cmd: nat)

  /** Every command ever created, every channel ever made, true once closed, and every signal
      ever delivered. */
  datatype Runtime = Runtime(commands: seq<Command>, channels: seq<bool>, signals: seq<Signal>)

  /** Commands and channels are named by their place in the runtime. */
  datatype Pm = Pm(baseArgs: Args, cmd: Option<nat>, running: bool, media: string, exitCh: nat)

  const INITIAL_RUNTIME := Runtime([], [false], [])

  function NewPm(baseArgs: Args): Pm {
    Pm(baseArgs, None, false, "", 0)
  }

  // ----- the lock-held sections -----

  /** Start: a failed cmd.Start leaves the new command in place but nothing else changed. */
  function StartSection(pm: Pm, rt: Runtime, target: string, startOk: bool): (Pm, Runtime, bool) {
    if pm.running then
      (pm, rt, true)
    else
      var args := WithMedia(Override(pm.baseArgs, target), pm.media);
      var command := Command(target, args, if startOk then Alive else NotStarted);
      var pm' := pm.(cmd := Some(|rt.commands|));
      var rt' := rt.(commands := rt.commands + [command]);
      if !startOk then (pm', rt', false)
      else (pm'.(running := true, exitCh := |rt.channels|), rt'.(channels := rt.channels + [false]), true)
  }

  /** monitor, after Wait: the flag is cleared and the channel to close is read. */
  function ClearSection(pm: Pm): (Pm, nat) {
    (pm.(running := false), pm.exitCh)
  }

  /** Stop and Kill: the command to signal, if one is running. */
  function CheckSection(pm: Pm): Option<nat> {
    if pm.running then pm.cmd else None
  }

  function SetProcess(rt: Runtime, cmd: nat, process: Process): Runtime {
    if cmd < |rt.commands| then rt.(commands := rt.commands[cmd := rt.commands[cmd].(process := process)]) else rt
  }

  function CloseChannel(rt: Runtime, ch: nat): Runtime {
    if ch < |rt.channels| then rt.(channels := rt.channels[ch := true]) else rt
  }

  function Deliver(rt: Runtime, signal: Signal): Runtime {
    rt.(signals := rt.signals + [signal])
  }

  predicate IsClosed(rt: Runtime, ch: nat) {
    ch < |rt.channels| && rt.channels[ch]
  }

  // ----- the process manager alone with its monitor -----

  /** What a manager that nobody else is calling can rely on; ProcessProtocol proves it in every
      interleaving. */
  ghost predicate Consistent(pm: Pm, rt: Runtime) {
    && pm.exitCh < |rt.channels|
    && (pm.running ==>
          && pm.cmd.Some? && pm.cmd.value < |rt.commands|
          && rt.commands[pm.cmd.value].process in {Alive, Exited}
          && !rt.channels[pm.exitCh])
  }

  /** The child exits and its monitor runs to the end: Wait, clear, close. */
  function ExitAndReap(pm: Pm, rt: Runtime): (Pm, Runtime) {
    if !pm.running || pm.cmd.None? then
      (pm, rt)
    else
      var (pm', ch) := ClearSection(pm);
      (pm', CloseChannel(SetProcess(rt, pm.cmd.value, Reaped), ch))
  }

  function ExitIf(exits: bool, pm: Pm, rt: Runtime): (Pm, Runtime) {
    if exits then ExitAndReap(pm, rt) else (pm, rt)
  }

  /** WaitForExit: `exits` says whether the child exits before the timeout. */
  function WaitSection(pm: Pm, rt: Runtime, exits: bool): (Pm, Runtime, bool) {
    var (pm', rt') := ExitIf(exits, pm, rt);
    (pm', rt', IsClosed(rt', pm.exitCh))
  }

  /** Kill: a running child gets SIGKILL, if that can be delivered; the exit is not awaited. */
  function KillSection(pm: Pm, rt: Runtime, killOk: bool): (Runtime, bool) {
    match CheckSection(pm)
    case None => (rt, true)
    case Some(cmd) => if killOk then (Deliver(rt, Kill(cmd)), true) else (rt, false)
  }

  /** Stop: SIGTERM, then the wait, then Kill on a timeout. */
  function StopSection(pm: Pm, rt: Runtime, termOk: bool, exits: bool, killOk: bool): (Pm, Runtime, bool) {
    match CheckSection(pm)
    case None => (pm, rt, true)
    case Some(cmd) =>
      if !termOk then (pm, rt, false)
      else
        var (pm', rt', exited) := WaitSection(pm, Deliver(rt, Term(cmd)), exits);
        if exited then (pm', rt', true)
        else
          var (rt'', ok) := KillSection(pm', rt', killOk);
          (pm', rt'', ok)
  }

  class Manager {
    const baseArgs: Args
    var cmd: Option<nat>
    var running: bool
    var media: string
    var exitCh: nat
    /** The operating system's processes and the Go runtime's channels. */
    var runtime: Runtime

    function View(): Pm
      reads this
    {
      Pm(baseArgs, cmd, running, media, exitCh)
    }

    ghost predicate Valid()
      reads this
    {
      Consistent(View(), runtime)
    }

    constructor (baseArgs: Args)
      ensures View() == NewPm(baseArgs) && runtime == INITIAL_RUNTIME && Valid()
    {
      this.baseArgs := baseArgs;
      cmd, running, media, exitCh := None, false, "", 0;
      runtime := INITIAL_RUNTIME;
    }

    method SetMedia(image: string)
      requires Valid()
      modifies this
      ensures Valid() && View() == old(View()).(media := image) && runtime == old(runtime)
    {
      media := image;
    }

    method Start(bootTarget: string, startOk: bool) returns (ok: bool)
      requires Valid()
      modifies this
      ensures Valid()
      ensures (View(), runtime, ok) == StartSection(old(View()), old(runtime), bootTarget, startOk)
    {
      if running {
        return true;
      }
      var args := ApplyBootOverride(baseArgs, bootTarget);
      args := ApplyMedia(args, media);
      cmd := Some(|runtime.commands|);
      runtime := runtime.(commands := runtime.commands + [Command(bootTarget, args, if startOk then Alive else NotStarted)]);
      if !startOk {
        return false;
      }
      running := true;
      exitCh := |runtime.channels|;
      runtime := runtime.(channels := runtime.channels + [false]);
      return true;
    }

    /** The monitor goroutine from the return of Wait on. Closing a closed channel would panic. */
    method Monitor()
      requires Valid() && running
      modifies this
      ensures Valid()
      ensures (View(), runtime) == ExitAndReap(old(View()), old(runtime))
    {
      runtime := SetProcess(runtime, cmd.value, Reaped);
      running := false;
      var ch := exitCh;
      assert !IsClosed(runtime, ch);
      runtime := CloseChannel(runtime, ch);
    }

    method IsRunning() returns (r: bool)
      ensures r == running
    {
      r := running;
    }

    method WaitForExit(exits: bool) returns (ok: bool)
      requires Valid()
      modifies this
      ensures Valid()
      ensures (View(), runtime, ok) == WaitSection(old(View()), old(runtime), exits)
    {
      var ch := exitCh;
      if exits && running {
        Monitor();
      }
      return IsClosed(runtime, ch);
    }

    method Kill(killOk: bool) returns (ok: bool)
      requires Valid()
      modifies this
      ensures Valid() && View() == old(View())
      ensures (runtime, ok) == KillSection(View(), old(runtime), killOk)
    {
      if !running {
        return true;
      }
      if !killOk {
        return false;
      }
      runtime := Deliver(runtime, Signal.Kill(cmd.value));
      return true;
    }

    method Stop(termOk: bool, exits: bool, killOk: bool) returns (ok: bool)
      requires Valid()
      modifies this
      ensures Valid()
      ensures (View(), runtime, ok) == StopSection(old(View()), old(runtime), termOk, exits, killOk)
    {
      if !running {
        return true;
      }
      if !termOk {
        return false;
      }
      runtime := Deliver(runtime, Term(cmd.value));
      var exited := WaitForExit(exits);
      if !exited {
        ok := Kill(killOk);
        return;
      }
      return true;
    }
  }

  /** A wait that reports an exit leaves the manager not running; and it reports one exactly when
      the channel was closed already or the running child exits in time. */
  lemma WaitMeansStopped(pm: Pm, rt: Runtime, exits: bool)
    requires Consistent(pm, rt)
    ensures var (pm', rt', ok) := WaitSection(pm, rt, exits);
      && Consistent(pm', rt')
      && (ok ==> !pm'.running)
      && (ok <==> IsClosed(rt, pm.exitCh) || (pm.running && exits))
  {
  }

  /** Start on a running manager changes nothing and is no error. */
  lemma StartWhileRunning(pm: Pm, rt: Runtime, target: string, startOk: bool)
    requires pm.running
    ensures StartSection(pm, rt, target, startOk) == (pm, rt, true)
  {
  }

  lemma FileEqOccurs(arg: string, media: string)
    ensures Contains(arg + ",file=" + media, "file=")
  {
    assert OccursAt(arg + ",file=" + media, "file=", |arg| + 1);
  }

  /** Media goes to the first empty CD drive and nowhere else, and that drive is then no longer
      empty. */
  lemma MediaFillsOneDrive(args: Args, media: string)
    requires media != ""
    ensures var r := WithMedia(args, media);
      var i := FirstEmptyCdrom(args);
      && |r| == |args|
      && (i == |args| ==> r == args)
      && (i < |args| ==> !EmptyCdrom(r[i]) && args[i] <= r[i] && r[i][|r[i]| - |media|..] == media)
      && (forall k :: 0 <= k < |args| && k != i ==> r[k] == args[k])
      && FirstEmptyCdrom(r) >= i
  {
    var r, i := WithMedia(args, media), FirstEmptyCdrom(args);
    if i < |args| {
      FileEqOccurs(args[i], media);
    }
  }
}
