/**
 A power-on in process mode against SetBootOverride calls from elsewhere. The power-on reads the
 target, starts QEMU, waits for QMP and consumes the override in separate steps, so a setting
 may arrive between any two of them.
 */
module BootRaces {
  import opened Wrappers
  import opened ProcessManager
  import opened Machine
  import opened MachineRuns

  /** The power-on in progress: it found nothing running; it has read the target of setting
      `read`; it has started QEMU with it; QMP has answered. */
  datatype Pc = NoPowerOn | Deciding | HasTarget(target: string, read: nat) | Polling(read: nat) | Answered(read: nat)

  /** Settings are numbered: each accepted SetBootOverride makes a new one, and so does consuming
      a Once. `booted` holds the settings generations were launched with, `consumed` the Once
      settings that were disabled; no step reads the numbers. */
  datatype Sys = Sys(st: State, pc: Pc, setting: nat, booted: set<nat>, consumed: seq<nat>)

  datatype Action =
    | Set(bootOverride: BootOverride)
    | Check
    | ReadTarget
    | StartQemu(startOk: bool)
    | QmpAnswers
    | QmpTimesOut
    | Consume
    | ChildExits

  function Init(st: State): Sys {
    Sys(st, NoPowerOn, 0, {}, [])
  }

  function ConsumeStep(s: Sys): Sys {
    var once := s.st.bootOverride.enabled == "Once";
    s.(st := s.st.(bootOverride := Consumed(s.st.bootOverride)), pc := NoPowerOn,
       setting := s.setting + (if once then 1 else 0),
       consumed := s.consumed + (if once then [s.setting] else []))
  }

  function StartStep(s: Sys, startOk: bool): Sys
    requires s.pc.HasTarget?
  {
    var (pm, rt, ok) := StartSection(s.st.pm, s.st.rt, s.pc.target, startOk);
    s.(st := s.st.(pm := pm, rt := rt),
       pc := if ok then Polling(s.pc.read) else NoPowerOn,
       booted := if ok && !s.st.pm.running then s.booted + {s.pc.read} else s.booted)
  }

  /** An action that is not enabled leaves the state alone. */
  function Step(s: Sys, a: Action): Sys {
    match (a, s.pc)
    case (Set(o), _) =>
      var (st, ok) := SetOverride(s.st, o);
      if ok then s.(st := st, setting := s.setting + 1) else s
    case (ChildExits, _) =>
      var (pm, rt) := ExitAndReap(s.st.pm, s.st.rt);
      s.(st := s.st.(pm := pm, rt := rt))
    case (Check, NoPowerOn) => if s.st.pm.running then s else s.(pc := Deciding)
    case (ReadTarget, Deciding) => s.(pc := HasTarget(s.st.bootOverride.target, s.setting))
    case (StartQemu(startOk), HasTarget(_, _)) => StartStep(s, startOk)
    case (QmpAnswers, Polling(read)) => s.(pc := Answered(read))
    case (QmpTimesOut, Polling(_)) => s.(pc := NoPowerOn)
    case (Consume, Answered(_)) => ConsumeStep(s)
    case _ => s
  }

  function Run(s: Sys, schedule: seq<Action>): Sys {
    if schedule == [] then s else Step(Run(s, schedule[..|schedule| - 1]), schedule[|schedule| - 1])
  }

  // ----- undisturbed, the steps are the power-on of Machine -----

  function Started(s: Sys, env: Env): Sys {
    var s' := if env.exitsInPolls then Step(s, ChildExits) else s;
    if QmpReady(env.polls) then Step(Step(s', QmpAnswers), Consume) else Step(s', QmpTimesOut)
  }

  function PowerOnSteps(s: Sys, env: Env): Sys {
    var s1 := Step(if env.exitsBeforeCheck then Step(s, ChildExits) else s, Check);
    if s1.pc.NoPowerOn? then s1
    else
      var s2 := Step(Step(s1, ReadTarget), StartQemu(env.startOk));
      if s2.pc.NoPowerOn? then s2 else Started(s2, env)
  }

  lemma FoundStopped(s: Sys, env: Env)
    requires s.pc == Deciding && !s.st.pm.running
    ensures var s' := Step(Step(s, ReadTarget), StartQemu(env.startOk));
      var (pm, rt, ok) := StartSection(s.st.pm, s.st.rt, s.st.bootOverride.target, env.startOk);
      && s'.st == s.st.(pm := pm, rt := rt)
      && s'.pc == (if ok then Polling(s.setting) else NoPowerOn)
  {
    assert Step(s, ReadTarget) == s.(pc := HasTarget(s.st.bootOverride.target, s.setting));
  }

  lemma StartedIs(s: Sys, env: Env)
    requires s.pc.Polling?
    ensures var s' := Started(s, env);
      var (pm, rt) := ExitIf(env.exitsInPolls, s.st.pm, s.st.rt);
      && s'.pc == NoPowerOn
      && s'.st == s.st.(pm := pm, rt := rt,
           bootOverride := if QmpReady(env.polls) then Consumed(s.st.bootOverride) else s.st.bootOverride)
  {
  }

  lemma StepsArePowerOn(s: Sys, env: Env)
    requires s.pc == NoPowerOn
    ensures PowerOnSteps(s, env).st == PowerOn(s.st, env).0 && PowerOnSteps(s, env).pc == NoPowerOn
  {
    var (pm, rt) := ExitIf(env.exitsBeforeCheck, s.st.pm, s.st.rt);
    var s0 := if env.exitsBeforeCheck then Step(s, ChildExits) else s;
    assert s0 == s.(st := s.st.(pm := pm, rt := rt));
    if !pm.running {
      var s1 := s0.(pc := Deciding);
      assert Step(s0, Check) == s1;
      FoundStopped(s1, env);
      var s2 := Step(Step(s1, ReadTarget), StartQemu(env.startOk));
      if s2.pc.Polling? {
        StartedIs(s2, env);
      }
    }
  }

  // ----- disturbed -----

  predicate HoldsTarget(pc: Pc) {
    pc.HasTarget? || pc.Polling? || pc.Answered?
  }

  /** Nothing newer than what the power-on has read was ever booted, and once it has started
      QEMU that one was. */
  ghost predicate Invariant(s: Sys) {
    && StateOk(s.st)
    && (s.pc.Deciding? || s.pc.HasTarget? ==> !s.st.pm.running)
    && (forall k :: k in s.booted ==> k <= s.setting)
    && (HoldsTarget(s.pc) ==> s.pc.read <= s.setting && forall k :: k in s.booted ==> k <= s.pc.read)
    && (s.pc.Polling? || s.pc.Answered? ==> s.pc.read in s.booted)
  }

  lemma ExitKeeps(s: Sys)
    requires Invariant(s)
    ensures Invariant(Step(s, ChildExits)) && Step(s, ChildExits).setting == s.setting
  {
    ExitKeepsLaunches(true, s.st.pm, s.st.rt);
  }

  lemma StartKeeps(s: Sys, startOk: bool)
    requires Invariant(s) && s.pc.HasTarget?
    ensures Invariant(StartStep(s, startOk)) && StartStep(s, startOk).setting == s.setting
  {
    StartLaunches(s.st.pm, s.st.rt, s.pc.target, startOk);
  }

  lemma StepKeeps(s: Sys, a: Action)
    requires Invariant(s)
    ensures Invariant(Step(s, a))
    ensures s.setting <= Step(s, a).setting
  {
    match (a, s.pc)
    case (ChildExits, _) => ExitKeeps(s);
    case (StartQemu(startOk), HasTarget(_, _)) => StartKeeps(s, startOk);
    case _ =>
  }

  /** The books are kept: a new number for every accepted setting and every consumed Once, and a
      setting is booted exactly when a generation is launched, with the target that was read. */
  lemma BooksFollow(s: Sys, a: Action)
    requires Invariant(s)
    ensures var s' := Step(s, a);
      && (a.Set? ==> s'.setting == s.setting + (if ValidOverride(a.bootOverride) then 1 else 0))
      && (!a.Set? ==> s'.setting == s.setting + (|s'.consumed| - |s.consumed|))
      && (s'.consumed != s.consumed ==> s.st.bootOverride.enabled == "Once" && s'.consumed == s.consumed + [s.setting])
      && (if Launches(s'.st) == Launches(s.st) then s'.booted == s.booted
          else s.pc.HasTarget? && Launches(s'.st) == Launches(s.st) + [s.pc.target] && s'.booted == s.booted + {s.pc.read})
  {
    match (a, s.pc)
    case (ChildExits, _) => ExitKeepsLaunches(true, s.st.pm, s.st.rt);
    case (StartQemu(startOk), HasTarget(target, _)) =>
      StartLaunches(s.st.pm, s.st.rt, target, startOk);
      OneLaunchMore(Launches(s.st), target);
    case _ =>
  }

  lemma {:induction false} RunKeeps(s: Sys, schedule: seq<Action>)
    requires Invariant(s)
    ensures Invariant(Run(s, schedule)) && s.setting <= Run(s, schedule).setting
  {
    if schedule != [] {
      RunKeeps(s, schedule[..|schedule| - 1]);
      StepKeeps(Run(s, schedule[..|schedule| - 1]), schedule[|schedule| - 1]);
    }
  }

  ghost predicate Reachable(s: Sys) {
    exists st, schedule :: StateOk(st) && s == Run(Init(st), schedule)
  }

  lemma ReachableInvariant(s: Sys)
    requires Reachable(s)
    ensures Invariant(s)
  {
    var st, schedule :| StateOk(st) && s == Run(Init(st), schedule);
    RunKeeps(Init(st), schedule);
  }

  /** A setting that has been left behind unbooted, with no power-on about to boot it. */
  ghost predicate Lost(s: Sys, k: nat) {
    k < s.setting && k !in s.booted && !(s.pc.HasTarget? && s.pc.read == k)
  }

  lemma LostStays(s: Sys, a: Action, k: nat)
    requires Invariant(s) && Lost(s, k)
    ensures Lost(Step(s, a), k)
  {
  }

  lemma {:induction false} LostForGood(s: Sys, schedule: seq<Action>, k: nat)
    requires Invariant(s) && Lost(s, k)
    ensures Lost(Run(s, schedule), k)
  {
    if schedule != [] {
      var before := schedule[..|schedule| - 1];
      LostForGood(s, before, k);
      RunKeeps(s, before);
      LostStays(Run(s, before), schedule[|schedule| - 1], k);
    }
  }

  /** A Once setting that gets consumed was booted, unless it arrived after the power-on had read
      its target: then, and only then, it is disabled without any generation having been, or
      ever being, launched with it. */
  lemma OnceConsumedUnbootedIff(s: Sys, later: seq<Action>)
    requires Reachable(s) && s.pc.Answered? && s.st.bootOverride.enabled == "Once"
    ensures var s' := Step(s, Consume);
      && s'.consumed == s.consumed + [s.setting] && s'.st.bootOverride.enabled == "Disabled"
      && (s.setting !in Run(s', later).booted <==> s.pc.read < s.setting)
  {
    ReachableInvariant(s);
    var s' := Step(s, Consume);
    StepKeeps(s, Consume);
    if s.pc.read < s.setting {
      assert Lost(s', s.setting);
      LostForGood(s', later, s.setting);
    } else {
      BootedStays(s', later, s.setting);
    }
  }

  lemma {:induction false} BootedStays(s: Sys, schedule: seq<Action>, k: nat)
    requires k in s.booted
    ensures k in Run(s, schedule).booted
  {
    if schedule != [] {
      BootedStays(s, schedule[..|schedule| - 1], k);
    }
  }

  lemma ReadsTarget(st: State)
    requires !st.pm.running
    ensures Step(Step(Init(st), Check), ReadTarget) == Sys(st, HasTarget(st.bootOverride.target, 0), 0, {}, [])
  {
    assert Step(Init(st), Check) == Sys(st, Deciding, 0, {}, []);
  }

  lemma StartBoots(s: Sys)
    requires s.pc.HasTarget? && !s.st.pm.running
    ensures var (pm, rt, _) := StartSection(s.st.pm, s.st.rt, s.pc.target, true);
      Step(s, StartQemu(true)) ==
        Sys(s.st.(pm := pm, rt := rt), Polling(s.pc.read), s.setting, s.booted + {s.pc.read}, s.consumed)
  {
  }

  lemma ReachesPolling(st: State)
    requires StateOk(st) && !st.pm.running
    ensures var s := Step(Step(Step(Init(st), Check), ReadTarget), StartQemu(true));
      && s.pc == Polling(0) && s.setting == 0 && s.booted == {0} && s.consumed == []
      && Launches(s.st) == Launches(st) + [st.bootOverride.target]
  {
    ReadsTarget(st);
    StartBoots(Sys(st, HasTarget(st.bootOverride.target, 0), 0, {}, []));
    StartLaunches(st.pm, st.rt, st.bootOverride.target, true);
  }

  lemma SetWhilePolling(s: Sys, o: BootOverride)
    requires s.pc.Polling? && ValidOverride(o) && o.enabled == "Once"
    ensures var s' := Step(Step(Step(s, Set(o)), QmpAnswers), Consume);
      && s'.st == s.st.(bootOverride := o.(enabled := "Disabled", target := "None"))
      && s'.consumed == s.consumed + [s.setting + 1] && s'.booted == s.booted
  {
    var s1 := Step(s, Set(o));
    assert s1 == s.(st := s.st.(bootOverride := o), setting := s.setting + 1);
    var s2 := Step(s1, QmpAnswers);
    assert s2 == s1.(pc := Answered(s.pc.read));
    assert Step(s2, Consume) == ConsumeStep(s2);
  }

  /** Such a run: Once is set while QMP is polled. The generation got the old target, and the
      next power-on will get none. */
  lemma LateOnceIsLost(st: State, o: BootOverride)
    requires StateOk(st) && !st.pm.running && ValidOverride(o) && o.enabled == "Once"
    ensures var s1 := Step(Step(Step(Init(st), Check), ReadTarget), StartQemu(true));
      var s := Step(Step(Step(s1, Set(o)), QmpAnswers), Consume);
      && Launches(s.st) == Launches(st) + [st.bootOverride.target]
      && s.consumed == [1] && s.booted == {0}
      && s.st.bootOverride.enabled == "Disabled" && s.st.bootOverride.target == "None"
  {
    ReachesPolling(st);
    SetWhilePolling(Step(Step(Step(Init(st), Check), ReadTarget), StartQemu(true)), o);
  }
}
