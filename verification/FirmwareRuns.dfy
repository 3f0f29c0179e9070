/**
 Every interleaving of firmware updates with resets: SimpleUpdate requests that create tasks,
 one runFirmwareUpdate goroutine per task, system resets that activate the BIOS and manager
 resets that activate the BMC. A step is one lock-held section or one silent move of a
 goroutine between two of them.
 */
module FirmwareRuns {
  import opened Wrappers
  import opened TaskIds
  import opened FirmwareTasks

  /** Where a goroutine is: about to mark its task running, about to fetch, in flash step n with
      a package, about to fail, about to stage, about to complete, done. */
  datatype Pc =
    | Begin
    | Fetch
    | Flash(n: nat, pkg: Package)
    | Fail
    | Staging(pkg: Package)
    | Finish(pkg: Package)
    | Succeeded(pkg: Package)
    | Failed

  datatype Worker = Worker(targets: seq<Component>, pc: Pc)

  /** A record, read by no step, of what was staged, by which task, and what was activated. */
  datatype Event = Staged(task: nat, pkg: Package) | Activated(component: Component)

  datatype Sys = Sys(fw: Firmware, workers: seq<Worker>, log: seq<Event>)

  datatype Action =
    | SimpleUpdate(name: string, targets: seq<Component>)
    | Advance(worker: nat, fetched: Option<Package>, cancelled: bool)
    | Reset(component: Component)

  function Init(versions: map<Component, string>): Sys {
    Sys(Firmware(versions, map[], map[], 0), [], [])
  }

  /** Task k+1 belongs to worker k. */
  function IdOf(k: nat): string {
    TaskId(k + 1)
  }

  function ToRunning(): Task -> Task {
    t => SetRunning(t)
  }

  function ToPercent(p: nat): Task -> Task {
    t => SetPercent(t, p)
  }

  function ToException(): Task -> Task {
    t => SetException(t)
  }

  function ToCompleted(): Task -> Task {
    t => SetCompleted(t)
  }

  /** Progress after n flash steps. */
  function Percent(n: nat): nat {
    10 + n * 80 / FLASH_STEPS
  }

  /** The goroutine's next place, what it does to the firmware state, and what gets recorded. */
  function Advanced(fw: Firmware, k: nat, w: Worker, fetched: Option<Package>, cancelled: bool): (Firmware, Pc, seq<Event>) {
    match w.pc
    case Begin => (UpdateTask(fw, IdOf(k), ToRunning()), Fetch, [])
    case Fetch =>
      if fetched.None? || (w.targets != [] && fetched.value.component !in w.targets) then (fw, Fail, [])
      else (UpdateTask(fw, IdOf(k), ToPercent(10)), Flash(1, fetched.value), [])
    case Flash(n, pkg) =>
      if cancelled then (fw, Fail, [])
      else if 1 <= n < FLASH_STEPS then (UpdateTask(fw, IdOf(k), ToPercent(Percent(n))), Flash(n + 1, pkg), [])
      else (fw, Staging(pkg), [])
    case Fail => (UpdateTask(fw, IdOf(k), ToException()), Failed, [])
    case Staging(pkg) => (Stage(fw, pkg), Finish(pkg), [Staged(k, pkg)])
    case Finish(pkg) => (UpdateTask(fw, IdOf(k), ToCompleted()), Succeeded(pkg), [])
    case Succeeded(_) => (fw, w.pc, [])
    case Failed => (fw, w.pc, [])
  }

  function MovedTo(s: Sys, k: nat, fetched: Option<Package>, cancelled: bool): Sys
    requires k < |s.workers|
  {
    var (fw, pc, events) := Advanced(s.fw, k, s.workers[k], fetched, cancelled);
    Sys(fw, s.workers[k := s.workers[k].(pc := pc)], s.log + events)
  }

  /** A reset of the system activates the BIOS, one of the manager the BMC. */
  function Step(s: Sys, a: Action): Sys {
    match a
    case SimpleUpdate(name, targets) =>
      s.(fw := CreateTask(s.fw, name).0, workers := s.workers + [Worker(targets, Begin)])
    case Advance(k, fetched, cancelled) =>
      if k >= |s.workers| then s else MovedTo(s, k, fetched, cancelled)
    case Reset(c) =>
      var (fw, v) := Activate(s.fw, c);
      if v.None? then s else s.(fw := fw, log := s.log + [Activated(c)])
  }

  function Run(s: Sys, schedule: seq<Action>): Sys {
    if schedule == [] then s else Step(Run(s, schedule[..|schedule| - 1]), schedule[|schedule| - 1])
  }

  // ----- what the record says -----

  /** The version last staged for `c` since its previous activation. */
  function LastStaged(log: seq<Event>, c: Component): Option<string> {
    if log == [] then None
    else
      var n := |log| - 1;
      match log[n]
      case Staged(_, pkg) => if pkg.component == c then Some(pkg.version) else LastStaged(log[..n], c)
      case Activated(d) => if d == c then None else LastStaged(log[..n], c)
  }

  // ----- the invariant -----

  ghost predicate TaskMatches(t: Task, pc: Pc) {
    match pc
    case Begin => t.state == New && t.percent == 0
    case Fetch => t.state == Running && t.percent == 0
    case Flash(n, _) => t.state == Running && 1 <= n <= FLASH_STEPS && t.percent == Percent(n - 1)
    case Fail => t.state == Running && t.percent <= 70
    case Staging(_) => t.state == Running && t.percent == 70
    case Finish(_) => t.state == Running && t.percent == 70
    case Succeeded(_) => t.state == Completed && t.percent == 100
    case Failed => t.state == Exception && t.percent <= 70
  }

  function StagedBy(pc: Pc): Option<Package> {
    if pc.Finish? || pc.Succeeded? then Some(pc.pkg) else None
  }

  function Holds(pc: Pc): Option<Package> {
    if pc.Flash? || pc.Staging? || pc.Finish? || pc.Succeeded? then Some(pc.pkg) else None
  }

  ghost predicate WorkerOk(s: Sys, k: nat)
    requires k < |s.workers|
  {
    var w := s.workers[k];
    && IdOf(k) in s.fw.tasks
    && TaskMatches(s.fw.tasks[IdOf(k)], w.pc)
    && (forall p :: Staged(k, p) in s.log <==> StagedBy(w.pc) == Some(p))
    && (Holds(w.pc).Some? && w.targets != [] ==> Holds(w.pc).value.component in w.targets)
  }

  ghost predicate Invariant(s: Sys) {
    && s.fw.nextTaskId == |s.workers|
    && (forall id :: id in s.fw.tasks ==> exists k: nat :: k < |s.workers| && id == IdOf(k))
    && (forall k :: 0 <= k < |s.workers| ==> WorkerOk(s, k))
    && (forall k: nat, p :: Staged(k, p) in s.log ==> k < |s.workers|)
    && (forall c :: c in s.fw.staged <==> LastStaged(s.log, c).Some?)
    && (forall c :: c in s.fw.staged ==> s.fw.staged[c] == LastStaged(s.log, c).value)
  }

  lemma LastStagedSnoc(log: seq<Event>, e: Event, c: Component)
    ensures LastStaged(log + [e], c) ==
      match e
      case Staged(_, pkg) => if pkg.component == c then Some(pkg.version) else LastStaged(log, c)
      case Activated(d) => if d == c then None else LastStaged(log, c)
  {
    assert (log + [e])[..|log|] == log;
  }

  lemma IdsDiffer(j: nat, k: nat)
    requires j != k
    ensures IdOf(j) != IdOf(k)
  {
    if IdOf(j) == IdOf(k) {
      TaskIdInjective(j + 1, k + 1);
    }
  }

  lemma NextIdIsFresh(s: Sys)
    requires Invariant(s)
    ensures IdOf(|s.workers|) !in s.fw.tasks
  {
    var n := |s.workers|;
    if IdOf(n) in s.fw.tasks {
      var k: nat :| k < n && IdOf(n) == IdOf(k);
      IdsDiffer(k, n);
    }
  }

  lemma CreateKeeps(s: Sys, name: string, targets: seq<Component>)
    requires Invariant(s)
    ensures Invariant(Step(s, SimpleUpdate(name, targets)))
    ensures IdOf(|s.workers|) !in s.fw.tasks
  {
    NextIdIsFresh(s);
    var n, id := |s.workers|, IdOf(|s.workers|);
    var s' := Step(s, SimpleUpdate(name, targets));
    assert s'.fw.tasks == s.fw.tasks[id := Task(name, New, 0, [])] && s'.workers == s.workers + [Worker(targets, Begin)];
    forall k | 0 <= k < n ensures WorkerOk(s', k) {
      assert WorkerOk(s, k);
      IdsDiffer(k, n);
    }
    assert WorkerOk(s', n);
    forall i | i in s'.fw.tasks ensures exists k: nat :: k < |s'.workers| && i == IdOf(k) {
      if i in s.fw.tasks {
        var k: nat :| k < n && i == IdOf(k);
      }
    }
  }

  lemma ResetKeeps(s: Sys, c: Component)
    requires Invariant(s)
    ensures Invariant(Step(s, Reset(c)))
  {
    var s' := Step(s, Reset(c));
    if c in s.fw.staged {
      forall d: Component ensures LastStaged(s'.log, d) == if d == c then None else LastStaged(s.log, d) {
        LastStagedSnoc(s.log, Activated(c), d);
      }
      forall k | 0 <= k < |s.workers| ensures WorkerOk(s', k) {
        assert WorkerOk(s, k);
      }
    }
  }

  /** A goroutine that only updates its own task, staying within TaskMatches. */
  lemma TaskStepKeeps(s: Sys, k: nat, fn: Task -> Task, pc: Pc)
    requires Invariant(s) && k < |s.workers| && IdOf(k) in s.fw.tasks
    requires TaskMatches(fn(s.fw.tasks[IdOf(k)]), pc)
    requires StagedBy(pc) == StagedBy(s.workers[k].pc)
    requires Holds(pc).Some? && s.workers[k].targets != [] ==> Holds(pc).value.component in s.workers[k].targets
    ensures Invariant(Sys(UpdateTask(s.fw, IdOf(k), fn), s.workers[k := s.workers[k].(pc := pc)], s.log))
  {
    var s' := Sys(UpdateTask(s.fw, IdOf(k), fn), s.workers[k := s.workers[k].(pc := pc)], s.log);
    forall j | 0 <= j < |s.workers| ensures WorkerOk(s', j) {
      assert WorkerOk(s, j);
      if j != k {
        IdsDiffer(j, k);
      }
    }
  }

  lemma SilentStepKeeps(s: Sys, k: nat, pc: Pc)
    requires Invariant(s) && k < |s.workers| && IdOf(k) in s.fw.tasks
    requires TaskMatches(s.fw.tasks[IdOf(k)], pc)
    requires StagedBy(pc) == StagedBy(s.workers[k].pc)
    requires Holds(pc).Some? && s.workers[k].targets != [] ==> Holds(pc).value.component in s.workers[k].targets
    ensures Invariant(Sys(s.fw, s.workers[k := s.workers[k].(pc := pc)], s.log))
  {
    var s' := Sys(s.fw, s.workers[k := s.workers[k].(pc := pc)], s.log);
    forall j | 0 <= j < |s.workers| ensures WorkerOk(s', j) {
      assert WorkerOk(s, j);
    }
  }

  lemma StagingKeeps(s: Sys, k: nat, pkg: Package)
    requires Invariant(s) && k < |s.workers| && s.workers[k].pc == Staging(pkg)
    ensures Invariant(Sys(Stage(s.fw, pkg), s.workers[k := s.workers[k].(pc := Finish(pkg))], s.log + [Staged(k, pkg)]))
  {
    var s' := Sys(Stage(s.fw, pkg), s.workers[k := s.workers[k].(pc := Finish(pkg))], s.log + [Staged(k, pkg)]);
    forall c: Component ensures LastStaged(s'.log, c) == if c == pkg.component then Some(pkg.version) else LastStaged(s.log, c) {
      LastStagedSnoc(s.log, Staged(k, pkg), c);
    }
    forall j | 0 <= j < |s.workers| ensures WorkerOk(s', j) {
      assert WorkerOk(s, j);
    }
  }

  lemma FetchKeeps(s: Sys, k: nat, fetched: Option<Package>, cancelled: bool)
    requires Invariant(s) && k < |s.workers| && s.workers[k].pc.Fetch?
    ensures Invariant(MovedTo(s, k, fetched, cancelled))
  {
    assert WorkerOk(s, k);
    assert s.log + [] == s.log;
    var w := s.workers[k];
    if fetched.None? || (w.targets != [] && fetched.value.component !in w.targets) {
      SilentStepKeeps(s, k, Fail);
    } else {
      TaskStepKeeps(s, k, ToPercent(10), Flash(1, fetched.value));
    }
  }

  lemma NextPercent(t: Task, n: nat, pkg: Package)
    requires TaskMatches(t, Flash(n, pkg))
    ensures n < FLASH_STEPS ==> TaskMatches(SetPercent(t, Percent(n)), Flash(n + 1, pkg))
    ensures n == FLASH_STEPS ==> TaskMatches(t, Staging(pkg))
    ensures TaskMatches(t, Fail)
  {
  }

  lemma FlashStopKeeps(s: Sys, k: nat, fetched: Option<Package>, cancelled: bool)
    requires Invariant(s) && k < |s.workers| && s.workers[k].pc.Flash?
    requires cancelled || s.workers[k].pc.n == FLASH_STEPS
    ensures Invariant(MovedTo(s, k, fetched, cancelled))
  {
    assert WorkerOk(s, k);
    assert s.log + [] == s.log;
    var Flash(n, pkg) := s.workers[k].pc;
    NextPercent(s.fw.tasks[IdOf(k)], n, pkg);
    SilentStepKeeps(s, k, if cancelled then Fail else Staging(pkg));
  }

  lemma FlashOnMoves(s: Sys, k: nat, fetched: Option<Package>)
    requires k < |s.workers| && s.workers[k].pc.Flash? && 1 <= s.workers[k].pc.n < FLASH_STEPS
    ensures var Flash(n, pkg) := s.workers[k].pc;
      MovedTo(s, k, fetched, false) ==
        Sys(UpdateTask(s.fw, IdOf(k), ToPercent(Percent(n))), s.workers[k := s.workers[k].(pc := Flash(n + 1, pkg))], s.log)
  {
    assert s.log + [] == s.log;
  }

  lemma FlashOnKeeps(s: Sys, k: nat, fetched: Option<Package>)
    requires Invariant(s) && k < |s.workers| && s.workers[k].pc.Flash? && s.workers[k].pc.n != FLASH_STEPS
    ensures Invariant(MovedTo(s, k, fetched, false))
  {
    assert WorkerOk(s, k);
    var Flash(n, pkg) := s.workers[k].pc;
    var t := s.fw.tasks[IdOf(k)];
    assert TaskMatches(t, Flash(n, pkg));
    NextPercent(t, n, pkg);
    assert ToPercent(Percent(n))(t) == SetPercent(t, Percent(n));
    TaskStepKeeps(s, k, ToPercent(Percent(n)), Flash(n + 1, pkg));
    FlashOnMoves(s, k, fetched);
  }

  lemma EndKeeps(s: Sys, k: nat, fetched: Option<Package>, cancelled: bool)
    requires Invariant(s) && k < |s.workers| && !s.workers[k].pc.Fetch? && !s.workers[k].pc.Flash?
    ensures Invariant(MovedTo(s, k, fetched, cancelled))
  {
    assert WorkerOk(s, k);
    assert s.log + [] == s.log;
    var pc := s.workers[k].pc;
    match pc
    case Begin => TaskStepKeeps(s, k, ToRunning(), Fetch);
    case Fail => TaskStepKeeps(s, k, ToException(), Failed);
    case Staging(pkg) => StagingKeeps(s, k, pkg);
    case Finish(pkg) => TaskStepKeeps(s, k, ToCompleted(), Succeeded(pkg));
    case _ => SilentStepKeeps(s, k, pc);
  }

  lemma AdvanceKeeps(s: Sys, k: nat, fetched: Option<Package>, cancelled: bool)
    requires Invariant(s) && k < |s.workers|
    ensures Invariant(MovedTo(s, k, fetched, cancelled))
  {
    if s.workers[k].pc.Fetch? {
      FetchKeeps(s, k, fetched, cancelled);
    } else if s.workers[k].pc.Flash? {
      if cancelled || s.workers[k].pc.n == FLASH_STEPS {
        FlashStopKeeps(s, k, fetched, cancelled);
      } else {
        FlashOnKeeps(s, k, fetched);
      }
    } else {
      EndKeeps(s, k, fetched, cancelled);
    }
  }

  lemma StepKeeps(s: Sys, a: Action)
    requires Invariant(s)
    ensures Invariant(Step(s, a))
  {
    match a
    case SimpleUpdate(name, targets) => CreateKeeps(s, name, targets);
    case Advance(k, fetched, cancelled) =>
      if k < |s.workers| {
        AdvanceKeeps(s, k, fetched, cancelled);
      }
    case Reset(c) => ResetKeeps(s, c);
  }

  lemma {:induction false} EveryInterleaving(versions: map<Component, string>, schedule: seq<Action>)
    ensures Invariant(Run(Init(versions), schedule))
  {
    if schedule != [] {
      EveryInterleaving(versions, schedule[..|schedule| - 1]);
      StepKeeps(Run(Init(versions), schedule[..|schedule| - 1]), schedule[|schedule| - 1]);
    }
  }

  ghost predicate Reachable(s: Sys) {
    exists versions, schedule :: s == Run(Init(versions), schedule)
  }

  lemma ReachableInvariant(s: Sys)
    requires Reachable(s)
    ensures Invariant(s)
  {
    var versions, schedule :| s == Run(Init(versions), schedule);
    EveryInterleaving(versions, schedule);
  }

  // ----- the life of a task -----

  /** From one look at a task to a later one: forward through New, Running and one of the two
      terminal states, percent never down, nothing changes once terminal. */
  ghost predicate Later(t: Task, u: Task) {
    && (t.state == u.state
        || (t.state == New && u.state != New)
        || (t.state == Running && (u.state == Completed || u.state == Exception)))
    && t.percent <= u.percent
    && (t.state == Completed || t.state == Exception ==> u == t)
  }

  lemma LaterTransitive(t: Task, u: Task, v: Task)
    requires Later(t, u) && Later(u, v)
    ensures Later(t, v)
  {
  }

  /** A goroutine moves its own task forward. */
  lemma OwnStepIsLater(s: Sys, k: nat, fetched: Option<Package>, cancelled: bool)
    requires k < |s.workers| && WorkerOk(s, k)
    ensures var fw := Advanced(s.fw, k, s.workers[k], fetched, cancelled).0;
      IdOf(k) in fw.tasks && Later(s.fw.tasks[IdOf(k)], fw.tasks[IdOf(k)])
  {
    var t := s.fw.tasks[IdOf(k)];
    assert TaskMatches(t, s.workers[k].pc);
  }

  /** It leaves every other task as it is. */
  lemma OtherTaskStays(fw: Firmware, j: nat, w: Worker, fetched: Option<Package>, cancelled: bool, id: string)
    requires id in fw.tasks && id != IdOf(j)
    ensures var fw' := Advanced(fw, j, w, fetched, cancelled).0;
      id in fw'.tasks && fw'.tasks[id] == fw.tasks[id]
  {
  }

  lemma StepIsLater(s: Sys, a: Action, id: string)
    requires Invariant(s) && id in s.fw.tasks
    ensures var s' := Step(s, a);
      id in s'.fw.tasks && Later(s.fw.tasks[id], s'.fw.tasks[id])
  {
    match a
    case SimpleUpdate(name, targets) =>
      CreateKeeps(s, name, targets);
    case Advance(j, fetched, cancelled) =>
      if j < |s.workers| {
        assert WorkerOk(s, j);
        if id == IdOf(j) {
          OwnStepIsLater(s, j, fetched, cancelled);
        } else {
          OtherTaskStays(s.fw, j, s.workers[j], fetched, cancelled, id);
        }
      }
    case Reset(c) =>
  }

  /** Whatever happens after a reachable state, a task is still there and has only moved forward. */
  lemma TaskLife(s: Sys, more: seq<Action>, id: string)
    requires Reachable(s) && id in s.fw.tasks
    ensures var s' := Run(s, more);
      id in s'.fw.tasks && Later(s.fw.tasks[id], s'.fw.tasks[id])
  {
    ReachableInvariant(s);
    TaskLifeFrom(s, more, id);
  }

  lemma {:induction false} TaskLifeFrom(s: Sys, more: seq<Action>, id: string)
    requires Invariant(s) && id in s.fw.tasks
    ensures var s' := Run(s, more);
      Invariant(s') && id in s'.fw.tasks && Later(s.fw.tasks[id], s'.fw.tasks[id])
  {
    if more != [] {
      var before, a := more[..|more| - 1], more[|more| - 1];
      TaskLifeFrom(s, before, id);
      var r := Run(s, before);
      StepKeeps(r, a);
      StepIsLater(r, a, id);
      LaterTransitive(s.fw.tasks[id], r.fw.tasks[id], Step(r, a).fw.tasks[id]);
    }
  }

  /** In every reachable state: percent is 100 exactly for completed tasks; a completed task has
      staged a package its targets admit; a failed one has staged nothing. */
  lemma TaskOutcomes(s: Sys, k: nat)
    requires Reachable(s) && k < |s.workers|
    ensures && IdOf(k) in s.fw.tasks
      && var t := s.fw.tasks[IdOf(k)];
      && (t.percent == 100 <==> t.state == Completed)
      && (t.state == Completed ==>
            exists p :: Staged(k, p) in s.log
              && (s.workers[k].targets == [] || p.component in s.workers[k].targets))
      && (t.state == Exception ==> forall p :: Staged(k, p) !in s.log)
  {
    ReachableInvariant(s);
    assert WorkerOk(s, k);
    var w := s.workers[k];
    if w.pc.Succeeded? {
      assert Staged(k, w.pc.pkg) in s.log;
    }
  }

  /** Every goroutine can move, and a request adds an entry and a goroutine for it. */
  lemma StepsHappen(s: Sys, k: nat, fetched: Option<Package>, cancelled: bool, name: string, targets: seq<Component>)
    ensures k < |s.workers| ==> Step(s, Advance(k, fetched, cancelled)) == MovedTo(s, k, fetched, cancelled)
    ensures var s' := Step(s, SimpleUpdate(name, targets));
      && s'.workers == s.workers + [Worker(targets, Begin)]
      && s'.fw.tasks == s.fw.tasks[TaskId(s.fw.nextTaskId + 1) := Task(name, New, 0, [])]
      && s'.fw.nextTaskId == s.fw.nextTaskId + 1 && s'.fw.staged == s.fw.staged && s'.fw.versions == s.fw.versions
  {
  }

  // ----- one goroutine on its own -----

  function StepsLeft(pc: Pc): nat {
    match pc
    case Begin => 8
    case Fetch => 7
    case Flash(n, _) => if 1 <= n <= FLASH_STEPS then 7 - n else 3
    case Staging(_) => 2
    case Fail => 1
    case Finish(_) => 1
    case Succeeded(_) => 0
    case Failed => 0
  }

  /** Goroutine k moves until it is done, with the given download and cancelled flash step. */
  function Alone(s: Sys, k: nat, fetched: Option<Package>, cancelledIn: Option<nat>): Sys
    requires k < |s.workers|
    decreases StepsLeft(s.workers[k].pc)
  {
    var pc := s.workers[k].pc;
    if StepsLeft(pc) == 0 then s
    else Alone(MovedTo(s, k, fetched, pc.Flash? && cancelledIn == Some(pc.n)), k, fetched, cancelledIn)
  }

  /** What is still going to come of a goroutine at `pc`. */
  function OutcomeFrom(pc: Pc, targets: seq<Component>, fetched: Option<Package>, cancelledIn: Option<nat>): Option<Package> {
    match pc
    case Begin => UpdateOutcome(targets, fetched, cancelledIn)
    case Fetch => UpdateOutcome(targets, fetched, cancelledIn)
    case Flash(n, pkg) => if cancelledIn.Some? && n <= cancelledIn.value <= FLASH_STEPS then None else Some(pkg)
    case Staging(pkg) => Some(pkg)
    case Finish(pkg) => Some(pkg)
    case Succeeded(pkg) => Some(pkg)
    case Fail => None
    case Failed => None
  }

  lemma OutcomeStays(s: Sys, k: nat, fetched: Option<Package>, cancelledIn: Option<nat>)
    requires k < |s.workers| && StepsLeft(s.workers[k].pc) > 0
    requires s.workers[k].pc.Flash? ==> 1 <= s.workers[k].pc.n <= FLASH_STEPS
    ensures var Worker(targets, pc) := s.workers[k];
      var s' := MovedTo(s, k, fetched, pc.Flash? && cancelledIn == Some(pc.n));
      var outcome := OutcomeFrom(pc, targets, fetched, cancelledIn);
      && s'.workers[k].targets == targets && StepsLeft(s'.workers[k].pc) < StepsLeft(pc)
      && OutcomeFrom(s'.workers[k].pc, targets, fetched, cancelledIn) == outcome
      && s'.fw.staged == (if pc.Staging? then s.fw.staged[pc.pkg.component := pc.pkg.version] else s.fw.staged)
      && (StagedBy(s'.workers[k].pc).Some? <==> pc.Staging? || pc.Finish?)
  {
    var pc := s.workers[k].pc;
    match pc
    case Flash(n, pkg) =>
      if cancelledIn != Some(n) && n < FLASH_STEPS {
        FlashOnMoves(s, k, fetched);
      }
    case _ =>
  }

  lemma {:induction false} AloneFrom(s: Sys, k: nat, fetched: Option<Package>, cancelledIn: Option<nat>)
    requires Invariant(s) && k < |s.workers|
    ensures var Worker(targets, pc) := s.workers[k];
      var s' := Alone(s, k, fetched, cancelledIn);
      var outcome := OutcomeFrom(pc, targets, fetched, cancelledIn);
      && Invariant(s') && |s'.workers| == |s.workers|
      && s'.workers[k].pc == (match outcome case None => Failed case Some(pkg) => Succeeded(pkg))
      && s'.fw.staged == (if outcome.Some? && StagedBy(pc).None?
                          then s.fw.staged[outcome.value.component := outcome.value.version] else s.fw.staged)
    decreases StepsLeft(s.workers[k].pc)
  {
    var pc := s.workers[k].pc;
    if StepsLeft(pc) > 0 {
      var cancelled := pc.Flash? && cancelledIn == Some(pc.n);
      AdvanceKeeps(s, k, fetched, cancelled);
      assert WorkerOk(s, k);
      OutcomeStays(s, k, fetched, cancelledIn);
      AloneFrom(MovedTo(s, k, fetched, cancelled), k, fetched, cancelledIn);
    }
  }

  /** Undisturbed, the goroutine does what RunFirmwareUpdate does in one go: it stages exactly the
      updater's outcome and ends its entry accordingly. */
  lemma AloneMatchesUpdate(s: Sys, k: nat, fetched: Option<Package>, cancelledIn: Option<nat>)
    requires Reachable(s) && k < |s.workers| && s.workers[k].pc == Begin
    ensures var s' := Alone(s, k, fetched, cancelledIn);
      var outcome := UpdateOutcome(s.workers[k].targets, fetched, cancelledIn);
      && IdOf(k) in s'.fw.tasks
      && s'.fw.tasks[IdOf(k)].state == (if outcome.Some? then Completed else Exception)
      && s'.fw.staged == (match outcome case None => s.fw.staged
                          case Some(pkg) => s.fw.staged[pkg.component := pkg.version])
  {
    ReachableInvariant(s);
    AloneFrom(s, k, fetched, cancelledIn);
    assert WorkerOk(Alone(s, k, fetched, cancelledIn), k);
  }

  /** An activation installs the version last staged for the component since its previous
      activation, leaves the other component alone, and does nothing if there is none. */
  lemma ActivationInstallsLastStaged(s: Sys, c: Component)
    requires Reachable(s)
    ensures var s' := Step(s, Reset(c));
      && Activate(s.fw, c).1 == LastStaged(s.log, c)
      && (LastStaged(s.log, c).None? ==> s' == s)
      && (LastStaged(s.log, c).Some? ==>
            && c in s'.fw.versions && s'.fw.versions[c] == LastStaged(s.log, c).value
            && c !in s'.fw.staged
            && LastStaged(s'.log, c) == None)
      && (forall d :: d != c && d in s.fw.versions ==> d in s'.fw.versions && s'.fw.versions[d] == s.fw.versions[d])
      && s'.fw.tasks == s.fw.tasks
  {
    ReachableInvariant(s);
    LastStagedSnoc(s.log, Activated(c), c);
  }

  lemma IdsAreCreated(s: Sys, id: string)
    requires Invariant(s)
    ensures id in s.fw.tasks <==> id in Created(|s.workers|)
  {
    var n := |s.workers|;
    if id in s.fw.tasks {
      var k: nat :| k < n && id == IdOf(k);
      CreatedAt(n, k);
    }
    if id in Created(n) {
      var i :| 0 <= i < n && Created(n)[i] == id;
      CreatedAt(n, i);
      assert WorkerOk(s, i);
    }
  }

  /** Task ids are never reused: the n-th request gets TaskId(n), which names no earlier task, and
      the map holds exactly the ids of the requests so far. */
  lemma FreshTaskIds(s: Sys, name: string)
    requires Reachable(s)
    ensures var (fw, id) := CreateTask(s.fw, name);
      && id == TaskId(|s.workers| + 1)
      && id !in s.fw.tasks
      && (forall i :: i in s.fw.tasks <==> i in Created(|s.workers|))
  {
    ReachableInvariant(s);
    CreateKeeps(s, name, []);
    forall i ensures i in s.fw.tasks <==> i in Created(|s.workers|) {
      IdsAreCreated(s, i);
    }
  }

  /** What listTaskIDs returns: the keys of the map in whatever order it hands them out, sorted.
      In every reachable state with fewer than 10^12 tasks that is creation order. */
  lemma ListingIsCreationOrder(s: Sys, ids: seq<string>)
    requires Reachable(s)
    ensures |s.workers| < Pow10(WIDTH) && Distinct(ids) && (forall id :: id in ids <==> id in s.fw.tasks) && Sorted(ids)
      ==> ids == Created(|s.workers|)
  {
    ReachableInvariant(s);
    if |s.workers| < Pow10(WIDTH) && Distinct(ids) && (forall id :: id in ids <==> id in s.fw.tasks) && Sorted(ids) {
      forall id ensures id in ids <==> id in Created(|s.workers|) {
        IdsAreCreated(s, id);
      }
      CreatedDistinct(|s.workers|);
      SameMembers(ids, Created(|s.workers|));
      SortingGivesCreationOrder(ids, |s.workers|);
    }
  }
}
