/**
 Firmware state of internal/redfish/server.go and handler_update.go: what each lock-held
 section does to the map of tasks, the staged versions and the active versions; the progress
 sequence of internal/firmware/firmware.go; and the server object that holds the state.
 */
module FirmwareTasks {
  import opened Wrappers
  import opened TaskIds

  datatype Component = BIOS | BMC

  datatype Package = Package(component: Component, version: string)

  datatype TaskState = New | Running | Completed | Exception

  datatype Task = Task(name: string, state: TaskState, percent: nat, messages: seq<string>)

  datatype Firmware = Firmware(
    versions: map<Component, string>,
    staged: map<Component, string>,
    tasks: map<string, Task>,
    nextTaskId: nat)

  // ----- the lock-held sections -----

  function CreateTask(fw: Firmware, name: string): (Firmware, string) {
    var id := TaskId(fw.nextTaskId + 1);
    (fw.(nextTaskId := fw.nextTaskId + 1, tasks := fw.tasks[id := Task(name, New, 0, [])]), id)
  }

  function UpdateTask(fw: Firmware, id: string, fn: Task -> Task): Firmware {
    if id in fw.tasks then fw.(tasks := fw.tasks[id := fn(fw.tasks[id])]) else fw
  }

  function SetRunning(t: Task): Task {
    t.(state := Running)
  }

  function SetPercent(t: Task, percent: nat): Task {
    t.(percent := percent)
  }

  function SetException(t: Task): Task {
    t.(state := Exception, messages := t.messages + ["TaskEvent.1.0.TaskAborted"])
  }

  function SetCompleted(t: Task): Task {
    t.(state := Completed, percent := 100, messages := t.messages + ["Update.1.0.AwaitToActivate"])
  }

  function Stage(fw: Firmware, pkg: Package): Firmware {
    fw.(staged := fw.staged[pkg.component := pkg.version])
  }

  function Activate(fw: Firmware, c: Component): (Firmware, Option<string>) {
    if c in fw.staged then
      (fw.(versions := fw.versions[c := fw.staged[c]], staged := fw.staged - {c}), Some(fw.staged[c]))
    else
      (fw, None)
  }

  class Server {
    var firmwareVersions: map<Component, string>
    var stagedFirmware: map<Component, string>
    var tasks: map<string, Task>
    var nextTaskId: nat

    function View(): Firmware
      reads this
    {
      Firmware(firmwareVersions, stagedFirmware, tasks, nextTaskId)
    }

    constructor (versions: map<Component, string>)
      ensures View() == Firmware(versions, map[], map[], 0)
    {
      firmwareVersions, stagedFirmware, tasks, nextTaskId := versions, map[], map[], 0;
    }

    method Create(name: string) returns (id: string)
      modifies this
      ensures (View(), id) == CreateTask(old(View()), name)
    {
      nextTaskId := nextTaskId + 1;
      id := TaskId(nextTaskId);
      tasks := tasks[id := Task(name, New, 0, [])];
    }

    method Update(id: string, fn: Task -> Task)
      modifies this
      ensures View() == UpdateTask(old(View()), id, fn)
    {
      if id !in tasks {
        return;
      }
      var task := fn(tasks[id]);
      tasks := tasks[id := task];
    }

    method StageFirmware(pkg: Package)
      modifies this
      ensures View() == Stage(old(View()), pkg)
    {
      stagedFirmware := stagedFirmware[pkg.component := pkg.version];
    }

    method ActivateStagedFirmware(c: Component) returns (v: Option<string>)
      modifies this
      ensures (View(), v) == Activate(old(View()), c)
    {
      if c !in stagedFirmware {
        return None;
      }
      v := Some(stagedFirmware[c]);
      firmwareVersions := firmwareVersions[c := v.value];
      stagedFirmware := stagedFirmware - {c};
    }

    /** The progress callback, once per report. */
    method Report(id: string, progress: seq<nat>)
      modifies this
      ensures nextTaskId == old(nextTaskId) && firmwareVersions == old(firmwareVersions)
      ensures stagedFirmware == old(stagedFirmware) && tasks.Keys == old(tasks.Keys)
      ensures forall k :: k in tasks && k != id ==> tasks[k] == old(tasks)[k]
      ensures id in tasks ==> tasks[id] == old(tasks)[id].(percent := LastOr(old(tasks)[id].percent, progress))
    {
      for i := 0 to |progress|
        invariant nextTaskId == old(nextTaskId) && firmwareVersions == old(firmwareVersions)
        invariant stagedFirmware == old(stagedFirmware) && tasks.Keys == old(tasks.Keys)
        invariant forall k :: k in tasks && k != id ==> tasks[k] == old(tasks)[k]
        invariant id in tasks ==> tasks[id] == old(tasks)[id].(percent := LastOr(old(tasks)[id].percent, progress[..i]))
      {
        var percent := progress[i];
        Update(id, t => SetPercent(t, percent));
      }
      assert progress[..|progress|] == progress;
    }

    /** runFirmwareUpdate with nobody else in between: Run's outcome decides what is left behind. */
    method RunFirmwareUpdate(id: string, targets: seq<Component>, fetched: Option<Package>, cancelledIn: Option<nat>)
      returns (result: Option<Package>)
      modifies this
      ensures result == UpdateOutcome(targets, fetched, cancelledIn)
      ensures nextTaskId == old(nextTaskId) && firmwareVersions == old(firmwareVersions)
      ensures stagedFirmware == match result case None => old(stagedFirmware)
                                case Some(pkg) => old(stagedFirmware)[pkg.component := pkg.version]
      ensures tasks.Keys == old(tasks.Keys)
      ensures forall k :: k in tasks && k != id ==> tasks[k] == old(tasks)[k]
      ensures id in tasks ==>
        && tasks[id].state == (if result.Some? then Completed else Exception)
        && tasks[id].percent == (if result.Some? then 100
                                 else LastOr(old(tasks)[id].percent, UpdateProgress(targets, fetched, cancelledIn)))
        && tasks[id].messages == old(tasks)[id].messages
             + [if result.Some? then "Update.1.0.AwaitToActivate" else "TaskEvent.1.0.TaskAborted"]
        && tasks[id].name == old(tasks)[id].name
    {
      Update(id, t => SetRunning(t));
      var progress;
      result, progress := Run(targets, fetched, cancelledIn);
      Report(id, progress);
      if result.None? {
        Update(id, t => SetException(t));
        return;
      }
      StageFirmware(result.value);
      Update(id, t => SetCompleted(t));
    }
  }

  // ----- the updater -----

  const FLASH_STEPS := 4

  /** The package that gets installed: what was fetched and parsed, if the targets admit it and
      no flash step is cancelled. */
  function UpdateOutcome(targets: seq<Component>, fetched: Option<Package>, cancelledIn: Option<nat>): Option<Package> {
    if fetched.None? || (targets != [] && fetched.value.component !in targets) then None
    else if cancelledIn.Some? && 1 <= cancelledIn.value <= FLASH_STEPS then None
    else fetched
  }

  /** An update comes off exactly when a package was fetched, the targets are empty or name its
      component, and none of the four flash steps is cancelled; it is the package fetched. */
  lemma OutcomeIff(targets: seq<Component>, fetched: Option<Package>, cancelledIn: Option<nat>)
    ensures UpdateOutcome(targets, fetched, cancelledIn).Some? <==>
      && fetched.Some?
      && (targets == [] || fetched.value.component in targets)
      && (cancelledIn.Some? ==> cancelledIn.value < 1 || cancelledIn.value > 4)
    ensures UpdateOutcome(targets, fetched, cancelledIn).Some? ==> UpdateOutcome(targets, fetched, cancelledIn) == fetched
  {
  }

  function Percents(n: nat): (p: seq<nat>)
    ensures |p| == n
  {
    if n == 0 then [] else Percents(n - 1) + [10 + (n - 1) * 80 / FLASH_STEPS]
  }

  /** What gets reported: nothing before there is a package that may be installed, then one
      percentage up front and one after each flash step but the last, until one is cancelled. */
  function UpdateProgress(targets: seq<Component>, fetched: Option<Package>, cancelledIn: Option<nat>): seq<nat> {
    if fetched.None? || (targets != [] && fetched.value.component !in targets) then []
    else if cancelledIn.Some? && 1 <= cancelledIn.value <= FLASH_STEPS then Percents(cancelledIn.value)
    else Percents(FLASH_STEPS)
  }

  function LastOr(initial: nat, progress: seq<nat>): nat {
    if progress == [] then initial else progress[|progress| - 1]
  }

  lemma {:induction false} PercentsAt(n: nat, i: nat)
    requires i < n <= FLASH_STEPS
    ensures Percents(n)[i] == 10 + i * 80 / FLASH_STEPS
  {
    if i < n - 1 {
      PercentsAt(n - 1, i);
    }
  }

  /** The reports, by the flash step that is cancelled, and the percentage they leave. */
  lemma ProgressByStep(targets: seq<Component>, fetched: Option<Package>, cancelledIn: Option<nat>, before: nat)
    ensures var p := UpdateProgress(targets, fetched, cancelledIn);
      if fetched.None? || (targets != [] && fetched.value.component !in targets) then
        p == [] && LastOr(before, p) == before
      else if cancelledIn == Some(1) then p == [10] && LastOr(before, p) == 10
      else if cancelledIn == Some(2) then p == [10, 30] && LastOr(before, p) == 30
      else if cancelledIn == Some(3) then p == [10, 30, 50] && LastOr(before, p) == 50
      else p == [10, 30, 50, 70] && LastOr(before, p) == 70
  {
    PercentsAre();
    assert Percents(1) == [10];
    assert Percents(2) == [10, 30];
    assert Percents(3) == [10, 30, 50];
  }

  /** Reports rise and stay below 100. */
  lemma ProgressRises(targets: seq<Component>, fetched: Option<Package>, cancelledIn: Option<nat>)
    ensures var p := UpdateProgress(targets, fetched, cancelledIn);
      && (forall i, j :: 0 <= i < j < |p| ==> p[i] < p[j])
      && (forall i :: 0 <= i < |p| ==> 10 <= p[i] < 100)
  {
    var p := UpdateProgress(targets, fetched, cancelledIn);
    forall i | 0 <= i < |p| ensures p[i] == 10 + i * 20 {
      PercentsAt(|p|, i);
    }
  }

  lemma ProgressIs(targets: seq<Component>, fetched: Option<Package>, cancelledIn: Option<nat>)
    ensures var p := UpdateProgress(targets, fetched, cancelledIn);
      && (UpdateOutcome(targets, fetched, cancelledIn).Some? ==> p == [10, 30, 50, 70])
      && (forall i, j :: 0 <= i < j < |p| ==> p[i] < p[j])
      && (forall i :: 0 <= i < |p| ==> p[i] < 100)
  {
    PercentsAre();
    ProgressRises(targets, fetched, cancelledIn);
  }

  /** Updater.Run: `fetched` is the downloaded and parsed package, `cancelledIn` the flash step at
      which the context is done. */
  method Run(targets: seq<Component>, fetched: Option<Package>, cancelledIn: Option<nat>)
    returns (result: Option<Package>, progress: seq<nat>)
    ensures result == UpdateOutcome(targets, fetched, cancelledIn)
    ensures progress == UpdateProgress(targets, fetched, cancelledIn)
    ensures result.Some? ==> progress == [10, 30, 50, 70]
    ensures forall i, j :: 0 <= i < j < |progress| ==> progress[i] < progress[j]
    ensures forall i :: 0 <= i < |progress| ==> progress[i] < 100
  {
    ProgressIs(targets, fetched, cancelledIn);
    if fetched.None? {
      return None, [];
    }
    if |targets| > 0 && fetched.value.component !in targets {
      return None, [];
    }
    progress := [10];
    var i := 1;
    while i <= FLASH_STEPS
      invariant 1 <= i <= FLASH_STEPS + 1
      invariant |progress| == (if i < FLASH_STEPS then i else FLASH_STEPS) && progress == Percents(|progress|)
      invariant cancelledIn.Some? ==> !(1 <= cancelledIn.value < i)
    {
      if cancelledIn == Some(i) {
        return None, progress;
      }
      if i < FLASH_STEPS {
        assert Percents(i + 1) == Percents(i) + [10 + i * 80 / FLASH_STEPS];
        progress := progress + [10 + i * 80 / FLASH_STEPS];
      }
      i := i + 1;
    }
    return fetched, progress;
  }

  lemma PercentsAre()
    ensures Percents(FLASH_STEPS) == [10, 30, 50, 70]
  {
    assert Percents(1) == [10];
    assert Percents(2) == [10, 30];
    assert Percents(3) == [10, 30, 50];
  }
}
