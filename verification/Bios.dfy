/**
 BIOS attributes of internal/redfish/server.go, handler_bios.go and handler_actions.go: a live
 layer, and a pending layer that the next reset leaving the system on moves into it.
 */
module Bios {
  import opened Wrappers
  import opened Machine
  import opened MachineRuns
  import FirmwareTasks

  /** The JSON text of an attribute's value. */
  type Value = string
  type Attributes = map<string, Value>

  /** Known attributes, and whether changing one takes a reset. */
  type Registry = map<string, bool>

  const DEFAULTS: Attributes := map["AdminPhone" := "", "BootMode" := "Uefi"]

  datatype Layers = Layers(live: Attributes, pending: Attributes)

  datatype Status = Okay | NoContent | BadRequest | InternalError

  /** What a client has asked for so far. */
  function View(l: Layers): Attributes {
    l.live + l.pending
  }

  predicate Immediate(registry: Registry, name: string) {
    name in registry && !registry[name]
  }

  function Now(registry: Registry, attrs: Attributes): Attributes {
    map n | n in attrs && Immediate(registry, n) :: attrs[n]
  }

  function Queued(registry: Registry, attrs: Attributes): Attributes {
    map n | n in attrs && !Immediate(registry, n) :: attrs[n]
  }

  /** A whole PATCH, with nobody in between. */
  function Patched(registry: Registry, l: Layers, attrs: Attributes): Layers {
    Layers(l.live + Now(registry, attrs), l.pending + Queued(registry, attrs))
  }

  function Posted(l: Layers): Layers {
    Layers(View(l), map[])
  }

  /** What the handler's loop adds when it takes one more attribute. */
  lemma OneMore(registry: Registry, done: Attributes, n: string, v: Value)
    requires n !in done
    ensures Now(registry, done[n := v]) == if Immediate(registry, n) then Now(registry, done)[n := v] else Now(registry, done)
    ensures Queued(registry, done[n := v]) == if Immediate(registry, n) then Queued(registry, done) else Queued(registry, done)[n := v]
  {
  }

  predicate SameAt(n: string, a: Attributes, b: Attributes) {
    (n in a <==> n in b) && (n in a ==> a[n] == b[n])
  }

  /** By the registry's own flag: an attribute that needs no reset is live and not queued, one that
      does, or is unknown, is queued and its live value stays. */
  predicate FollowsFlag(registry: Registry, l: Layers, attrs: Attributes, l': Layers, n: string) {
    if n !in attrs then
      SameAt(n, l'.live, l.live) && SameAt(n, l'.pending, l.pending)
    else if n in registry && registry[n] == false then
      n in l'.live && l'.live[n] == attrs[n] && SameAt(n, l'.pending, l.pending)
    else
      n in l'.pending && l'.pending[n] == attrs[n] && SameAt(n, l'.live, l.live)
  }

  lemma PatchFollowsFlag(registry: Registry, l: Layers, attrs: Attributes, n: string)
    ensures FollowsFlag(registry, l, attrs, Patched(registry, l, attrs), n)
  {
    var now, queued := Now(registry, attrs), Queued(registry, attrs);
    assert n in now <==> n in attrs && n in registry && !registry[n];
    assert n in queued <==> n in attrs && !(n in registry && !registry[n]);
  }

  /** The two layers never compete for an attribute that needs no reset. */
  ghost predicate Separate(registry: Registry, l: Layers) {
    forall n :: n in l.pending ==> !Immediate(registry, n)
  }

  predicate Valid(resetType: ResetType) {
    !resetType.Unsupported?
  }

  predicate LeavesOn(resetType: ResetType) {
    resetType == On || resetType == ForceOn || resetType == ForceRestart
    || resetType == GracefulRestart || resetType == PowerCycle
  }

  // ----- the server -----

  class Server {
    var biosAttrs: Attributes
    var biosPendingAttrs: Attributes
    /** None is the zero time. */
    var lastResetTime: Option<int>
    const registry: Registry
    const machine: Machine
    const firmware: FirmwareTasks.Server

    function Bios(): Layers
      reads this
    {
      Layers(biosAttrs, biosPendingAttrs)
    }

    constructor (registry: Registry, machine: Machine, firmware: FirmwareTasks.Server)
      ensures this.registry == registry && this.machine == machine && this.firmware == firmware
      ensures Bios() == Layers(DEFAULTS, map[]) && lastResetTime == None
    {
      this.registry, this.machine, this.firmware := registry, machine, firmware;
      biosAttrs, biosPendingAttrs, lastResetTime := DEFAULTS, map[], None;
    }

    method SetBiosAttribute(name: string, value: Value)
      modifies this`biosAttrs, this`biosPendingAttrs
      ensures Bios() == ApplySection(old(Bios()), SetNow(name, value))
    {
      biosAttrs := biosAttrs[name := value];
    }

    method MergeBiosPendingAttributes(attrs: Attributes)
      modifies this`biosAttrs, this`biosPendingAttrs
      ensures Bios() == ApplySection(old(Bios()), Merge(attrs))
    {
      biosPendingAttrs := biosPendingAttrs + attrs;
    }

    method ApplyPendingBiosSettings() returns (applied: Attributes)
      modifies this`biosAttrs, this`biosPendingAttrs
      ensures applied == old(biosPendingAttrs)
      ensures Bios() == ApplySection(old(Bios()), Post)
    {
      applied := biosPendingAttrs;
      biosAttrs := biosAttrs + biosPendingAttrs;
      biosPendingAttrs := map[];
    }

    /** The loop of the PATCH handler: the attributes come in whatever order the map hands them
        out; those that need no reset are set at once, the others returned. */
    method ApplyImmediate(attrs: Attributes) returns (pending: Attributes)
      modifies this`biosAttrs, this`biosPendingAttrs
      ensures pending == Queued(registry, attrs)
      ensures biosAttrs == old(biosAttrs) + Now(registry, attrs) && biosPendingAttrs == old(biosPendingAttrs)
    {
      pending := map[];
      var todo := attrs.Keys;
      ghost var done: Attributes := map[];
      assert old(biosAttrs) + Now(registry, done) == old(biosAttrs);
      while todo != {}
        invariant forall n :: n in attrs <==> n in todo || n in done
        invariant forall n :: n in done ==> n !in todo && done[n] == attrs[n]
        invariant biosPendingAttrs == old(biosPendingAttrs)
        invariant biosAttrs == old(biosAttrs) + Now(registry, done)
        invariant pending == Queued(registry, done)
        decreases todo
      {
        var name :| name in todo;
        OneMore(registry, done, name, attrs[name]);
        done := done[name := attrs[name]];
        if name in registry && !registry[name] {
          SetBiosAttribute(name, attrs[name]);
        } else {
          pending := pending[name := attrs[name]];
        }
        todo := todo - {name};
      }
      assert done == attrs;
    }

    method HandlePatchBiosSettings(body: Option<Attributes>) returns (status: Status)
      modifies this`biosAttrs, this`biosPendingAttrs
      ensures status == BadRequest <==> body.None? || body.value == map[]
      ensures status == BadRequest || status == NoContent
      ensures Bios() == if status == NoContent then Patched(registry, old(Bios()), body.value) else old(Bios())
      ensures status == NoContent ==> forall n :: FollowsFlag(registry, old(Bios()), body.value, Bios(), n)
    {
      if body.None? {
        return BadRequest;
      }
      var attrs := body.value;
      if |attrs| == 0 {
        return BadRequest;
      }
      var pending := ApplyImmediate(attrs);
      if |pending| > 0 {
        MergeBiosPendingAttributes(pending);
      }
      forall n ensures FollowsFlag(registry, old(Bios()), attrs, Patched(registry, old(Bios()), attrs), n) {
        PatchFollowsFlag(registry, old(Bios()), attrs, n);
      }
      return NoContent;
    }

    method OnSystemPowerOnReset()
      modifies this`biosAttrs, this`biosPendingAttrs, firmware
      ensures (Bios(), firmware.View()) == PickedUp(old(Bios()), old(firmware.View()))
    {
      var _ := ApplyPendingBiosSettings();
      var _ := firmware.ActivateStagedFirmware(FirmwareTasks.BIOS);
    }

    /** The machine's result alone decides whether anything is picked up. */
    method HandleResetAction(body: Option<ResetType>, env: Env) returns (status: Status)
      requires machine.Valid()
      modifies this`biosAttrs, this`biosPendingAttrs, firmware, machine, machine.manager
      ensures machine.Valid()
      ensures (machine.View(), Bios(), firmware.View(), status)
           == ResetAction(old(machine.View()), old(Bios()), old(firmware.View()), body, env)
      ensures status == BadRequest <==> body.None? || body.value.Unsupported?
      ensures status == NoContent && body.value in {On, ForceOn, ForceRestart, GracefulRestart, PowerCycle} ==>
        biosPendingAttrs == map[] && biosAttrs == old(biosAttrs) + old(biosPendingAttrs)
      ensures status != NoContent || body.value in {ForceOff, GracefulShutdown} ==>
        Bios() == old(Bios()) && firmware.View() == old(firmware.View())
    {
      if body.None? || !Valid(body.value) {
        return BadRequest;
      }
      var ok := machine.Reset(body.value, env);
      if !ok {
        return InternalError;
      }
      if LeavesOn(body.value) {
        OnSystemPowerOnReset();
      }
      return NoContent;
    }

    /** The manager's own reset notes the time, activates BMC firmware and leaves the BIOS alone. */
    method HandleManagerReset(body: Option<ResetType>, now: int) returns (status: Status)
      modifies this`lastResetTime, firmware
      ensures status == if body == Some(GracefulRestart) then Okay else BadRequest
      ensures lastResetTime == if status == Okay then Some(now) else old(lastResetTime)
      ensures firmware.View() ==
        if status == Okay then FirmwareTasks.Activate(old(firmware.View()), FirmwareTasks.BMC).0 else old(firmware.View())
    {
      if body != Some(GracefulRestart) {
        return BadRequest;
      }
      lastResetTime := Some(now);
      var _ := firmware.ActivateStagedFirmware(FirmwareTasks.BMC);
      return Okay;
    }
  }

  // ----- what a reset request picks up -----

  function PickedUp(bios: Layers, fw: FirmwareTasks.Firmware): (Layers, FirmwareTasks.Firmware) {
    (Posted(bios), FirmwareTasks.Activate(fw, FirmwareTasks.BIOS).0)
  }

  function ResetAction(st: State, bios: Layers, fw: FirmwareTasks.Firmware, body: Option<ResetType>, env: Env):
    (State, Layers, FirmwareTasks.Firmware, Status)
  {
    if body.None? || !Valid(body.value) then (st, bios, fw, BadRequest)
    else
      var (st', ok) := ResetTo(st, body.value, env);
      if !ok then (st', bios, fw, InternalError)
      else if !LeavesOn(body.value) then (st', bios, fw, NoContent)
      else (st', PickedUp(bios, fw).0, PickedUp(bios, fw).1, NoContent)
  }

  /** By type: the five that leave the system on empty the pending layer and install the staged
      BIOS version, and nothing else of the firmware, when the machine returns nil; the other two,
      errors and refused requests change neither. */
  lemma ResetActionByType(st: State, bios: Layers, fw: FirmwareTasks.Firmware, body: Option<ResetType>, env: Env)
    ensures var (st', bios', fw', status) := ResetAction(st, bios, fw, body, env);
      && (status == BadRequest <==> body.None? || body.value.Unsupported?)
      && (status == BadRequest ==> st' == st)
      && (status != BadRequest ==>
            st' == ResetTo(st, body.value, env).0 && (status == NoContent <==> ResetTo(st, body.value, env).1)
            && (status != NoContent ==> status == InternalError))
      && (status == NoContent && body.value in {On, ForceOn, ForceRestart, GracefulRestart, PowerCycle} ==>
            && bios' == Layers(bios.live + bios.pending, map[])
            && fw'.staged == fw.staged - {FirmwareTasks.BIOS}
            && fw'.versions == (if FirmwareTasks.BIOS in fw.staged
                                then fw.versions[FirmwareTasks.BIOS := fw.staged[FirmwareTasks.BIOS]] else fw.versions)
            && fw'.tasks == fw.tasks && fw'.nextTaskId == fw.nextTaskId)
      && (status != NoContent || body.value in {ForceOff, GracefulShutdown} ==> bios' == bios && fw' == fw)
  {
    assert FirmwareTasks.BIOS !in fw.staged ==> fw.staged - {FirmwareTasks.BIOS} == fw.staged;
  }

  /** The machine has gone through POST: a new generation was launched, or a running one was
      reset in place. */
  ghost predicate WentThroughPost(st: State, resetType: ResetType, env: Env) {
    var (st', ok) := ResetTo(st, resetType, env);
    Launches(st') != Launches(st) || (resetType == ForceRestart && st.pm.running && ok)
  }

  /** A reset that picks up pending settings comes with a POST exactly unless it is an On of a
      machine that is up, a ForceRestart of one that is not, or a restart that never saw the old
      process go. */
  lemma PickUpComesWithPostIff(st: State, resetType: ResetType, env: Env)
    requires StateOk(st) && LeavesOn(resetType) && ResetTo(st, resetType, env).1
    ensures WentThroughPost(st, resetType, env) <==>
      match resetType
      case ForceRestart => st.pm.running
      case GracefulRestart => !st.pm.running || ExitObserved(st, resetType, env) || env.exitsBeforeCheck
      case PowerCycle => !st.pm.running || ExitObserved(st, resetType, env) || env.exitsBeforeCheck
      case _ => !st.pm.running || env.exitsBeforeCheck
  {
    OneLaunchMore(Launches(st), st.bootOverride.target);
    ResetEffect(st, resetType, env);
    if IsRestart(resetType) {
      RestartStartsIff(st, resetType, env);
    } else if resetType != ForceRestart {
      PowerOnLaunches(st, env);
    }
  }

  /** POST ResetType On to a machine that is up resets nothing, and picks everything up. */
  lemma OnPicksUpWithoutPost(st: State, bios: Layers, fw: FirmwareTasks.Firmware, resetType: ResetType, env: Env)
    requires StateOk(st) && st.pm.running && !env.exitsBeforeCheck && (resetType == On || resetType == ForceOn)
    ensures ResetAction(st, bios, fw, Some(resetType), env) == (st, PickedUp(bios, fw).0, PickedUp(bios, fw).1, NoContent)
    ensures !WentThroughPost(st, resetType, env)
  {
    PickUpComesWithPostIff(st, resetType, env);
  }

  // ----- lock-held sections, in any order -----

  datatype Section = SetNow(name: string, value: Value) | Merge(attrs: Attributes) | Post

  function ApplySection(l: Layers, s: Section): Layers {
    match s
    case SetNow(n, v) => l.(live := l.live[n := v])
    case Merge(attrs) => l.(pending := l.pending + attrs)
    case Post => Posted(l)
  }

  function Run(l: Layers, sections: seq<Section>): Layers
    decreases |sections|
  {
    if sections == [] then l else Run(ApplySection(l, sections[0]), sections[1..])
  }

  /** What a section asks for. */
  function Writes(s: Section): Attributes {
    match s
    case SetNow(n, v) => map[n := v]
    case Merge(attrs) => attrs
    case Post => map[]
  }

  function LastWriterWins(base: Attributes, sections: seq<Section>): Attributes
    decreases |sections|
  {
    if sections == [] then base else LastWriterWins(base + Writes(sections[0]), sections[1..])
  }

  /** The handlers set only attributes that need no reset, and queue only the others. */
  ghost predicate Admitted(registry: Registry, s: Section) {
    match s
    case SetNow(n, _) => Immediate(registry, n)
    case Merge(attrs) => forall n :: n in attrs ==> !Immediate(registry, n)
    case Post => true
  }

  ghost predicate AllAdmitted(registry: Registry, sections: seq<Section>) {
    forall i :: 0 <= i < |sections| ==> Admitted(registry, sections[i])
  }

  /** However the sections of concurrent requests interleave, the view is their last-writer-wins
      overlay, and resets do not show in it. */
  lemma {:induction false} AnyInterleaving(registry: Registry, l: Layers, sections: seq<Section>)
    requires Separate(registry, l) && AllAdmitted(registry, sections)
    ensures Separate(registry, Run(l, sections))
    ensures View(Run(l, sections)) == LastWriterWins(View(l), sections)
    decreases |sections|
  {
    if sections != [] {
      var l' := ApplySection(l, sections[0]);
      assert Admitted(registry, sections[0]);
      assert View(l') == View(l) + Writes(sections[0]);
      AnyInterleaving(registry, l', sections[1..]);
    }
  }

  // ----- one request after the other -----

  datatype Request = Patch(attrs: Attributes) | SystemReset(resetType: ResetType, machineOk: bool)

  function Serve(registry: Registry, l: Layers, r: Request): Layers {
    match r
    case Patch(attrs) => if attrs == map[] then l else Patched(registry, l, attrs)
    case SystemReset(t, ok) => if Valid(t) && ok && LeavesOn(t) then Posted(l) else l
  }

  function ServeAll(registry: Registry, l: Layers, rs: seq<Request>): Layers {
    if rs == [] then l else Serve(registry, ServeAll(registry, l, rs[..|rs| - 1]), rs[|rs| - 1])
  }

  function Requested(base: Attributes, rs: seq<Request>): Attributes {
    if rs == [] then base
    else
      var before := Requested(base, rs[..|rs| - 1]);
      if rs[|rs| - 1].Patch? then before + rs[|rs| - 1].attrs else before
  }

  /** These are the handlers' effects on the two layers. */
  lemma ServeIsHandlers(registry: Registry, l: Layers, attrs: Attributes, st: State, fw: FirmwareTasks.Firmware, t: ResetType, env: Env)
    ensures Serve(registry, l, SystemReset(t, ResetTo(st, t, env).1)) == ResetAction(st, l, fw, Some(t), env).1
    ensures Serve(registry, l, Patch(attrs)) == if attrs == map[] then l else Patched(registry, l, attrs)
  {
  }

  lemma PatchedView(registry: Registry, l: Layers, attrs: Attributes)
    requires Separate(registry, l)
    ensures Separate(registry, Patched(registry, l, attrs))
    ensures View(Patched(registry, l, attrs)) == View(l) + attrs
  {
  }

  lemma ServeKeeps(registry: Registry, l: Layers, r: Request)
    requires Separate(registry, l)
    ensures Separate(registry, Serve(registry, l, r))
    ensures View(Serve(registry, l, r)) == if r.Patch? then View(l) + r.attrs else View(l)
  {
    match r
    case Patch(attrs) =>
      PatchedView(registry, l, attrs);
      assert View(l) + map[] == View(l);
    case SystemReset(_, _) =>
      assert View(Posted(l)) == View(l);
  }

  /** Between requests, live attributes overlaid with pending ones are the defaults overlaid with
      every PATCH in turn, and nothing queued needs no reset. */
  lemma {:induction false} TwoLayers(registry: Registry, rs: seq<Request>)
    ensures var l := ServeAll(registry, Layers(DEFAULTS, map[]), rs);
      Separate(registry, l) && View(l) == Requested(DEFAULTS, rs)
  {
    if rs != [] {
      var before := rs[..|rs| - 1];
      TwoLayers(registry, before);
      ServeKeeps(registry, ServeAll(registry, Layers(DEFAULTS, map[]), before), rs[|rs| - 1]);
    } else {
      assert DEFAULTS + map[] == DEFAULTS;
    }
  }

  lemma {:induction false} Unrequested(base: Attributes, rs: seq<Request>, n: string)
    requires forall r :: r in rs && r.Patch? ==> n !in r.attrs
    ensures n in Requested(base, rs) <==> n in base
    ensures n in base ==> Requested(base, rs)[n] == base[n]
  {
    if rs != [] {
      Unrequested(base, rs[..|rs| - 1], n);
    }
  }

  /** Whatever else is requested, an attribute no PATCH has named is live as the server shipped it. */
  lemma ShippedUntilRequested(registry: Registry, rs: seq<Request>, n: string)
    requires forall r :: r in rs && r.Patch? ==> n !in r.attrs
    ensures var view := View(ServeAll(registry, Layers(DEFAULTS, map[]), rs));
      && (n == "BootMode" ==> n in view && view[n] == "Uefi")
      && (n == "AdminPhone" ==> n in view && view[n] == "")
      && (n != "BootMode" && n != "AdminPhone" ==> n !in view)
  {
    TwoLayers(registry, rs);
    Unrequested(DEFAULTS, rs, n);
  }

  /** So an attribute that needs no reset always lives as last requested, and after a reset that
      leaves the system on everything does. */
  lemma LiveAsRequested(registry: Registry, rs: seq<Request>, resetType: ResetType)
    requires resetType in {On, ForceOn, ForceRestart, GracefulRestart, PowerCycle}
    ensures var l := ServeAll(registry, Layers(DEFAULTS, map[]), rs);
      var asked := Requested(DEFAULTS, rs);
      && (forall n :: n in registry && registry[n] == false ==>
            (n in l.live <==> n in asked) && (n in l.live ==> l.live[n] == asked[n]))
      && ServeAll(registry, Layers(DEFAULTS, map[]), rs + [SystemReset(resetType, true)]) == Layers(asked, map[])
  {
    TwoLayers(registry, rs);
    assert (rs + [SystemReset(resetType, true)])[..|rs|] == rs;
    var l, asked := ServeAll(registry, Layers(DEFAULTS, map[]), rs), Requested(DEFAULTS, rs);
    forall n | n in registry && registry[n] == false
      ensures (n in l.live <==> n in asked) && (n in l.live ==> l.live[n] == asked[n])
    {
      assert Immediate(registry, n) && n !in l.pending;
      assert n in View(l) <==> n in l.live;
    }
  }

  // ----- a PATCH as the sections its handler runs -----

  /** `order` is the order in which the handler's loop meets the attributes. */
  ghost predicate Enumerates(order: seq<string>, attrs: Attributes) {
    && (forall i, j :: 0 <= i < j < |order| ==> order[i] != order[j])
    && (forall n :: n in order <==> n in attrs)
  }

  function Sets(registry: Registry, attrs: Attributes, order: seq<string>): seq<Section> {
    if order == [] then []
    else if order[0] in attrs && Immediate(registry, order[0]) then
      [SetNow(order[0], attrs[order[0]])] + Sets(registry, attrs, order[1..])
    else Sets(registry, attrs, order[1..])
  }

  function Sections(registry: Registry, attrs: Attributes, order: seq<string>): seq<Section> {
    Sets(registry, attrs, order) + Rest(registry, attrs)
  }

  lemma {:induction false} SetsAre(registry: Registry, attrs: Attributes, order: seq<string>)
    ensures forall s :: s in Sets(registry, attrs, order) <==>
      exists n :: n in order && n in attrs && Immediate(registry, n) && s == SetNow(n, attrs[n])
  {
    if order != [] {
      SetsAre(registry, attrs, order[1..]);
      assert order == [order[0]] + order[1..];
    }
  }

  function NowIn(registry: Registry, attrs: Attributes, names: seq<string>): Attributes {
    map n | n in attrs && n in names && Immediate(registry, n) :: attrs[n]
  }

  lemma NowInCons(registry: Registry, base: Attributes, attrs: Attributes, n: string, rest: seq<string>)
    requires n in attrs
    ensures base + NowIn(registry, attrs, [n] + rest) ==
      (if Immediate(registry, n) then base[n := attrs[n]] else base) + NowIn(registry, attrs, rest)
  {
  }

  lemma {:induction false} SetsApply(registry: Registry, l: Layers, attrs: Attributes, order: seq<string>)
    requires forall n :: n in order ==> n in attrs
    ensures Run(l, Sets(registry, attrs, order)) == l.(live := l.live + NowIn(registry, attrs, order))
    decreases |order|
  {
    if order == [] {
      assert l.live + NowIn(registry, attrs, order) == l.live;
    } else {
      var n, rest := order[0], order[1..];
      assert order == [n] + rest;
      NowInCons(registry, l.live, attrs, n, rest);
      if Immediate(registry, n) {
        SetsApply(registry, ApplySection(l, SetNow(n, attrs[n])), attrs, rest);
      } else {
        SetsApply(registry, l, attrs, rest);
      }
    }
  }

  lemma {:induction false} RunAppend(l: Layers, a: seq<Section>, b: seq<Section>)
    ensures Run(l, a + b) == Run(Run(l, a), b)
    decreases |a|
  {
    if a == [] {
      assert a + b == b;
    } else {
      assert (a + b)[1..] == a[1..] + b;
      RunAppend(ApplySection(l, a[0]), a[1..], b);
    }
  }

  function Rest(registry: Registry, attrs: Attributes): seq<Section> {
    var q := Queued(registry, attrs);
    if q == map[] then [] else [Merge(q)]
  }

  /** Undisturbed, the loop's order makes no difference. */
  lemma OrderDoesNotMatter(registry: Registry, l: Layers, attrs: Attributes, order: seq<string>)
    requires Enumerates(order, attrs)
    ensures Run(l, Sections(registry, attrs, order)) == Patched(registry, l, attrs)
  {
    SetsApply(registry, l, attrs, order);
    assert Now(registry, attrs) == NowIn(registry, attrs, order);
    var l' := l.(live := l.live + Now(registry, attrs));
    RunAppend(l, Sets(registry, attrs, order), Rest(registry, attrs));
    assert l'.pending + map[] == l'.pending;
  }

  lemma SectionsAdmitted(registry: Registry, attrs: Attributes, order: seq<string>)
    ensures AllAdmitted(registry, Sections(registry, attrs, order))
  {
    SetsAre(registry, attrs, order);
    var sets := Sets(registry, attrs, order);
    assert forall i :: 0 <= i < |sets| ==> sets[i] in sets;
  }
}
