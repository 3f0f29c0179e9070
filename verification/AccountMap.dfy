/**
 The account table as a finite map from names to accounts. The map operations here are an
 independent description of the account service; the slot array is proved to refine them over
 every run of Create, Update and Delete.
 */
module AccountMap {
  import opened Bytes
  import opened Wrappers
  import opened Accounts

  datatype Account = Account(id: nat, password: Bytes, access: Access)

  type AccountMap = map<Bytes, Account>

  // ----- the abstraction -----

  ghost predicate UniqueNames(t: Table) {
    forall i, j :: 1 <= i < j <= MAX_USERS && t[i].name != [] ==> t[i].name != t[j].name
  }

  /** Slot 1 stays free, unnamed slots are all zero, and no two slots share a name. */
  ghost predicate WellFormed(t: Table) {
    && t[0] == FREE_SLOT && t[1] == FREE_SLOT
    && (forall i :: 0 <= i <= MAX_USERS && t[i].name == [] ==> t[i] == FREE_SLOT)
    && UniqueNames(t)
  }

  ghost function NamesFrom(t: Table, i: nat): set<Bytes> {
    set k | i <= k <= MAX_USERS && t[k].name != [] :: t[k].name
  }

  ghost function AccountOf(id: nat, s: Slot): Account {
    Account(id, s.password, s.access)
  }

  ghost function Abs(t: Table): AccountMap {
    map n | n in NamesFrom(t, 1) :: AccountOf(LookupFrom(t, n, 1), t[LookupFrom(t, n, 1)])
  }

  /** In a well-formed table the account of a named slot is found under its name. */
  lemma AbsAt(t: Table, i: nat)
    requires WellFormed(t) && 1 <= i <= MAX_USERS && t[i].name != []
    ensures t[i].name in Abs(t) && Abs(t)[t[i].name] == AccountOf(i, t[i])
  {
    var n := t[i].name;
    assert n in NamesFrom(t, 1);
    var id := LookupFrom(t, n, 1);
    assert id == i;
  }

  lemma AbsFrom(t: Table, n: Bytes) returns (i: nat)
    requires WellFormed(t) && n in Abs(t)
    ensures 2 <= i <= MAX_USERS && t[i].name == n && n != [] && Abs(t)[n] == AccountOf(i, t[i])
    ensures i == LookupFrom(t, n, 1)
  {
    i := LookupFrom(t, n, 1);
    assert t[1].name == [];
  }

  lemma LookupIffInAbs(t: Table, n: Bytes)
    requires WellFormed(t)
    ensures Lookup(t, n) != 0 <==> n in Abs(t)
    ensures n in Abs(t) ==> Abs(t)[n] == AccountOf(Lookup(t, n), t[Lookup(t, n)])
  {
    if n in Abs(t) {
      var i := AbsFrom(t, n);
    } else if n != [] && LookupFrom(t, n, 1) != 0 {
      AbsAt(t, LookupFrom(t, n, 1));
    }
  }

  // ----- the reference machine -----

  ghost function Ids(m: AccountMap): set<nat> {
    set n | n in m :: m[n].id
  }

  function LeastFree(ids: set<nat>, i: nat): nat
    requires i <= MAX_USERS + 1
    decreases MAX_USERS + 1 - i
  {
    if i == MAX_USERS + 1 then 0 else if i !in ids then i else LeastFree(ids, i + 1)
  }

  ghost function NameOf(m: AccountMap, id: nat): (n: Bytes)
    requires id in Ids(m)
    ensures n in m && m[n].id == id
  {
    var n :| n in m && m[n].id == id;
    n
  }

  /** Fourteen names fill the service, whatever slots they are in. */
  const CAPACITY := 14

  ghost function MapCreate(m: AccountMap, name: Bytes, password: Bytes, privilege: byte, enabled: bool):
    (AccountMap, Result<nat, Error>)
  {
    if name == [] then
      (m, Err(EmptyName))
    else if name in m then
      (m, Err(UserExists))
    else if |m| == CAPACITY then
      (m, Err(NoFreeSlot))
    else
      var id := LeastFree(Ids(m), 2);
      (m[name := Account(id, password, Access(privilege, enabled, true, true, false))], Ok(id))
  }

  ghost function MapUpdate(m: AccountMap, id: nat, u: Update): (AccountMap, Option<Error>) {
    if u.name == Some([]) && 1 <= id <= MAX_USERS then
      (m, Some(EmptyName))
    else if id !in Ids(m) then
      (m, Some(NotFound))
    else
      var oldName := NameOf(m, id);
      var newName := if u.name.Some? then u.name.value else oldName;
      if newName != oldName && newName in m then
        (m, Some(UserExists))
      else
        var a := m[oldName];
        var password := if u.password.Some? then u.password.value else a.password;
        var access := a.access.(
          privilege := if u.privilege.Some? then u.privilege.value else a.access.privilege,
          enabled := if u.enabled.Some? then u.enabled.value else a.access.enabled);
        ((m - {oldName})[newName := Account(id, password, access)], None)
  }

  ghost function MapDelete(m: AccountMap, id: nat): (AccountMap, Option<Error>) {
    if id !in Ids(m) then (m, Some(NotFound)) else (m - {NameOf(m, id)}, None)
  }

  // ----- counting -----

  ghost function NamedFrom(t: Table, i: nat): nat
    requires 1 <= i <= MAX_USERS + 1
    decreases MAX_USERS + 1 - i
  {
    if i == MAX_USERS + 1 then 0 else (if t[i].name != [] then 1 else 0) + NamedFrom(t, i + 1)
  }

  lemma {:induction false} NamesAreCounted(t: Table, i: nat)
    requires UniqueNames(t) && 1 <= i <= MAX_USERS + 1
    ensures |NamesFrom(t, i)| == NamedFrom(t, i)
    decreases MAX_USERS + 1 - i
  {
    if i == MAX_USERS + 1 {
      assert NamesFrom(t, i) == {};
    } else {
      NamesAreCounted(t, i + 1);
      NamesFromHere(t, i);
    }
  }

  lemma NamesFromHere(t: Table, i: nat)
    requires UniqueNames(t) && 1 <= i <= MAX_USERS
    ensures t[i].name == [] ==> NamesFrom(t, i) == NamesFrom(t, i + 1)
    ensures t[i].name != [] ==> NamesFrom(t, i) == NamesFrom(t, i + 1) + {t[i].name} && t[i].name !in NamesFrom(t, i + 1)
  {
    forall n ensures n in NamesFrom(t, i) <==> n in NamesFrom(t, i + 1) || (n == t[i].name && n != []) {
      if n in NamesFrom(t, i) {
        var k :| i <= k <= MAX_USERS && t[k].name == n != [];
      }
    }
  }

  lemma {:induction false} AllNamedIffNoneFree(t: Table, i: nat)
    requires 1 <= i <= MAX_USERS + 1
    ensures NamedFrom(t, i) <= MAX_USERS + 1 - i
    ensures NamedFrom(t, i) == MAX_USERS + 1 - i <==> LookupFrom(t, [], i) == 0
    decreases MAX_USERS + 1 - i
  {
    if i != MAX_USERS + 1 {
      AllNamedIffNoneFree(t, i + 1);
    }
  }

  /** The table has no free slot in 2..15 exactly when fourteen names exist. */
  lemma FullIffCapacity(t: Table)
    requires WellFormed(t)
    ensures |Abs(t)| <= CAPACITY
    ensures LookupFrom(t, [], 2) == 0 <==> |Abs(t)| == CAPACITY
  {
    assert Abs(t).Keys == NamesFrom(t, 1);
    NamesAreCounted(t, 1);
    AllNamedIffNoneFree(t, 2);
  }

  lemma IdsAreNamedSlots(t: Table, i: nat)
    requires WellFormed(t)
    ensures i in Ids(Abs(t)) <==> 2 <= i <= MAX_USERS && t[i].name != []
  {
    if i in Ids(Abs(t)) {
      var n :| n in Abs(t) && Abs(t)[n].id == i;
      var k := AbsFrom(t, n);
    } else if 2 <= i <= MAX_USERS && t[i].name != [] {
      AbsAt(t, i);
    }
  }

  lemma {:induction false} LeastFreeIsFirstUnnamed(t: Table, i: nat)
    requires WellFormed(t) && 2 <= i <= MAX_USERS + 1
    ensures LeastFree(Ids(Abs(t)), i) == LookupFrom(t, [], i)
    decreases MAX_USERS + 1 - i
  {
    if i != MAX_USERS + 1 {
      IdsAreNamedSlots(t, i);
      LeastFreeIsFirstUnnamed(t, i + 1);
    }
  }

  lemma NameOfId(t: Table, id: nat)
    requires WellFormed(t) && 2 <= id <= MAX_USERS && t[id].name != []
    ensures id in Ids(Abs(t)) && NameOf(Abs(t), id) == t[id].name
  {
    IdsAreNamedSlots(t, id);
    var k := AbsFrom(t, NameOf(Abs(t), id));
  }

  // ----- one slot changes -----

  lemma PutKeepsWellFormed(t: Table, id: nat, s: Slot)
    requires WellFormed(t) && 2 <= id <= MAX_USERS
    requires s == FREE_SLOT || (s.name != [] && (s.name == t[id].name || s.name !in Abs(t)))
    ensures WellFormed(t[id := s])
  {
    forall k | 1 <= k <= MAX_USERS && k != id && s.name != [] ensures t[k].name != s.name {
      if t[k].name == s.name {
        AbsAt(t, k);
        assert false;
      }
    }
  }

  /** Rewriting slot `id` leaves the accounts of other names alone. */
  lemma PutKeepsOthers(t: Table, id: nat, s: Slot, n: Bytes)
    requires 2 <= id <= MAX_USERS && WellFormed(t) && WellFormed(t[id := s])
    requires n != t[id].name && n != s.name
    ensures n in Abs(t) <==> n in Abs(t[id := s])
    ensures n in Abs(t) ==> Abs(t[id := s])[n] == Abs(t)[n]
  {
    if n in Abs(t) {
      var k := AbsFrom(t, n);
      AbsAt(t[id := s], k);
    } else if n in Abs(t[id := s]) {
      var k := AbsFrom(t[id := s], n);
      AbsAt(t, k);
    }
  }

  lemma SlotNameGone(t: Table, id: nat, s: Slot)
    requires 2 <= id <= MAX_USERS && WellFormed(t) && WellFormed(t[id := s])
    requires s.name != t[id].name && t[id].name != []
    ensures t[id].name !in Abs(t[id := s])
  {
    if t[id].name in Abs(t[id := s]) {
      var k := AbsFrom(t[id := s], t[id].name);
      assert false;
    }
  }

  lemma EmptyNameAbsent(t: Table)
    ensures [] !in Abs(t)
  {
  }

  lemma MapsEqual(m: AccountMap, m': AccountMap)
    requires forall n :: n in m <==> n in m'
    requires forall n :: n in m ==> m[n] == m'[n]
    ensures m == m'
  {
  }

  ghost function Put(m: AccountMap, gone: Bytes, id: nat, s: Slot): AccountMap {
    if s.name == [] then m - {gone} else (m - {gone})[s.name := AccountOf(id, s)]
  }

  lemma PutHolds(m: AccountMap, gone: Bytes, id: nat, s: Slot, n: Bytes)
    ensures var m' := Put(m, gone, id, s);
      && (n in m' <==> (n == s.name != []) || (n in m && n != gone))
      && (n in m' ==> m'[n] == if n == s.name != [] then AccountOf(id, s) else m[n])
  {
  }

  lemma AbsPutAt(t: Table, id: nat, s: Slot, n: Bytes)
    requires 2 <= id <= MAX_USERS && WellFormed(t) && WellFormed(t[id := s])
    ensures n in Abs(t[id := s]) <==> n in Put(Abs(t), t[id].name, id, s)
    ensures n in Abs(t[id := s]) ==> Abs(t[id := s])[n] == Put(Abs(t), t[id].name, id, s)[n]
  {
    var t' := t[id := s];
    EmptyNameAbsent(t);
    EmptyNameAbsent(t');
    PutHolds(Abs(t), t[id].name, id, s, n);
    if n == [] {
    } else if n == s.name {
      AbsAt(t', id);
    } else if n == t[id].name {
      SlotNameGone(t, id, s);
    } else {
      PutKeepsOthers(t, id, s, n);
    }
  }

  /** Filling, rewriting or clearing slot `id` replaces or removes the one account in it. */
  lemma AbsPut(t: Table, id: nat, s: Slot)
    requires WellFormed(t) && 2 <= id <= MAX_USERS
    requires s == FREE_SLOT || (s.name != [] && (s.name == t[id].name || s.name !in Abs(t)))
    ensures WellFormed(t[id := s])
    ensures Abs(t[id := s]) == Put(Abs(t), t[id].name, id, s)
  {
    PutKeepsWellFormed(t, id, s);
    forall n ensures n in Abs(t[id := s]) <==> n in Put(Abs(t), t[id].name, id, s)
             ensures n in Abs(t[id := s]) ==> Abs(t[id := s])[n] == Put(Abs(t), t[id].name, id, s)[n]
    {
      AbsPutAt(t, id, s, n);
    }
    MapsEqual(Abs(t[id := s]), Put(Abs(t), t[id].name, id, s));
  }

  // ----- each operation refines its map counterpart -----

  lemma CreateIsPut(t: Table, name: Bytes, password: Bytes, privilege: byte, enabled: bool)
    requires WellFormed(t)
    ensures Create(t, name, password, privilege, enabled) ==
      var i := LookupFrom(t, [], 2);
      if name == [] then (t, Err(EmptyName))
      else if name in Abs(t) then (t, Err(UserExists))
      else if i == 0 then (t, Err(NoFreeSlot))
      else (t[i := NewSlot(name, password, privilege, enabled)], Ok(i))
  {
    LookupIffInAbs(t, name);
  }

  lemma PutFree(t: Table, id: nat, s: Slot)
    requires WellFormed(t) && 2 <= id <= MAX_USERS && t[id].name == []
    requires s.name != [] && s.name !in Abs(t)
    ensures WellFormed(t[id := s])
    ensures Abs(t[id := s]) == Abs(t)[s.name := AccountOf(id, s)]
  {
    AbsPut(t, id, s);
    EmptyNameAbsent(t);
    assert Abs(t) - {[]} == Abs(t);
  }

  lemma CreateRefines(t: Table, name: Bytes, password: Bytes, privilege: byte, enabled: bool)
    requires WellFormed(t)
    ensures var (t', r) := Create(t, name, password, privilege, enabled);
      && WellFormed(t')
      && (Abs(t'), r) == MapCreate(Abs(t), name, password, privilege, enabled)
  {
    CreateIsPut(t, name, password, privilege, enabled);
    FullIffCapacity(t);
    LeastFreeIsFirstUnnamed(t, 2);
    var i := LookupFrom(t, [], 2);
    if name != [] && name !in Abs(t) && i != 0 {
      PutFree(t, i, NewSlot(name, password, privilege, enabled));
    }
  }

  lemma UpdateNamedRefines(t: Table, id: byte, u: Update)
    requires WellFormed(t) && ValidUserId(id) && u.name != Some([]) && t[id].name != []
    ensures var (t', r) := UpdateAt(t, id, u);
      && WellFormed(t')
      && (Abs(t'), r) == MapUpdate(Abs(t), id, u)
  {
    IdsAreNamedSlots(t, id);
    NameOfId(t, id);
    AbsAt(t, id);
    var s := Updated(t[id], u);
    LookupIffInAbs(t, s.name);
    if s.name == t[id].name || s.name !in Abs(t) {
      AbsPut(t, id, s);
    }
  }

  lemma UpdateRefines(t: Table, id: byte, u: Update)
    requires WellFormed(t)
    ensures var (t', r) := UpdateAt(t, id, u);
      && WellFormed(t')
      && (Abs(t'), r) == MapUpdate(Abs(t), id, u)
  {
    IdsAreNamedSlots(t, id);
    if ValidUserId(id) && u.name != Some([]) && t[id].name != [] {
      UpdateNamedRefines(t, id, u);
    }
  }

  lemma DeleteRefines(t: Table, id: byte)
    requires WellFormed(t)
    ensures var (t', r) := Delete(t, id);
      && WellFormed(t')
      && (Abs(t'), r) == MapDelete(Abs(t), id)
  {
    IdsAreNamedSlots(t, id);
    if ValidUserId(id) && t[id].name != [] {
      NameOfId(t, id);
      AbsPut(t, id, FREE_SLOT);
    }
  }

  // ----- runs -----

  datatype Op =
    | CreateOp(name: Bytes, password: Bytes, privilege: byte, enabled: bool)
    | UpdateOp(id: byte, update: Update)
    | DeleteOp(id: byte)

  datatype Outcome = Created(r: Result<nat, Error>) | Finished(err: Option<Error>)

  function Apply(t: Table, op: Op): (Table, Outcome) {
    match op
    case CreateOp(name, password, privilege, enabled) =>
      var (t', r) := Create(t, name, password, privilege, enabled);
      (t', Created(match r case Ok(id) => Ok(id as nat) case Err(e) => Err(e)))
    case UpdateOp(id, u) =>
      var (t', r) := UpdateAt(t, id, u);
      (t', Finished(r))
    case DeleteOp(id) =>
      var (t', r) := Delete(t, id);
      (t', Finished(r))
  }

  ghost function MapApply(m: AccountMap, op: Op): (AccountMap, Outcome) {
    match op
    case CreateOp(name, password, privilege, enabled) =>
      var (m', r) := MapCreate(m, name, password, privilege, enabled);
      (m', Created(r))
    case UpdateOp(id, u) =>
      var (m', r) := MapUpdate(m, id, u);
      (m', Finished(r))
    case DeleteOp(id) =>
      var (m', r) := MapDelete(m, id);
      (m', Finished(r))
  }

  function Run(t: Table, ops: seq<Op>): (Table, seq<Outcome>)
    decreases |ops|
  {
    if ops == [] then
      (t, [])
    else
      var (t1, o) := Apply(t, ops[0]);
      var (t2, os) := Run(t1, ops[1..]);
      (t2, [o] + os)
  }

  ghost function MapRun(m: AccountMap, ops: seq<Op>): (AccountMap, seq<Outcome>)
    decreases |ops|
  {
    if ops == [] then
      (m, [])
    else
      var (m1, o) := MapApply(m, ops[0]);
      var (m2, os) := MapRun(m1, ops[1..]);
      (m2, [o] + os)
  }

  lemma ApplyRefines(t: Table, op: Op)
    requires WellFormed(t)
    ensures var (t', o) := Apply(t, op); WellFormed(t') && (Abs(t'), o) == MapApply(Abs(t), op)
  {
    match op
    case CreateOp(name, password, privilege, enabled) => CreateRefines(t, name, password, privilege, enabled);
    case UpdateOp(id, u) => UpdateRefines(t, id, u);
    case DeleteOp(id) => DeleteRefines(t, id);
  }

  lemma {:induction false} RunRefines(t: Table, ops: seq<Op>)
    requires WellFormed(t)
    ensures var (t', os) := Run(t, ops); WellFormed(t') && (Abs(t'), os) == MapRun(Abs(t), ops)
    decreases |ops|
  {
    if ops != [] {
      ApplyRefines(t, ops[0]);
      RunRefines(Apply(t, ops[0]).0, ops[1..]);
    }
  }

  lemma NewTableIsOneAccount(user: Bytes, pass: Bytes)
    requires user != []
    ensures WellFormed(NewTable(user, pass))
    ensures Abs(NewTable(user, pass)) == map[user := Account(2, pass, Access(4, true, true, true, false))]
  {
    NewTableWellFormed(user, pass);
    var t := NewTable(user, pass);
    AbsAt(t, 2);
    forall n | n in Abs(t) ensures n == user {
      var k := AbsFrom(t, n);
    }
    MapsEqual(Abs(t), map[user := Account(2, pass, Access(4, true, true, true, false))]);
  }

  lemma NewTableWellFormed(user: Bytes, pass: Bytes)
    requires user != []
    ensures WellFormed(NewTable(user, pass))
    ensures NewTable(user, pass)[2].name == user
  {
  }

  /** An empty default user leaves a password and access in a slot without a name. */
  lemma NewTableWellFormedIff(user: Bytes, pass: Bytes)
    ensures WellFormed(NewTable(user, pass)) <==> user != []
  {
    if user == [] {
      assert NewTable(user, pass)[2] != FREE_SLOT;
    }
  }

  const EMPTY_TABLE: Table := seq(16, _ => FREE_SLOT)

  lemma NoNames(t: Table)
    requires forall k :: 0 <= k <= MAX_USERS ==> t[k].name == []
    ensures Abs(t) == map[]
    ensures forall name :: name != [] ==> Lookup(t, name) == 0
    ensures LookupFrom(t, [], 2) == 2
  {
    assert NamesFrom(t, 1) == {};
    assert LookupFrom(t, [], 2) == 2;
  }

  /** That slot is free to every operation all the same: until a create takes it, nothing changes,
      and the create leaves no trace of it. */
  lemma UnnamedStep(pass: Bytes, op: Op)
    ensures var (t, o) := Apply(NewTable([], pass), op);
      var (e, p) := Apply(EMPTY_TABLE, op);
      && o == p
      && ((t == NewTable([], pass) && e == EMPTY_TABLE) || t == e)
  {
    NoNames(NewTable([], pass));
    NoNames(EMPTY_TABLE);
    if op.CreateOp? {
      var s := NewSlot(op.name, op.password, op.privilege, op.enabled);
      assert NewTable([], pass)[2 := s] == EMPTY_TABLE[2 := s];
    }
  }

  lemma {:induction false} UnnamedRun(pass: Bytes, ops: seq<Op>)
    ensures var (t, os) := Run(NewTable([], pass), ops);
      var (e, ps) := Run(EMPTY_TABLE, ops);
      && os == ps
      && ((t == NewTable([], pass) && e == EMPTY_TABLE) || t == e)
    decreases |ops|
  {
    if ops != [] {
      UnnamedStep(pass, ops[0]);
      UnnamedRun(pass, ops[1..]);
    }
  }

  ghost function InitialAccounts(user: Bytes, pass: Bytes): AccountMap {
    if user == [] then map[] else map[user := Account(2, pass, Access(4, true, true, true, false))]
  }

  lemma UnnamedRefines(pass: Bytes, ops: seq<Op>)
    ensures var (t, os) := Run(NewTable([], pass), ops);
      && (Abs(t), os) == MapRun(map[], ops)
      && (t != NewTable([], pass) ==> WellFormed(t))
  {
    NoNames(NewTable([], pass));
    NoNames(EMPTY_TABLE);
    UnnamedRun(pass, ops);
    RunRefines(EMPTY_TABLE, ops);
  }

  /** Over every run from a fresh table, whatever the default user, the slots behave as the map
      does: same accounts, same slot numbers, same errors. The table is well formed too, but for
      one with an empty default user that nothing has changed yet. */
  lemma AccountsRefineMap(user: Bytes, pass: Bytes, ops: seq<Op>)
    ensures var (t, os) := Run(NewTable(user, pass), ops);
      && (Abs(t), os) == MapRun(InitialAccounts(user, pass), ops)
      && (WellFormed(t) <==> t != NewTable([], pass))
  {
    NewTableWellFormedIff([], pass);
    if user == [] {
      UnnamedRefines(pass, ops);
    } else {
      NewTableIsOneAccount(user, pass);
      RunRefines(NewTable(user, pass), ops);
    }
  }

  // ----- readers -----

  /** Over any table, renamed in band or not: the first slot of the name decides, from slot 1 on. */
  lemma AuthenticateBySlot(t: Table, name: Bytes, password: Bytes)
    ensures CanAuthenticate(t, name, password) <==>
      && name != [] && password != []
      && exists k: nat ::
           && 1 <= k <= 15 && t[k].name == name && (forall j :: 1 <= j < k ==> t[j].name != name)
           && t[k].access.enabled && t[k].password == password
  {
    var id := Lookup(t, name);
    if k: nat :| 1 <= k <= 15 && t[k].name == name && (forall j :: 1 <= j < k ==> t[j].name != name)
                 && t[k].access.enabled && t[k].password == password {
      if name != [] {
        assert id == k;
      }
    }
  }

  lemma AuthenticateIff(t: Table, name: Bytes, password: Bytes)
    requires WellFormed(t)
    ensures CanAuthenticate(t, name, password) <==>
      && name in Abs(t)
      && Abs(t)[name].access.enabled
      && Abs(t)[name].password == password
      && password != []
  {
    LookupIffInAbs(t, name);
  }

  ghost function EnabledNamesFrom(t: Table, i: nat): set<Bytes> {
    set k | i <= k <= MAX_USERS && t[k].access.enabled :: t[k].name
  }

  lemma {:induction false} EnabledNamesAreCounted(t: Table, i: nat)
    requires WellFormed(t) && 1 <= i <= MAX_USERS + 1
    ensures |EnabledNamesFrom(t, i)| == CountEnabled(t[i..])
    decreases MAX_USERS + 1 - i
  {
    if i == MAX_USERS + 1 {
      assert EnabledNamesFrom(t, i) == {};
    } else {
      EnabledNamesAreCounted(t, i + 1);
      CountFromHere(t, i);
      EnabledNamesFromHere(t, i);
    }
  }

  lemma CountFromHere(t: Table, i: nat)
    requires 1 <= i <= MAX_USERS
    ensures CountEnabled(t[i..]) == (if t[i].access.enabled then 1 else 0) + CountEnabled(t[i + 1..])
  {
    assert t[i..][1..] == t[i + 1..];
  }

  lemma EnabledNamesFromHere(t: Table, i: nat)
    requires WellFormed(t) && 1 <= i <= MAX_USERS
    ensures var here, later := EnabledNamesFrom(t, i), EnabledNamesFrom(t, i + 1);
      if t[i].access.enabled then t[i].name !in later && here == later + {t[i].name} else here == later
  {
    forall n ensures n in EnabledNamesFrom(t, i) <==> n in EnabledNamesFrom(t, i + 1) || (n == t[i].name && t[i].access.enabled) {
      if n in EnabledNamesFrom(t, i) {
        var k :| i <= k <= MAX_USERS && t[k].access.enabled && t[k].name == n;
      }
    }
  }

  /** EnabledUserCount counts the enabled accounts. */
  lemma EnabledCountIsEnabledAccounts(t: Table)
    requires WellFormed(t)
    ensures EnabledCount(t) as int == |set n | n in Abs(t) && Abs(t)[n].access.enabled|
  {
    EnabledNamesAreCounted(t, 1);
    var want := set n | n in Abs(t) && Abs(t)[n].access.enabled;
    forall n ensures n in EnabledNamesFrom(t, 1) <==> n in want {
      if n in want {
        var k := AbsFrom(t, n);
      }
      if n in EnabledNamesFrom(t, 1) {
        var k :| 1 <= k <= MAX_USERS && t[k].access.enabled && t[k].name == n;
        AbsAt(t, k);
      }
    }
    assert EnabledNamesFrom(t, 1) == want;
  }

  // ----- the in-band rename, which looks at no other slot -----

  /** SetUserName keeps names unique exactly when the new name is empty or held by no other slot. */
  lemma SetUserNameKeepsUniqueIff(t: Table, id: byte, name: Bytes)
    requires UniqueNames(t) && ValidUserId(id)
    ensures UniqueNames(t[id as int := t[id].(name := name)]) <==>
      name == [] || forall k :: 1 <= k <= MAX_USERS && k != id as int ==> t[k].name != name
  {
    var t' := t[id as int := t[id].(name := name)];
    if UniqueNames(t') && name != [] {
      forall k | 1 <= k <= MAX_USERS && k != id as int ensures t[k].name != name {
        assert t'[k].name == t[k].name && t'[id].name == name;
      }
    }
  }

  lemma ThirdSlotFree(user: Bytes, pass: Bytes)
    requires user != []
    ensures LookupFrom(NewTable(user, pass), [], 2) == 3
  {
    assert LookupFrom(NewTable(user, pass), [], 3) == 3;
  }

  lemma SecondAccountInSlotThree(user: Bytes, pass: Bytes, other: Bytes, secret: Bytes)
    requires user != [] && other != [] && other != user
    ensures var t := Create(NewTable(user, pass), other, secret, 4, true).0;
      && WellFormed(t) && t == NewTable(user, pass)[3 := NewSlot(other, secret, 4, true)]
      && (secret != [] ==> CanAuthenticate(t, other, secret))
  {
    var t0 := NewTable(user, pass);
    NewTableIsOneAccount(user, pass);
    CreateRefines(t0, other, secret, 4, true);
    var t := Create(t0, other, secret, 4, true).0;
    LookupIffInAbs(t0, other);
    ThirdSlotFree(user, pass);
    AbsAt(t, 3);
    AuthenticateIff(t, other, secret);
  }

  /** Renaming slot 3 to the default user's name hides the account in slot 3: its password no
      longer authenticates under the shared name. */
  lemma SetUserNameDuplicateHides(user: Bytes, pass: Bytes, other: Bytes, secret: Bytes)
    requires user != [] && other != [] && other != user && secret != pass
    ensures var t := Create(NewTable(user, pass), other, secret, 4, true).0;
      var t' := t[3 := t[3].(name := user)];
      && WellFormed(t) && (secret != [] ==> CanAuthenticate(t, other, secret))
      && !UniqueNames(t') && !CanAuthenticate(t', user, secret)
  {
    SecondAccountInSlotThree(user, pass, other, secret);
    var t := Create(NewTable(user, pass), other, secret, 4, true).0;
    var t' := t[3 := t[3].(name := user)];
    assert t'[2].name == t'[3].name == user;
    assert t'[1].name == [];
    assert LookupFrom(t', user, 1) == LookupFrom(t', user, 2) == 2;
  }
}
