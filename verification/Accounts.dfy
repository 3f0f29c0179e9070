/**
 The shared account table of internal/bmc/state.go: an array of user slots, what each
 operation does to it, and the class that updates it in place. Names and passwords are Go
 strings, that is, byte sequences.
 */
module Accounts {
  import opened Bytes
  import opened Wrappers

  const MAX_USERS := 15

  datatype Access = Access(privilege: byte, enabled: bool, ipmiMessaging: bool, linkAuth: bool, callin: bool)

  datatype Slot = Slot(name: Bytes, password: Bytes, access: Access)

  const NO_ACCESS := Access(0, false, false, false, false)
  const FREE_SLOT := Slot([], [], NO_ACCESS)

  /** Index 0 is unused; slots 1 to 15 are valid. */
  type Table = t: seq<Slot> | |t| == MAX_USERS + 1 witness seq(16, _ => FREE_SLOT)

  datatype Error = UserExists | NoFreeSlot | NotFound | EmptyName | InvalidUserId

  datatype Update = Update(
    name: Option<Bytes>,
    password: Option<Bytes>,
    privilege: Option<byte>,
    enabled: Option<bool>)

  predicate ValidUserId(id: byte) {
    1 <= id as int <= MAX_USERS
  }

  // ----- what the operations do to the table -----

  function NewTable(user: Bytes, pass: Bytes): Table {
    seq(16, _ => FREE_SLOT)[2 := Slot(user, pass, Access(4, true, true, true, false))]
  }

  /** The lowest slot from `i` on that holds `name`, or 0. */
  function LookupFrom(t: Table, name: Bytes, i: nat): (id: nat)
    requires 1 <= i <= MAX_USERS + 1
    ensures id == 0 || (i <= id <= MAX_USERS && t[id].name == name)
    ensures id == 0 ==> forall k :: i <= k <= MAX_USERS ==> t[k].name != name
    ensures forall k :: i <= k < id ==> t[k].name != name
    decreases MAX_USERS + 1 - i
  {
    if i == MAX_USERS + 1 then 0 else if t[i].name == name then i else LookupFrom(t, name, i + 1)
  }

  function Lookup(t: Table, name: Bytes): nat {
    if name == [] then 0 else LookupFrom(t, name, 1)
  }

  function NewSlot(name: Bytes, password: Bytes, privilege: byte, enabled: bool): Slot {
    Slot(name, password, Access(privilege, enabled, true, true, false))
  }

  function Create(t: Table, name: Bytes, password: Bytes, privilege: byte, enabled: bool): (Table, Result<byte, Error>) {
    if name == [] then
      (t, Err(EmptyName))
    else if Lookup(t, name) != 0 then
      (t, Err(UserExists))
    else
      var i := LookupFrom(t, [], 2);
      if i == 0 then (t, Err(NoFreeSlot)) else (t[i := NewSlot(name, password, privilege, enabled)], Ok(i))
  }

  function Updated(s: Slot, u: Update): Slot {
    Slot(
      if u.name.Some? then u.name.value else s.name,
      if u.password.Some? then u.password.value else s.password,
      s.access.(
        privilege := if u.privilege.Some? then u.privilege.value else s.access.privilege,
        enabled := if u.enabled.Some? then u.enabled.value else s.access.enabled))
  }

  function UpdateAt(t: Table, id: byte, u: Update): (Table, Option<Error>) {
    if !ValidUserId(id) then
      (t, Some(NotFound))
    else if u.name == Some([]) then
      (t, Some(EmptyName))
    else if t[id].name == [] then
      (t, Some(NotFound))
    else if u.name.Some? && u.name.value != t[id].name && Lookup(t, u.name.value) != 0 then
      (t, Some(UserExists))
    else
      (t[id as int := Updated(t[id], u)], None)
  }

  function Delete(t: Table, id: byte): (Table, Option<Error>) {
    if !ValidUserId(id) || t[id].name == [] then (t, Some(NotFound)) else (t[id as int := FREE_SLOT], None)
  }

  predicate CanAuthenticate(t: Table, name: Bytes, password: Bytes) {
    var id := Lookup(t, name);
    id != 0 && t[id].access.enabled && t[id].password != [] && t[id].password == password
  }

  function CountEnabled(slots: seq<Slot>): (n: nat)
    ensures n <= |slots|
  {
    if slots == [] then 0 else (if slots[0].access.enabled then 1 else 0) + CountEnabled(slots[1..])
  }

  function EnabledCount(t: Table): (n: byte) {
    CountEnabled(t[1..])
  }

  // ----- the table in place -----

  class State {
    const users: array<Slot>

    ghost predicate Valid()
      reads this
    {
      users.Length == MAX_USERS + 1
    }

    ghost function Table(): Table
      reads this, users
      requires Valid()
    {
      users[..]
    }

    constructor (defaultUser: Bytes, defaultPass: Bytes)
      ensures Valid() && fresh(users)
      ensures Table() == NewTable(defaultUser, defaultPass)
    {
      users := new Slot[MAX_USERS + 1](_ => FREE_SLOT);
      new;
      users[2] := Slot(defaultUser, defaultPass, Access(4, true, true, true, false));
    }

    method LookupUserByName(name: Bytes) returns (id: byte, found: bool)
      requires Valid()
      ensures id as int == Lookup(Table(), name) && found == (id != 0)
    {
      if name == [] {
        return 0, false;
      }
      id, found := LookupUserByNameLocked(name);
    }

    method LookupUserByNameLocked(name: Bytes) returns (id: byte, found: bool)
      requires Valid()
      ensures id as int == LookupFrom(Table(), name, 1) && found == (id != 0)
    {
      for i := 1 to MAX_USERS + 1
        invariant LookupFrom(Table(), name, 1) == LookupFrom(Table(), name, i)
      {
        if users[i].name == name {
          return i, true;
        }
      }
      return 0, false;
    }

    method CreateAccount(name: Bytes, password: Bytes, privilege: byte, enabled: bool) returns (r: Result<byte, Error>)
      requires Valid()
      modifies users
      ensures (Table(), r) == Create(old(Table()), name, password, privilege, enabled)
    {
      if name == [] {
        return Err(EmptyName);
      }
      var _, exists_ := LookupUserByNameLocked(name);
      if exists_ {
        return Err(UserExists);
      }
      for i := 2 to MAX_USERS + 1
        invariant Table() == old(Table())
        invariant LookupFrom(Table(), [], 2) == LookupFrom(Table(), [], i)
      {
        if users[i].name == [] {
          users[i] := Slot(name, password, Access(privilege, enabled, true, true, false));
          return Ok(i);
        }
      }
      return Err(NoFreeSlot);
    }

    method UpdateAccount(id: byte, u: Update) returns (err: Option<Error>)
      requires Valid()
      modifies users
      ensures (Table(), err) == UpdateAt(old(Table()), id, u)
    {
      if !ValidUserId(id) {
        return Some(NotFound);
      }
      if u.name == Some([]) {
        return Some(EmptyName);
      }
      // The source edits the slot through a pointer, under the lock that readers take too.
      var slot := users[id];
      if slot.name == [] {
        return Some(NotFound);
      }
      if u.name.Some? && u.name.value != slot.name {
        var _, exists_ := LookupUserByNameLocked(u.name.value);
        if exists_ {
          return Some(UserExists);
        }
        slot := slot.(name := u.name.value);
      }
      if u.password.Some? {
        slot := slot.(password := u.password.value);
      }
      if u.privilege.Some? {
        slot := slot.(access := slot.access.(privilege := u.privilege.value));
      }
      if u.enabled.Some? {
        slot := slot.(access := slot.access.(enabled := u.enabled.value));
      }
      users[id] := slot;
      return None;
    }

    method DeleteAccount(id: byte) returns (err: Option<Error>)
      requires Valid()
      modifies users
      ensures (Table(), err) == Delete(old(Table()), id)
    {
      if !ValidUserId(id) || users[id].name == [] {
        return Some(NotFound);
      }
      users[id] := FREE_SLOT;
      return None;
    }

    method Authenticate(name: Bytes, password: Bytes) returns (ok: bool)
      requires Valid()
      ensures ok == CanAuthenticate(Table(), name, password)
    {
      if name == [] {
        return false;
      }
      var id, found := LookupUserByNameLocked(name);
      if !found || !users[id].access.enabled {
        return false;
      }
      var stored := users[id].password;
      if stored == [] {
        return false;
      }
      return stored == password;
    }

    method EnabledUserCount() returns (count: byte)
      requires Valid()
      ensures count == EnabledCount(Table())
    {
      count := 0;
      for i := 1 to MAX_USERS + 1
        invariant count as int <= i - 1
        invariant CountEnabled(Table()[1..]) == count as int + CountEnabled(Table()[i..])
      {
        assert Table()[i..][1..] == Table()[i + 1..];
        if users[i].access.enabled {
          count := count + 1;
        }
      }
    }

    method GetUserName(id: byte) returns (r: Result<Bytes, Error>)
      requires Valid()
      ensures r == if ValidUserId(id) then Ok(Table()[id].name) else Err(InvalidUserId)
    {
      if !ValidUserId(id) {
        return Err(InvalidUserId);
      }
      return Ok(users[id].name);
    }

    /** Unlike CreateAccount and UpdateAccount, this does not look for the name in other slots. */
    method SetUserName(id: byte, name: Bytes) returns (err: Option<Error>)
      requires Valid()
      modifies users
      ensures err == if ValidUserId(id) then None else Some(InvalidUserId)
      ensures Table() == if ValidUserId(id) then old(Table())[id as int := old(Table())[id].(name := name)] else old(Table())
    {
      if !ValidUserId(id) {
        return Some(InvalidUserId);
      }
      users[id] := users[id].(name := name);
      return None;
    }

    method SetUserPassword(id: byte, password: Bytes) returns (err: Option<Error>)
      requires Valid()
      modifies users
      ensures err == if ValidUserId(id) then None else Some(InvalidUserId)
      ensures Table() == if ValidUserId(id) then old(Table())[id as int := old(Table())[id].(password := password)] else old(Table())
    {
      if !ValidUserId(id) {
        return Some(InvalidUserId);
      }
      users[id] := users[id].(password := password);
      return None;
    }

    method CheckPassword(id: byte, password: Bytes) returns (ok: bool)
      requires Valid()
      ensures ok == (ValidUserId(id) && Table()[id].password != [] && Table()[id].password == password)
    {
      if !ValidUserId(id) {
        return false;
      }
      var stored := users[id].password;
      if stored == [] {
        return false;
      }
      return stored == password;
    }

    method GetUserAccess(id: byte) returns (r: Result<Access, Error>)
      requires Valid()
      ensures r == if ValidUserId(id) then Ok(Table()[id].access) else Err(InvalidUserId)
    {
      if !ValidUserId(id) {
        return Err(InvalidUserId);
      }
      return Ok(users[id].access);
    }

    method SetUserAccess(id: byte, access: Access) returns (err: Option<Error>)
      requires Valid()
      modifies users
      ensures err == if ValidUserId(id) then None else Some(InvalidUserId)
      ensures Table() == if ValidUserId(id) then old(Table())[id as int := old(Table())[id].(access := access)] else old(Table())
    {
      if !ValidUserId(id) {
        return Some(InvalidUserId);
      }
      users[id] := users[id].(access := access);
      return None;
    }
  }
}
