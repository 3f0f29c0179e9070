/**
 Set User Access and the enable and disable operations of Set User Password read a slot's access
 in one lock-held section of the user table and write it back in another
 (internal/ipmi/handler_user.go). Here `before` is the table the first section sees and `at` the
 one the second sees, whatever other IPMI and Redfish callers have done in between.
 */
module AccountRaces {
  import opened Bytes
  import opened Wrappers
  import opened Accounts
  import opened AccountMap
  import opened UserCommands

  /** GetUserAccess and SetUserAccess of the table, the two sections. */
  function ReadAccess(t: Table, id: byte): Access
    requires ValidUserId(id)
  {
    t[id].access
  }

  function WriteAccess(t: Table, id: byte, access: Access): Table
    requires ValidUserId(id)
  {
    t[id as int := t[id].(access := access)]
  }

  /** The access a Set User Access request asks for; enabled or not is kept as read. */
  function Requested(req: Bytes, read: Access): Access
    requires |req| >= 4
  {
    Access(req[2] % 0x10, read.enabled, req[0] / 0x10 % 2 == 1, req[0] / 0x20 % 2 == 1, req[0] / 0x40 % 2 == 1)
  }

  function AccessSections(before: Table, at: Table, req: Bytes): Table
    requires |req| >= 4 && ValidUserId(UserId(req[1]))
  {
    var id := UserId(req[1]);
    WriteAccess(at, id, Requested(req, ReadAccess(before, id)))
  }

  function EnableSections(before: Table, at: Table, id: byte, enabled: bool): Table
    requires ValidUserId(id)
  {
    WriteAccess(at, id, ReadAccess(before, id).(enabled := enabled))
  }

  lemma ReadBack(t: Table, id: byte, a: Access, b: Access)
    requires ValidUserId(id)
    ensures WriteAccess(t, id, a) == WriteAccess(t, id, b) <==> a == b
  {
    if a != b {
      assert WriteAccess(t, id, a)[id].access == a && WriteAccess(t, id, b)[id].access == b;
    }
  }

  /** Set User Access does what it does at one go exactly when nobody enabled or disabled the
      user in between. */
  lemma AccessCommandAtomicIff(before: Table, at: Table, req: Bytes)
    requires |req| >= 4 && ValidUserId(UserId(req[1]))
    ensures (AccessSections(before, at, req), OK) == SetUserAccess(at, req)
      <==> ReadAccess(at, UserId(req[1])).enabled == ReadAccess(before, UserId(req[1])).enabled
  {
    var id := UserId(req[1]);
    assert SetUserAccess(at, req) == (WriteAccess(at, id, Requested(req, ReadAccess(at, id))), OK);
    ReadBack(at, id, Requested(req, ReadAccess(before, id)), Requested(req, ReadAccess(at, id)));
  }

  predicate SameButEnabled(a: Access, b: Access) {
    a.(enabled := b.enabled) == b
  }

  /** Enabling or disabling does exactly when nobody changed anything else of the access. */
  lemma EnableCommandAtomicIff(before: Table, at: Table, id: byte, enabled: bool)
    requires ValidUserId(id)
    ensures (EnableSections(before, at, id, enabled), OK) == SetEnabled(at, id, enabled)
      <==> SameButEnabled(ReadAccess(before, id), ReadAccess(at, id))
  {
    assert SetEnabled(at, id, enabled) == (WriteAccess(at, id, ReadAccess(at, id).(enabled := enabled)), OK);
    ReadBack(at, id, ReadAccess(before, id).(enabled := enabled), ReadAccess(at, id).(enabled := enabled));
  }

  /** So a user who can authenticate, and is disabled over Redfish in the middle of a Set User
      Access, is enabled again and authenticates as before. */
  lemma DisableIsUndone(before: Table, req: Bytes, password: Bytes)
    requires |req| >= 4 && ValidUserId(UserId(req[1]))
    ensures var id := UserId(req[1]);
      var (at, err) := UpdateAt(before, id, Update(None, None, None, Some(false)));
      WellFormed(before) && CanAuthenticate(before, before[id].name, password) ==>
        && err == None && !CanAuthenticate(at, before[id].name, password)
        && CanAuthenticate(AccessSections(before, at, req), before[id].name, password)
  {
    var id, name := UserId(req[1]), before[UserId(req[1])].name;
    if WellFormed(before) && CanAuthenticate(before, name, password) {
      var at := UpdateAt(before, id, Update(None, None, None, Some(false))).0;
      assert before[Lookup(before, name)].name == name;
      assert Lookup(before, name) == id as int;
      SameNamesSameSlot(before, at, name, 1);
      SameNamesSameSlot(before, AccessSections(before, at, req), name, 1);
    }
  }

  /** A write that finds its slot without a name, as after a delete in between, gives access to
      nobody, but leaves the table well formed only if it writes none. */
  lemma WriteAfterDelete(at: Table, id: byte, access: Access)
    requires WellFormed(at) && ValidUserId(id) && at[id].name == []
    ensures var t := WriteAccess(at, id, access);
      && Abs(t) == Abs(at)
      && (WellFormed(t) <==> access == NO_ACCESS)
  {
    var t := WriteAccess(at, id, access);
    SameNamesSameAccounts(at, t);
    if access == NO_ACCESS {
      assert t == at;
    } else {
      assert t[id].name == [] && t[id] != FREE_SLOT;
    }
  }
}
