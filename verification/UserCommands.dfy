/**
 The in-band user commands of internal/ipmi/handler_user.go on the shared account table.
 */
module UserCommands {
  import opened Bytes
  import opened Wrappers
  import opened Accounts
  import opened AccountMap

  const OK: byte := 0x00
  const PARAMETER_OUT_OF_RANGE: byte := 0xC9
  const INVALID_FIELD: byte := 0xCC

  const NAME_SIZE := 16

  /** strings.TrimRight(s, "\x00") */
  function TrimNul(s: Bytes): Bytes {
    if s != [] && s[|s| - 1] == 0 then TrimNul(s[..|s| - 1]) else s
  }

  /** A 16-byte field holding as much of the name as fits, zero-padded. */
  function NameField(name: Bytes): Bytes {
    if |name| >= NAME_SIZE then name[..NAME_SIZE] else name + Repeat(NAME_SIZE - |name|, 0)
  }

  function UserId(b: byte): byte {
    b % 0x40
  }

  function PasswordSize(b: byte): nat {
    if b / 0x80 == 1 then 20 else 16
  }

  // ----- what the commands do to the table -----

  function GetUserName(t: Table, req: Bytes): (byte, Bytes) {
    if req == [] then (INVALID_FIELD, [])
    else if !ValidUserId(UserId(req[0])) then (PARAMETER_OUT_OF_RANGE, [])
    else (OK, NameField(t[UserId(req[0])].name))
  }

  function SetUserName(t: Table, req: Bytes): (Table, byte) {
    if |req| < 17 then (t, INVALID_FIELD)
    else
      var id := UserId(req[0]);
      if !ValidUserId(id) then (t, PARAMETER_OUT_OF_RANGE)
      else (t[id as int := t[id].(name := TrimNul(req[1..17]))], OK)
  }

  function SetEnabled(t: Table, id: byte, enabled: bool): (Table, byte) {
    if !ValidUserId(id) then (t, PARAMETER_OUT_OF_RANGE)
    else (t[id as int := t[id].(access := t[id].access.(enabled := enabled))], OK)
  }

  function SetUserPassword(t: Table, req: Bytes): (Table, byte) {
    if |req| < 2 then (t, INVALID_FIELD)
    else
      var id, operation, size := UserId(req[0]), req[1] % 4, PasswordSize(req[0]);
      if operation == 0 then SetEnabled(t, id, false)
      else if operation == 1 then SetEnabled(t, id, true)
      else if |req| < 2 + size then (t, INVALID_FIELD)
      else
        var password := TrimNul(req[2..2 + size]);
        if operation == 2 then
          if !ValidUserId(id) then (t, PARAMETER_OUT_OF_RANGE)
          else (t[id as int := t[id].(password := password)], OK)
        else
          (t, if ValidUserId(id) && password != [] && t[id].password == password then OK else INVALID_FIELD)
  }

  function SetUserAccess(t: Table, req: Bytes): (Table, byte) {
    if |req| < 4 then (t, INVALID_FIELD)
    else
      var id := UserId(req[1]);
      if !ValidUserId(id) then (t, PARAMETER_OUT_OF_RANGE)
      else
        var access := Access(req[2] % 0x10, t[id].access.enabled, req[0] / 0x10 % 2 == 1, req[0] / 0x20 % 2 == 1, req[0] / 0x40 % 2 == 1);
        (t[id as int := t[id].(access := access)], OK)
  }

  function GetUserAccess(t: Table, req: Bytes): (byte, Bytes) {
    if |req| < 2 then (INVALID_FIELD, [])
    else if !ValidUserId(UserId(req[1])) then (PARAMETER_OUT_OF_RANGE, [])
    else
      var a := t[UserId(req[1])].access;
      (OK, [MAX_USERS, EnabledCount(t), 0x01, AccessFlags(a)])
  }

  /** The privilege limit in the low four bits, one flag bit each above it. */
  function AccessFlags(a: Access): byte {
    a.privilege % 0x10
    + (if a.ipmiMessaging then 0x10 else 0) + (if a.linkAuth then 0x20 else 0) + (if a.callin then 0x40 else 0)
  }

  // ----- the handlers -----

  method TrimRight(s: Bytes) returns (r: Bytes)
    ensures r == TrimNul(s)
  {
    r := s;
    while r != [] && r[|r| - 1] == 0
      invariant TrimNul(r) == TrimNul(s)
      decreases |r|
    {
      r := r[..|r| - 1];
    }
  }

  method HandleGetUserName(reqData: Bytes, state: State) returns (code: byte, data: Bytes)
    requires state.Valid()
    ensures (code, data) == GetUserName(state.Table(), reqData)
  {
    if |reqData| < 1 {
      return INVALID_FIELD, [];
    }
    var name := state.GetUserName(reqData[0] % 0x40);
    if name.Err? {
      return PARAMETER_OUT_OF_RANGE, [];
    }
    var field := new byte[NAME_SIZE](_ => 0);
    var n := if |name.value| < NAME_SIZE then |name.value| else NAME_SIZE;
    for i := 0 to n
      invariant forall k :: 0 <= k < i ==> field[k] == name.value[k]
      invariant forall k :: i <= k < NAME_SIZE ==> field[k] == 0
    {
      field[i] := name.value[i];
    }
    assert field[..] == NameField(name.value);
    return OK, field[..];
  }

  method HandleSetUserName(reqData: Bytes, state: State) returns (code: byte, data: Bytes)
    requires state.Valid()
    modifies state.users
    ensures (state.Table(), code) == SetUserName(old(state.Table()), reqData) && data == []
  {
    if |reqData| < 17 {
      return INVALID_FIELD, [];
    }
    var name := TrimRight(reqData[1..17]);
    var err := state.SetUserName(reqData[0] % 0x40, name);
    return if err.Some? then PARAMETER_OUT_OF_RANGE else OK, [];
  }

  method HandleSetUserPassword(reqData: Bytes, state: State) returns (code: byte, data: Bytes)
    requires state.Valid()
    modifies state.users
    ensures (state.Table(), code) == SetUserPassword(old(state.Table()), reqData) && data == []
  {
    data := [];
    if |reqData| < 2 {
      return INVALID_FIELD, [];
    }
    var userId := reqData[0] % 0x40;
    var operation := reqData[1] % 4;
    var passLen := if reqData[0] / 0x80 == 1 then 20 else 16;
    if operation == 0 || operation == 1 {
      var access := state.GetUserAccess(userId);
      if access.Err? {
        return PARAMETER_OUT_OF_RANGE, [];
      }
      var err := state.SetUserAccess(userId, access.value.(enabled := operation == 1));
      assert err.None?;  // the read above has already checked the user id
      code := OK;
    } else {
      if |reqData| < 2 + passLen {
        return INVALID_FIELD, [];
      }
      var password := TrimRight(reqData[2..2 + passLen]);
      if operation == 2 {
        var err := state.SetUserPassword(userId, password);
        code := if err.Some? then PARAMETER_OUT_OF_RANGE else OK;
      } else {
        var ok := state.CheckPassword(userId, password);
        code := if ok then OK else INVALID_FIELD;
      }
    }
  }

  method HandleSetUserAccess(reqData: Bytes, state: State) returns (code: byte, data: Bytes)
    requires state.Valid()
    modifies state.users
    ensures (state.Table(), code) == SetUserAccess(old(state.Table()), reqData) && data == []
  {
    if |reqData| < 4 {
      return INVALID_FIELD, [];
    }
    var userId := reqData[1] % 0x40;
    var existing := state.GetUserAccess(userId);
    var enabled := if existing.Ok? then existing.value.enabled else false;
    var access := Access(reqData[2] % 0x10, enabled,
                         reqData[0] / 0x10 % 2 == 1, reqData[0] / 0x20 % 2 == 1, reqData[0] / 0x40 % 2 == 1);
    var err := state.SetUserAccess(userId, access);
    return if err.Some? then PARAMETER_OUT_OF_RANGE else OK, [];
  }

  method HandleGetUserAccess(reqData: Bytes, state: State) returns (code: byte, data: Bytes)
    requires state.Valid()
    ensures (code, data) == GetUserAccess(state.Table(), reqData)
  {
    if |reqData| < 2 {
      return INVALID_FIELD, [];
    }
    var access := state.GetUserAccess(reqData[1] % 0x40);
    if access.Err? {
      return PARAMETER_OUT_OF_RANGE, [];
    }
    var count := state.EnabledUserCount();
    return OK, [MAX_USERS % 0x40, count % 0x40, 0x01, AccessFlags(access.value)];
  }

  // ----- what the commands promise together -----

  lemma {:induction false} TrimThenPad(s: Bytes)
    ensures |TrimNul(s)| <= |s|
    ensures TrimNul(s) + Repeat(|s| - |TrimNul(s)|, 0) == s
  {
    if s != [] && s[|s| - 1] == 0 {
      var s' := s[..|s| - 1];
      TrimThenPad(s');
      assert s == s' + [0];
      assert Repeat(|s| - |TrimNul(s)|, 0) == Repeat(|s'| - |TrimNul(s)|, 0) + [0];
    }
  }

  /** Get User Name returns the 16 bytes of the last Set User Name for the slot, and naming
      leaves every other slot alone. */
  lemma SetThenGetUserName(t: Table, idByte: byte, name: Bytes)
    requires |name| == NAME_SIZE && 1 <= idByte % 0x40 <= 15
    ensures var (t', code) := SetUserName(t, [idByte] + name);
      && code == OK
      && GetUserName(t', [idByte]) == (OK, name)
      && t'[idByte % 0x40] == t[idByte % 0x40].(name := TrimNul(name))
      && forall k :: 0 <= k <= MAX_USERS && k != idByte as int % 0x40 ==> t'[k] == t[k]
  {
    assert ([idByte] + name)[1..17] == name;
    FieldOfTrimmed(name);
  }

  lemma FieldOfTrimmed(name: Bytes)
    requires |name| == NAME_SIZE
    ensures NameField(TrimNul(name)) == name
  {
    TrimThenPad(name);
    if |TrimNul(name)| == NAME_SIZE {
      assert name[..NAME_SIZE] == name;
      assert TrimNul(name) + Repeat(0, 0) == TrimNul(name);
    }
  }

  /** Test Password answers OK exactly for the password last set, up to trailing zero bytes
      and whichever field size each request used, and never for an empty one. */
  lemma SetThenTestPassword(t: Table, setId: byte, setOp: byte, p: Bytes, testId: byte, testOp: byte, q: Bytes)
    requires setId % 0x40 == testId % 0x40 && 1 <= setId % 0x40 <= 15
    requires setOp % 4 == 2 && testOp % 4 == 3
    requires |p| == (if setId >= 0x80 then 20 else 16) && |q| == (if testId >= 0x80 then 20 else 16)
    ensures var (t', code) := SetUserPassword(t, [setId, setOp] + p);
      && code == OK
      && t' == t[setId as int % 0x40 := t[setId % 0x40].(password := TrimNul(p))]
      && SetUserPassword(t', [testId, testOp] + q)
         == (t', if TrimNul(p) == TrimNul(q) && TrimNul(p) != [] then OK else INVALID_FIELD)
  {
    assert ([setId, setOp] + p)[2..2 + |p|] == p;
    assert ([testId, testOp] + q)[2..2 + |q|] == q;
  }

  function CommandUpdate(req: Bytes): Update
    requires |req| >= 2 && (req[1] % 4 == 2 ==> |req| >= 2 + PasswordSize(req[0]))
  {
    if req[1] % 4 == 2 then Update(None, Some(TrimNul(req[2..2 + PasswordSize(req[0])])), None, None)
    else Update(None, None, None, Some(req[1] % 4 == 1))
  }

  /** The in-band password and enable commands make the change of the account service's own
      update, but to unnamed slots too, which that update refuses: there they leave every account
      alone, and the table well formed only if nothing changed. */
  lemma PasswordCommandIsUpdate(t: Table, req: Bytes)
    requires |req| >= 2 && ValidUserId(UserId(req[0]))
    requires req[1] % 4 != 3 && (req[1] % 4 == 2 ==> |req| >= 2 + PasswordSize(req[0]))
    ensures var id, u := UserId(req[0]), CommandUpdate(req);
      var (t', code) := SetUserPassword(t, req);
      && code == OK
      && UpdateAt(t, id, u) == (if t[id].name != [] then (t', None) else (t, Some(NotFound)))
      && (WellFormed(t) ==>
            && Abs(t') == MapUpdate(Abs(t), id as nat, u).0
            && (WellFormed(t') <==> t[id].name != [] || t' == t))
  {
    var id, u := UserId(req[0]), CommandUpdate(req);
    var t' := SetUserPassword(t, req).0;
    if WellFormed(t) {
      UpdateRefines(t, id, u);
      if t[id].name == [] {
        SameNamesSameAccounts(t, t');
      }
    }
  }

  lemma SameNamesSameAccounts(t: Table, t': Table)
    requires forall k :: 0 <= k <= MAX_USERS ==> t'[k].name == t[k].name && (t[k].name != [] ==> t'[k] == t[k])
    ensures Abs(t') == Abs(t)
  {
    forall n ensures LookupFrom(t', n, 1) == LookupFrom(t, n, 1) {
      SameNamesSameSlot(t, t', n, 1);
    }
    assert NamesFrom(t', 1) == NamesFrom(t, 1);
    forall n | n in NamesFrom(t, 1)
      ensures AccountOf(LookupFrom(t', n, 1), t'[LookupFrom(t', n, 1)]) == AccountOf(LookupFrom(t, n, 1), t[LookupFrom(t, n, 1)])
    {
      var k :| 1 <= k <= MAX_USERS && t[k].name == n && n != [];
      assert LookupFrom(t, n, 1) != 0;
    }
  }

  lemma {:induction false} SameNamesSameSlot(t: Table, t': Table, name: Bytes, i: nat)
    requires 1 <= i <= MAX_USERS + 1
    requires forall k :: 0 <= k <= MAX_USERS ==> t'[k].name == t[k].name
    ensures LookupFrom(t', name, i) == LookupFrom(t, name, i)
    decreases MAX_USERS + 1 - i
  {
    if i <= MAX_USERS {
      SameNamesSameSlot(t, t', name, i + 1);
    }
  }

  /** Set User Access never enables or disables a user, nor touches a name or password. */
  lemma AccessCommandKeepsCredentials(t: Table, req: Bytes, k: nat)
    requires k <= MAX_USERS
    ensures var t' := SetUserAccess(t, req).0;
      && t'[k].name == t[k].name && t'[k].password == t[k].password
      && t'[k].access.enabled == t[k].access.enabled
      && EnabledCount(t') == EnabledCount(t)
  {
    EnabledDependsOnFlags(t[1..], SetUserAccess(t, req).0[1..]);
  }

  lemma {:induction false} EnabledDependsOnFlags(a: seq<Slot>, b: seq<Slot>)
    requires |a| == |b|
    requires forall k :: 0 <= k < |a| ==> a[k].access.enabled == b[k].access.enabled
    ensures CountEnabled(a) == CountEnabled(b)
  {
    if a != [] {
      EnabledDependsOnFlags(a[1..], b[1..]);
    }
  }

  // ----- flags and completion codes -----

  /** Trimming takes off the trailing zeros and nothing else. */
  lemma TrimIs(s: Bytes)
    ensures TrimNul(s) <= s
    ensures TrimNul(s) != [] ==> TrimNul(s)[|TrimNul(s)| - 1] != 0
    ensures forall i :: |TrimNul(s)| <= i < |s| ==> s[i] == 0
  {
    TrimThenPad(s);
    TrimmedEnd(s);
    var t := TrimNul(s);
    assert s == t + Repeat(|s| - |t|, 0);
  }

  lemma {:induction false} TrimmedEnd(s: Bytes)
    ensures TrimNul(s) != [] ==> TrimNul(s)[|TrimNul(s)| - 1] != 0
  {
    if s != [] && s[|s| - 1] == 0 {
      TrimmedEnd(s[..|s| - 1]);
    }
  }

  lemma FlagsPack(flags: byte)
    ensures (if flags / 0x10 % 2 == 1 then 0x10 else 0) + (if flags / 0x20 % 2 == 1 then 0x20 else 0)
          + (if flags / 0x40 % 2 == 1 then 0x40 else 0) == 0x10 * (flags / 0x10 % 8)
  {
    var x := flags / 0x10;
    assert flags / 0x20 == x / 2 && flags / 0x40 == x / 4;
    assert x % 8 == x % 2 + 2 * (x / 2 % 2) + 4 * (x / 4 % 2);
  }

  /** Get User Access reads back what Set User Access wrote: the privilege in the low four bits
      and the three flags above it, behind fifteen slots, the number of enabled users and one
      fixed name. */
  lemma SetThenGetUserAccess(t: Table, flags: byte, idByte: byte, privilege: byte, session: byte, channel: byte)
    requires 1 <= idByte % 0x40 <= 15
    ensures var (t', code) := SetUserAccess(t, [flags, idByte, privilege, session]);
      && code == OK
      && GetUserAccess(t', [channel, idByte])
         == (OK, [15, EnabledCount(t'), 1, privilege % 0x10 + 0x10 * (flags / 0x10 % 8)])
      && t'[idByte % 0x40].access.enabled == t[idByte % 0x40].access.enabled
      && forall k :: 0 <= k <= MAX_USERS && k != idByte as int % 0x40 ==> t'[k] == t[k]
  {
    FlagsPack(flags);
  }

  /** What Get User Access reports of any slot, however it was written, in the bits of its last byte. */
  lemma AccessBits(t: Table, channel: byte, idByte: byte)
    requires 1 <= idByte % 0x40 <= 15
    ensures var (code, data) := GetUserAccess(t, [channel, idByte]);
      var a := t[idByte % 0x40].access;
      && code == OK && data == [15, EnabledCount(t), 1, data[3]]
      && data[3] % 0x10 == a.privilege % 0x10 && data[3] < 0x80
      && (data[3] / 0x10 % 2 == 1 <==> a.ipmiMessaging)
      && (data[3] / 0x20 % 2 == 1 <==> a.linkAuth)
      && (data[3] / 0x40 % 2 == 1 <==> a.callin)
  {
  }

  /** Enabling and disabling sets the one flag. */
  lemma EnableCommands(t: Table, idByte: byte, op: byte, rest: Bytes)
    requires 1 <= idByte % 0x40 <= 15 && op % 4 <= 1
    ensures var s := t[idByte % 0x40];
      SetUserPassword(t, [idByte, op] + rest)
      == (t[idByte as int % 0x40 := s.(access := s.access.(enabled := op % 4 == 1))], OK)
  {
  }

  /** Requests that are too short get 0xCC; an id out of 1..15 gets 0xC9, or fails the password
      test; either way nothing changes. */
  lemma CommandErrors(t: Table, req: Bytes)
    ensures |req| < 17 ==> SetUserName(t, req) == (t, 0xCC)
    ensures |req| < 4 ==> SetUserAccess(t, req) == (t, 0xCC)
    ensures |req| < 2 ==> SetUserPassword(t, req) == (t, 0xCC) && GetUserAccess(t, req) == (0xCC, [])
    ensures req == [] ==> GetUserName(t, req) == (0xCC, [])
    ensures |req| >= 2 && req[1] % 4 >= 2 && |req| < (if req[0] >= 0x80 then 22 else 18) ==> SetUserPassword(t, req) == (t, 0xCC)
    ensures |req| >= 17 && !(1 <= req[0] % 0x40 <= 15) ==> SetUserName(t, req) == (t, 0xC9)
    ensures |req| >= 4 && !(1 <= req[1] % 0x40 <= 15) ==> SetUserAccess(t, req) == (t, 0xC9)
    ensures |req| >= 2 && !(1 <= req[1] % 0x40 <= 15) ==> GetUserAccess(t, req) == (0xC9, [])
    ensures |req| >= 1 && !(1 <= req[0] % 0x40 <= 15) ==> GetUserName(t, req) == (0xC9, [])
    ensures |req| >= 22 && !(1 <= req[0] % 0x40 <= 15) ==>
      SetUserPassword(t, req) == (t, if req[1] % 4 == 3 then 0xCC else 0xC9)
  {
  }
}
