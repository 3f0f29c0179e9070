/**
 The QEMU command line of internal/qemu/args.go: validation, defaults, the injected
 arguments, and the boot override.
 */
module QemuArgs {
  import opened Wrappers

  type Args = seq<string>

  // ----- validation -----

  predicate OccursAt(s: string, sub: string, i: nat) {
    i + |sub| <= |s| && s[i..i + |sub|] == sub
  }

  /** strings.Contains */
  predicate Contains(s: string, sub: string) {
    exists i: nat | i <= |s| :: OccursAt(s, sub, i)
  }

  datatype ArgError = Managed(arg: string) | ManagedValue(arg: string, value: string)

  predicate ForbiddenArg(arg: string) {
    arg == "-qmp" || arg == "-daemonize"
  }

  predicate ForbiddenValue(arg: string, value: string) {
    || arg == "-serial"
    || (arg == "-chardev" && Contains(value, "id=serial0"))
    || (arg == "-monitor" && value == "stdio")
  }

  function ErrorAt(args: Args, i: nat): Option<ArgError>
    requires i < |args|
  {
    if ForbiddenArg(args[i]) then Some(Managed(args[i]))
    else if i + 1 < |args| && ForbiddenValue(args[i], args[i + 1]) then Some(ManagedValue(args[i], args[i + 1]))
    else None
  }

  /** The error of the first offending position, and none exactly when no position offends. */
  method ValidateArgs(args: Args) returns (err: Option<ArgError>)
    ensures err == FirstError(args)
    ensures err.None? <==> forall i :: 0 <= i < |args| ==> ErrorAt(args, i).None?
    ensures err.Some? ==>
      exists i :: 0 <= i < |args| && ErrorAt(args, i) == err && (forall k :: 0 <= k < i ==> ErrorAt(args, k).None?)
  {
    for i := 0 to |args|
      invariant forall k :: 0 <= k < i ==> ErrorAt(args, k).None?
    {
      if ForbiddenArg(args[i]) {
        FirstErrorIs(args, i);
        return Some(Managed(args[i]));
      }
      if args[i] == "-serial" || args[i] == "-chardev" || args[i] == "-monitor" {
        if i + 1 < |args| && ForbiddenValue(args[i], args[i + 1]) {
          FirstErrorIs(args, i);
          return Some(ManagedValue(args[i], args[i + 1]));
        }
      }
    }
    FirstErrorNone(args);
    return None;
  }

  function FirstErrorFrom(args: Args, i: nat): Option<ArgError>
    requires i <= |args|
    decreases |args| - i
  {
    if i == |args| then None else if ErrorAt(args, i).Some? then ErrorAt(args, i) else FirstErrorFrom(args, i + 1)
  }

  function FirstError(args: Args): Option<ArgError> {
    FirstErrorFrom(args, 0)
  }

  lemma {:induction false} FirstErrorSkips(args: Args, from: nat, i: nat)
    requires from <= i <= |args| && forall k :: from <= k < i ==> ErrorAt(args, k).None?
    ensures FirstErrorFrom(args, from) == FirstErrorFrom(args, i)
    decreases i - from
  {
    if from < i {
      FirstErrorSkips(args, from + 1, i);
    }
  }

  lemma FirstErrorIs(args: Args, i: nat)
    requires i < |args| && ErrorAt(args, i).Some? && forall k :: 0 <= k < i ==> ErrorAt(args, k).None?
    ensures FirstError(args) == ErrorAt(args, i)
  {
    FirstErrorSkips(args, 0, i);
  }

  lemma FirstErrorNone(args: Args)
    requires forall k :: 0 <= k < |args| ==> ErrorAt(args, k).None?
    ensures FirstError(args) == None
  {
    FirstErrorSkips(args, 0, |args|);
  }

  lemma {:induction false} AcceptedHasNoErrors(args: Args, from: nat)
    requires from <= |args| && FirstErrorFrom(args, from).None?
    ensures forall i :: from <= i < |args| ==> ErrorAt(args, i).None?
    decreases |args| - from
  {
    if from < |args| {
      AcceptedHasNoErrors(args, from + 1);
    }
  }

  // ----- defaults -----

  const DEFAULTS: seq<(string, string)> := [("-machine", "q35"), ("-m", "2048"), ("-smp", "2"), ("-vga", "std")]

  function Missing(args: Args, defaults: seq<(string, string)>): Args {
    if defaults == [] then []
    else (if defaults[0].0 in args then [] else [defaults[0].0, defaults[0].1]) + Missing(args, defaults[1..])
  }

  function Defaulted(args: Args): Args {
    args + Missing(args, DEFAULTS)
  }

  method ApplyDefaults(args: Args) returns (result: Args)
    ensures result == Defaulted(args)
  {
    var present: set<string> := {};
    for i := 0 to |args|
      invariant forall a :: a in present <==> a in args[..i]
    {
      present := present + {args[i]};
    }
    assert args[..|args|] == args;
    result := args;
    for i := 0 to |DEFAULTS|
      invariant result + Missing(args, DEFAULTS[i..]) == Defaulted(args)
    {
      assert DEFAULTS[i..][1..] == DEFAULTS[i + 1..];
      if DEFAULTS[i].0 !in present {
        result := result + [DEFAULTS[i].0, DEFAULTS[i].1];
      }
    }
  }

  lemma {:induction false} MissingCovers(args: Args, defaults: seq<(string, string)>)
    ensures forall d :: d in defaults ==> d.0 in args + Missing(args, defaults)
  {
    if defaults != [] {
      MissingCovers(args, defaults[1..]);
      forall d | d in defaults ensures d.0 in args + Missing(args, defaults) {
        if d != defaults[0] {
          assert d in defaults[1..];
        }
      }
    }
  }

  lemma {:induction false} MissingNone(args: Args, defaults: seq<(string, string)>)
    requires forall d :: d in defaults ==> d.0 in args
    ensures Missing(args, defaults) == []
  {
    if defaults != [] {
      assert defaults[0] in defaults;
      MissingNone(args, defaults[1..]);
    }
  }

  /** The user's arguments stay as a prefix, every default flag is present, and a second
      application adds nothing. */
  lemma DefaultsIdempotent(args: Args)
    ensures args <= Defaulted(args)
    ensures forall d :: d in DEFAULTS ==> d.0 in Defaulted(args)
    ensures Defaulted(Defaulted(args)) == Defaulted(args)
  {
    MissingCovers(args, DEFAULTS);
    MissingNone(Defaulted(args), DEFAULTS);
  }

  // ----- the command line -----

  datatype BuildOptions = BuildOptions(qmpSocketPath: string, serialAddr: string, serialLogFile: string)

  datatype BuildError = Invalid(error: ArgError) | BadSerialAddress

  /** strings.Cut at the first colon. */
  function CutColon(s: string): Option<(string, string)> {
    if s == [] then None
    else if s[0] == ':' then Some(("", s[1..]))
    else match CutColon(s[1..]) case None => None case Some((h, p)) => Some(([s[0]] + h, p))
  }

  function QmpValue(opts: BuildOptions): string {
    "unix:" + opts.qmpSocketPath + ",server,nowait"
  }

  function Chardev(host: string, port: string, logFile: string): string {
    "socket,id=serial0,host=" + host + ",port=" + port + ",server=on,wait=off"
    + (if logFile == "" then "" else ",logfile=" + logFile + ",logappend=on")
  }

  function SerialArgs(opts: BuildOptions): Result<Args, BuildError> {
    if opts.serialAddr == "" then Ok([])
    else
      match CutColon(opts.serialAddr)
      case None => Err(BadSerialAddress)
      case Some((host, port)) => Ok(["-chardev", Chardev(host, port, opts.serialLogFile), "-serial", "chardev:serial0"])
  }

  function Injected(opts: BuildOptions, serial: Args): Args {
    ["-qmp", QmpValue(opts), "-display", "none"] + serial
  }

  function CommandLine(userArgs: Args, opts: BuildOptions): Result<Args, BuildError> {
    match FirstError(userArgs)
    case Some(e) => Err(Invalid(e))
    case None =>
      match SerialArgs(opts)
      case Err(e) => Err(e)
      case Ok(serial) => Ok(Defaulted(userArgs) + Injected(opts, serial))
  }

  method BuildCommandLine(userArgs: Args, opts: BuildOptions) returns (r: Result<Args, BuildError>)
    ensures r == CommandLine(userArgs, opts)
  {
    var err := ValidateArgs(userArgs);
    if err.Some? {
      return Err(Invalid(err.value));
    }
    var args := ApplyDefaults(userArgs);
    ghost var defaulted := args;
    args := args + ["-qmp", QmpValue(opts)];
    args := args + ["-display", "none"];
    var serial := SerialArgs(opts);
    if serial.Err? {
      return Err(serial.error);
    }
    args := args + serial.value;
    assert args == defaulted + Injected(opts, serial.value);
    return Ok(args);
  }

  // ----- the boot override -----

  function BootValue(target: string): Option<string> {
    if target == "Pxe" then Some("n")
    else if target == "Hdd" then Some("c")
    else if target == "Cd" then Some("d")
    else if target == "BiosSetup" then Some("menu=on")
    else None
  }

  /** Every "-boot" that has a value gets `v` instead. */
  function Rewrite(args: Args, v: string): Args {
    if args == [] then []
    else if args[0] == "-boot" && |args| > 1 then ["-boot", v] + Rewrite(args[2..], v)
    else [args[0]] + Rewrite(args[1..], v)
  }

  predicate Paired(args: Args) {
    if args == [] then false
    else if args[0] == "-boot" && |args| > 1 then true
    else Paired(args[1..])
  }

  function OverrideWith(args: Args, v: string): Args {
    if Paired(args) then Rewrite(args, v) else Rewrite(args, v) + ["-boot", v]
  }

  function Override(args: Args, target: string): Args {
    match BootValue(target) case None => args case Some(v) => OverrideWith(args, v)
  }

  method ApplyBootOverride(args: Args, target: string) returns (result: Args)
    ensures result == Override(args, target)
  {
    var bootVal := BootValue(target);
    if bootVal.None? {
      return args;
    }
    var v := bootVal.value;
    result := [];
    var replaced := false;
    var i := 0;
    assert args[0..] == args;
    while i < |args|
      invariant 0 <= i <= |args|
      invariant result + Rewrite(args[i..], v) == Rewrite(args, v)
      invariant replaced || Paired(args[i..]) <==> Paired(args)
    {
      RewriteAt(args, i, v);
      if args[i] == "-boot" && i + 1 < |args| {
        Glue(result, ["-boot", v], Rewrite(args[i + 2..], v));
        result := result + ["-boot", v];
        i := i + 1;
        replaced := true;
      } else {
        Glue(result, [args[i]], Rewrite(args[i + 1..], v));
        result := result + [args[i]];
      }
      i := i + 1;
    }
    assert args[i..] == [];
    if !replaced {
      result := result + ["-boot", v];
    }
  }

  lemma Glue(a: Args, b: Args, c: Args)
    ensures a + b + c == a + (b + c)
  {
  }

  lemma RewriteAt(args: Args, i: nat, v: string)
    requires i < |args|
    ensures var pair := args[i] == "-boot" && i + 1 < |args|;
      && Rewrite(args[i..], v) == (if pair then ["-boot", v] + Rewrite(args[i + 2..], v) else [args[i]] + Rewrite(args[i + 1..], v))
      && Paired(args[i..]) == (pair || Paired(args[i + 1..]))
  {
    assert args[i..][1..] == args[i + 1..];
    if args[i] == "-boot" && i + 1 < |args| {
      assert args[i..][2..] == args[i + 2..];
    }
  }

  // ----- what an override promises -----

  /** The values QEMU sees for -boot, and the other tokens in order. */
  function BootValues(args: Args): Args {
    if args == [] then []
    else if args[0] == "-boot" && |args| > 1 then [args[1]] + BootValues(args[2..])
    else BootValues(args[1..])
  }

  function Others(args: Args): Args {
    if args == [] then []
    else if args[0] == "-boot" && |args| > 1 then Others(args[2..])
    else [args[0]] + Others(args[1..])
  }

  /** The only "-boot" is the last token, with no value. */
  predicate LoneBoot(args: Args) {
    args != [] && args[|args| - 1] == "-boot" && "-boot" !in args[..|args| - 1]
  }

  lemma {:induction false} PairedIff(args: Args)
    ensures Paired(args) <==> args != [] && "-boot" in args[..|args| - 1]
  {
    if args != [] && !(args[0] == "-boot" && |args| > 1) {
      PairedIff(args[1..]);
      if |args| > 1 {
        assert args[..|args| - 1] == [args[0]] + args[1..][..|args| - 2];
      }
    } else if args != [] {
      assert args[..|args| - 1][0] == "-boot";
    }
  }

  lemma {:induction false} RewriteSkips(a: Args, b: Args, v: string)
    requires "-boot" !in a
    ensures Rewrite(a + b, v) == a + Rewrite(b, v)
    decreases |a|
  {
    if a == [] {
      assert a + b == b;
    } else {
      assert (a + b)[0] == a[0] && (a + b)[1..] == a[1..] + b;
      RewriteSkips(a[1..], b, v);
      assert [a[0]] + (a[1..] + Rewrite(b, v)) == a + Rewrite(b, v);
    }
  }

  lemma {:induction false} BootValuesSkip(a: Args, b: Args)
    requires "-boot" !in a
    ensures BootValues(a + b) == BootValues(b)
    decreases |a|
  {
    if a == [] {
      assert a + b == b;
    } else {
      assert (a + b)[0] == a[0] && (a + b)[1..] == a[1..] + b;
      BootValuesSkip(a[1..], b);
    }
  }

  lemma {:induction false} OthersSkip(a: Args, b: Args)
    requires "-boot" !in a
    ensures Others(a + b) == a + Others(b)
    decreases |a|
  {
    if a == [] {
      assert a + b == b;
    } else {
      assert (a + b)[0] == a[0] && (a + b)[1..] == a[1..] + b;
      OthersSkip(a[1..], b);
      assert [a[0]] + (a[1..] + Others(b)) == a + Others(b);
    }
  }

  lemma {:induction false} PairedSkips(a: Args, b: Args)
    requires "-boot" !in a
    ensures Paired(a + b) == Paired(b)
    decreases |a|
  {
    if a == [] {
      assert a + b == b;
    } else {
      assert (a + b)[0] == a[0] && (a + b)[1..] == a[1..] + b;
      PairedSkips(a[1..], b);
    }
  }

  lemma NoBootAppend(a: Args, b: Args, v: string)
    requires "-boot" !in a
    ensures Rewrite(a + b, v) == a + Rewrite(b, v)
    ensures BootValues(a + b) == BootValues(b)
    ensures Others(a + b) == a + Others(b)
    ensures Paired(a + b) == Paired(b)
  {
    RewriteSkips(a, b, v);
    BootValuesSkip(a, b);
    OthersSkip(a, b);
    PairedSkips(a, b);
  }

  /** Over arguments that hold a valued "-boot": the second of two rewrites decides. */
  lemma {:induction false} RewriteTwice(args: Args, v1: string, v2: string)
    ensures Rewrite(Rewrite(args, v1), v2) == Rewrite(args, v2)
    ensures Paired(Rewrite(args, v1)) == Paired(args)
    ensures Others(Rewrite(args, v1)) == Others(args)
    ensures |BootValues(Rewrite(args, v1))| == |BootValues(args)|
    ensures forall b :: b in BootValues(Rewrite(args, v1)) ==> b == v1
    ensures Paired(args) <==> BootValues(args) != []
    ensures |Rewrite(args, v1)| == |args|
    decreases |args|
  {
    if args == [] {
    } else if args[0] == "-boot" && |args| > 1 {
      RewriteTwice(args[2..], v1, v2);
      assert Rewrite(args, v1)[2..] == Rewrite(args[2..], v1);
    } else {
      RewriteTwice(args[1..], v1, v2);
      assert Rewrite(args, v1)[1..] == Rewrite(args[1..], v1);
    }
  }

  lemma LoneBootOverride(args: Args, v: string)
    requires LoneBoot(args)
    ensures var p := args[..|args| - 1];
      && OverrideWith(args, v) == p + ["-boot", "-boot", v]
      && Rewrite(args, v) == args && !Paired(args)
      && Others(args) == p + ["-boot"]
  {
    var p := args[..|args| - 1];
    assert args == p + ["-boot"];
    NoBootAppend(p, ["-boot"], v);
    LoneBootToken(v);
    PairedIff(args);
    assert p + ["-boot"] + ["-boot", v] == p + ["-boot", "-boot", v];
  }

  lemma LoneBootToken(v: string)
    ensures Rewrite(["-boot"], v) == ["-boot"] && Others(["-boot"]) == ["-boot"]
  {
    assert ["-boot"][1..] == [];
  }

  lemma NoBootAtAll(args: Args)
    requires !Paired(args) && !LoneBoot(args)
    ensures "-boot" !in args
  {
    PairedIff(args);
    if args != [] {
      assert args == args[..|args| - 1] + [args[|args| - 1]];
    }
  }

  /** Unpaired arguments without a lone "-boot" hold no "-boot" at all. */
  lemma PlainOverride(args: Args, v: string)
    requires !Paired(args) && !LoneBoot(args)
    ensures "-boot" !in args && OverrideWith(args, v) == args + ["-boot", v]
    ensures Others(args) == args
  {
    NoBootAtAll(args);
    NoBootAppend(args, [], v);
    assert args + [] == args;
  }

  /** The last override wins, over any arguments but those whose only "-boot" dangles at the
      end; over those it never does. */
  lemma LastOverrideWinsIff(args: Args, v1: string, v2: string)
    requires v1 != "-boot" && v2 != "-boot"
    ensures OverrideWith(OverrideWith(args, v1), v2) == OverrideWith(args, v2) <==> !LoneBoot(args)
  {
    if Paired(args) {
      RewriteTwice(args, v1, v2);
      PairedIff(args);
    } else if LoneBoot(args) {
      LoneBootOverride(args, v1);
      LoneBootOverride(args, v2);
      var p := args[..|args| - 1];
      var once := p + ["-boot", "-boot", v1];
      NoBootAppend(p, ["-boot", "-boot", v1], v2);
      assert Rewrite(["-boot", "-boot", v1], v2) == ["-boot", v2] + Rewrite([v1], v2);
      assert OverrideWith(once, v2)[|p| + 1] == v2;
      assert OverrideWith(args, v2)[|p| + 1] == "-boot";
    } else {
      PlainOverride(args, v1);
      PlainOverride(args, v2);
      NoBootAppend(args, ["-boot", v1], v2);
      assert Rewrite(["-boot", v1], v2) == ["-boot", v2] + Rewrite([], v2);
      assert args + (["-boot", v2] + []) == args + ["-boot", v2];
    }
  }

  /** An override leaves QEMU with the chosen boot value alone and every other token in place,
      except over a lone dangling "-boot", where it does neither. */
  lemma OverrideSelectsIff(args: Args, v: string)
    requires v != "-boot"
    ensures var r := OverrideWith(args, v);
      && (Others(r) == Others(args) <==> !LoneBoot(args))
      && ((BootValues(r) != [] && forall b :: b in BootValues(r) ==> b == v) <==> !LoneBoot(args))
  {
    if Paired(args) {
      RewriteTwice(args, v, v);
      PairedIff(args);
    } else if LoneBoot(args) {
      LoneBootOverride(args, v);
      var p := args[..|args| - 1];
      NoBootAppend(p, ["-boot", "-boot", v], v);
      assert ["-boot", "-boot", v][2..] == [v] && [v][1..] == [];
      assert Others(["-boot", "-boot", v]) == [v] + Others([]);
      assert BootValues(["-boot", "-boot", v]) == ["-boot"] + BootValues([v]);
      assert Others(OverrideWith(args, v))[|p|] == v && Others(args)[|p|] == "-boot";
      assert "-boot" in BootValues(OverrideWith(args, v));
    } else {
      PlainOverride(args, v);
      NoBootAppend(args, ["-boot", v], v);
      assert Others(["-boot", v]) == [] && BootValues(["-boot", v]) == [v] + BootValues([]);
      assert args + [] == args;
    }
  }

  lemma BootValuesAreOptions(target: string)
    requires BootValue(target).Some?
    ensures BootValue(target).value != "-boot" && BootValue(target).value != "-qmp"
  {
    assert BootValue(target).value[0] != '-';
  }

  // ----- over a built command line -----

  /** The arguments end in a "-boot" that takes the next token as its value. */
  predicate Dangling(args: Args) {
    if args == [] then false
    else if args[0] == "-boot" && |args| > 1 then Dangling(args[2..])
    else if args[0] == "-boot" then true
    else Dangling(args[1..])
  }

  lemma RewriteSteps(step: Args, rest: Args, v: string)
    requires (|step| == 1 && step[0] != "-boot") || (|step| == 2 && step[0] == "-boot")
    ensures Rewrite(step + rest, v) == Rewrite(step, v) + Rewrite(rest, v)
  {
    assert (step + rest)[|step|..] == rest && step[|step|..] == [];
  }

  lemma Reassociate(a: Args, b: Args, c: Args)
    ensures a + b + c == a + (b + c)
  {
  }

  lemma {:induction false} RewriteAppend(a: Args, b: Args, v: string)
    requires b != [] && !Dangling(a)
    ensures Rewrite(a + b, v) == Rewrite(a, v) + Rewrite(b, v)
    decreases |a|
  {
    if a == [] {
      assert a + b == b;
    } else {
      var n := if a[0] == "-boot" then 2 else 1;
      assert a == a[..n] + a[n..];
      RewriteAppend(a[n..], b, v);
      RewriteSteps(a[..n], a[n..], v);
      RewriteSteps(a[..n], a[n..] + b, v);
      Reassociate(a[..n], a[n..], b);
      Reassociate(Rewrite(a[..n], v), Rewrite(a[n..], v), Rewrite(b, v));
    }
  }

  lemma {:induction false} DanglingSplit(a: Args)
    requires Dangling(a)
    ensures a != [] && a[|a| - 1] == "-boot" && !Dangling(a[..|a| - 1])
  {
    var n := |a| - 1;
    if a[0] == "-boot" && n > 0 {
      DanglingSplit(a[2..]);
      assert a[..n][2..] == a[2..][..n - 2];
    } else if a[0] != "-boot" {
      DanglingSplit(a[1..]);
      assert a[..n][1..] == a[1..][..n - 1];
    }
  }

  /** A dangling "-boot" takes the first token appended to it for its value. */
  lemma RewriteSwallows(a: Args, b: Args, v: string)
    requires b != [] && Dangling(a)
    ensures a != [] && Paired(a + b)
    ensures Rewrite(a + b, v) == Rewrite(a[..|a| - 1], v) + (["-boot", v] + Rewrite(b[1..], v))
  {
    DanglingSplit(a);
    var p, c := a[..|a| - 1], ["-boot"] + b;
    assert a + b == p + c;
    RewriteAppend(p, c, v);
    assert c[2..] == b[1..];
    PairedIff(a + b);
    assert (a + b)[|p|] == "-boot";
  }

  lemma {:induction false} RewriteTokens(args: Args, v: string)
    ensures forall x :: x in Rewrite(args, v) ==> x in args || x == "-boot" || x == v
    decreases |args|
  {
    if args == [] {
    } else if args[0] == "-boot" && |args| > 1 {
      RewriteTokens(args[2..], v);
    } else {
      RewriteTokens(args[1..], v);
    }
  }

  /** Exactly one "-qmp", followed by the socket. */
  ghost predicate QmpIntact(args: Args, value: string) {
    exists i: nat :: OnlyQmpAt(args, i, value)
  }

  ghost predicate OnlyQmpAt(args: Args, i: nat, value: string) {
    && i + 1 < |args| && args[i] == "-qmp" && args[i + 1] == value
    && forall k :: 0 <= k < |args| && k != i ==> args[k] != "-qmp"
  }

  lemma {:induction false} MissingTokens(args: Args, defaults: seq<(string, string)>)
    requires forall d :: d in defaults ==> d.0 != "-qmp" && d.1 != "-qmp"
    ensures "-qmp" !in Missing(args, defaults)
  {
    if defaults != [] {
      MissingTokens(args, defaults[1..]);
      assert defaults[0] in defaults;
    }
  }

  lemma InjectedTokens(opts: BuildOptions)
    requires SerialArgs(opts).Ok?
    ensures var b := Injected(opts, SerialArgs(opts).value);
      && |b| >= 4 && b[0] == "-qmp" && b[1] == QmpValue(opts)
      && "-qmp" !in b[1..] && "-boot" !in b
  {
    var b := Injected(opts, SerialArgs(opts).value);
    assert QmpValue(opts)[0] == 'u';
    if opts.serialAddr != "" {
      var (host, port) := CutColon(opts.serialAddr).value;
      assert Chardev(host, port, opts.serialLogFile)[0] == 's';
    }
  }

  lemma QmpAt(pre: Args, value: string, post: Args)
    requires "-qmp" !in pre && "-qmp" !in post && value != "-qmp"
    ensures QmpIntact(pre + ["-qmp", value] + post, value)
  {
    var r := pre + ["-qmp", value] + post;
    assert r[|pre|] == "-qmp" && r[|pre| + 1] == value;
    forall k | 0 <= k < |r| && k != |pre| ensures r[k] != "-qmp" {
      if k < |pre| {
        assert r[k] in pre;
      } else if k > |pre| + 1 {
        assert r[k] == post[k - |pre| - 2];
      }
    }
    assert OnlyQmpAt(r, |pre|, value);
  }

  lemma SwallowedQmp(a: Args, b: Args, v: string)
    requires Dangling(a) && "-qmp" !in a && v != "-qmp"
    requires |b| >= 2 && b[0] == "-qmp" && "-qmp" !in b[1..] && "-boot" !in b
    ensures "-qmp" !in OverrideWith(a + b, v)
  {
    RewriteSwallows(a, b, v);
    var kept := a[..|a| - 1];
    RewriteTokens(kept, v);
    NoBootAppend(b[1..], [], v);
    assert b[1..] + [] == b[1..];
    assert OverrideWith(a + b, v) == Rewrite(kept, v) + (["-boot", v] + b[1..]);
  }

  lemma PairFirst(a: Args, b: Args, tail: Args)
    requires |b| >= 2
    ensures a + b + tail == a + [b[0], b[1]] + (b[2..] + tail)
  {
    assert b == [b[0], b[1]] + b[2..];
  }

  lemma KeptQmp(a: Args, b: Args, v: string)
    requires !Dangling(a) && "-qmp" !in a && v != "-qmp"
    requires |b| >= 2 && b[0] == "-qmp" && "-qmp" !in b[1..] && "-boot" !in b
    ensures QmpIntact(OverrideWith(a + b, v), b[1])
  {
    var tail := if Paired(a + b) then [] else ["-boot", v];
    RewriteAppend(a, b, v);
    RewriteTokens(a, v);
    NoBootAppend(b, [], v);
    assert b + [] == b;
    assert "-qmp" !in b[2..] by {
      assert b[2..] == b[1..][1..];
    }
    assert b[1] == b[1..][0];
    assert "-qmp" !in tail;
    PairFirst(Rewrite(a, v), b, tail);
    assert OverrideWith(a + b, v) == Rewrite(a, v) + b + tail;
    QmpAt(Rewrite(a, v), b[1], b[2..] + tail);
  }

  /** A boot override over a built command line keeps the one injected -qmp pair exactly when the
      user's arguments, with the defaults, do not end in a "-boot" that would swallow it. */
  lemma OverrideKeepsQmpIff(userArgs: Args, opts: BuildOptions, v: string)
    requires CommandLine(userArgs, opts).Ok? && v != "-qmp"
    ensures QmpIntact(OverrideWith(CommandLine(userArgs, opts).value, v), QmpValue(opts))
       <==> !Dangling(Defaulted(userArgs))
  {
    var a := Defaulted(userArgs);
    var b := Injected(opts, SerialArgs(opts).value);
    InjectedTokens(opts);
    NoQmpInUserArgs(userArgs);
    if Dangling(a) {
      SwallowedQmp(a, b, v);
    } else {
      KeptQmp(a, b, v);
    }
  }

  lemma NoQmpInUserArgs(userArgs: Args)
    requires FirstError(userArgs).None?
    ensures "-qmp" !in Defaulted(userArgs)
  {
    AcceptedHasNoErrors(userArgs, 0);
    MissingTokens(userArgs, DEFAULTS);
    forall i | 0 <= i < |userArgs| ensures userArgs[i] != "-qmp" {
      assert ErrorAt(userArgs, i).None?;
    }
  }

  /** A built command line never ends in "-boot", so over it the last override always wins. */
  lemma LastOverrideWinsOnBuilt(userArgs: Args, opts: BuildOptions, t1: string, t2: string)
    requires CommandLine(userArgs, opts).Ok? && BootValue(t1).Some? && BootValue(t2).Some?
    ensures var args := CommandLine(userArgs, opts).value;
      Override(Override(args, t1), t2) == Override(args, t2)
  {
    var args := CommandLine(userArgs, opts).value;
    InjectedTokens(opts);
    var b := Injected(opts, SerialArgs(opts).value);
    assert args[|args| - 1] == b[|b| - 1];
    BootValuesAreOptions(t1);
    BootValuesAreOptions(t2);
    LastOverrideWinsIff(args, BootValue(t1).value, BootValue(t2).value);
  }

  // ----- tokens -----

  /** The boot override of each target, and of none. */
  lemma BootTargets(args: Args, target: string)
    ensures target == "Pxe" ==> Override(args, target) == OverrideWith(args, "n")
    ensures target == "Hdd" ==> Override(args, target) == OverrideWith(args, "c")
    ensures target == "Cd" ==> Override(args, target) == OverrideWith(args, "d")
    ensures target == "BiosSetup" ==> Override(args, target) == OverrideWith(args, "menu=on")
    ensures target !in {"Pxe", "Hdd", "Cd", "BiosSetup"} ==> Override(args, target) == args
  {
  }

  /** Arguments are accepted exactly when none is "-qmp" or "-daemonize", "-serial" stands only at
      the end, and no "-chardev" defines serial0 and no "-monitor" takes stdio. */
  lemma AcceptedIff(args: Args)
    ensures FirstError(args).None? <==>
      && "-qmp" !in args && "-daemonize" !in args
      && (forall i :: 0 <= i < |args| - 1 ==>
            && args[i] != "-serial"
            && !(args[i] == "-chardev" && Contains(args[i + 1], "id=serial0"))
            && !(args[i] == "-monitor" && args[i + 1] == "stdio"))
  {
    if FirstError(args).None? {
      AcceptedHasNoErrors(args, 0);
      forall i | 0 <= i < |args| ensures args[i] != "-qmp" && args[i] != "-daemonize" {
        assert ErrorAt(args, i).None?;
      }
      forall i | 0 <= i < |args| - 1
        ensures args[i] != "-serial" && !(args[i] == "-chardev" && Contains(args[i + 1], "id=serial0"))
                && !(args[i] == "-monitor" && args[i + 1] == "stdio")
      {
        assert ErrorAt(args, i).None?;
      }
    } else if forall i :: 0 <= i < |args| ==> ErrorAt(args, i).None? {
      FirstErrorNone(args);
    }
  }

  /** strings.Cut: before and after the first colon, if there is one. */
  lemma {:induction false} CutColonSplits(s: string)
    ensures CutColon(s).None? <==> ':' !in s
    ensures CutColon(s).Some? ==>
      var (host, port) := CutColon(s).value;
      s == host + ":" + port && ':' !in host
  {
    if s != [] && s[0] != ':' {
      CutColonSplits(s[1..]);
      assert s == [s[0]] + s[1..];
    } else if s != [] {
      assert s == "" + ":" + s[1..];
    }
  }

  /** What a built command line adds: the control socket, no display, and the serial port over a
      socket at host and port, logged to a file if one is given; an address without a colon is an
      error. */
  lemma BuiltCommandLine(userArgs: Args, qmpSocketPath: string, host: string, port: string, logFile: string)
    requires FirstError(userArgs).None? && ':' !in host
    ensures CommandLine(userArgs, BuildOptions(qmpSocketPath, "", logFile)) ==
      Ok(Defaulted(userArgs) + ["-qmp", "unix:" + qmpSocketPath + ",server,nowait", "-display", "none"])
    ensures CommandLine(userArgs, BuildOptions(qmpSocketPath, host + ":" + port, logFile)) ==
      Ok(Defaulted(userArgs) + ["-qmp", "unix:" + qmpSocketPath + ",server,nowait", "-display", "none",
         "-chardev", "socket,id=serial0,host=" + host + ",port=" + port + ",server=on,wait=off"
                     + (if logFile == "" then "" else ",logfile=" + logFile + ",logappend=on"),
         "-serial", "chardev:serial0"])
    ensures host != "" ==> CommandLine(userArgs, BuildOptions(qmpSocketPath, host, logFile)) == Err(BadSerialAddress)
  {
    var addr := host + ":" + port;
    CutColonSplits(addr);
    CutColonSplits(host);
    assert addr[|host|] == ':';
    CutAt(addr, host, port);
    var opts := BuildOptions(qmpSocketPath, addr, logFile);
    var qmp := ["-qmp", QmpValue(opts), "-display", "none"];
    assert qmp + [] == qmp;
    var serial := ["-chardev", Chardev(host, port, logFile), "-serial", "chardev:serial0"];
    assert SerialArgs(opts) == Ok(serial);
    assert Injected(opts, serial) == qmp + serial
      == ["-qmp", QmpValue(opts), "-display", "none", "-chardev", Chardev(host, port, logFile), "-serial", "chardev:serial0"];
  }

  lemma CutAt(addr: string, host: string, port: string)
    requires addr == host + ":" + port && ':' !in host
    ensures CutColon(addr) == Some((host, port))
  {
    CutColonSplits(addr);
    assert addr[|host|] == ':' && addr[|host|] in addr;
    var (h, p) := CutColon(addr).value;
    assert addr[|h|] == ':';
    assert forall i :: 0 <= i < |host| ==> addr[i] == host[i] && host[i] in host;
    assert forall i :: 0 <= i < |h| ==> addr[i] == h[i] && h[i] in h;
    assert |h| == |host|;
    assert h == addr[..|host|] == host;
    assert p == addr[|host| + 1..] == port;
  }

  lemma MissingCons(args: Args, d: (string, string), rest: seq<(string, string)>)
    ensures Missing(args, [d] + rest) == (if d.0 in args then [] else [d.0, d.1]) + Missing(args, rest)
  {
    assert ([d] + rest)[1..] == rest;
  }

  /** The defaults: machine, memory, processors and display, each only if its flag is absent. */
  lemma DefaultTokens(args: Args)
    ensures Defaulted(args) == args
      + (if "-machine" in args then [] else ["-machine", "q35"])
      + (if "-m" in args then [] else ["-m", "2048"])
      + (if "-smp" in args then [] else ["-smp", "2"])
      + (if "-vga" in args then [] else ["-vga", "std"])
  {
    var d3: seq<(string, string)> := [("-vga", "std")];
    var d2 := [("-smp", "2")] + d3;
    var d1 := [("-m", "2048")] + d2;
    assert DEFAULTS == [("-machine", "q35")] + d1;
    assert d3 == [("-vga", "std")] + [];
    MissingCons(args, ("-machine", "q35"), d1);
    MissingCons(args, ("-m", "2048"), d2);
    MissingCons(args, ("-smp", "2"), d3);
    MissingCons(args, ("-vga", "std"), []);
  }
}
