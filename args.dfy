/**
  The CLI's argument parser: cli/src/core_definition/args.rs and its earlier copy
  cli/src/cmd/args.rs, which share `ParsedArgs`, `add_flag`, `parse_flag` and the parsing
  loop (`parse_from_iter` in the first, `parse` over the process arguments in the second).

  An argument that does not start with `-` is positional. Any other argument is a flag: the
  text before its first `=` must be a registered spelling (`--name` or `-short`), and the
  text between its first and second `=` is its value; anything after a second `=` is
  dropped. The first bad flag makes the whole parse fail.
*/
module Args {
  import opened Wrappers
  import opened RustText

  /** `CommandFlag`: a flag's long name, optional short name, help text and whether it takes a value. */
  datatype CommandFlag = CommandFlag(
    name: string,
    shortName: Option<string>,
    description: string,
    hasValue: bool)

  /** `ParsedArgs`: the positional arguments in order, and each flag's value under its long name. */
  datatype ParsedArgs = ParsedArgs(args: seq<string>, flags: map<string, string>) {

    /** `ParsedArgs::get`: the positional argument at `idx`, if there is one. */
    function Get(idx: nat): (r: Option<string>)
      ensures r.Some? <==> idx < |args|
      ensures r.Some? ==> r.value == args[idx]
    {
      if idx < |args| then Some(args[idx]) else None
    }
  }

  /** Why a flag was refused. */
  datatype ArgError =
    | UnknownFlag(prefix: string)
    | ValueRequired(flagName: string)
    | ValueNotAllowed(flagName: string)

  /** The text the parser reports for each refusal. */
  function Message(e: ArgError): string {
    match e
    case UnknownFlag(prefix) => "Unknown flag: " + prefix
    case ValueRequired(name) => "Flag " + name + " requires value"
    case ValueNotAllowed(name) => "Flag " + name + " does not require value"
  }

  /** The parser's table from a flag's spellings to the flag. */
  type Registry = map<string, CommandFlag>

  function LongSpelling(flag: CommandFlag): string {
    "--" + flag.name
  }

  /** The spellings `add_flag` registers for a flag: `--name`, and `-short` when there is a short name. */
  function Spellings(flag: CommandFlag): set<string> {
    {LongSpelling(flag)} + if flag.shortName.Some? then {"-" + flag.shortName.value} else {}
  }

  /**
    What `add_flag` does to the table: both spellings of the flag now lead to it, and every
    other spelling keeps its entry.
  */
  function Register(registry: Registry, flag: CommandFlag): (r: Registry)
    ensures r.Keys == registry.Keys + Spellings(flag)
    ensures forall k :: k in Spellings(flag) ==> r[k] == flag
    ensures forall k :: k in registry && k !in Spellings(flag) ==> r[k] == registry[k]
  {
    var withLong := registry[LongSpelling(flag) := flag];
    if flag.shortName.Some? then withLong["-" + flag.shortName.value := flag] else withLong
  }

  predicate StartsWithDash(arg: string) {
    |arg| > 0 && arg[0] == '-'
  }

  /**
    `parse_flag`: `Ok(None)` for a positional argument; otherwise the flag's long name and
    value, or the reason it is refused.
  */
  function ParseFlag(registry: Registry, arg: string): (r: Result<Option<(string, string)>, ArgError>)
    ensures r == Ok(None) <==> !StartsWithDash(arg)
    ensures r.Ok? && r.value.Some? ==> exists k :: k in registry && registry[k].name == r.value.value.0
  {
    if !StartsWithDash(arg) then Ok(None)
    else
      var pieces := Split(arg, '=');
      var prefix := pieces[0];
      var value := if |pieces| > 1 then Some(pieces[1]) else None;
      if prefix !in registry then Err(UnknownFlag(prefix))
      else
        var flag := registry[prefix];
        if flag.hasValue != value.Some? then
          Err(if flag.hasValue then ValueRequired(flag.name) else ValueNotAllowed(flag.name))
        else
          Ok(Some((flag.name, if value.Some? then value.value else "")))
  }

  /**
    A flag written `prefix=value` (perhaps followed by `=` and more text) is looked up by
    `prefix` and carries exactly `value`; a registered flag that takes no value refuses it.
  */
  lemma ParseFlagWithValue(registry: Registry, prefix: string, value: string, rest: string)
    requires StartsWithDash(prefix) && '=' !in prefix && '=' !in value
    requires rest == [] || rest[0] == '='
    ensures var r := ParseFlag(registry, prefix + "=" + value + rest);
      && (prefix !in registry ==> r == Err(UnknownFlag(prefix)))
      && (prefix in registry && registry[prefix].hasValue ==> r == Ok(Some((registry[prefix].name, value))))
      && (prefix in registry && !registry[prefix].hasValue ==> r == Err(ValueNotAllowed(registry[prefix].name)))
  {
    var b := value + rest;
    var arg := prefix + "=" + b;
    assert prefix + "=" + value + rest == arg;
    assert arg == prefix + ['='] + b;
    assert arg[..|prefix|] == prefix && arg[|prefix|] == '=';
    assert arg[0] == prefix[0];
    assert b[..|value|] == value;
    SplitFirstPiece(arg, '=', |prefix|);
    SplitSecondPiece(prefix, '=', b, |value|);
  }

  /**
    A flag written without `=` is looked up as a whole; it is accepted, with the empty value,
    exactly when it is registered and takes no value.
  */
  lemma ParseFlagWithoutValue(registry: Registry, arg: string)
    requires StartsWithDash(arg) && '=' !in arg
    ensures var r := ParseFlag(registry, arg);
      && (arg !in registry ==> r == Err(UnknownFlag(arg)))
      && (arg in registry && registry[arg].hasValue ==> r == Err(ValueRequired(registry[arg].name)))
      && (arg in registry && !registry[arg].hasValue ==> r == Ok(Some((registry[arg].name, ""))))
  {
    SplitWithoutSeparator(arg, '=');
  }

  /**
    The specification of the parsing loop: the arguments are taken in order, positionals
    appended and flags stored, and the first refused flag ends the parse with its error.
  */
  function ParseArgs(registry: Registry, argv: seq<string>): Result<ParsedArgs, ArgError>
    decreases |argv|
  {
    if argv == [] then Ok(ParsedArgs([], map[]))
    else
      match ParseArgs(registry, argv[..|argv| - 1])
      case Err(e) => Err(e)
      case Ok(p) =>
        var arg := argv[|argv| - 1];
        match ParseFlag(registry, arg)
        case Err(e) => Err(e)
        case Ok(None) => Ok(p.(args := p.args + [arg]))
        case Ok(Some((name, value))) => Ok(p.(flags := p.flags[name := value]))
  }

  /** The arguments that do not start with `-`, in their order. */
  function Positionals(argv: seq<string>): seq<string>
    decreases |argv|
  {
    if argv == [] then []
    else
      var last := argv[|argv| - 1];
      Positionals(argv[..|argv| - 1]) + if StartsWithDash(last) then [] else [last]
  }

  /** A successful parse keeps exactly the positional arguments, in input order. */
  lemma {:induction false} ParseArgsPositionals(registry: Registry, argv: seq<string>)
    requires ParseArgs(registry, argv).Ok?
    ensures ParseArgs(registry, argv).value.args == Positionals(argv)
    decreases |argv|
  {
    if argv != [] {
      ParseArgsPositionals(registry, argv[..|argv| - 1]);
    }
  }

  /** Once a prefix of the arguments fails, the whole parse fails with the same error. */
  lemma {:induction false} ParseArgsErrorSticks(registry: Registry, argv: seq<string>, i: nat)
    requires i <= |argv| && ParseArgs(registry, argv[..i]).Err?
    ensures ParseArgs(registry, argv) == ParseArgs(registry, argv[..i])
    decreases |argv|
  {
    if i < |argv| {
      assert argv[..|argv| - 1][..i] == argv[..i];
      ParseArgsErrorSticks(registry, argv[..|argv| - 1], i);
    } else {
      assert argv[..i] == argv;
    }
  }

  /** Every argument accepted: the parse succeeds. */
  lemma {:induction false} ParseArgsSucceeds(registry: Registry, argv: seq<string>)
    requires forall j :: 0 <= j < |argv| ==> ParseFlag(registry, argv[j]).Ok?
    ensures ParseArgs(registry, argv).Ok?
    decreases |argv|
  {
    if argv != [] {
      ParseArgsSucceeds(registry, argv[..|argv| - 1]);
    }
  }

  /** The parse fails with the error of the first refused argument. */
  lemma ParseArgsFirstError(registry: Registry, argv: seq<string>, k: nat)
    requires k < |argv| && ParseFlag(registry, argv[k]).Err?
    requires forall j :: 0 <= j < k ==> ParseFlag(registry, argv[j]).Ok?
    ensures ParseArgs(registry, argv) == Err(ParseFlag(registry, argv[k]).error)
  {
    var pre := argv[..k];
    assert forall j :: 0 <= j < |pre| ==> pre[j] == argv[j];
    ParseArgsSucceeds(registry, pre);
    assert argv[..k + 1][..k] == pre;
    ParseArgsErrorSticks(registry, argv, k + 1);
  }

  /** The argument at `j` is accepted as the flag with long name `name`. */
  predicate SetsFlag(registry: Registry, arg: string, name: string) {
    var r := ParseFlag(registry, arg);
    r.Ok? && r.value.Some? && r.value.value.0 == name
  }

  /**
    A repeated flag keeps its last value: after a successful parse, the flag `name` holds
    the value of the last argument that set it.
  */
  lemma {:induction false} ParseArgsLastFlagWins(registry: Registry, argv: seq<string>, k: nat, name: string)
    requires ParseArgs(registry, argv).Ok?
    requires k < |argv| && SetsFlag(registry, argv[k], name)
    requires forall j :: k < j < |argv| ==> !SetsFlag(registry, argv[j], name)
    ensures name in ParseArgs(registry, argv).value.flags
    ensures ParseArgs(registry, argv).value.flags[name] == ParseFlag(registry, argv[k]).value.value.1
    decreases |argv|
  {
    var n := |argv|;
    if k < n - 1 {
      var pre := argv[..n - 1];
      assert forall j :: 0 <= j < |pre| ==> pre[j] == argv[j];
      ParseArgsLastFlagWins(registry, pre, k, name);
      assert !SetsFlag(registry, argv[n - 1], name);
    }
  }

  /** A flag no argument sets is absent from the result. */
  lemma {:induction false} ParseArgsUnsetFlagAbsent(registry: Registry, argv: seq<string>, name: string)
    requires ParseArgs(registry, argv).Ok?
    requires forall j :: 0 <= j < |argv| ==> !SetsFlag(registry, argv[j], name)
    ensures name !in ParseArgs(registry, argv).value.flags
    decreases |argv|
  {
    var n := |argv|;
    if n > 0 {
      var pre := argv[..n - 1];
      assert forall j :: 0 <= j < |pre| ==> pre[j] == argv[j];
      ParseArgsUnsetFlagAbsent(registry, pre, name);
      assert !SetsFlag(registry, argv[n - 1], name);
    }
  }

  /** `ArgParser`: the table of registered flag spellings, filled by `add_flag`. */
  class ArgParser {
    var flags: Registry

    /** `ArgParser::new`: no flag is registered. */
    constructor ()
      ensures flags == map[]
    {
      flags := map[];
    }

    /** `add_flag`: registers the flag under `--name` and, if it has one, `-short`. */
    method AddFlag(flag: CommandFlag)
      modifies this
      ensures flags == Register(old(flags), flag)
    {
      flags := flags[LongSpelling(flag) := flag];
      if flag.shortName.Some? {
        flags := flags["-" + flag.shortName.value := flag];
      }
    }

    /**
      The parsing loop (`parse_from_iter`, and `parse` over the process arguments): after
      each argument, what has been gathered is the parse of the arguments seen so far.
    */
    method ParseFromIter(argv: seq<string>) returns (r: Result<ParsedArgs, ArgError>)
      ensures r == ParseArgs(flags, argv)
    {
      var args: seq<string> := [];
      var parsedFlags: map<string, string> := map[];
      var i := 0;
      while i < |argv|
        invariant 0 <= i <= |argv|
        invariant ParseArgs(flags, argv[..i]) == Ok(ParsedArgs(args, parsedFlags))
      {
        var arg := argv[i];
        assert argv[..i + 1][..i] == argv[..i] && argv[..i + 1][i] == arg;
        match ParseFlag(flags, arg) {
          case Err(e) =>
            ParseArgsErrorSticks(flags, argv, i + 1);
            return Err(e);
          case Ok(Some((name, value))) =>
            parsedFlags := parsedFlags[name := value];
          case Ok(None) =>
            args := args + [arg];
        }
        i := i + 1;
      }
      assert argv[..i] == argv;
      r := Ok(ParsedArgs(args, parsedFlags));
    }
  }

  const PlayerFlag := CommandFlag("player", Some("p"), "sample flag with value", true)
  const SampleFlag := CommandFlag("sample", Some("s"), "sample flag without value", false)

  /** The table after registering `player` and then `sample`. */
  lemma ExampleRegistry()
    ensures var registry := Register(Register(map[], PlayerFlag), SampleFlag);
      && "--player" in registry && registry["--player"] == PlayerFlag
      && "-s" in registry && registry["-s"] == SampleFlag
  {
    assert LongSpelling(PlayerFlag) == "--player" && LongSpelling(SampleFlag) == "--sample";
    assert "-" + "s" == "-s";
    assert "--player" != "--sample" by { assert "--player"[2] != "--sample"[2]; }
    assert "--player" !in Spellings(SampleFlag);
  }

  /** How the test's two flag arguments are read against that table. */
  lemma ExampleFlags()
    ensures var registry := Register(Register(map[], PlayerFlag), SampleFlag);
      && ParseFlag(registry, "--player=player1") == Ok(Some(("player", "player1")))
      && ParseFlag(registry, "-s") == Ok(Some(("sample", "")))
  {
    var registry := Register(Register(map[], PlayerFlag), SampleFlag);
    ExampleRegistry();
    ParseFlagWithValue(registry, "--player", "player1", "");
    assert "--player=player1" == "--player" + "=" + "player1" + "";
    ParseFlagWithoutValue(registry, "-s");
  }

  /** One more positional argument is appended to the positionals of a successful parse. */
  lemma ParseArgsPositionalStep(registry: Registry, argv: seq<string>, arg: string)
    requires ParseArgs(registry, argv).Ok? && !StartsWithDash(arg)
    ensures var p := ParseArgs(registry, argv).value;
      ParseArgs(registry, argv + [arg]) == Ok(p.(args := p.args + [arg]))
  {
    assert (argv + [arg])[..|argv|] == argv;
  }

  /** One more accepted flag is stored, over any earlier value, in a successful parse. */
  lemma ParseArgsFlagStep(registry: Registry, argv: seq<string>, arg: string, name: string, value: string)
    requires ParseArgs(registry, argv).Ok? && ParseFlag(registry, arg) == Ok(Some((name, value)))
    ensures var p := ParseArgs(registry, argv).value;
      ParseArgs(registry, argv + [arg]) == Ok(p.(flags := p.flags[name := value]))
  {
    assert (argv + [arg])[..|argv|] == argv;
  }

  /** The shape of the test's command line: a positional, two accepted flags, a positional. */
  lemma ParseArgsFourArguments(
    registry: Registry, a0: string, a1: string, a2: string, a3: string,
    n1: string, v1: string, n2: string, v2: string)
    requires !StartsWithDash(a0) && !StartsWithDash(a3)
    requires ParseFlag(registry, a1) == Ok(Some((n1, v1)))
    requires ParseFlag(registry, a2) == Ok(Some((n2, v2)))
    ensures ParseArgs(registry, [a0, a1, a2, a3]) == Ok(ParsedArgs([a0, a3], map[n1 := v1][n2 := v2]))
  {
    var m1: map<string, string> := map[n1 := v1];
    assert [] + [a0] == [a0];
    ParseArgsPositionalStep(registry, [], a0);
    assert ParseArgs(registry, [a0]) == Ok(ParsedArgs([a0], map[]));
    assert [a0] + [a1] == [a0, a1];
    ParseArgsFlagStep(registry, [a0], a1, n1, v1);
    assert ParseArgs(registry, [a0, a1]) == Ok(ParsedArgs([a0], m1));
    assert [a0, a1] + [a2] == [a0, a1, a2];
    ParseArgsFlagStep(registry, [a0, a1], a2, n2, v2);
    assert ParseArgs(registry, [a0, a1, a2]) == Ok(ParsedArgs([a0], m1[n2 := v2]));
    assert [a0, a1, a2] + [a3] == [a0, a1, a2, a3];
    ParseArgsPositionalStep(registry, [a0, a1, a2], a3);
    assert [a0] + [a3] == [a0, a3];
  }

  /**
    The repository's parser test: with `player` (takes a value) and `sample` (takes none)
    registered, the positionals are the program path and `test`, and `player` is `player1`.
  */
  lemma ParseFlagExample()
    ensures var registry := Register(Register(map[], PlayerFlag), SampleFlag);
      ParseArgs(registry, ["/usr/bin/rstroller", "--player=player1", "-s", "test"])
        == Ok(ParsedArgs(["/usr/bin/rstroller", "test"], map["player" := "player1", "sample" := ""]))
  {
    var registry := Register(Register(map[], PlayerFlag), SampleFlag);
    ExampleFlags();
    assert !StartsWithDash("/usr/bin/rstroller") && !StartsWithDash("test");
    ParseArgsFourArguments(registry, "/usr/bin/rstroller", "--player=player1", "-s", "test",
      "player", "player1", "sample", "");
  }
}
