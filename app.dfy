/**
  The CLI application object (cli/src/core_definition/app.rs, and its earlier copy
  cli/src/cmd/app.rs): a builder that collects flags and commands, and `run_cmd`, which
  parses the command line and dispatches on its second positional argument.

  The two copies differ only in how a command name is read from text: the first uses the
  name type's `FromStr`, the second `CommandName::from`. The model is generic in the name
  type `N` and takes that reader as the constant `parseName`.
*/
module CliApp {
  import opened Wrappers
  import opened Args
  import CommandNames
  import CmdCommandNames

  /** Which handler a command runs; what the handler then does is not part of the model. */
  type HandlerId = nat

  /** `Command`: a name, the help texts, and the handler it runs. */
  datatype Command<N> = Command(name: N, description: string, usage: string, handler: HandlerId)

  /** A handler run: which handler, and the parsed arguments it is given. */
  datatype Invocation = Invocation(handler: HandlerId, args: ParsedArgs)

  /**
    What `run_cmd` does: either the parse fails and the process exits with status 1, or it
    returns a command name (perhaps none) after running at most one handler.
  */
  datatype Outcome<N> =
    | ExitOnParseError(error: ArgError)
    | Returned(name: Option<N>, ran: Option<Invocation>)

  /** The parser table after `add_flag` has been called with each flag of `flags`, in order. */
  function RegistryOf(flags: seq<CommandFlag>): Registry
    decreases |flags|
  {
    if flags == [] then map[]
    else Register(RegistryOf(flags[..|flags| - 1]), flags[|flags| - 1])
  }

  /** A spelling is registered exactly when some added flag has it. */
  lemma {:induction false} RegistryOfKeys(flags: seq<CommandFlag>, k: string)
    ensures k in RegistryOf(flags) <==> exists i :: 0 <= i < |flags| && k in Spellings(flags[i])
    decreases |flags|
  {
    if flags != [] {
      var pre := flags[..|flags| - 1];
      RegistryOfKeys(pre, k);
      if k in RegistryOf(flags) && k !in Spellings(flags[|flags| - 1]) {
        var i :| 0 <= i < |pre| && k in Spellings(pre[i]);
        assert flags[i] == pre[i];
      }
      if exists i :: 0 <= i < |flags| && k in Spellings(flags[i]) {
        var i :| 0 <= i < |flags| && k in Spellings(flags[i]);
        if i < |pre| {
          assert pre[i] == flags[i];
        }
      }
    }
  }

  /** A spelling leads to the last added flag that has it. */
  lemma {:induction false} RegistryOfLastWins(flags: seq<CommandFlag>, k: string, i: nat)
    requires i < |flags| && k in Spellings(flags[i])
    requires forall j :: i < j < |flags| ==> k !in Spellings(flags[j])
    ensures k in RegistryOf(flags) && RegistryOf(flags)[k] == flags[i]
    decreases |flags|
  {
    if i < |flags| - 1 {
      var pre := flags[..|flags| - 1];
      assert pre[i] == flags[i];
      RegistryOfLastWins(pre, k, i);
    }
  }

  /**
    The dispatch decision of `run_cmd` once the arguments are parsed: no second positional
    argument, or one that is not a command name, returns `None`; a name with no command
    returns it without running anything; a name with a command runs that command's handler,
    once, on the parsed arguments, and returns the name.
  */
  function Dispatch<N(==)>(
    commands: map<N, Command<N>>,
    parseName: string -> Option<N>,
    parsed: Result<ParsedArgs, ArgError>): (o: Outcome<N>)
    ensures o.ExitOnParseError? <==> parsed.Err?
    ensures o.ExitOnParseError? ==> o.error == parsed.error
    ensures o.Returned? ==>
      (o.name.Some? <==> |parsed.value.args| >= 2 && parseName(parsed.value.args[1]).Some?)
    ensures o.Returned? && o.name.Some? ==> o.name == parseName(parsed.value.args[1])
    ensures o.Returned? && o.name.Some? ==> (o.ran.Some? <==> o.name.value in commands)
    ensures o.Returned? && o.ran.Some? ==>
      && o.name.Some? && o.name.value in commands
      && o.ran.value == Invocation(commands[o.name.value].handler, parsed.value)
  {
    match parsed
    case Err(e) => ExitOnParseError(e)
    case Ok(args) =>
      match args.Get(1)
      case None => Returned(None, None)
      case Some(arg) =>
        match parseName(arg)
        case None => Returned(None, None)
        case Some(n) =>
          if n in commands then Returned(Some(n), Some(Invocation(commands[n].handler, args)))
          else Returned(Some(n), None)
  }

  /**
    The candidate command name is the second argument that does not start with `-`: when the
    command line parses, `run_cmd` returns a name exactly when there is such an argument and
    it reads as a name, and then it returns that name.
  */
  lemma DispatchReadsSecondPositional<N>(
    commands: map<N, Command<N>>,
    parseName: string -> Option<N>,
    registry: Registry,
    argv: seq<string>)
    requires ParseArgs(registry, argv).Ok?
    ensures var o := Dispatch(commands, parseName, ParseArgs(registry, argv));
      var ps := Positionals(argv);
      && o.Returned?
      && (o.name.Some? <==> |ps| >= 2 && parseName(ps[1]).Some?)
      && (o.name.Some? ==> o.name == parseName(ps[1]))
  {
    ParseArgsPositionals(registry, argv);
  }

  /**
    The registered commands decide only whether a handler runs: under any two command
    tables, the same parse exits or returns the same name, and the handler runs under each
    table exactly when that table holds the name.
  */
  lemma DispatchNameIgnoresRegistry<N>(
    commands: map<N, Command<N>>,
    others: map<N, Command<N>>,
    parseName: string -> Option<N>,
    parsed: Result<ParsedArgs, ArgError>)
    ensures var o := Dispatch(commands, parseName, parsed);
      var p := Dispatch(others, parseName, parsed);
      && (o.ExitOnParseError? <==> p.ExitOnParseError?)
      && (o.Returned? ==> o.name == p.name)
      && (o.Returned? && o.name.Some? ==>
            (o.ran.Some? <==> o.name.value in commands) && (p.ran.Some? <==> o.name.value in others))
  {
  }

  /** `App`: its name and description, the flags and commands added so far, and its parser. */
  class App<N(==)> {
    const name: string
    const description: string
    /** How the second positional argument is read as a command name. */
    const parseName: string -> Option<N>
    const argParser: ArgParser
    var commands: map<N, Command<N>>
    var flags: seq<CommandFlag>

    /**
      The builder's invariant: the parser knows exactly the flags in `flags`, added in that
      order, and every command is stored under its own name.
    */
    predicate Valid()
      reads this, argParser
    {
      && argParser.flags == RegistryOf(flags)
      && forall n :: n in commands ==> commands[n].name == n
    }

    /** `App::new`: no commands, no flags, and a fresh parser with an empty table. */
    constructor (name: string, description: string, parseName: string -> Option<N>)
      ensures this.name == name && this.description == description
      ensures this.parseName == parseName
      ensures commands == map[] && flags == []
      ensures fresh(argParser) && argParser.flags == map[]
      ensures Valid()
    {
      this.name := name;
      this.description := description;
      this.parseName := parseName;
      this.argParser := new ArgParser();
      commands := map[];
      flags := [];
    }

    /** `add_flag`: appends the flag to the list and registers its spellings with the parser. */
    method AddFlag(flag: CommandFlag)
      modifies this, argParser
      ensures flags == old(flags) + [flag]
      ensures argParser.flags == Register(old(argParser.flags), flag)
      ensures commands == old(commands)
      ensures old(Valid()) ==> Valid()
    {
      flags := flags + [flag];
      argParser.AddFlag(flag);
      assert flags[..|flags| - 1] == old(flags);
    }

    /** `add_command`: stores the command under its name, replacing any command stored there. */
    method AddCommand(cmd: Command<N>)
      modifies this
      ensures commands == old(commands)[cmd.name := cmd]
      ensures flags == old(flags)
      ensures old(Valid()) ==> Valid()
    {
      commands := commands[cmd.name := cmd];
    }

    /**
      `run_cmd` on the command line `argv`: parses it with the app's parser and dispatches.
      A parse error ends the process; otherwise the second positional argument, read as a
      command name, selects at most one handler to run.
    */
    method RunCmd(argv: seq<string>) returns (outcome: Outcome<N>)
      requires Valid()
      ensures outcome == Dispatch(commands, parseName, ParseArgs(RegistryOf(flags), argv))
      ensures outcome.ExitOnParseError? <==> ParseArgs(RegistryOf(flags), argv).Err?
      ensures outcome.ExitOnParseError? ==> outcome.error == ParseArgs(RegistryOf(flags), argv).error
      ensures outcome.Returned? ==>
        var ps := Positionals(argv);
        && (outcome.name.Some? <==> |ps| >= 2 && parseName(ps[1]).Some?)
        && (outcome.name.Some? ==> outcome.name == parseName(ps[1]))
      ensures outcome.Returned? && outcome.ran.Some? ==>
        && outcome.name.Some? && outcome.name.value in commands
        && commands[outcome.name.value].name == outcome.name.value
        && outcome.ran.value.handler == commands[outcome.name.value].handler
    {
      if ParseArgs(RegistryOf(flags), argv).Ok? {
        DispatchReadsSecondPositional(commands, parseName, RegistryOf(flags), argv);
      }
      var parsed := argParser.ParseFromIter(argv);
      if parsed.Err? {
        return ExitOnParseError(parsed.error);
      }
      var args := parsed.value;
      var arg := args.Get(1);
      if arg.None? {
        return Returned(None, None);
      }
      var cmdName := parseName(arg.value);
      if cmdName.None? {
        return Returned(None, None);
      }
      var n := cmdName.value;
      if n !in commands {
        return Returned(Some(n), None);
      }
      return Returned(Some(n), Some(Invocation(commands[n].handler, args)));
    }
  }

  /** The name reader of cli/src/core_definition/app.rs: `FromStr`, with its error dropped by `ok()`. */
  function ParseCommandName(s: string): (r: Option<CommandNames.CommandName>)
    ensures r.Some? <==> exists c :: CommandNames.Value(c) == s
    ensures r.Some? ==> CommandNames.Value(r.value) == s
  {
    match CommandNames.FromStr(s)
    case Ok(c) => Some(c)
    case Err(_) => None
  }

  /**
    For the application of cli/src/core_definition/app.rs: when the command line parses and
    its second positional argument is the text of command `c`, `run_cmd` returns `c`, and
    runs `c`'s handler exactly when `c` has been added.
  */
  lemma CoreDispatchByValue(
    commands: map<CommandNames.CommandName, Command<CommandNames.CommandName>>,
    registry: Registry,
    argv: seq<string>,
    c: CommandNames.CommandName)
    requires ParseArgs(registry, argv).Ok?
    requires |Positionals(argv)| >= 2 && Positionals(argv)[1] == CommandNames.Value(c)
    ensures var o := Dispatch(commands, ParseCommandName, ParseArgs(registry, argv));
      && o == Returned(Some(c), o.ran)
      && (o.ran.Some? <==> c in commands)
  {
    CommandNames.FromStrValue(c);
    DispatchReadsSecondPositional(commands, ParseCommandName, registry, argv);
  }

  /**
    For the application of cli/src/cmd/app.rs: when the command line parses, `run_cmd`
    returns a name exactly when the second positional argument is the text of one of the
    five commands, and then it returns that command.
  */
  lemma CmdDispatchByValue(
    commands: map<CmdCommandNames.CommandName, Command<CmdCommandNames.CommandName>>,
    registry: Registry,
    argv: seq<string>)
    requires ParseArgs(registry, argv).Ok?
    ensures var o := Dispatch(commands, CmdCommandNames.From, ParseArgs(registry, argv));
      var ps := Positionals(argv);
      && o.Returned?
      && (o.name.Some? <==> |ps| >= 2 && exists c :: CmdCommandNames.Value(c) == ps[1])
      && (o.name.Some? ==> CmdCommandNames.Value(o.name.value) == ps[1])
  {
    DispatchReadsSecondPositional(commands, CmdCommandNames.From, registry, argv);
    var ps := Positionals(argv);
    if |ps| >= 2 && exists c :: CmdCommandNames.Value(c) == ps[1] {
      var c :| CmdCommandNames.Value(c) == ps[1];
      CmdCommandNames.FromValue(c);
    }
  }
}
