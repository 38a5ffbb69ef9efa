/**
  The command-name table of the earlier CLI (cli/src/cmd/command_name.rs): five commands
  and a lookup from spelling to command that answers with an `Option`.
*/
module CmdCommandNames {
  import opened Wrappers

  datatype CommandName = Help | ListPlayers | Play | Pause | PlayPause

  /** A spelling: a non-empty word of lower-case letters and hyphens. */
  predicate IsSpelling(s: string) {
    s != [] && forall i :: 0 <= i < |s| ==> 'a' <= s[i] <= 'z' || s[i] == '-'
  }

  /** `CommandName::value`: the spelling of a command on the command line. */
  function Value(c: CommandName): (r: string)
    ensures IsSpelling(r)
  {
    match c
    case Help => "help"
    case ListPlayers => "list-players"
    case Play => "play"
    case Pause => "pause"
    case PlayPause => "play-pause"
  }

  /**
    `CommandName::from`: the command spelled exactly `s`, or `None` for every string that
    is no command's spelling.
  */
  function From(s: string): (r: Option<CommandName>)
    ensures r.Some? ==> Value(r.value) == s
    ensures r.None? <==> forall c :: Value(c) != s
  {
    match s
    case "help" => Some(Help)
    case "list-players" => Some(ListPlayers)
    case "play" => Some(Play)
    case "pause" => Some(Pause)
    case "play-pause" => Some(PlayPause)
    case _ => None
  }

  /** `Display`: a command is written as its spelling. */
  function Display(c: CommandName): string {
    Value(c)
  }

  /** Every command reads back from its spelling. */
  lemma FromValue(c: CommandName)
    ensures From(Value(c)) == Some(c)
  {
  }

  /** No two commands share a spelling. */
  lemma ValueInjective(c: CommandName, d: CommandName)
    ensures Value(c) == Value(d) ==> c == d
  {
  }

  /** What `Display` writes reads back as the same command. */
  lemma DisplayRoundTrip(c: CommandName)
    ensures From(Display(c)) == Some(c)
  {
    FromValue(c);
  }
}
