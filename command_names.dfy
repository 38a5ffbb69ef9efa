/**
  The command-name table of the current CLI (cli/src/cmds/names.rs): nineteen commands,
  each with one spelling, and the parser that reads a spelling back.
*/
module CommandNames {
  import opened Wrappers

  datatype CommandName =
    | Help | List | Status | SetPlayer | ScrollPlayer | Play | Pause | PlayPause | Stop
    | Next | Previous | Raise | Volume | Metadata | Position | Loop | Shuffle | Show | Waybar

  /** A spelling: a non-empty word of lower-case letters and hyphens. */
  predicate IsSpelling(s: string) {
    s != [] && forall i :: 0 <= i < |s| ==> 'a' <= s[i] <= 'z' || s[i] == '-'
  }

  /** `CommandName::value`: the spelling of a command on the command line. */
  function Value(c: CommandName): (r: string)
    ensures IsSpelling(r)
  {
    match c
    case Help => "help"
    case List => "list"
    case Status => "status"
    case SetPlayer => "set-player"
    case ScrollPlayer => "scroll-player"
    case Play => "play"
    case Pause => "pause"
    case PlayPause => "play-pause"
    case Stop => "stop"
    case Next => "next"
    case Previous => "previous"
    case Raise => "raise"
    case Volume => "volume"
    case Metadata => "metadata"
    case Position => "position"
    case Loop => "loop"
    case Shuffle => "shuffle"
    case Show => "show"
    case Waybar => "waybar"
  }

  /**
    `FromStr::from_str`: the command spelled exactly `s`. A success names the command whose
    spelling is `s`, and every string that is no command's spelling (a different case
    included) is rejected.
  */
  function FromStr(s: string): (r: Result<CommandName, ()>)
    ensures r.Ok? ==> Value(r.value) == s
    ensures r.Err? <==> forall c :: Value(c) != s
  {
    match s
    case "help" => Ok(Help)
    case "list" => Ok(List)
    case "status" => Ok(Status)
    case "play" => Ok(Play)
    case "pause" => Ok(Pause)
    case "play-pause" => Ok(PlayPause)
    case "scroll-player" => Ok(ScrollPlayer)
    case "stop" => Ok(Stop)
    case "next" => Ok(Next)
    case "previous" => Ok(Previous)
    case "set-player" => Ok(SetPlayer)
    case "raise" => Ok(Raise)
    case "position" => Ok(Position)
    case "volume" => Ok(Volume)
    case "metadata" => Ok(Metadata)
    case "waybar" => Ok(Waybar)
    case "loop" => Ok(Loop)
    case "shuffle" => Ok(Shuffle)
    case "show" => Ok(Show)
    case _ => Err(())
  }

  /** `Display`: a command is written as its spelling. */
  function Display(c: CommandName): string {
    Value(c)
  }

  /** Every command reads back from its spelling. */
  lemma FromStrValue(c: CommandName)
    ensures FromStr(Value(c)) == Ok(c)
  {
  }

  /** No two commands share a spelling. */
  lemma ValueInjective(c: CommandName, d: CommandName)
    ensures Value(c) == Value(d) ==> c == d
  {
  }

  /** A text with an upper-case letter is no command's spelling, so `FromStr` rejects it. */
  lemma FromStrRejectsUpperCase(s: string, k: nat)
    requires k < |s| && 'A' <= s[k] <= 'Z'
    ensures FromStr(s).Err?
  {
  }

  /** What `Display` writes reads back as the same command. */
  lemma DisplayRoundTrip(c: CommandName)
    ensures FromStr(Display(c)) == Ok(c)
  {
    FromStrValue(c);
  }
}
