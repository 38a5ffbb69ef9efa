/**
  The player-selection policy shared by common/src/player/preferred/mod.rs,
  common/src/player/mod.rs and common/src/player/preferred_player.rs (three copies of the
  same six functions).

  The preference is a one-line record file holding a player's bus name. The file and the
  player enumeration are inputs: `RecordFile` is what reading the file finds, and
  `Enumeration` is the list of players the MPRIS finder reports, or its failure.
*/
module PreferredPlayer {
  import opened Wrappers
  import opened RustText
  import opened Mpris

  /** What reading the record file finds: no file, its text, or another read error. */
  datatype RecordFile = Missing | Holds(content: string) | Unreadable(reason: string)

  /** The players on the bus, in the order the finder reports them, or the finder's failure. */
  datatype Enumeration = Listed(players: seq<Player>) | ListFailed

  /** What `fs::write` does with the record: it replaces its text, or fails. */
  datatype WriteOutcome = Written | WriteFailed(reason: string)

  /** The ways a selection fails. */
  datatype SelectError =
    | ReadError(reason: string)
    | WriteError(reason: string)
    | EnumerationError

  /**
    `get_preferred_player_name`: the record's text without surrounding whitespace; no
    preference when there is no file; any other read error is an error.
  */
  function GetPreferredPlayerName(file: RecordFile): (r: Result<Option<string>, SelectError>)
    ensures r.Err? <==> file.Unreadable?
    ensures r == Ok(None) <==> file.Missing?
    ensures r.Ok? && r.value.Some? ==> r.value.value == Trim(file.content)
    ensures r.Ok? && r.value.Some? ==> |r.value.value| <= |file.content|
    ensures r.Ok? && r.value.Some? && r.value.value != [] ==>
      !IsWhitespace(r.value.value[0]) && !IsWhitespace(r.value.value[|r.value.value| - 1])
  {
    match file
    case Holds(content) => Ok(Some(Trim(content)))
    case Missing => Ok(None)
    case Unreadable(reason) => Err(ReadError(reason))
  }

  /**
    `set_preferred_player_name`: the record now holds exactly `name`; when the write fails
    the error is returned and the record is left as it was.
  */
  function SetPreferredPlayerName(file: RecordFile, name: string, write: WriteOutcome)
    : (r: (Result<(), SelectError>, RecordFile))
    ensures r.0.Ok? <==> write.Written?
    ensures write.Written? ==> r.1 == Holds(name)
    ensures write.WriteFailed? ==> r.1 == file && r.0 == Err(WriteError(write.reason))
  {
    match write
    case Written => (Ok(()), Holds(name))
    case WriteFailed(reason) => (Err(WriteError(reason)), file)
  }

  /** Writing a name and reading it back gives the name without surrounding whitespace. */
  lemma SetThenGet(file: RecordFile, name: string)
    ensures var (_, after) := SetPreferredPlayerName(file, name, Written);
      GetPreferredPlayerName(after) == Ok(Some(Trim(name)))
  {
  }

  /** Writing a name that has no surrounding whitespace reads back as exactly that name. */
  lemma SetThenGetExact(file: RecordFile, name: string)
    requires name != [] ==> !IsWhitespace(name[0]) && !IsWhitespace(name[|name| - 1])
    ensures var (_, after) := SetPreferredPlayerName(file, name, Written);
      GetPreferredPlayerName(after) == Ok(Some(name))
  {
    TrimUnchangedWithoutSurroundingSpace(name);
  }

  /**
    An empty (or blank) record is a preference for the empty bus name, not the absence of a
    preference.
  */
  lemma EmptyRecordPrefersEmptyName(content: string)
    requires forall i :: 0 <= i < |content| ==> IsWhitespace(content[i])
    ensures GetPreferredPlayerName(Holds(content)) == Ok(Some(""))
  {
  }

  /** `find(|p| p.bus_name() == name)`: the first player, in order, with exactly that bus name. */
  function FirstWithBusName(players: seq<Player>, name: string): (r: Option<Player>)
    ensures r.None? <==> forall i :: 0 <= i < |players| ==> players[i].busName != name
    ensures r.Some? ==> r.value.busName == name
    ensures r.Some? ==> exists i ::
      && 0 <= i < |players| && players[i] == r.value
      && (forall j :: 0 <= j < i ==> players[j].busName != name)
    decreases |players|
  {
    if players == [] then None
    else if players[0].busName == name then Some(players[0])
    else
      var r := FirstWithBusName(players[1..], name);
      assert forall i :: 1 <= i < |players| ==> players[i] == players[1..][i - 1];
      if r.None? then r
      else
        var i :| 0 <= i < |players[1..]| && players[1..][i] == r.value
          && forall j :: 0 <= j < i ==> players[1..][j].busName != name;
        assert players[i + 1] == r.value;
        assert forall j :: 0 <= j < i + 1 ==> players[j].busName != name by {
          forall j | 0 <= j < i + 1 ensures players[j].busName != name {
            if j > 0 {
              assert players[j] == players[1..][j - 1];
            }
          }
        }
        r
  }

  /**
    `get_player_by_bus_name`: the first enumerated player whose bus name is exactly `name`,
    or none; a failed enumeration is an error.
  */
  function GetPlayerByBusName(e: Enumeration, name: string): (r: Result<Option<Player>, SelectError>)
    ensures r.Err? <==> e.ListFailed?
    ensures r.Ok? ==> r.value == FirstWithBusName(e.players, name)
  {
    match e
    case ListFailed => Err(EnumerationError)
    case Listed(players) => Ok(FirstWithBusName(players, name))
  }

  /** `get_first_player`: the first enumerated player, or none when there is none. */
  function GetFirstPlayer(e: Enumeration): (r: Result<Option<Player>, SelectError>)
    ensures r.Err? <==> e.ListFailed?
    ensures r.Ok? ==> (r.value.None? <==> e.players == [])
    ensures r.Ok? && r.value.Some? ==> r.value.value == e.players[0]
  {
    match e
    case ListFailed => Err(EnumerationError)
    case Listed(players) => Ok(if players == [] then None else Some(players[0]))
  }

  /**
    `get_preferred_player`: with a preference, the player with exactly that bus name and no
    other; without one, the first player. Errors of either step are returned.
  */
  function GetPreferredPlayer(file: RecordFile, e: Enumeration): (r: Result<Option<Player>, SelectError>)
    ensures file.Unreadable? ==> r == Err(ReadError(file.reason))
    ensures file.Missing? ==> r == GetFirstPlayer(e)
    ensures file.Holds? ==> r == GetPlayerByBusName(e, Trim(file.content))
  {
    match GetPreferredPlayerName(file)
    case Err(err) => Err(err)
    case Ok(Some(name)) => GetPlayerByBusName(e, name)
    case Ok(None) => GetFirstPlayer(e)
  }

  /** `get_preferred_player_or_first`: as `get_preferred_player`, but no player found falls back to the first. */
  function GetPreferredPlayerOrFirst(file: RecordFile, e: Enumeration): (r: Result<Option<Player>, SelectError>)
    ensures GetPreferredPlayer(file, e) == Ok(None) ==> r == GetFirstPlayer(e)
    ensures GetPreferredPlayer(file, e) != Ok(None) ==> r == GetPreferredPlayer(file, e)
  {
    match GetPreferredPlayer(file, e)
    case Ok(None) => GetFirstPlayer(e)
    case other => other
  }

  /**
    Strict match: with a preference that no enumerated player has as its bus name,
    `get_preferred_player` finds nothing, however many other players there are.
  */
  lemma StrictMatchNoFallback(content: string, players: seq<Player>)
    requires forall i :: 0 <= i < |players| ==> players[i].busName != Trim(content)
    ensures GetPreferredPlayer(Holds(content), Listed(players)) == Ok(None)
  {
  }

  /** A preferred player that is found is one of the enumerated players, with the preferred bus name. */
  lemma PreferredIsMember(content: string, players: seq<Player>)
    ensures var r := GetPreferredPlayer(Holds(content), Listed(players));
      r.Ok? && r.value.Some? ==> r.value.value in players && r.value.value.busName == Trim(content)
  {
  }

  /**
    Without read or enumeration errors, `get_preferred_player_or_first` finds nothing exactly
    when there are no players, and what it finds is an enumerated player.
  */
  lemma OrFirstNoneIffEmpty(file: RecordFile, players: seq<Player>)
    requires !file.Unreadable?
    ensures var r := GetPreferredPlayerOrFirst(file, Listed(players));
      && r.Ok?
      && (r.value.None? <==> players == [])
      && (r.value.Some? ==> r.value.value in players)
  {
    var r := GetPreferredPlayer(file, Listed(players));
    if file.Holds? && r.Ok? && r.value.Some? {
      PreferredIsMember(file.content, players);
    }
  }

  /** Only `get_preferred_player_or_first` falls back: a preference that matches nobody still selects the first player there. */
  lemma OrFirstFallsBack(content: string, players: seq<Player>)
    requires players != []
    requires forall i :: 0 <= i < |players| ==> players[i].busName != Trim(content)
    ensures GetPreferredPlayer(Holds(content), Listed(players)) == Ok(None)
    ensures GetPreferredPlayerOrFirst(Holds(content), Listed(players)) == Ok(Some(players[0]))
  {
    StrictMatchNoFallback(content, players);
  }

  /** A record that cannot be read and a failed enumeration are both errors of either selector. */
  lemma ErrorsPropagate(file: RecordFile, e: Enumeration)
    requires file.Unreadable? || e.ListFailed?
    ensures GetPreferredPlayer(file, e).Err?
    ensures GetPreferredPlayerOrFirst(file, e).Err?
  {
  }
}
