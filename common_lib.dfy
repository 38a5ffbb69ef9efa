/**
  The older player selection of common/src/lib.rs: read the preference leniently, ask the
  MPRIS finder for a player by that name, and otherwise take the first player.

  The finder's lookup by name (`PlayerFinder::find_by_name`) is library code; it is the
  parameter `findByName`, answering a player or nothing.
*/
module CommonLib {
  import opened Wrappers
  import opened RustText
  import opened Mpris
  import opened PreferredPlayer

  /** `get_preferred_player`: the record's trimmed text; every read failure means no preference. */
  function Preference(file: RecordFile): (r: Option<string>)
    ensures r.Some? <==> file.Holds?
    ensures r.Some? ==> r.value == Trim(file.content)
    ensures r.Some? ==> |r.value| <= |file.content|
    ensures r.Some? && r.value != [] ==> !IsWhitespace(r.value[0]) && !IsWhitespace(r.value[|r.value| - 1])
  {
    if file.Holds? then Some(Trim(file.content)) else None
  }

  /**
    The lenient reader agrees with `get_preferred_player_name` of the newer code whenever the
    latter succeeds; where the latter reports a read error, the lenient one has no preference.
  */
  lemma PreferenceAgreesWithStrictReader(file: RecordFile)
    ensures GetPreferredPlayerName(file).Ok? ==> Preference(file) == GetPreferredPlayerName(file).value
    ensures GetPreferredPlayerName(file).Err? ==> Preference(file) == None
  {
  }

  /**
    `get_player`: the player the finder has under the preferred name, when there is a
    preference and the finder has one; otherwise the first enumerated player, and nothing
    when the enumeration fails or is empty.
  */
  function GetPlayer(file: RecordFile, findByName: string -> Option<Player>, e: Enumeration): (r: Option<Player>)
    ensures Preference(file).Some? && findByName(Preference(file).value).Some? ==>
      r == findByName(Preference(file).value)
    ensures (Preference(file).None? || findByName(Preference(file).value).None?) ==>
      (r.None? <==> e.ListFailed? || e.players == [])
    ensures (Preference(file).None? || findByName(Preference(file).value).None?) && r.Some? ==>
      r.value == e.players[0]
  {
    var preferred := Preference(file);
    if preferred.Some? && findByName(preferred.value).Some? then findByName(preferred.value)
    else
      match e
      case ListFailed => None
      case Listed(players) => if players == [] then None else Some(players[0])
  }

  /** Whatever `get_player` returns is the finder's answer for the preference or an enumerated player. */
  lemma GetPlayerSource(file: RecordFile, findByName: string -> Option<Player>, e: Enumeration)
    ensures var r := GetPlayer(file, findByName, e);
      r.Some? ==>
        || (Preference(file).Some? && r == findByName(Preference(file).value))
        || (e.Listed? && r.value in e.players)
  {
  }

  /**
    With a readable (or absent) record, a working enumeration and a finder whose lookup by
    name is the first exact bus-name match, `get_player` selects what
    `get_preferred_player_or_first` selects. An unreadable record is where they differ: the
    older code falls back to the first player, the newer one reports the error.
  */
  lemma GetPlayerMatchesOrFirst(file: RecordFile, findByName: string -> Option<Player>, players: seq<Player>)
    requires forall n :: findByName(n) == FirstWithBusName(players, n)
    ensures !file.Unreadable? ==>
      GetPreferredPlayerOrFirst(file, Listed(players)) == Ok(GetPlayer(file, findByName, Listed(players)))
    ensures file.Unreadable? ==>
      && GetPreferredPlayerOrFirst(file, Listed(players)).Err?
      && GetPlayer(file, findByName, Listed(players)) == GetFirstPlayer(Listed(players)).value
  {
    if file.Unreadable? {
      ErrorsPropagate(file, Listed(players));
    }
  }
}
