# rstroller core, modelled in Dafny

rstroller is a controller for MPRIS media players: a command-line tool (`rstroller`), a
status-bar feed, and a GTK window. This project models its sequential core and proves
properties of the model:

- **Player-state reducer** (`GuiPlayerState`, player_state.dfy). A snapshot of one player
  (metadata, playback status, loop status, shuffle, volume) is built from independent
  queries with defaults. `handle_event` folds the player's event stream into it, each event
  overwriting at most one field. Replaying a stream is a fold; the last event that targets
  a field decides that field's value.
- **Text helpers**:
  - `Markup` (markup.dfy): escaping of text for Pango markup, after GLib's
    `g_markup_escape_text`. It uses the five predefined entities of section 4.6 of XML 1.0.
    The escaping loop is a method proved against a specification function. That function
    has an inverse, so nothing is lost.
  - `CommonUtils` (common_utils.dfy): the shortener that ends with an ellipsis.
  - `CliUtils` (cli_utils.dfy): the plain prefix shortener, `format_metadata_value` and
    the suffix stripping of `parse_offset`.
  - `RustText` (rust_text.dfy): the parts of Rust's `str` and integer `Display` that the
    code above relies on, namely `trim`, `split` on a character, and decimal rendering.
- **CLI front end**:
  - `Args` (args.dfy): the flag/positional argument parser. Its loop is a method of class
    `ArgParser`, proved against a prefix-recursive specification.
  - `CommandNames` and `CmdCommandNames` (command_names.dfy, cmd_command_names.dfy): the
    two command-name tables.
  - `CliApp` (app.dfy): the application builder and the `run_cmd` dispatch decision.
- **Player selection** (`PreferredPlayer`, preferred_player.dfy, and `CommonLib`,
  common_lib.dfy). The preference is a record file holding a bus name. Selection is either
  a strict bus-name match, a first-player fallback, or the older lenient `get_player`.

Several source files are copies of each other, and each group is modelled once:

- cli/src/core_definition/args.rs and cli/src/cmd/args.rs → `Args`.
- cli/src/cmds/utils.rs and cli/src/cmd/utils.rs → `CliUtils`.
- The three player-selector files → `PreferredPlayer`.
- The two app.rs files → `CliApp`. `App` is generic in the command-name type and takes the
  name reader as the constant `parseName`:
  - cli/src/core_definition/app.rs reads names with `FromStr`
    (`CliApp.ParseCommandName`, over `CommandNames.FromStr`);
  - cli/src/cmd/app.rs calls `arg.parse()`, but cli/src/cmd/command_name.rs defines only
    `CommandName::from`. Its instance therefore uses `CmdCommandNames.From`.

In the table below, a member shared by copies has one row, which cites one of the copies
and names the other copy's lines where they differ in position. The three player-selector
files hold the same six functions in the same order, so a row citing one of them covers the
same function in the other two.

The external world enters as values:

- `PreferredPlayer.RecordFile` is what reading the record file finds.
- `PreferredPlayer.Enumeration` is the list of players the MPRIS finder reports, or its
  failure.
- `WriteOutcome` is the result of writing the record.
- The command line is a parameter `argv`.
- The floating-point parser of `parse_offset` is a parameter, and so is the finder's lookup
  by name in common/src/lib.rs.

`PlayerShutDown` is marked as not yet handled by a TODO at gui/src/app/player_state.rs:39.
The code at line 40 ignores the event and keeps the snapshot unchanged, so the session goes
on. The model follows the code (`GuiPlayerState.ShutDownIsNotTerminal`).

## Model

| member | source | states |
|---|---|---|
| GuiPlayerState.New | gui/src/app/player_state.rs:13-23 | Each answered query gives its field. A failed query gives the default: default (empty) metadata, `Stopped`, loop `None`, volume 1.0. Shuffle always starts off. |
| GuiPlayerState.HandleEvent | gui/src/app/player_state.rs:25-57 | Each event writes its one target field with the value it carries: track, Playing/Paused/Stopped, loop, shuffle, volume. Every other field is unchanged. An untargeted event (seek, shutdown, track-list events, rate change) leaves the snapshot identical. |
| GuiPlayerState.WriteIgnoresPrior | gui/src/app/player_state.rs:28-34 | The value an event writes into its field does not depend on the snapshot it is applied to. |
| GuiPlayerState.ReplayUntargetedKeepsInitial | gui/src/app/player_state.rs:25-57 | After a whole event stream, a field no event targets still holds its initial value. |
| GuiPlayerState.ReplayLastWriterWins | gui/src/app/player_state.rs:25-57 | After a whole event stream, each field holds the value written by the last event targeting it. |
| GuiPlayerState.ReplaySnoc | gui/src/app/player_state.rs:25-57 | Replaying `es + [e]` is replaying `es`, then handling `e`. |
| GuiPlayerState.ReplaySplit | gui/src/app/player_state.rs:25-57 | Replaying a concatenation is replaying the second part from the snapshot the first part left. |
| GuiPlayerState.ShutDownIsNotTerminal | gui/src/app/player_state.rs:40 | A `PlayerShutDown` in the middle of a stream is skipped: the events after it apply as if it were absent. |
| Markup.EscapeChar | cli/src/cmds/waybar/markup.rs:8-27 | A special character becomes an entity of more than one character starting with `&`. Any other character is copied as itself. |
| Markup.EscapeGtkMarkup | cli/src/cmds/waybar/markup.rs:3-31 | The loop's result is the character-by-character escape of the whole input, in input order. The invariant is that the result is the escape of the characters consumed so far. |
| Markup.EscapeConcat | cli/src/cmds/waybar/markup.rs:7-28 | Escaping distributes over concatenation. |
| Markup.EscapeHasNoDelimiter | cli/src/cmds/waybar/markup.rs:9-26 | Escaped text contains none of `<`, `>`, `'`, `"`. |
| Markup.EscapeLength | cli/src/cmds/waybar/markup.rs:7-28 | Escaping never shortens a text. It keeps the length exactly when the text has none of the five special characters. |
| Markup.UnescapeStep | cli/src/cmds/waybar/markup.rs:8-27 | Each character's escape reads back as that character, whatever follows it. |
| Markup.UnescapeEscape | cli/src/cmds/waybar/markup.rs:3-31 | Escaping is injective: unescaping the escape of any text gives the text back. |
| CommonUtils.TruncateString | common/src/utils.rs:8-14 | A text within `max_length` is returned as it is. A longer one becomes its first `max_length - 1` characters plus `...`, exactly `max_length + 2` long. Callers must not pass `max_length == 0` with a non-empty text, which underflows. |
| CommonUtils.TruncatedIsPrefix | common/src/utils.rs:8-14 | The result, without its ellipsis, is a prefix of the input. |
| CommonUtils.TruncationCanLengthen | common/src/utils.rs:12 | A text one character over the limit comes back one character longer than it was. |
| CliUtils.FormatMetadataValue | cli/src/cmds/utils.rs:6-22 | A string is shown as it is, and a boolean as `true`/`false`. Every integer variant is shown in canonical decimal: it reads back as the same number, starts with `-` exactly when negative, and has no leading zero; zero is exactly `0`. `Unsupported` is shown as `unsupported`. The copy at cli/src/cmd/utils.rs:3-19 is the same. |
| CliUtils.Decimal | cli/src/cmd/utils.rs:6-12 | `to_string` of an integer reads back as that integer, has a sign only when it is negative, and a nonzero number has no leading zero; zero is exactly `0` (the same code as cli/src/cmds/utils.rs:9-15). |
| CliUtils.ParseOffset | cli/src/cmds/utils.rs:24-29 | The result succeeds exactly when the argument without its last character parses, with the parsed value. A parse error becomes `Failed to parse offset: ` followed by the parser's message. |
| CliUtils.ParseOffsetDropsSuffix | cli/src/cmd/utils.rs:21-26 | Exactly the last character is dropped before parsing. A parse result passes through, and a parse error gets the `Failed to parse offset: ` prefix. The copy at cli/src/cmds/utils.rs:24-29 is the same. |
| CliUtils.ParseOffsetIgnoresSuffix | cli/src/cmds/utils.rs:24-29 | Two arguments differing only in their last character give the same result. |
| CliUtils.TruncateString | cli/src/cmds/utils.rs:71-77 | The result is the prefix of the input of length `min(len, max_length)`. |
| CliUtils.TruncateIdempotent | cli/src/cmds/utils.rs:71-77 | Truncating twice with the same limit is truncating once. |
| RustText.Trim | common/src/player/preferred/mod.rs:13 | The result neither starts nor ends with whitespace, and is no longer than the input. It is empty exactly when the input is all whitespace. It is a slice of the input with only whitespace before and after it, so trimming removes the surrounding whitespace and nothing else. |
| RustText.TrimIdempotent | common/src/player/preferred/mod.rs:13 | Trimming twice is trimming once. |
| RustText.TrimUnchangedWithoutSurroundingSpace | common/src/player/preferred/mod.rs:13 | A text without surrounding whitespace is its own trim. |
| RustText.Split | cli/src/core_definition/args.rs:65 | There is at least one piece, and no piece contains the separator. Joining the pieces with it gives the text back. There is one piece exactly when the separator is absent. |
| RustText.SplitWithoutSeparator | cli/src/core_definition/args.rs:65 | A text without the separator splits into itself alone. |
| RustText.SplitDropFirst | cli/src/core_definition/args.rs:65 | The first piece is the text before the first separator; the rest is the split of what follows it. |
| RustText.SplitFirstPiece | cli/src/core_definition/args.rs:65-69 | The first piece is the text before the first separator, or the whole text. |
| RustText.SplitSecondPiece | cli/src/core_definition/args.rs:71 | The second piece is the text between the first and second separators. |
| RustText.Digits | cli/src/cmds/utils.rs:9-15 | The digits are non-empty, all decimal, and have no leading zero unless the number is zero. A number below ten is one digit. |
| RustText.DigitsRoundTrip | cli/src/cmds/utils.rs:9-15 | The digits of a natural number read back as that number. |
| RustText.DecimalRoundTrip | cli/src/cmds/utils.rs:9-15 | The decimal rendering of every integer reads back as that integer. |
| RustText.DecimalCanonical | cli/src/cmds/utils.rs:9-15 | The rendering has a `-` exactly for negative numbers and no leading zero. |
| Args.ParsedArgs.Get | cli/src/cmd/args.rs:12-14 | Answers exactly when the index is in range, with the positional argument at that index (the same code as cli/src/core_definition/args.rs:14-16). |
| Args.Register | cli/src/core_definition/args.rs:30-35 | Adding a flag adds its spellings, `--name` and `-short` when there is a short name, all leading to the flag. Every other spelling keeps its entry. |
| Args.ArgParser.constructor | cli/src/core_definition/args.rs:24-28 | A new parser has no registered spelling. |
| Args.ArgParser.AddFlag | cli/src/core_definition/args.rs:30-35 | The parser's table becomes `Register` of the old table and the flag (the same code as cli/src/cmd/args.rs:28-35). |
| Args.ArgParser.ParseFromIter | cli/src/core_definition/args.rs:41-58 | The loop's result is the specification parse of the whole argument list, with an early return on the first refused flag. `parse` at cli/src/cmd/args.rs:37-51 is the same loop over the process arguments. |
| Args.ParseFlag | cli/src/cmd/args.rs:53-88 | The result is "not a flag" exactly when the argument does not start with `-`. An accepted flag is reported under the long name of a registered flag. The copy at cli/src/core_definition/args.rs:60-95 is the same. |
| Args.ParseFlagWithValue | cli/src/core_definition/args.rs:65-94 | `prefix=value[=…]` is looked up by `prefix`. An unknown prefix is `Unknown flag`. A flag taking a value gets exactly the text between the first and second `=`, and any later text is dropped. A flag taking none is refused. |
| Args.ParseFlagWithoutValue | cli/src/cmd/args.rs:64-87 | A flag without `=` is looked up whole. It is unknown, or refused when it requires a value, or accepted with the empty value. |
| Args.ParseArgsPositionals | cli/src/cmd/args.rs:41-50 | A successful parse keeps exactly the arguments not starting with `-`, in input order. |
| Args.ParseArgsErrorSticks | cli/src/core_definition/args.rs:49 | Once a prefix of the arguments fails, the whole parse fails with the same error. |
| Args.ParseArgsSucceeds | cli/src/core_definition/args.rs:48-57 | If every argument is accepted, the parse succeeds. |
| Args.ParseArgsFirstError | cli/src/cmd/args.rs:41-48 | The parse fails with the error of the first refused argument. |
| Args.ParseArgsLastFlagWins | cli/src/core_definition/args.rs:50-52 | A repeated flag holds the value of its last occurrence. |
| Args.ParseArgsUnsetFlagAbsent | cli/src/core_definition/args.rs:48-57 | A flag that no argument sets is absent from the result. |
| Args.ParseArgsPositionalStep | cli/src/core_definition/args.rs:53 | One more positional is appended to the positionals so far. |
| Args.ParseArgsFlagStep | cli/src/core_definition/args.rs:50-52 | One more accepted flag is stored under its name, over any earlier value. |
| Args.ParseArgsFourArguments | cli/src/core_definition/args.rs:48-57 | A positional, two accepted flags and a positional parse to those two positionals and the two flag values. |
| Args.ExampleRegistry | cli/src/core_definition/args.rs:112-125 | After the test's two `add_flag` calls, `--player` and `-s` lead to the test's two flags. |
| Args.ExampleFlags | cli/src/core_definition/args.rs:105-125 | The test's `--player=player1` and `-s` are read as `player`=`player1` and `sample`=`""`. |
| Args.ParseFlagExample | cli/src/core_definition/args.rs:103-133 | The repository's test: the positionals are the program path and `test`, and `player` is `player1`. |
| CommandNames.Value | cli/src/cmds/names.rs:29-51 | Every spelling is a nonempty text of lower-case letters and `-`. |
| CommandNames.FromStr | cli/src/cmds/names.rs:57-80 | An accepted text is the spelling of the command returned. Every text that is no command's spelling is refused. |
| CommandNames.FromStrRejectsUpperCase | cli/src/cmds/names.rs:57-80 | Matching is case-sensitive: a text holding an upper-case letter is refused. |
| CommandNames.FromStrValue | cli/src/cmds/names.rs:95-106 | Every command reads back from its spelling. |
| CommandNames.ValueInjective | cli/src/cmds/names.rs:108-119 | No two commands share a spelling. |
| CommandNames.DisplayRoundTrip | cli/src/cmds/names.rs:83-87 | What `Display` writes reads back as the same command. |
| CmdCommandNames.Value | cli/src/cmd/command_name.rs:13-21 | Every one of the five spellings is a nonempty text of lower-case letters and `-`. |
| CmdCommandNames.From | cli/src/cmd/command_name.rs:23-32 | An answer is a command whose spelling is the text. The answer is `None` exactly for texts that are no command's spelling. |
| CmdCommandNames.FromValue | cli/src/cmd/command_name.rs:13-32 | Every one of the five commands reads back from its spelling. |
| CmdCommandNames.ValueInjective | cli/src/cmd/command_name.rs:13-21 | The five spellings are pairwise distinct. |
| CmdCommandNames.DisplayRoundTrip | cli/src/cmd/command_name.rs:35-39 | What `Display` writes reads back as the same command. |
| CliApp.RegistryOfKeys | cli/src/core_definition/app.rs:32-36 | After a series of `add_flag`, a spelling is registered exactly when some added flag has it. |
| CliApp.RegistryOfLastWins | cli/src/core_definition/app.rs:32-36 | A spelling leads to the last added flag that has it. |
| CliApp.App.constructor | cli/src/cmd/app.rs:15-23 | A new app has its name and description, no commands, no flags and a fresh empty parser (the same code as cli/src/core_definition/app.rs:22-30). |
| CliApp.App.AddFlag | cli/src/core_definition/app.rs:32-36 | The flag is appended to `flags`, in order, and registered with the parser. Commands are unchanged and the builder invariant is kept. The copy at cli/src/cmd/app.rs:25-29 is the same. |
| CliApp.App.AddCommand | cli/src/cmd/app.rs:31-35 | The command is stored under its name, replacing an earlier one (last insert wins). Other entries and the flags are unchanged, and the builder invariant is kept. The copy at cli/src/core_definition/app.rs:38-41 is the same. |
| CliApp.Dispatch | cli/src/core_definition/app.rs:52-60 | The process exits exactly on a parse error, with that error. Otherwise a name is returned exactly when the second positional reads as a name, and it is that name. A handler runs exactly when that name is registered: the registered command's handler, given the parsed arguments. |
| CliApp.App.RunCmd | cli/src/core_definition/app.rs:43-62 | On an app built by the constructor and `add_flag`/`add_command`, the arguments are parsed with the table of all added flags. A parse error exits with that error. Otherwise a name is returned exactly when the second positional reads as a name, and it is that name. A handler runs only for a registered returned name, being that command's handler. The copy at cli/src/cmd/app.rs:37-56 is the same. |
| CliApp.DispatchReadsSecondPositional | cli/src/core_definition/app.rs:52-53 | On a parsed command line, a name is returned exactly when there is a second positional argument that reads as a name, and it is that name. |
| CliApp.DispatchNameIgnoresRegistry | cli/src/cmd/app.rs:46-54 | The returned name depends only on the parsed arguments, never on which commands were added: under any two command tables the same command line exits, or returns the same name. Each table decides only whether a handler runs, which is exactly when it holds that name. |
| CliApp.ParseCommandName | cli/src/core_definition/app.rs:53 | `parse().ok()`: a name is read exactly from a command's spelling, and it is the command with that spelling. |
| CliApp.CoreDispatchByValue | cli/src/core_definition/app.rs:52-60 | If the second positional is the spelling of command `c`, `run_cmd` returns `c` and runs its handler exactly when `c` was added. |
| CliApp.CmdDispatchByValue | cli/src/cmd/app.rs:46-54 | A name is returned exactly when the second positional is one of the five spellings, and it is the command with that spelling. |
| PreferredPlayer.GetPreferredPlayerName | common/src/player/preferred/mod.rs:11-17 | An error exactly for an unreadable record, and no preference exactly for a missing one. A read record gives exactly `Trim` of its text. |
| PreferredPlayer.SetPreferredPlayerName | common/src/player/preferred/mod.rs:19-22 | A successful write leaves the record holding exactly the name. A failed write is reported and leaves it unchanged. |
| PreferredPlayer.SetThenGet | common/src/player/mod.rs:18-29 | After writing a name, reading gives the trimmed name. |
| PreferredPlayer.SetThenGetExact | common/src/player/preferred/mod.rs:11-22 | A name without surrounding whitespace reads back exactly. |
| PreferredPlayer.EmptyRecordPrefersEmptyName | common/src/player/preferred/mod.rs:13 | A blank record is a preference for the empty name, not the absence of a preference. |
| PreferredPlayer.FirstWithBusName | common/src/player/preferred/mod.rs:29 | The result is the first player in order whose bus name equals the name exactly. It is none exactly when no player has it. |
| PreferredPlayer.GetPlayerByBusName | common/src/player/preferred_player.rs:25-31 | An error exactly when the enumeration fails. Otherwise the first exact bus-name match, or none. |
| PreferredPlayer.GetFirstPlayer | common/src/player/mod.rs:42-47 | An error exactly when the enumeration fails. Otherwise the first player, and none exactly when there are no players. |
| PreferredPlayer.GetPreferredPlayer | common/src/player/mod.rs:49-57 | An unreadable record is an error. A missing record selects the first player. A present one selects by exact bus name only. |
| PreferredPlayer.GetPreferredPlayerOrFirst | common/src/player/preferred_player.rs:50-55 | Only "no player found" falls back to the first player. A found player and every error pass through. |
| PreferredPlayer.StrictMatchNoFallback | common/src/player/preferred/mod.rs:43-45 | A preference no player has finds nothing, however many players there are. |
| PreferredPlayer.PreferredIsMember | common/src/player/preferred/mod.rs:24-30 | A preferred player that is found is an enumerated player with the preferred bus name. |
| PreferredPlayer.OrFirstNoneIffEmpty | common/src/player/preferred/mod.rs:49-54 | Without errors, the `_or_first` selector finds nothing exactly when there are no players, and finds an enumerated player otherwise. |
| PreferredPlayer.OrFirstFallsBack | common/src/player/preferred_player.rs:50-55 | A preference matching nobody gives nothing from `get_preferred_player` but the first player from `_or_first`. |
| PreferredPlayer.ErrorsPropagate | common/src/player/preferred_player.rs:40-55 | An unreadable record or a failed enumeration is an error of both selectors. |
| CommonLib.Preference | common/src/lib.rs:7-12 | A preference exactly when the record was read, and then it is exactly `Trim` of the record's text. Every read failure means no preference. |
| CommonLib.PreferenceAgreesWithStrictReader | common/src/lib.rs:7-12 | The lenient reader agrees with `get_preferred_player_name` where that succeeds, and has no preference where that fails. |
| CommonLib.GetPlayer | common/src/lib.rs:14-26 | A preference that the finder resolves gives that player. Otherwise the result is the first enumerated player, and none exactly when the enumeration fails or is empty. |
| CommonLib.GetPlayerSource | common/src/lib.rs:18-25 | Any player returned is the finder's answer for the preference or an enumerated player. |
| CommonLib.GetPlayerMatchesOrFirst | common/src/lib.rs:14-26 | With a readable or missing record and a lookup matching bus names exactly, `get_player` selects what `get_preferred_player_or_first` selects. An unreadable record gives the first player, where the newer code reports an error. |

## Left out

- Input and output are not modelled: reading `env::args`, `App::help` and every `println!`/`eprintln!`. The message printed before `process::exit(1)` in `run_cmd` is also left out; the exit is the outcome `ExitOnParseError`.
- The command handlers (`help_cmd`, `play_cmd`, …) and `exec_player_action*` are not modelled. A command's handler is an opaque `HandlerId`; `run_cmd` records which handler runs, with which arguments.
- Floating point is not modelled: the `F64` variant of metadata and the float parser of `parse_offset`, which is a parameter. Volume is an opaque `real`, with no arithmetic.
- `format_metadata_value` does not model the `F64`, `Array` and `Map` variants (library `Debug` formatting).
- Threads, channels, listeners and the preference-file watchers are not modelled. This covers `PreferredPlayerListener` and the MPRIS event listeners; they are concurrency and filesystem notifications.
- Strings are sequences of characters, one per byte. Rust's slicing in bytes, and its panic when a slice falls inside a multi-byte character, are not modelled (`truncate_string`, `parse_offset`).
- The finder is one snapshot `Enumeration`, shared by the lookups in one selection. Players appearing or leaving between the two finder calls of `get_preferred_player_or_first` are not modelled.
- A failure of `PlayerFinder::new` is merged into the enumeration's failure. Errors of single entries of `iter_players` are merged too, so a failing entry after the match is not distinguished.
- PreferredPlayer.SetPreferredPlayerName: a failed write is assumed to leave the record as it was. A partial write is not modelled.
- CommonLib.GetPlayerMatchesOrFirst: the lemma assumes that the finder's lookup by name is the first exact bus-name match. The real `find_by_name` is mpris library code and may match on the player's identity instead. The lemma compares the two selectors only under that assumption.
- CliUtils.ParseOffset: an empty argument makes the Rust slice panic; the precondition excludes it, and the panic is not modelled.
- CommonLib.GetPlayer: the panic when `PlayerFinder::new` fails is not modelled. The finder's lookup by name (`find_by_name`) is library code and is a parameter.
- The context messages that `anyhow` adds to errors are not modelled; `SelectError` keeps only the error's kind.
- The `Display` of both command-name types is `value()`; it is the function `Display` and is stated through the round-trip lemmas.
- The error text of the argument parser is the function `Args.Message`, which has no contract of its own.
