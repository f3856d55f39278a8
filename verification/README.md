# Minecraft server panel: a verified model of its core

This project models, in Dafny, the sequential core of a desktop control panel
for a Minecraft server. The core has four parts:

- **`ConfigManager`** reads and writes `server.properties`.
  - `load_config` parses the file's lines into an insertion-ordered key/value map.
  - `save_config` merges new values into that map. It then rewrites the file:
    - key lines are replaced in place;
    - every other line is kept verbatim;
    - keys the file lacked are appended.
- **`PlayerManager`** keeps the whitelist and the ban list, each a JSON list of player records.
  - Add refuses a case-insensitive duplicate and otherwise appends.
  - Remove filters out every case-insensitive match and reports "not found" when nothing went.
  - A player's id from the profile service gets its hyphens inserted.
- **`ServerManager`** supervises the server process.
  - It tracks a running flag and a process handle.
  - It fills a FIFO queue of console lines from a reader thread and from the control operations: start, stop, kill and send.
  - The UI drains that queue.
- **The UI's update rules**:
  - jar detection;
  - the console buffer, capped at 1000 lines;
  - the CPU/RAM history, capped at 100 samples;
  - the widget chosen for a property value and the text it is saved back as;
  - the ban-list label `name (reason)` and the name parsed back from it.

Files and the modules they declare:

| file | module | contents |
|---|---|---|
| `wrappers.dfy` | `Wrappers` | `Option` |
| `text.dfy` | `Text` | the Python `str` operations used, over ASCII: `strip`, `lower`, `find`, `isdigit`, `int`/`str`, `split('\n')`, `'\n'.join` |
| `config.dfy` | `Config` | properties file: parsing, merging, rewriting, the `ConfigManager` class |
| `players.dfy` | `Players` | whitelist and ban list, id formatting |
| `server.dfy` | `Server` | the `ServerManager` class and its reader steps |
| `app.dfy` | `Ui` | jar detection, console and history rules, value widgets, ban labels, the `App` tick |

The outside world enters as parameters:

- the file contents: lines, or loaded records, `None` when the file is missing;
- the profile-service answer;
- whether the jar exists, and what the spawn did;
- the lines the reader reads;
- whether a stdin write fails;
- whether the process outlived the grace period;
- the psutil sample;
- the server directory listing.

The reader thread is modelled as two atomic steps: `ReaderStep` delivers one read and `ObserveExit` handles the exit. `MonitorOutput` is the loop built from them.

The code follows its source where a written description differs from it. The reader queues `line.strip()`: it trims both ends and skips only empty reads, not blank lines. A ban label shows `No reason` only when the record has no `reason` field, since the code calls `p.get('reason', 'No reason')`.

## Model

| member | source | states |
|---|---|---|
| Config.Get | src/backend/config_manager.py:101-102 | `d.get(k)` is present exactly when some item has key `k`; in a map with unique keys it is that item's value |
| Config.Put | src/backend/config_manager.py:19 | after `d[k] = v`, `k` maps to `v` and every other key is unchanged. Keys stay unique. An existing key keeps its place; a new key goes last |
| Config.Update | src/backend/config_manager.py:24 | `dict.update`, item by item through `Put`: keys stay unique; values are pinned by `UpdateGet`, key order by `UpdateKeys` |
| Config.UpdateGet | src/backend/config_manager.py:24 | after `properties.update(new)`, a key of `new` has its new value and every other key keeps its old value |
| Config.UpdateKeys | src/backend/config_manager.py:24 | after `properties.update(new)` the old keys keep their order and the keys of `new` that were absent follow, in `new`'s order |
| Config.NewKeysSpec | src/backend/config_manager.py:24 | a key is appended by the update exactly when `new` holds it and the old map does not |
| Config.ParseLine | src/backend/config_manager.py:15-19 | definition of one line's parse: `None` for a skipped line, else the stripped key and value; characterized by `ParseLineSplitsAtFirstEquals` |
| Config.ParseLineSplitsAtFirstEquals | src/backend/config_manager.py:14-19 | a line is skipped exactly when, stripped, it is empty, starts with `#` or has no `=`. Otherwise key and value are the stripped text before and after the first `=`; the value may hold more `=` |
| Config.LoadLines | src/backend/config_manager.py:12-19 | the loaded map holds every key once |
| Config.LoadSkipsLine | src/backend/config_manager.py:15-17 | a blank, comment or `=`-less line adds nothing to the loaded map |
| Config.LoadKeyAbsent | src/backend/config_manager.py:9-19 | a key that no line carries is absent from the loaded map; an empty file gives `{}` |
| Config.LoadLastLineWins | src/backend/config_manager.py:14-19 | when several lines carry a key, the last of them supplies its value |
| Config.LoadAppend | src/backend/config_manager.py:14-19 | loading two runs of lines: for each key, a value from the later run overrides one from the earlier run |
| Config.Rewrite | src/backend/config_manager.py:70-91 | the rewrite pass maps each original line to exactly one output line, in the same position |
| Config.WrittenKeysSpec | src/backend/config_manager.py:72-76 | `written_keys` holds exactly the map keys that some line carries |
| Config.Missing | src/backend/config_manager.py:94-96 | the items appended are exactly the map's items whose key was not written, with keys still unique |
| Config.Renders | src/backend/config_manager.py:96 | each appended item becomes one `key=value\n` line, in map order |
| Config.SaveLines | src/backend/config_manager.py:70-96 | definition of the lines `save_config` writes as written: the rewritten lines, then the missing keys rendered; see `SaveKeepsLinesInPlace`, `SaveAppendsMissingKeys`, `SaveThenLoad` |
| Config.SaveKeepsLinesInPlace | src/backend/config_manager.py:71-91 | blank, comment, `=`-less and unknown-key lines are written verbatim at their original index. A line whose key the map holds becomes `key=<current value>\n` |
| Config.SaveAppendsMissingKeys | src/backend/config_manager.py:93-96 | after the original lines come exactly the map items whose key no line carried, each once, in map order; a key rewritten in place is never appended |
| Config.ParseRendered | src/backend/config_manager.py:75 | a rendered property whose key and value are trimmed, whose key has no `=` and does not start with `#`, parses back to itself |
| Config.LoadRenders | src/backend/config_manager.py:94-96 | loading the appended lines gives back the values of the appended items |
| Config.LoadRewrite | src/backend/config_manager.py:70-91 | loading the rewritten lines: a map key carried by some line reads as its current value, a map key carried by none is absent, and any other key reads as before |
| Config.RewriteLineParse | src/backend/config_manager.py:72-76 | a line whose key the merged map holds is rewritten to a line that parses as that key with its map value; every other line is kept unchanged |
| Config.SaveThenLoad | src/backend/config_manager.py:72-96 | save then load over lines: every key of the merged map reads back as its merged value, every other key as in the old file |
| Config.Translate | src/backend/config_manager.py:13 | text mode's universal-newline reading: `\r\n` and a lone `\r` each become `\n`; the result holds no `\r` |
| Config.TranslateFree | src/backend/config_manager.py:13 | text holding no `\r` is read exactly as written |
| Config.TranslateLast | src/backend/config_manager.py:13 | the translated text ends with a newline exactly when the raw text ends with `\n` or `\r` |
| Config.ReadLines | src/backend/config_manager.py:14 | definition of `for line in f` on translated text: each line keeps its newline, the last may lack one; see `ReadLinesConcat`, `ReadLinesComplete`, `ReadLinesLast` |
| Config.FileLines | src/backend/config_manager.py:13-14 | definition: the lines of a text-mode file, `ReadLines` of the translated raw text |
| Config.ReadLinesConcat | src/backend/config_manager.py:14 | reading loses nothing: the lines read, put back together, are the text |
| Config.ReadLinesComplete | src/backend/config_manager.py:14 | every line read from translated text ends with its only newline and holds no `\r`, except perhaps the last |
| Config.ReadLinesLast | src/backend/config_manager.py:14 | the last line read from translated text is complete exactly when the text ends with a newline. It is non-empty, holds no `\r` and has no other newline |
| Config.Concat | src/backend/config_manager.py:99 | definition of `f.writelines`: the lines one after another; see `ReadConcat`, `ReadLinesConcat` |
| Config.ConcatFree | src/backend/config_manager.py:99 | complete lines written together hold no `\r`, so reading them back translates nothing |
| Config.ReadConcat | src/backend/config_manager.py:98-99 | writing complete lines, none holding `\r`, and reading the text back gives the same lines |
| Config.SavedLinesComplete | src/backend/config_manager.py:89-96 | when every original line is complete and no key or value holds `\n` or `\r`, every written line is complete |
| Config.SaveThenLoadText | src/backend/config_manager.py:65-99 | save then load over the raw file text, when the file is empty or ends with `\n` or `\r` and no key or value holds either: merged keys read back merged, others unchanged |
| Config.UnterminatedLastLineLosesKey | src/backend/config_manager.py:89-96 | as written: for a file holding only an unterminated comment, `save_config` writes that line and then `key=value\n`. Written together they form one comment line, and nothing loads back |
| Config.EndLastLine | src/backend/config_manager.py:89-91 | the correction's helper: the same number of lines, the last one ended with `\n` when it lacks one; see `LoadEndLastLine` |
| Config.LoadEndLastLine | src/backend/config_manager.py:15 | ending the last line with a newline does not change the loaded map |
| Config.SaveLinesFixed | src/backend/config_manager.py:70-96 | definition of the corrected save: the last line ended, then `SaveLines`; see `SaveFixedThenLoadText` |
| Config.SaveFixedThenLoadText | src/backend/config_manager.py:65-99 | with the corrected save, save then load round-trips for every raw file text, when no key or value holds `\n` or `\r` |
| Config.RewritePass | src/backend/config_manager.py:70-91 | the first loop produces the rewritten lines and the set of keys it wrote |
| Config.AppendPass | src/backend/config_manager.py:94-96 | the second loop renders exactly the missing items, in map order |
| Config.ConfigManager.constructor | src/backend/config_manager.py:4-6 | a new manager holds the empty map |
| Config.ConfigManager.LoadConfig | src/backend/config_manager.py:8-20 | a missing file returns `{}` and keeps the stored map; otherwise the stored map becomes the map parsed from the lines, and is returned |
| Config.LoadStep | src/backend/config_manager.py:14-19 | one more line of the loop: a parsed line sets its key to its value in the map built so far; a skipped line leaves that map unchanged |
| Config.ConfigManager.SaveConfig | src/backend/config_manager.py:22-24 | the stored map becomes old map updated by the new values; the lines written are the corrected save of the file's lines |
| Config.ConfigManager.GetProperty | src/backend/config_manager.py:101-102 | the stored value of the key, `None` exactly when the key is absent |
| Config.ConfigManager.SetProperty | src/backend/config_manager.py:104-105 | the key now maps to the value; every other key reads as before |
| Text.StripIsTrimmed | src/backend/config_manager.py:15 | `strip()` leaves no whitespace at either end |
| Text.NatToStringRoundTrip | src/ui/app.py:265 | `int(str(n)) == n` |
| Text.JoinSplit | src/ui/app.py:202-204 | joining the pieces of a split on `'\n'` gives the text back |
| Text.SplitJoin | src/ui/app.py:202-204 | splitting a join of newline-free pieces gives the pieces back |
| Text.SplitPieces | src/ui/app.py:202 | no piece of `split('\n')` holds a newline |
| Text.JoinTailIsSuffix | src/ui/app.py:204 | the join of the last pieces is a suffix of the join of all of them |
| Players.NameMatches | src/backend/player_manager.py:39 | definition of the duplicate test: the record's name, `''` when missing, equals the username ignoring case; see `SameNameMatchesSame` |
| Players.FormatUuid | src/backend/player_manager.py:97-98 | definition of the 8-4-4-4-12 f-string over clamped slices; see `FormatUuidLayout`, `FormatUuidRoundTrip` |
| Players.GetUuid | src/backend/player_manager.py:91-102 | an id is produced exactly when the lookup answered, and it is never empty, so `not player_uuid` means "unresolved" |
| Players.FormatUuidLayout | src/backend/player_manager.py:97-98 | a 32-character id becomes 36 characters with `-` at indices 8, 13, 18 and 23, the raw characters in order between them |
| Players.FormatUuidRoundTrip | src/backend/player_manager.py:97-98 | deleting the hyphens gives back any hyphen-free raw id, whatever its length |
| Players.ContainsName | src/backend/player_manager.py:38-40 | the duplicate scan finds a record exactly when some record's name (a missing one read as `""`) equals the username ignoring case |
| Players.AddToWhitelist | src/backend/player_manager.py:28-47 | unresolved: `(False, "Could not resolve UUID")`, nothing saved. A duplicate: `(False, "Player already whitelisted")`, nothing saved. Otherwise `(True, "Player added")`, with the old list plus `{uuid, name}` at the end saved |
| Players.BanPlayer | src/backend/player_manager.py:61-80 | the same three outcomes with "Player already banned" and "Player banned". The saved record carries the id, the name, created `2024-01-01 00:00:00 +0000`, source `Console`, expires `forever` and the reason, `Banned by operator` when the argument is omitted |
| Players.Without | src/backend/player_manager.py:51 | definition of the removal filter, also at line 84; see `WithoutSpec`, `WithoutAppend`, `WithoutShrinks` |
| Players.WithoutSpec | src/backend/player_manager.py:51 | the filter keeps exactly the records whose name does not match |
| Players.WithoutAppend | src/backend/player_manager.py:51 | the filter works record by record, so kept records stay in their order |
| Players.WithoutShrinks | src/backend/player_manager.py:51-52 | the filtered list has the old length exactly when no record matches |
| Players.WithoutUnlisted | src/backend/player_manager.py:51 | a list with no matching record passes the filter unchanged |
| Players.RemoveFromWhitelist | src/backend/player_manager.py:49-56 | success exactly when some record matches: `(True, "Player removed")`, with the filtered list saved. Otherwise `(False, "Player not found")`, nothing saved |
| Players.UnbanPlayer | src/backend/player_manager.py:82-89 | the same, with "Player unbanned" |
| Players.AddThenRemove | src/backend/player_manager.py:28-56 | a successful add followed by a remove of the same name in any letter case restores the original whitelist |
| Players.BanThenUnban | src/backend/player_manager.py:61-89 | a successful ban followed by an unban of the same name in any letter case restores the original ban list |
| Players.AddedIsListed | src/backend/player_manager.py:38-47 | after an add the name is listed, so a second add in any letter case is refused |
| Players.RemovedIsUnlisted | src/backend/player_manager.py:51-53 | after a remove no record matches the name, so a second remove reports "not found" |
| Server.Delivered | src/backend/server_manager.py:53-55 | what the reader queues from its reads, never more lines than reads; see `DeliveredSpec`, `DeliveredAppend` |
| Server.DeliveredSpec | src/backend/server_manager.py:53-55 | every queued reader line is trimmed and is the strip of a non-empty read |
| Server.DeliveredAppend | src/backend/server_manager.py:52-55 | reads are delivered in read order: two batches in turn equal the two together |
| Server.ServerManager.constructor | src/backend/server_manager.py:9-17 | a new manager is not running, has no process and an empty queue |
| Server.ServerManager.Start | src/backend/server_manager.py:19-49 | refused while running, changing nothing. A missing jar queues `Error: <jar> not found in <dir>`. A failed spawn queues `Failed to start server: <e>` and leaves flag and process unchanged. A spawn sets the flag and the process and returns True |
| Server.ServerManager.ReaderStep | src/backend/server_manager.py:53-55 | a non-empty read is queued stripped; an empty one is skipped; nothing else changes |
| Server.ServerManager.ObserveExit | src/backend/server_manager.py:57-59 | with a process handle, the flag is cleared and `Server stopped.` queued |
| Server.ServerManager.MonitorOutput | src/backend/server_manager.py:51-59 | all non-empty reads are queued stripped, in order, followed by `Server stopped.`, and the flag ends cleared |
| Server.ServerManager.Kill | src/backend/server_manager.py:70-80 | with no process handle nothing changes. Otherwise the flag is cleared and `Server killed.` queued |
| Server.ServerManager.SendCommand | src/backend/server_manager.py:82-88 | a no-op when not running. Otherwise the command plus `\n` goes to stdin; a failed write instead queues `Error sending command: <e>`, changing nothing else |
| Server.ServerManager.Stop | src/backend/server_manager.py:61-68 | a no-op when not running. Otherwise `stop\n` is sent, and the process is killed if still alive after the grace period. The flag always ends cleared |
| Server.ServerManager.GetConsoleOutput | src/backend/server_manager.py:90-94 | returns every queued line oldest first and empties the queue |
| Server.ServerManager.GetStatus | src/backend/server_manager.py:96-99 | `"Online"` exactly when the running flag is set, `"Offline"` otherwise |
| Server.ServerManager.PerformanceStats | src/backend/server_manager.py:101-113 | zero when not running, without a process, or when the process has vanished. Otherwise the CPU share, and RAM equal to RSS divided by 1024·1024 |
| Server.StartTwice | src/backend/server_manager.py:19-21 | a second start while running is refused and the status stays `"Online"` |
| Server.DrainTwice | src/backend/server_manager.py:90-94 | an immediate second drain returns `[]` |
| Server.StartWithoutJar | src/backend/server_manager.py:23-26 | a missing jar queues exactly one error line, returns False and leaves the status `"Offline"` |
| Ui.DetectJar | src/ui/app.py:14-19 | `JarChoice`: the first listed entry ending in `.jar`; `server.jar` when the directory is missing or holds none |
| Ui.JarChoiceUnique | src/ui/app.py:14-19 | the jar rule allows exactly one jar for each listing |
| Ui.Terminated | src/ui/app.py:199-200 | definition of the text the loop adds: each line then `\n`; see `TerminatedSplit` |
| Ui.AppendLines | src/ui/app.py:198-200 | each new line is appended followed by `\n`, in order |
| Ui.TerminatedSplit | src/ui/app.py:199-200 | newline-free lines are recovered from the appended text by splitting it |
| Ui.TrimConsole | src/ui/app.py:202-204 | text of at most 1000 pieces is kept as is. Longer text is cut to exactly its last 1000 pieces. The result is always a suffix of the text |
| Ui.Window | src/ui/app.py:219-223 | a list longer than 100 loses exactly one entry, its oldest, and a shorter one is kept; the result is always a suffix, and a list of at most 101 entries ends at most 100 long |
| Ui.WindowIncreasing | src/ui/app.py:214-223 | appending a later time and cutting the window keeps the sample times strictly increasing |
| Ui.SampleKeepsHistory | src/ui/app.py:212-223 | a sample keeps the four lists parallel, capped at 100, with increasing times before the next tick |
| Ui.NoSampleKeepsHistory | src/ui/app.py:233 | counting a tick without a sample keeps the history well formed |
| Ui.ClassifyValue | src/ui/app.py:262-267 | `true`/`false` in any case gives a checkbox, checked exactly for `true`. Otherwise an all-digit value gives an integer input holding its value. Anything else gives a text input holding the value |
| Ui.SaveValue | src/ui/app.py:277 | a checkbox is saved as lowercase `true`/`false`, a non-negative number as its digits, text as itself |
| Ui.ClassifyThenSave | src/ui/app.py:262-277 | an unedited value saves back lowercased if boolean, as the same number if numeric (integer inputs taken as unbounded), unchanged otherwise |
| Ui.SaveThenClassify | src/ui/app.py:262-277 | a saved boolean or non-negative number is shown in the same widget again |
| Ui.Edits | src/ui/app.py:272-277 | the dict `save_properties` builds, with unique keys; values pinned by `EditsGet` |
| Ui.EditsGet | src/ui/app.py:270-279 | a key is in the saved dict exactly when it was loaded and has a widget; its value is that widget's text |
| Ui.CollectEdits | src/ui/app.py:269-279 | the loop builds exactly that dict, keys unique |
| Ui.ShownReason | src/ui/app.py:290 | definition of `p.get('reason', 'No reason')` |
| Ui.BanLabel | src/ui/app.py:290 | definition of the label `name (reason)`; see `LabelRoundTrip` |
| Ui.BanLabels | src/ui/app.py:289-290 | each record with a name gets the label `name (reason)`, `No reason` when it has no reason |
| Ui.LabelName | src/ui/app.py:323 | the name taken from a label is a prefix of it and contains no ` (` |
| Ui.LabelRoundTrip | src/ui/app.py:290 | the name is recovered from its label exactly when it contains no ` (` |
| Ui.UnbanByLabel | src/ui/app.py:319-326 | unbanning from the label of a record whose name has no ` (` succeeds |
| Ui.App.constructor | src/ui/app.py:10-25 | the panel's manager runs from `exampleserver` with `java`, on the jar `JarChoice` allows: the first listed `.jar` entry, or `server.jar` when there is none. It starts stopped, with no process, an empty queue, an empty console and history, tick 0, the status text `Offline`, and only the start button shown |
| Ui.App.ShowStatus | src/ui/app.py:181-193 | the status text is the server status. Start is shown exactly when not `"Online"`, stop and kill exactly when `"Online"` |
| Ui.App.RefreshConsole | src/ui/app.py:195-205 | with no queued lines the console is unchanged. Otherwise it becomes the trim of the old text plus each line and `\n`; the queue ends empty |
| Ui.App.SampleAndCount | src/ui/app.py:211-233 | a sample is taken exactly when `tick % 10 == 0`, into the windowed lists. The tick grows by exactly 1 and the history stays well formed |
| Ui.App.UpdateLoop | src/ui/app.py:180-233 | one tick: status and buttons, console refresh, sampling and counting, as above; the history stays well formed |

## Left out

- File I/O and JSON are not modelled. `open`, `readlines`, `writelines`, `json.load` and `json.dump` become sequences passed in and out. A JSON file that is not a list of records, or whose fields are not strings, is not modelled. The `_load_json` fallback to `[]` is the caller's input.
- The network request in `_get_uuid` is the `lookup` input. Every failure mode is `None`.
- OS processes are not modelled. `subprocess.Popen` and its arguments become the `SpawnOutcome` input, the psutil tree kill becomes a state change, and `proc.oneshot()` becomes the `Usage` input.
- Concurrency and timing are not modelled. The reader thread runs as atomic steps; the thread object, its start and `time.sleep(5)` are not modelled. Any interleaving is some order of the modelled steps.
- Server.ServerManager.Start: a failure of the thread start after the flag is set is not modelled. Only the spawn can fail.
- Server.ServerManager.Kill: psutil errors other than `NoSuchProcess`, which would propagate, are not modelled.
- Server.ServerManager.Stop: reader steps that run during the grace period, such as an exit observed while waiting, are not modelled inside the call. They are separate steps before or after it.
- Server.ServerManager.MonitorOutput: the reads are the ones made while the process was alive. The busy loop on end-of-stream before `poll()` reports the exit is not modelled.
- `stop_event` is never set anywhere in the system, so it is not part of the state.
- Server.ServerManager.PerformanceStats: CPU and RAM are exact reals. Floating-point rounding of the division is not modelled.
- The GUI is not modelled: dearpygui calls, fonts, theme, colours, the render loop and `show_tab`. Widgets are reduced to the values they show.
- Unicode is not modelled. `strip`, `lower` and `isdigit` act on ASCII; `isspace` covers space, 9-13 and 28-31.
- The first rewrite pass of `save_config` (lines 26-59) is not modelled. Its result is discarded before use.
- The sorting of keys in `refresh_properties` is not modelled, because it only orders the widgets on screen. Widgets are a map from key to widget.
- Config.ConfigManager.SetProperty: values are strings already, so the `str(value)` conversion is not modelled.
- Ui.SaveValue: a negative number typed into an integer input is saved with `IntToString`; no round-trip is claimed for it.
- Ui.ClassifyValue: integer inputs are modelled as unbounded, but the panel's integer widget holds a 32-bit C `int`; an all-digit value above 2147483647 (a large `level-seed`, say) is not shown or saved back as the same number, and the model does not capture what the widget does with it.
- Ui.ClassifyThenSave: its numeric round trip holds only for values within the widget's 32-bit range, for the reason given for `Ui.ClassifyValue`.
- `get_whitelist`, `get_banned_players`, the whitelist name list of `refresh_players`, and the UI callbacks are not modelled. The callbacks are `start_server`, `stop_server`, `kill_server`, `send_console_command`, `add_whitelist`, `remove_whitelist` and `ban_player`, and they only forward to the modelled operations.
- Ui.BanLabels: a record without a `name`, where the code raises `KeyError`, is excluded by its precondition.
- Config.ConfigManager.SaveConfig: writes the corrected save from the finding below, not the lines as written.
- Config.SaveFixedThenLoadText: a key or value holding `\n` or `\r`, which `set_property` or a `save_config` argument can supply, is not round-tripped. The code writes it raw and the read splits it; the round-trip lemmas require `SingleLine`.
- Writing in text mode turns each `\n` into the platform's line separator. The model writes `\n`, as on POSIX; a `\r\n` separator would be read back as `\n` by `Translate`, but that is not proved.

## Findings

| source | as written | input that shows it | evidently intended | confidence | as-written member | corrected member |
|---|---|---|---|---|---|---|
| src/backend/config_manager.py:89-96 | a verbatim last line without a trailing newline is followed directly by the first appended `key=value\n` | the file text `# note` with no final newline, saved with `{"motd": "hi"}`, becomes `# notemotd=hi\n`, which loads without `motd` | each appended key on a line of its own: end the last kept line before appending | high, not executed | Config.UnterminatedLastLineLosesKey | Config.SaveFixedThenLoadText |
