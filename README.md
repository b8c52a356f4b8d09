# Mesa Suite mobile shell — a Dafny model of its core

The mobile shell of Mesa Suite (`main.py`, a Kivy application for Android)
shows a desktop of icons and runs applets. It keeps a registry of the apps
it has open, and it links to a desktop computer through the "Vigia" gateway
over a TCP socket. This project models the parts of the shell that decide
things and proves properties of that model:

- **Applet drop routing** (`AppletRouting`, `routing.dfy`). A file dropped
  on an applet picks an action through the applet's `drop_triggers`, or
  through the first action that accepts the file's MIME type. The command
  template gets the shell-quoted path. The command then runs on the device,
  or, when it is a "heavy" command and the gateway is linked, it is
  forwarded as a `remote_exec_raw` request. `Shell` (`shell.dfy`) models
  `shlex.quote` and a one-word shell lexer. The lexer states what "passed as
  one argument" means, following section 2.2 of the POSIX Shell Command
  Language.
- **The Vigia client** (`Vigia`, `vigia.dfy`; `StreamCodec`, `stream.dfy`).
  `Vigia.Client` is a class holding the client's fields:
  - `Connect` performs the PIN handshake;
  - `SendCommand` sends one message;
  - `ListenLoop` is the receive loop, which peels JSON values off an
    unframed text stream;
  - `ProcessMessage` is the reaction to one message.

  The socket's behaviour is an input: the handshake outcome, whether a send
  is delivered, and the sequence of reads.
- **The app object** (`MobileApp.App`, `app.dfy`). Its fields are the link
  flag, the remote file list, the task switcher flag, the two task
  dictionaries and a log of the effects the shell has on the outside world
  (windows shown or removed, intents, kill requests). Its methods are:
  - the connection hooks;
  - `launch_dynamic_widget`, `register_android_task`, `resume_task`,
    `kill_single_task` and `kill_all_tasks`;
  - the toggles these call.

  The dictionaries keep Python's insertion order (`TaskRegistry`,
  `registry.dfy`).
- **Helpers**:
  - icon classification and display names, and a web icon's URL (`Icons`);
  - the metadata sidecar and versions paths, and the versions listing
    (`Metadata`);
  - tag parsing, the desktop filter, and the naming loop and creation step
    of "new item" (`Desktop`).

  These are supported by path functions modelled on `os.path` for POSIX
  (`Paths`), string functions modelled on Python `str` methods (`Strings`),
  a code-point order with an insertion sort for `sorted` (`StringOrder`),
  and JSON values (`Json`).

Operations that change the app's or the client's state are methods of a
class, with `modifies` clauses. Each one states its whole new state in terms
of the old state and of specification functions, and lemmas prove the
promised properties of those functions. Loops in the source are loops here:
`listen_loop`, the peeling loop, the `_read_url` scan, the `get_versions` and
`filter_desktop_items` loops, the `ask_name` search and the two loops of
`kill_all_tasks`. Each loop is proved against a function of its inputs.

## Model

| member | source | states |
|---|---|---|
| AppletRouting.Route | main.py:1427-1496 | a drop is rejected exactly when no action accepts the MIME type or the chosen action has no command; otherwise the command is the template after the two chained replacements of `%F` and then `%f` by the quoted path, and it goes to the gateway exactly when linked and heavy |
| AppletRouting.RouteCorrected | main.py:1427-1496 | corrected: rejects exactly the drops the route as written rejects, and builds the command in one pass |
| AppletRouting.Forward | main.py:1480-1496 | a built command is forwarded with the request fields exactly when linked and heavy, and run on the device otherwise |
| AppletRouting.ExactTriggerWins | main.py:1441-1442 | an exact `drop_triggers` entry with a non-empty id decides the trigger |
| AppletRouting.WildcardTriggerFirst | main.py:1445-1449 | without an exact entry, the first wildcard key in dictionary order that the type starts with decides the trigger |
| AppletRouting.NoTrigger | main.py:1441-1449 | with neither kind of entry there is no trigger id |
| AppletRouting.WildcardIsLiteralPrefix | main.py:1447 | `image/*` also matches `imagex/y`, because the test is a plain prefix test on `image` |
| AppletRouting.ActionById | main.py:1451-1453 | a trigger id selects the first action carrying that id |
| AppletRouting.ActionByMime | main.py:1455-1462 | when the trigger id is empty or no action carries it, an action is found exactly when some action accepts the type, and it is the first such action |
| AppletRouting.QuotedPathIsOneArgument | main.py:1474-1476 | corrected: with the one-pass substitution, in a template holding one `%F` or `%f`, the path becomes exactly one shell word that reads back as the path |
| AppletRouting.TwoPassQuotedPath | main.py:1474-1476 | as written, the same holds when neither the template around the placeholder nor the path contains a `%` |
| AppletRouting.RouteAsWrittenSplitsPath | main.py:1474-1477 | as written, dropping `x %f;y` on a `%F` action runs `'x 'x %f;y';y'` on the device; the corrected route runs the quoted path |
| AppletRouting.RemoteOnlyWhenConnected | main.py:1480-1496 | an unlinked shell never forwards; when a linked shell runs a command locally, it runs the same command as an unlinked one |
| AppletRouting.ResizeExample | main.py:1427-1496 | a resize applet with an `image/*` trigger, given a PNG whose path has no `%`, builds `convert <quoted path> out.png` both as written and corrected |
| AppletRouting.ExactPrecedenceExample | main.py:1441-1449 | `text/plain` picks its exact entry over `text/*` |
| AppletRouting.SubstituteFirstToken | main.py:1476 | single-pass substitution replaces the first token and leaves the inserted path untouched |
| AppletRouting.AsWrittenBreaksQuoting | main.py:1476 | the two chained replacements turn path `x %f;y` with template `%F` into text that is not one shell word |
| AppletRouting.OnePassKeepsQuoting | main.py:1475-1476 | with one pass the same path stays one shell word |
| Shell.QuoteIsOneWord | main.py:1475 | `shlex.quote` output is one shell word whose value is the original string |
| Shell.Quote | main.py:1475 | the empty string is `''`, a safe string is unchanged, anything else is single-quoted with `'` escaped |
| StreamCodec.DrainShape | main.py:632-640 | corrected: the front-only peeling loop takes at most one value per character and keeps a suffix of the buffer that starts with no blank and does not decode |
| StreamCodec.DrainShapeAsWritten | main.py:632-640 | as written, the `strip()` loop takes at most one value per character and keeps text with no blank at either end that does not decode |
| StreamCodec.AsWrittenRestNotSuffix | main.py:633 | as written, the kept text need not be a suffix of the buffer: `"a ` followed by a blank keeps `"a` |
| StreamCodec.DrainRemainderStable | main.py:632-640 | corrected: what the front-only loop keeps yields nothing more until new text arrives |
| StreamCodec.DrainRemainderStableAsWritten | main.py:632-640 | as written, what the `strip()` loop keeps yields nothing more until new text arrives |
| StreamCodec.DrainAppend | main.py:631-640 | corrected: for the front-only loop, with a decoder that ignores text after a complete value, peeling `a + b` equals peeling `a`, then the remainder followed by `b` |
| StreamCodec.ChunkingInvariance | main.py:625-640 | corrected: for the front-only loop, how the stream is cut into reads does not change the values delivered or the remainder |
| StreamCodec.AsWrittenLosesBlank | main.py:633 | with the two-sided strip, a JSON string cut right after a blank arrives without the blank |
| StreamCodec.KeepsBlank | main.py:632-640 | with the front-only strip, the same chunks deliver the string with its blank |
| Vigia.Client.Connect | main.py:573-610 | success exactly when the reply is an object whose status is `auth_ok`; the PIN request is sent once the socket connects; the link flag, the socket state and the listener count follow each failure path |
| Vigia.Client.SendCommand | main.py:612-620 | nothing is sent unless linked with a socket; a failed send drops the link and schedules the connection-lost hook |
| Vigia.Client.ListenLoop | main.py:622-645 | the values scheduled for dispatch, in order, then the connection-lost hook, are those of the receive-loop function over the reads, peeled with `strip()` as written; the link ends when a read fails or returns nothing |
| Vigia.PeelValues | main.py:632-640 | the inner loop computes the peeling function as written, stripping both ends of the buffer |
| Vigia.Receive | main.py:625-644 | the outer loop computes the receive-loop function as written |
| Vigia.ListenIsChunkingInvariant | main.py:625-640 | corrected: with the front-only strip, a session of non-empty reads delivers what one read of their concatenation would |
| Vigia.ListenChunksAsWritten | main.py:625-640 | as written, a session of non-empty reads delivers what peeling each read after the previous remainder delivers, and never ends |
| Vigia.ListenLosesBlank | main.py:633 | as written, the reads `"a ` and `b"` deliver `ab`, while the corrected loop delivers `a b` |
| Vigia.ListenStopsAtClose | main.py:627-630 | a first read that fails or is empty ends the session with nothing delivered |
| Vigia.DispatchesAppend | main.py:637 | dispatches are scheduled one per value, in order |
| Vigia.ProcessMessage | main.py:647-652 | a `files` entry replaces the remote files; otherwise a `batch_update` or `fs_event` command requests a listing; other objects are ignored |
| Vigia.CommandOf | main.py:648 | a truthy `type` is the command, otherwise `command` |
| Vigia.FilesWin | main.py:649-650 | a `files` entry wins whatever `type` or `command` says |
| Vigia.TypeShadowsCommand | main.py:648-652 | a non-empty `type` hides `command` |
| Vigia.CommandFallback | main.py:648-652 | without a truthy `type`, `command` decides whether a listing is requested |
| Vigia.BothSchemas | main.py:648-652 | both message schemas reach the listing request, and a `ping` type shadows an `fs_event` command |
| MobileApp.App.TriggerAppletAction | main.py:1427-1496 | the outcome is the route as written for the current link state; a local command is logged; a remote one goes through the client's send, with the client's outbox, link flag and scheduled calls as the send leaves them |
| MobileApp.App.OnConnectionLost | main.py:3091-3095 | unlinks and empties the remote files, nothing else |
| MobileApp.App.UpdateRemoteFiles | main.py:3097-3099 | the remote files become the given value exactly when it is a list; any other value raises and leaves them as they were; nothing else changes |
| MobileApp.App.RunCallback | main.py:637-652 | a dispatched message updates the files, sends a listing request or does nothing, as its reaction says; it raises exactly for a message that is not an object or a `files` value that is not a list; a connection-lost callback runs the hook |
| MobileApp.App.ToggleVigiaConnection | main.py:3069-3089 | a linked shell unlinks and the client's socket, outbox and calls stay as they were; an empty PIN changes nothing; otherwise the flag, the PIN request sent, the socket state and the listener count follow the handshake |
| MobileApp.App.ToggleTaskSwitcher | main.py:2531-2540 | flips the switcher flag and nothing else |
| MobileApp.App.LaunchDynamicWidget | main.py:2451-2494 | a missing entry point changes nothing; an app already running is resumed; a loaded module with `get_widget` shows a new window and registers it under its id; a module without it, or one that fails, changes nothing |
| MobileApp.App.RegisterAndroidTask | main.py:2513-2520 | the package is stored, or overwritten in place, with its nice name, icon `android` and the start time |
| MobileApp.App.ResumeTask | main.py:2615-2632 | toggles the switcher, then fails exactly when the reference has no `:`; a running internal app's window is raised; a host package gets an intent on Android |
| MobileApp.App.KillSingleTask | main.py:2634-2657 | fails exactly when the reference has no `:`; an internal app loses its window and entry; a host package loses its entry and gets a kill request on Android, even when it was not registered |
| MobileApp.App.KillAllTasks | main.py:2663-2683 | every internal window is removed in dictionary order, on Android every package gets a kill request in order, both dictionaries end empty and the switcher toggle is scheduled |
| MobileApp.WindowRemovals | main.py:2668-2670 | the first loop removes the windows of all keys, in order |
| MobileApp.KillRequests | main.py:2674-2676 | the second loop requests a kill for every package, in order |
| TaskRegistry.Put | main.py:2481-2485 | `d[k] = v` keeps each key once; a new key goes to the end, and an existing key keeps its place |
| TaskRegistry.Remove | main.py:2648 | `del d[k]` removes exactly that key and keeps each remaining key once |
| TaskRegistry.RemoveKeepsOthers | main.py:2648 | other keys keep their values and their order |
| TaskRegistry.PutExisting | main.py:2516-2520 | rewriting an existing key keeps the key order, and rewriting the same value changes nothing |
| TaskRegistry.NiceName | main.py:2515 | as long as the package's last dotted part |
| TaskRegistry.NiceNameOfPackage | main.py:2515 | `prefix.last` shows `last` capitalised |
| TaskRegistry.NiceNameUndotted | main.py:2515 | a package without dots shows itself capitalised |
| TaskRegistry.ParseTaskRef | main.py:2619 | `split(':', 1)` unpacks exactly when there is a `:`, and the parts rebuild the reference |
| TaskRegistry.TaskRefRoundTrip | main.py:2461 | `kind:id` reads back as kind and id, even when the id holds `:` |
| Icons.FactoryUniversal | main.py:396-397 | a directory named `*.appicon` is a universal app |
| Icons.AppiconFileIsNoIcon | main.py:394-403 | a plain file `*.appicon` is no icon unless it looks like a host package |
| Icons.FactoryAndroid | main.py:400-401 | `android:<pkg>` is the host package `pkg`, which keeps any further `:` |
| Icons.AndroidPackageIsTail | main.py:490 | every host icon's package is its path after `android:` |
| Icons.MobileSection | main.py:423 | a missing `mobile` entry reads as an empty object; an entry that is not an object makes the lookup fail |
| Icons.OwnNameWins | main.py:422 | a truthy `nome_exibicao` is the universal app's name |
| Icons.MobileNameNext | main.py:423 | otherwise the `mobile` section's truthy name is used |
| Icons.UniversalShowsStem | main.py:424 | with no name in the manifest, `<stem>.appicon` shows `stem` when the stem holds no `/` and does not itself contain `.appicon` (`replace` removes every occurrence) |
| Icons.WebShowsStem | main.py:473-474 | `<stem>.webicon` shows `stem` when the stem holds no `/` and does not itself contain `.webicon` (`replace` removes every occurrence) |
| Icons.AndroidShowsPackage | main.py:495-496 | a host icon shows its package |
| Icons.ReadUrl | main.py:479-485 | an unreadable file gives no URL; otherwise the result is the stripped rest of the first `URL=` line |
| Icons.UrlOfFirstLine | main.py:482-483 | the first `URL=` line decides, and later lines do not matter |
| Icons.NoUrlLine | main.py:482-485 | without a `URL=` line there is no URL |
| Icons.UrlRoundTrip | main.py:479-485 | the one line `URL=<u>` reads back as `u` when `u` has no surrounding blanks |
| Metadata.SidecarBesideFile | main.py:656-659 | the sidecar is `.<name>.json` in the file's own directory |
| Metadata.SidecarsDistinct | main.py:656-659 | files with different names never share a sidecar |
| Metadata.VersionsBesideFile | main.py:661-663 | the versions directory is `.versions` beside the file |
| Metadata.BackupSelected | main.py:700 | a backup named as `save_version` names it (lines 685-687) is taken, by the corrected filter, for exactly the file it was made from |
| Metadata.BackupSelectedAsWritten | main.py:700 | the suffix filter as written takes every true backup |
| Metadata.AsWrittenListsForeignBackup | main.py:700 | as written, the backups of `ba.txt` are listed as versions of `a.txt` |
| Metadata.BackupsMembers | main.py:698-701 | a path is collected exactly when some listing entry ends with the file's name, is not the name itself, and joins to it |
| Metadata.GetVersions | main.py:694-703 | a missing directory gives no versions; otherwise the listing entries taken by the suffix filter as written, joined to the directory and sorted in reverse |
| Metadata.VersionsAreBackups | main.py:694-703 | the list is newest first and holds exactly the joined entries the filter as written selects |
| Metadata.EveryBackupListed | main.py:694-703 | every backup `save_version` made of the file (lines 685-687) is among the versions returned |
| StringOrder.Sort | main.py:2940 | `sorted` gives an ascending permutation of its input |
| StringOrder.SortDescendingSpec | main.py:702 | `sort(reverse=True)` gives a descending permutation of its input |
| Desktop.ParseTagsAreTags | main.py:992 | every parsed tag is non-empty, has no blank at either end and holds no comma |
| Desktop.TagsRoundTrip | main.py:992 | tags shown joined by `, ` as the properties dialog shows them (line 968) parse back to the same list |
| Desktop.ParseTagsIdempotent | main.py:992 | showing and re-parsing parsed tags changes nothing |
| Desktop.FilterDesktopItems | main.py:2935-2960 | no result when the folder is missing or cannot be listed; otherwise the sorted listing filtered by the lower-cased, stripped query |
| Desktop.TagMatch | main.py:2954 | true exactly when some tag, lower-cased, contains the query |
| Desktop.ShownMembers | main.py:2943-2960 | an item is shown exactly when it is listed and matches |
| Desktop.ShownAscending | main.py:2940-2960 | the filter keeps the sorted order |
| Desktop.FilterShowsMatches | main.py:2935-2960 | the result is ascending and holds exactly the matching listed items |
| Desktop.EmptyQueryShowsVisible | main.py:2944-2947 | an empty query shows exactly the items not starting with a dot |
| Desktop.CandidatesDistinct | main.py:3249-3254 | different counters give different paths |
| Desktop.CandidateIsNew | main.py:3251-3254 | each round of the search tries a path that was not tried before |
| Desktop.FreeCandidate | main.py:3249-3254 | the search ends on the first candidate that does not exist, and every earlier candidate exists |
| Desktop.AskName | main.py:3228-3262 | the template of the menu choice, the first free candidate path, and the creation step as written for it (a universal app becomes a plain file) |
| Desktop.Create | main.py:3256-3261 | corrected: a universal app becomes a directory holding its manifest, a folder a directory, anything else a file |
| Desktop.CreateAsWritten | main.py:3256-3261 | as written: an item type ending in `appicon` becomes a directory holding its manifest, a folder a directory, anything else a file |
| Desktop.AsWrittenUniversalIsPlainFile | main.py:3256-3261 | as written, a new universal app is a plain `*.appicon` file, and the icon factory rejects such a file |
| Desktop.UniversalIsBundle | main.py:3229-3238 | made as intended, the new universal app is a bundle that the factory accepts and that shows "Meu App Universal" |

## Left out

- Sockets, threads and Kivy's `Clock` are not modelled as such. The outcome
  of each socket call is an input, and scheduled calls are a log of
  callbacks (`Vigia.Callback`).
- UTF-8 decoding of a read is not modelled; a read that cannot be decoded
  is a failed read (`RecvFailed`).
- JSON parsing of the handshake reply is an input (`Handshake`).
  `raw_decode` is a decoder parameter with two stated properties. Encoding
  with `json.dumps` is taken to be the identity on `Json.Value`.
- Bubbles, toasts, `print`, vibration, animations and every widget are
  left out. Windows are numbers, and visible actions are `MobileApp.Effect`
  entries.
- `MobileApp.App.KillSingleTask`: the kill animation is taken as completed
  at once, so the removal that `on_dead` performs happens in the call.
- The card widget's removal from the task list is left out.
- `minimize_internal_app`, `populate_task_switcher` and
  `_create_task_card` are outside the core and are not modelled.
- `time.time()` and `time.strftime` are parameters (`now`, `clock`).
- The module import in `launch_dynamic_widget` is an input (`LoadResult`).
  So is the existence of the entry point.
- `AppletRouting.Applet`: the applet descriptor is taken as typed records.
  In the source, `"drop_triggers": null` raises at `.get` (main.py:1441),
  an action that is not an object raises at `a.get` or `action.get`
  (main.py:1453, 1457), and a trigger value that is not a string is
  truth-tested and compared as it is. None of this is modelled.
- `Strings.Lower` and `Strings.Capitalize` map ASCII letters only.
  Python's full Unicode case mapping is not modelled.
- `Desktop.FilterDesktopItems`: tag, status and state values are taken to
  be strings (`Desktop.Attrs`). In the source a `tags` value that is a
  JSON string is iterated one character at a time, and an object over its
  keys, without raising; a non-iterable `tags` value, or a truthy `status`
  or `state` that is not a string, raises. A sidecar whose JSON is not an
  object (a list, say) is returned as it is by `get_attributes` (main.py:669),
  and `attrs.get` then raises. None of these cases is modelled.
- Reading a sidecar (`get_attributes`) is a function parameter.
- `set_attribute`, `save_version`, `restore_version` and the file writes
  of `ask_name` are not modelled as I/O. `ask_name`'s result is the
  `Desktop.Creation` it would perform, and its I/O errors are not
  modelled.
- `get_display_icon` and the `execute` methods of the icons are outside
  the core.
- `Vigia.Client.ListenLoop` returns the unconsumed buffer as `pending`,
  because in Python the buffer is a local of the loop.
- `StringOrder.Sort` orders by code point as Python does. It is an
  insertion sort, not Timsort; only the result matters.
- `Paths` covers POSIX `os.path` (`/` separators).
- `StreamCodec.PrefixStable`: `raw_decode` does not have this property for
  a bare top-level number (`1` decodes, `12` decodes differently), so
  `StreamCodec.ChunkingInvariance` and `Vigia.ListenIsChunkingInvariant`
  apply to peers that send no bare numbers. The peer sends objects.
- `MobileApp.App.UpdateRemoteFiles`: the widget loop over the entries is
  not modelled, so an entry that is not an object (where `f.get` raises
  after the list is stored) is not reported as raising.
- The consequence of an exception inside a scheduled call (Kivy's handling
  of it) is not modelled; `MobileApp.App.RunCallback` reports it as `raised`.
- `StreamCodec.DrainShape`: proved for the corrected front-only loop. As
  written, the kept text is not a suffix of the buffer
  (`StreamCodec.AsWrittenRestNotSuffix`); what does hold is
  `StreamCodec.DrainShapeAsWritten`.
- `StreamCodec.DrainRemainderStable`: proved for the corrected loop; the
  loop as written has the same property in
  `StreamCodec.DrainRemainderStableAsWritten`.
- `StreamCodec.DrainAppend`: proved for the corrected loop only. As
  written, peeling `a + b` can differ from peeling `a` and then the
  remainder with `b` (`StreamCodec.AsWrittenLosesBlank`).
- `StreamCodec.ChunkingInvariance`: proved for the corrected loop only,
  for the same reason.
- `StreamCodec.DrainAsWritten`: chunking invariance is proved only for the
  corrected loop. For the loop as written, the counterexample in Findings
  shows it does not hold.

## Findings

| source | as written | input that shows it | evidently intended | confidence | as-written member | corrected member |
|---|---|---|---|---|---|---|
| main.py:1476 | `cmd_template.replace("%F", safe_path).replace("%f", safe_path)` substitutes again inside the already inserted path | path `x %f;y`, template `%F`: the command becomes `'x 'x %f;y';y'`, which is not one shell word, so `;y'` is run as a second command | every `%F`/`%f` of the template is replaced once and the path stays one quoted argument | not executed | AppletRouting.AsWrittenBreaksQuoting | AppletRouting.OnePassKeepsQuoting |
| main.py:633 | `buffer = buffer.strip()` also strips the end of an incomplete remainder | reads `"a ` and `b"` deliver the string `ab`; the same text in one read delivers `a b` | only the blanks in front of the next value are skipped (`lstrip`), so the result does not depend on how reads are cut | not executed | StreamCodec.AsWrittenLosesBlank | StreamCodec.KeepsBlank |
| main.py:3256-3259 | the directory test is `item_type.endswith("appicon")`, and the menu's item type is `app_universal` | item type `app_universal`: the starter manifest is written to a plain file `NovoApp.appicon`, which `AppIcon.factory` rejects | a new universal app is a `NovoApp.appicon` directory holding `app.manifest` | not executed | Desktop.AsWrittenUniversalIsPlainFile | Desktop.UniversalIsBundle |
| main.py:700 | `f.endswith(filename) and f != filename` takes any entry ending in the file's name | the backup `2024-01-01_00-00-00_ba.txt` of `ba.txt` is listed as a version of `a.txt` in the same folder | only entries `<timestamp>_<filename>`, as `save_version` names them, are versions | not executed | Metadata.AsWrittenListsForeignBackup | Metadata.BackupSelected |
