# hyprlua core, modelled in Dafny

hyprlua is a Hyprland plug-in with two sources of events.

- **IPC event reader** (`src/socket.cpp`). It reads the compositor's event socket. Each received chunk is split at the first `">>"` into an event type and a payload. The type is looked up in a fixed table of eight handlers. Each handler prints one line. The workspacev2, focusedmon, activewindow and openwindow handlers split the payload at commas with `find(',')` and `substr`. The fullscreen handler converts it with `std::stoi`. The other three print it unchanged.
- **File watcher** (`src/watcher.cpp`, class `FileWatcher`). It polls an inotify descriptor on a directory. It walks each buffer of variable-length records and keeps the records whose name, appended to the directory, is the tracked file. It sends a "File was modified" notification only when more than 500 ms have passed since the last one.

Around these two sit three smaller pieces:

- `expandTilde` (`src/utils.cpp`);
- the monitor functions exposed to Lua (`src/lua/monitors.cpp`): the `"%dx%d"` parse of a resolution or position with its defaults, the monitor-rule fields, and the null-skipping monitor list;
- the once-only Lua runtime initialisation (`src/lua/runtime.cpp`).

The modules follow the source:

| module | file | what it holds |
|---|---|---|
| `Basics` | `basics.dfy` | `Option`, `Result`, `Min` |
| `CppString` | `cpp_string.dfy` | `std::string` `find`, `find_last_of` and `substr` over `size_t` positions: `npos` is 2^64-1 and `npos + 1` wraps to 0; `substr` throws `out_of_range` when `pos > size()`. C strings cut at their first NUL. |
| `CNumbers` | `c_numbers.dfy` | the subject sequence of `strtol` with base 10 (section 7.22.1.4 of C11), shared by `std::stoi` and by the `%d` conversion of `sscanf` (section 7.21.6.2 of C11); `std::stoi` with its two exceptions |
| `Socket` | `socket.dfy` | the handler table, the handlers as functions returning the printed line, `processMessage`, and the recv loop writing into a `char[1024]` buffer |
| `Inotify` | `inotify.dfy` | the record layout described in the inotify(7) manual page: a 16-byte header of four little-endian 32-bit words, then `len` bytes of NUL-padded name |
| `Watcher` | `watcher.dfy` | the record walk, the name filter, the debounce, one loop iteration, and the `FileWatcher` class with `start`/`stop` |
| `Utils` | `utils.dfy` | `expandTilde`, with `$HOME` as an optional parameter |
| `Monitors` | `monitors.dfy` | `add_monitor`, `disable_monitor`, `list_monitors` |
| `Runtime` | `runtime.dfy` | `init_lua_runtime` over the static `initialized` flag, with the file system and the Lua interpreter as given answers |

Values the program gets from outside become inputs:

- `recv` results become a sequence of `Recv` outcomes.
- `read` results on the inotify descriptor become `ReadOutcome`s. Each carries a clock reading, in milliseconds, for every record.
- The outcome of `inotify_init1`/`inotify_add_watch` becomes a `Setup`.
- `getenv("HOME")` becomes an `Option<string>`.
- Whether the compositor finds a monitor becomes a `bool`.
- What `fs::exists` answers and which scripts fail become an `Env`.

Integer widths are written out where they matter:

- `size_t` arithmetic wraps modulo 2^64.
- `int` results are checked against -2^31 .. 2^31-1.
- inotify header words are 32-bit and little-endian.

Behaviour the model keeps as the code has it:

- **No `">>"` in a message.** The message is not rejected. The event type is the whole message, and the data is the message minus its first character, because `npos + 2` wraps to 1 (`Socket.SplitMessage`).
- **Empty message.** `substr(1)` throws `out_of_range` and nothing catches it. The recv loop ends with `Uncaught` (the process would terminate; `Socket.NulChunkUncaught`). The same happens when `std::stoi` throws in the fullscreen handler (`Socket.ReadLoopStopsAtFirstThrow`).
- **Negative `recv` result.** The loop ends with "Error receiving data". There is no retry of any kind.
- **No reload.** A change to the tracked file only sends a notification; no script is re-run.
- **Payload fields.** Four handlers split the payload at commas: workspacev2, focusedmon, activewindow and openwindow. `handleOpenWindow` passes an index where `substr` expects a length. The fullscreen handler reads it with `std::stoi`, and the workspace, activewindowv2 and closewindow handlers print it unchanged.

## Model

| member | source | states |
|---|---|---|
| CppString.Find | src/socket.cpp:91 | `std::string::find` from a start index, npos when nothing occurs; no contract of its own, stated by `FindFirst`, `PastFind` and `Socket.FindChar` |
| CppString.FindFirst | src/socket.cpp:91 | `find` gives npos or an occurrence at or after the start, and no occurrence lies between the start and it |
| CppString.PastFind | src/socket.cpp:43-45 | one past a `find` result never lies beyond the end: npos + 1 wraps to 0, any other result r gives r + 1 |
| CppString.FindLastOf | src/socket.cpp:81 | `find_last_of(c)`; no contract of its own, stated by `FindLast` |
| CppString.FindLast | src/socket.cpp:81 | `find_last_of(c)` gives npos or an index holding c, and no c lies after it |
| CppString.Substr | src/socket.cpp:44-45 | `substr(pos, count)` throws `out_of_range` exactly when pos > size(), otherwise gives min(count, size - pos) characters from pos: count is a length |
| CppString.NulIndex | src/socket.cpp:125-126 | the first NUL of a buffer, or its length when it has none |
| CppString.CString | src/socket.cpp:126 | the string built from a char buffer is a NUL-free prefix of it |
| CppString.CStringWithoutNul | src/socket.cpp:126 | a buffer without NUL gives the whole buffer |
| CNumbers.SkipSpace | src/lua/monitors.cpp:38 | strtol skips exactly the leading white space |
| CNumbers.DigitsEnd | src/lua/monitors.cpp:38 | strtol takes the longest run of digits |
| CNumbers.ScanDecimal | src/lua/monitors.cpp:38 | a conversion consumes at least one digit and stops right before a non-digit or the end |
| CNumbers.ScanFormattedAt | src/lua/monitors.cpp:38 | the decimal text of any int n followed by a non-digit reads back as n, ending right after it |
| CNumbers.ScanFormatted | src/lua/monitors.cpp:38 | the same with any text in front of the number |
| CNumbers.Stoi | src/socket.cpp:68 | `std::stoi`: invalid_argument exactly when nothing converts, out_of_range exactly when the value does not fit an int, otherwise the converted int |
| CNumbers.StoiFormatted | src/socket.cpp:68 | `std::stoi` of the decimal text of any int, followed by a non-digit or nothing, succeeds with that int |
| Socket.EventHandlersTable | src/socket.cpp:26-35 | the table has exactly the eight event names, each bound to a different handler |
| Socket.FindChar | src/socket.cpp:43 | `find(',')` is npos exactly when there is no comma, otherwise the first comma |
| Socket.CommaFields | src/socket.cpp:43-45 | with no comma both fields are the whole payload; otherwise the first is comma-free and payload == first + "," + second |
| Socket.CommaFieldsOfJoin | src/socket.cpp:50-52 | splitting a + "," + b with comma-free a gives back (a, b) |
| Socket.AfterLastComma | src/socket.cpp:81 | handleOpenWindow's title, with the npos + 1 wrap; no contract of its own, stated by `AfterLastCommaTitle` and `TitleField` |
| Socket.AddressOf | src/socket.cpp:77-78 | handleOpenWindow's address; no contract of its own, stated by `AddressField` and `FieldsAt` |
| Socket.WorkspaceOf | src/socket.cpp:77-79 | handleOpenWindow's workspace, with the second find as the count; no contract of its own, stated by `WorkspaceField`, `WorkspaceFieldToEnd` and `FieldsAt` |
| Socket.ClassOf | src/socket.cpp:77-80 | handleOpenWindow's class, with the third find as the count; no contract of its own, stated by `ClassFieldOneComma`, `ClassFieldToEnd`, `ClassField` and `FieldsAt` |
| Socket.OpenWindowFields | src/socket.cpp:76-83 | the four printed fields; no contract of its own, stated by `FieldsAt`, `OpenWindowNoComma`, `WorkspaceFieldToEnd`, `ClassFieldOneComma`, `ClassFieldToEnd` and `OpenWindowFieldsOverrun` |
| Socket.AfterLastCommaTitle | src/socket.cpp:81 | the title is a comma-free tail: the whole payload without a comma, otherwise what follows a comma |
| Socket.AddressField | src/socket.cpp:77-78 | the address is everything before the first comma |
| Socket.WorkspaceField | src/socket.cpp:79 | the workspace field starts after the first comma and takes as many characters as the second comma's index, cut at the end of the data, so it runs at least up to and including the second comma |
| Socket.WorkspaceFieldToEnd | src/socket.cpp:79 | with one comma only, the workspace field is everything after it |
| Socket.ClassFieldOneComma | src/socket.cpp:80 | with one comma only, npos + 1 wraps to 0 and the class field is the text before that comma, the address again |
| Socket.ClassFieldToEnd | src/socket.cpp:80 | with exactly two commas, the class field is everything after the second |
| Socket.ClassField | src/socket.cpp:80 | the class field starts after the second comma and takes as many characters as the third comma's index, cut at the end of the data, so it runs at least up to and including the third comma |
| Socket.TitleField | src/socket.cpp:81 | after the last comma comes the title |
| Socket.CommaPositions | src/socket.cpp:77-80 | the three `find` calls of handleOpenWindow return the first three commas |
| Socket.FieldsAt | src/socket.cpp:76-83 | the four printed fields, each as an exact slice of the data given by the first three comma positions |
| Socket.OpenWindowNoComma | src/socket.cpp:76-83 | with no comma, all four fields are the whole data |
| Socket.OpenWindowFieldsOverrun | src/socket.cpp:76-83 | on "a,w,c,t" the address is a and the title t, but the workspace and class fields run past their closing commas |
| Socket.FullscreenLine | src/socket.cpp:67-74 | "entered" exactly when stoi gives 1, "exited" for any other int, the stoi exception otherwise |
| Socket.FullscreenStatus | src/socket.cpp:67-74 | on the decimal text of an int n the line is "entered" exactly when n == 1 |
| Socket.RunHandler | src/socket.cpp:38-87 | only the fullscreen handler can throw |
| Socket.SplitMessage | src/socket.cpp:91-93 | throws exactly on the empty message; splits at the first ">>"; without ">>" gives (message, message minus its first character) |
| Socket.SplitEncoded | src/socket.cpp:91-93 | name + ">>" + payload splits back into (name, payload) when name has no '>' |
| Socket.ProcessMessage | src/socket.cpp:90-93 | an empty message throws out_of_range |
| Socket.DispatchEncoded | src/socket.cpp:95-100 | a known name runs exactly its handler, with exactly the payload, and gives that handler's line, or fails with its exception; an unknown name prints "Unknown event type: " + name and runs nothing |
| Socket.ChunkMessage | src/socket.cpp:125-126 | the std::string built from the NUL-terminated buffer; no contract of its own, stated by `CppString.CString` and `ReceiveInto` |
| Socket.ReadLoop | src/socket.cpp:121-134 | one printed line per consumed outcome, except a chunk that throws; the loop only ends early on 0, a negative result or an exception (the chunk processor is a parameter; the model's loop passes `ProcessMessage`) |
| Socket.ReadLoopStopsAtFirstNonPositive | src/socket.cpp:121-134 | for any chunk processor: chunks before the first 0 or negative result are processed in order, one line each, and that result ends the loop with its message |
| Socket.ReadLoopStopsAtFirstThrow | src/socket.cpp:121-126 | for any chunk processor: chunks before the first one whose processing throws are processed in order, one line each, and that exception ends the loop, uncaught, with no line of its own |
| Socket.NulChunkUncaught | src/socket.cpp:91-93 | a chunk starting with a NUL is the empty message, whose substr(1) throws out_of_range, ending the loop uncaught |
| Socket.ReadLoopIgnoresRest | src/socket.cpp:127-133 | nothing after the first 0 or negative result is read: no retry |
| Socket.TwoFramesThenClose | src/socket.cpp:121-134 | two frames in two reads, then a close: both handlers run in arrival order, then "Connection closed" |
| Socket.ReceiveInto | src/socket.cpp:123-126 | the bytes go to the front of the buffer, a NUL follows them, the rest of the buffer is unchanged, and the message is the buffer's C string |
| Socket.HandleChunk | src/socket.cpp:124-126 | one received chunk is written to the buffer's front with a NUL after it, the rest is unchanged, and it is processed as its C string |
| Socket.ReadFromSocket | src/socket.cpp:121-134 | the buffer loop prints the lines, ends and consumes the outcomes exactly as `ReadLoop` with `ProcessMessage` does |
| Inotify.EventAt | src/watcher.cpp:76 | a record read from a buffer has 32-bit header fields and a name shorter than 2^32 bytes |
| Inotify.NextAt | src/watcher.cpp:90 | the next record's offset, header size plus len; no contract of its own, stated by `DecodeStep` |
| Inotify.DecodeStep | src/watcher.cpp:90 | advancing by the header size plus len stays inside the buffer and leaves one record fewer |
| Inotify.DecodeFrom | src/watcher.cpp:75-91 | the records the pointer walk visits from an offset on; no contract of its own, stated by `DecodeHead`, `DecodeStep` and `DecodeEncodeAfter` |
| Inotify.Decode | src/watcher.cpp:75-91 | the records of a whole buffer; no contract of its own, stated by `DecodeEncode` |
| Inotify.DecodeHead | src/watcher.cpp:76-90 | a record written after any prefix is read back there, and the next one starts right after its name |
| Inotify.DecodeEncodeAfter | src/watcher.cpp:75-91 | records written after any prefix are walked back from there, exactly and in order |
| Inotify.DecodeEncode | src/watcher.cpp:75-91 | walking a buffer of records gives back exactly those records, in order, stopping at the end of the data |
| Watcher.Matches | src/watcher.cpp:78-81 | a record names the tracked file: len > 0 and directory + name == filepath; no contract of its own, stated by `CheckRecord` |
| Watcher.Named | src/watcher.cpp:78-81 | one flag per record |
| Watcher.Debounce | src/watcher.cpp:82-86 | the debounce over a run of records; no contract of its own, stated by `DebounceSnoc`, `DebounceSpaced`, `NoMatchNoSignal`, `BurstSignalsOnce`, `QuietWithin` and `TwoSeparatedSignals` |
| Watcher.DebounceSnoc | src/watcher.cpp:82-86 | one more record sends a notification exactly when it names the file and comes more than 500 ms after the last one, and then moves lastEventTime to it |
| Watcher.DebounceSpaced | src/watcher.cpp:82-86 | notifications are spaced by more than 500 ms, each at the time of a record naming the file, and lastEventTime is the last of them |
| Watcher.SpacedAppend | src/watcher.cpp:82-86 | spacing carries over from one buffer to the next |
| Watcher.SpacedPairwise | src/watcher.cpp:82-86 | any two notifications, not only neighbours, are more than 500 ms apart |
| Watcher.NoMatchNoSignal | src/watcher.cpp:78-81 | records not naming the file never notify and never move lastEventTime |
| Watcher.BurstSignalsOnce | src/watcher.cpp:82-86 | a burst within 500 ms of its first record notifies once |
| Watcher.QuietWithin | src/watcher.cpp:83 | no record within 500 ms of the last notification notifies: the comparison is strict |
| Watcher.TwoSeparatedSignals | src/watcher.cpp:83-85 | two matches more than 500 ms apart notify twice |
| Watcher.FirstMatchNotifies | src/watcher.cpp:67 | lastEventTime starts one second before the loop, so the first match notifies |
| Watcher.PollStep | src/watcher.cpp:72-95 | one loop iteration over one read outcome; no contract of its own, stated by `PollStepSpaced` and `FileWatcher.Iterate` |
| Watcher.AfterPolls | src/watcher.cpp:70-99 | the loop over the first n read outcomes; no contract of its own, stated by `AfterPollsSpaced` and `FileWatcher.Poll` |
| Watcher.PollStepSpaced | src/watcher.cpp:72-95 | one iteration keeps notifications spaced and only appends; a failed read other than EAGAIN is reported |
| Watcher.AfterPollsSpaced | src/watcher.cpp:70-99 | over the whole loop notifications stay spaced and none is lost |
| Watcher.WalkFrom | src/watcher.cpp:75-91 | the pointer walk over one buffer; no contract of its own, stated by `WalkFromDebounce`, `WalkIsDebounce` and `WalkRecords` |
| Watcher.WalkFromDebounce | src/watcher.cpp:75-91 | the pointer walk from any record on is the debounce over the decoded records |
| Watcher.WalkIsDebounce | src/watcher.cpp:75-91 | the walk over a buffer is the debounce over its decoded records |
| Watcher.CheckRecord | src/watcher.cpp:78-83 | a record notifies exactly when it has a name, directory + name is the path, and more than 500 ms have passed |
| Watcher.WalkRecords | src/watcher.cpp:75-91 | the pointer loop computes the walk |
| Watcher.FileWatcher.constructor | src/watcher.cpp:10 | the flag starts set, nothing is running and nothing is notified |
| Watcher.FileWatcher.Iterate | src/watcher.cpp:71-95 | one loop iteration changes the state as the iteration specification says and nothing else |
| Watcher.FileWatcher.Start | src/watcher.cpp:20-67 | a start while the previous thread is still joinable terminates the process and changes nothing else; otherwise init or add-watch failure: one error notification and no loop, else "Monitoring", lastEventTime = start - 1 s, then the loop |
| Watcher.FileWatcher.Poll | src/watcher.cpp:70-103 | one iteration per read while the flag is set; a cleared flag ends the loop and cleans up |
| Watcher.FileWatcher.Stop | src/watcher.cpp:28-33 | clears the flag and joins: a polling thread leaves its loop, and nothing more is notified |
| Utils.ExpandTilde | src/utils.cpp:39-52 | empty stays empty; a leading '~' becomes HOME, or is dropped without HOME; any other path is unchanged |
| Utils.TildeUserIsNotLookedUp | src/utils.cpp:44-48 | "~user/x" expands like "~" followed by "user/x" |
| Utils.LaterTildesKept | src/utils.cpp:44 | tildes after the first character stay in place |
| Monitors.ScanDims | src/lua/monitors.cpp:37-43 | sscanf with "%dx%d" over the defaults; no contract of its own, stated by `ScanDimsParts`, `ScanDimsFormatted`, `ScanDimsNoNumber` (any text whose first conversion fails), `ScanDimsFirstOnly` and `ScanDimsWidthOnly` |
| Monitors.ScanDimsParts | src/lua/monitors.cpp:37-39 | two conversions with an 'x' between them store both values |
| Monitors.ScanDimsFormatted | src/lua/monitors.cpp:37-43 | a well-formed "WxH", signed or not, gives (W, H) whatever the defaults |
| Monitors.ScanDimsNoNumber | src/lua/monitors.cpp:37-38 | when the first %d converts nothing (as in "x1080", "abc 1" or "-x5"), both fields keep their defaults |
| Monitors.DigitFreeNoNumber | src/lua/monitors.cpp:38 | in text without any digit the first %d converts nothing |
| Monitors.ScanDimsWidthOnly | src/lua/monitors.cpp:37-38 | only a width parses: the height keeps its default |
| Monitors.ScanDimsFirstOnly | src/lua/monitors.cpp:37-43 | when the first %d converts but no 'x' and number follow it, only the first field is stored and the second keeps its default |
| Monitors.NoDigitsNoScan | src/lua/monitors.cpp:38 | %d converts nothing where no digit follows the leading white space and the optional sign |
| Monitors.AddMonitor | src/lua/monitors.cpp:34-57 | the rule has the name, the resolution and offset parsed from the texts (with their defaults), and disabled = false; applied exactly when the monitor is found, otherwise "Monitor not found: " + name |
| Monitors.AddMonitorFormatted | src/lua/monitors.cpp:37-43 | well-formed texts apply exactly their numbers |
| Monitors.AddMonitorDefaults | src/lua/monitors.cpp:37-43 | texts whose first %d converts nothing apply 1920x1080 at 0x0 |
| Monitors.DisableMonitor | src/lua/monitors.cpp:60-79 | a rule with the name, disabled = true and no geometry, applied exactly when found, otherwise the not-found error |
| Monitors.RulesKeepTheirKind | src/lua/monitors.cpp:34-66 | add_monitor rules are never disabled and carry a resolution; disable_monitor rules are disabled and carry none |
| Monitors.NonNull | src/lua/monitors.cpp:81-90 | never more names than monitors |
| Monitors.ListMonitors | src/lua/monitors.cpp:81-90 | the loop lists the names of the non-null monitors |
| Monitors.NonNullAppend | src/lua/monitors.cpp:84-88 | the names come out in list order |
| Monitors.NonNullNames | src/lua/monitors.cpp:84-88 | a name is listed exactly when a non-null monitor carries it |
| Monitors.NullSkipped | src/lua/monitors.cpp:85-86 | a null entry is skipped as if absent |
| Monitors.NoNullsAllListed | src/lua/monitors.cpp:84-88 | without nulls every monitor is listed, in order |
| Runtime.BindMonitors | src/lua/monitors.cpp:92-97 | binding adds exactly the two monitor functions, keeps every other global, and sends "Binding monitors module" |
| Runtime.Prepared | src/lua/runtime.cpp:34-50 | libraries opened, monitors bound and the hypr table set; no contract of its own, stated by `BindMonitors` and `InitSetsGlobals` |
| Runtime.LoadStep | src/lua/runtime.cpp:55-61 | one module script; no contract of its own, stated by `ExistingScriptRuns`, `MissingScriptSkipped` and `ModuleCheckThrowStops` |
| Runtime.LoadModules | src/lua/runtime.cpp:53-62 | the module loop; no contract of its own, stated by `ExistingScriptRuns`, `MissingScriptSkipped`, `ModuleCheckThrowStops`, `LoadModulesAppend`, `ThrownStops`, `LoadModulesKeeps` and `LuaRuntime.LoadModuleScripts` |
| Runtime.LoadModulesAppend | src/lua/runtime.cpp:54-62 | scripts are loaded in list order, one after another |
| Runtime.ThrownStops | src/lua/runtime.cpp:53-62 | after an exception no further script runs |
| Runtime.ExistingScriptRuns | src/lua/runtime.cpp:55-61 | a script that exists is run and appended to the scripts run; a failing run ends the loop with its exception, otherwise the loop goes on with the next script |
| Runtime.MissingScriptSkipped | src/lua/runtime.cpp:55-59 | a missing script only adds "Module not found: " + path, and the loop goes on |
| Runtime.ModuleCheckThrowStops | src/lua/runtime.cpp:53-62 | a script whose existence check throws is not run, and the loop ends there with that exception |
| Runtime.LoadModulesKeeps | src/lua/runtime.cpp:54-62 | the loop only appends to the run scripts and the notifications, and leaves the flag and the globals alone |
| Runtime.InitRuntime | src/lua/runtime.cpp:26-88 | init_lua_runtime; no contract of its own, stated by `InitOnce`, `InitializedExactly`, `MissingConfigRetried`, `ConfigErrorStillInitializes`, `ExceptionStillInitializes`, `ConfigCheckThrowStillInitializes`, `InitSetsGlobals` and `LuaRuntime.Init` |
| Runtime.AfterModules | src/lua/runtime.cpp:64-87 | the config step and the catch; no contract of its own, stated by the same lemmas and `LuaRuntime.RunUserConfig` |
| Runtime.InitOnce | src/lua/runtime.cpp:27-30 | once the flag is set, a call changes nothing |
| Runtime.InitializedExactly | src/lua/runtime.cpp:26-88 | the flag ends up set exactly when it was, a module script threw, checking the config threw, or the config exists |
| Runtime.MissingConfigRetried | src/lua/runtime.cpp:65-69 | a missing config leaves the flag clear after "Cant find: " + path, so a later call with the config present sets it |
| Runtime.ConfigErrorStillInitializes | src/lua/runtime.cpp:71-76 | a failing config sends "Error executing: " + path and still sets the flag |
| Runtime.ExceptionStillInitializes | src/lua/runtime.cpp:78-85 | an exception skips the config, is logged when the log opens, and still sets the flag |
| Runtime.ConfigCheckThrowStillInitializes | src/lua/runtime.cpp:65-87 | when checking the config throws, the config is not run, nothing is notified, the exception is logged when the log opens, and the flag is still set |
| Runtime.InitSetsGlobals | src/lua/runtime.cpp:48-50 | hypr.version is "0.1.0", hypr.monitors is an empty table, and both monitor functions are bound |
| Runtime.LuaRuntime.constructor | src/lua/runtime.cpp:19-20 | the flag starts clear and the Lua state empty |
| Runtime.LuaRuntime.BindMonitorsInto | src/lua/monitors.cpp:92-97 | the state after bind_monitors |
| Runtime.LuaRuntime.LoadModuleScripts | src/lua/runtime.cpp:54-62 | the for loop with its `continue` computes the module-loop specification |
| Runtime.LuaRuntime.Init | src/lua/runtime.cpp:26-88 | the imperative initialisation, with its early returns and catch, computes the initialisation specification |
| Runtime.LuaRuntime.RunUserConfig | src/lua/runtime.cpp:64-87 | the config step after the module loop, with the throwing existence check, the early return and the catch, computes the rest of the initialisation specification |

## Left out

- Threads and atomics. `std::thread`, joining, and the atomic flag's cross-thread behaviour are not modelled. `FileWatcher.Start` follows the watch thread up to a point given by the read outcomes, and `FileWatcher.Stop` lets a polling thread finish. A start over a still-joinable thread is the `terminated` flag: the process end that `std::terminate` causes is not modelled beyond it.
- Time. `steady_clock` readings are given per record, in milliseconds. `sleep_for(500ms)` has no effect in the model.
- Socket set-up. `socket`, `connect`, the hard-coded socket path and `main` in `src/socket.cpp` are not modelled. The loop starts at the first `recv`.
- Standard streams. Handler output is the returned line. The recv loop's error messages are `Err` lines. Every other `std::cout`/`std::cerr` line is not modelled, including "Lua runtime already initialized", "Initializing Lua runtime..." and the config error text.
- The logger (`logger.hpp`): file output, timestamps, the mutex and every `log::` call but one. The exception is the `NotFound` outcome of `add_monitor` and `disable_monitor`, which carries the text of their `log::error` (src/lua/monitors.cpp:50 and :71). The `std::cerr` line beside it, "[hyprlua] Monitor not found: " + name, is not modelled. Also left out are the monitor names `init_lua_runtime` logs after calling `list_monitors`. Those names only go to the log, so `Init` does not call `ListMonitors`.
- Notification colours and durations are not modelled. A notification is its text, or a `Notice` value in the watcher.
- `src/main.cpp` and `src/globals.cpp` are not part of this model. They hold the plug-in entry points, a second record walk and a duplicate `sendNotification`.
- Lua and sol2. Running a script is an `Env` answer: it exists, and it runs or fails with a message. `set_function` records a `Function` value. `open_libraries` records the library names. The effect a script has on the Lua state is not modelled. A failing module script is taken to throw, as sol2's default `script_file` handler does. `fs::exists` may throw on any path it checks (`existsThrows`). `safe_script_file` on the config is taken not to throw.
- The compositor. `getMonitorFromName` is the `found` input, and `applyMonitorRule` is the `Applied` outcome.
- The float `scale` and the `workspaces` argument of `add_monitor` are not modelled. They only feed the rule's scale field and the debug log.
- `SMonitorRule` fields the code does not set keep their defaults. The model writes them as `None` and does not give their values.
- `Monitors.AddMonitor`: a `%d` value outside the `int` range is undefined behaviour under section 7.21.6.2 of C11. The model gives `None` for it and states nothing more.
- `Socket.ProcessMessage`: its own contract states only the empty-message failure. What it does with a frame is stated by `Socket.DispatchEncoded` and `Socket.SplitMessage`.
- `Watcher.FileWatcher.Iterate`: the "File was modified" notifications of one buffer are appended after the walk. Nothing else is sent in between, so the order is the same.
- `Watcher.FileWatcher.Start`: the flag is never set again after `stop()`, because `start()` does not reset it. So a watcher restarted after `stop()` sets up and returns without polling.
- `Inotify.DecodeEncode` proves decode after encode only. The other direction, encode after decode, is not needed, because the model never produces these buffers: the kernel writes them.
- Buffer alignment and a record cut across two reads. The kernel only returns whole records, so each buffer is taken to be a whole number of records.
