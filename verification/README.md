# Browsor decision core in Dafny

Browsor is a Windows browser picker. Opening a link starts Browsor instead of
a browser. It reads the installed browsers from the registry and drops the
ones the user's `config.yml` hides. It ranks them by how often each was
chosen in a similar context (source application, URL, TLD, weekday and hour,
recorded in an SQLite database). A small WinUI window then lets the user
pick one with the mouse or the keyboard.

This project models the decision rules between the OS and GUI plumbing and
the database:

- the selection repository: upserting browsers, looking them up by path hash, recording a choice, predicting a ranking, extracting the TLD, building WHERE clauses;
- the schema migrator;
- the background worker, as a sequential state machine;
- normalising the registry's browser list: the quoted-path parser, sort and de-duplication, the subtitle, the binary type, the version-resource translation and block names;
- the host's rules: the target URL, the hide filter (as the program folds it, and the corrected rule), the selection handler, the configuration defaults;
- the keyboard and window event handler;
- the pure helpers of the Windows UI: colour test, theme, monitor choice, centring, shortcut labels, tag search, the selected item.

Conventions:

- A Rust panic is `Err(Panic(..))` and a returned Rust error is `Err(Failure(..))` (module `Wrappers`). So every operation is total and its failure cases are part of its contract.
- Rust's string operations used by the code are defined once in `Strings`: `split`, `join`, `find`, `contains`, `trim`, ordering and `{:04x}`.
- A `BTreeMap` is a sorted association list (`SortedMap`).
- Scores are counted in exact tenths of a point.
- The clock, the parsed URL, the registry and version-resource readings, the path hash, the YAML parser and schema validator, and the outcome of each SQL transaction are parameters of the functions that use them.

Files: `wrappers.dfy`, `strings.dfy`, `sorted_map.dfy`, `tld.dfy`,
`repository.dfy`, `prediction.dfy`, `migrations.dfy`, `thread_worker.dfy`,
`os_shared.dfy`, `win_browsers.dfy`, `conf.dfy`, `host.dfy`, `win_ui.dfy`,
`ev_loop.dfy`.

## Model

| member | source | states |
|---|---|---|
| Tld.FindTld | src/data/statistics_repository.rs:303-339 | An unparsable URL is its parse error. An IP host is returned verbatim. A URL without a host panics. For a domain, the answer is the shortest host suffix that is not listed while every shorter suffix is listed. The only error is the panic when every suffix of the host is listed. |
| Tld.SuffixLoop | src/data/statistics_repository.rs:320-336 | The label loop stops at the first suffix (growing leftwards) that is not listed. It panics exactly when all suffixes down to the whole host are listed. |
| Tld.TldIsSuffixOfHost | src/data/statistics_repository.rs:320-338 | A successful extraction is non-empty. It is the host itself or follows some labels and a dot. |
| Tld.LeftBoundaryOnly | src/data/statistics_repository.rs:323-328 | A candidate counts as listed when its first occurrence starts a line. What follows it is not checked, so "co" is listed in "com\n". |
| Repository.UpdateSelections | src/data/statistics_repository.rs:131-142 | Upsert by path keeps the table's invariants (unique paths, ascending ids). No row is removed. Existing rows keep id and path. A mentioned path takes the hash of its last entry. Unmentioned rows are unchanged. New rows are exactly the mentioned, previously absent paths. |
| Repository.UpdateSelectionsIdempotent | src/data/statistics_repository.rs:131-142 | Upserting the same list twice equals upserting it once. |
| Repository.GetSelectionFromHash | src/data/statistics_repository.rs:113-129 | Returns the first row whose hash equals the argument. Returns None iff no row has that hash. |
| Repository.SelectByParamsQuery | src/data/statistics_repository.rs:70-111 | The query starts with `SELECT * FROM <table> WHERE `. |
| Repository.WhereClauseConditions | src/data/statistics_repository.rs:76-87 | Splitting the WHERE clause at commas gives back one `key = :key` condition per non-null field, in field order. |
| Repository.HashLookupQuery | src/data/statistics_repository.rs:113-129 | The hash lookup filters on `path_hash` alone. |
| Repository.NumberFromMonday | src/data/statistics_repository.rs:161 | The weekday number is in 1..7: Monday is 1 and Sunday is 7. |
| Repository.NumberFromMondayInjective | src/data/statistics_repository.rs:161 | Distinct weekdays get distinct numbers. |
| Repository.Hour | src/data/statistics_repository.rs:162 | The hour is in 0..23, and the time of day falls inside that hour. |
| Repository.SaveChoice | src/data/statistics_repository.rs:144-175 | An unknown hash is an error naming the hash. A failed TLD extraction is an error. Success iff both succeed. On success exactly one event is appended: it has the resolved selection id, the weekday number of `now` counted from Monday (1..7), the hour of `now` (0..23), the url, the source, and the extracted TLD. Nothing else changes. |
| Prediction.EntryTenths | src/data/statistics_repository.rs:214-247 | One event adds at most 2.1 points. It adds 2.1 iff all five factors match and 0 iff none match. |
| Prediction.FinalScoreBounds | src/data/statistics_repository.rs:214-271 | A browser's final score (ten times its points plus its event count) lies between its count and 22 times its count. |
| Prediction.NoEventsNoScore | src/data/statistics_repository.rs:216-271 | A browser without recent events scores 0. |
| Prediction.Accumulate | src/data/statistics_repository.rs:216-266 | Accumulation succeeds iff every event names a known browser; otherwise it panics. On success each browser's tally is its event count plus its summed contributions. |
| Prediction.ByScore | src/data/statistics_repository.rs:268-277 | The score-keyed map has exactly the occurring final scores as keys. Each key holds the largest id with that score. |
| Prediction.Predict | src/data/statistics_repository.rs:177-293 | An empty selections table is the error "Selections table is empty.". A TLD error is propagated. An event for an unknown browser panics. Otherwise the result is strictly descending in final score and lists only known browsers. Every occurring score is represented by its largest id. |
| Prediction.TieDropsSmallerId | src/data/statistics_repository.rs:268-290 | When two browsers tie on final score, the one with the smaller id is missing from any ranked prediction. |
| Migrations.LastIndex | src/data/migrations.rs:48-53 | The last index is the largest recorded idx, or -1 when none is recorded. |
| Migrations.Migrate | src/data/migrations.rs:40-70 | The migrations table exists afterwards. Existing rows and executed steps are kept. Exactly the steps after the last recorded index are attempted, in order, and the run succeeds iff all of them commit. With the last index at N-1 nothing happens. Resuming after index k records the first new step with k again. |
| Migrations.FreshRun | src/data/migrations.rs:55-68 | On a fresh store where every step commits, indices 0..N-1 are recorded and each step runs once, in order. |
| Migrations.FailureStops | src/data/migrations.rs:57-68 | A failing step stops the run and returns its error. Earlier steps stay committed and recorded; the failing step is neither executed nor recorded. |
| Migrations.ResumeReappliesStep | src/data/migrations.rs:11-66 | Over the three migrations, a run stopped by step 1 is resumed by recording steps 1 and 2 as idx 0 and 1, leaving idx 0 recorded twice. The next run starts again at step 2, whose `CREATE INDEX sel_browser_hash` already exists, so it fails and changes nothing. A step that was already executed fails when re-executed. |
| Migrations.EveryLaterRunFails | src/data/migrations.rs:40-70 | The failing state after that resume is a fixpoint: since the third run leaves the store unchanged, every later `migrate` call fails the same way. |
| Migrations.AppendedStepReusesIndex | src/data/migrations.rs:40-66 | Without any failure: a database that completed steps 0 .. n-1 and gets one new step runs it and records it with n-1, the index of the last old step, so the store is no longer consistent. |
| Migrations.CorrectedKeepsConsistent | src/data/migrations.rs:55-66 | With the recorded index taken from the step's position, every run keeps "step p executed once and recorded as p", whatever fails. |
| Migrations.CorrectedCompletes | src/data/migrations.rs:55-66 | With that correction, a consistent store whose steps all commit ends with every step executed exactly once. |
| ThreadWorker.RunAsync | src/data/thread_worker.rs:131-142 | Appends exactly one pending entry at the end. Enqueues the task unless the thread has exited. Keeps the queue invariant. |
| ThreadWorker.Run | src/data/thread_worker.rs:118-127 | Enqueues the task, hands out its id and leaves the pending list alone. |
| ThreadWorker.WorkerStep | src/data/thread_worker.rs:91-107 | The thread runs the oldest queued task. It leaves its loop only with an empty queue and the stop flag set. An exited thread does nothing. |
| ThreadWorker.StopDrains | src/data/thread_worker.rs:91-107 | After stop, queue length + 1 iterations run every sent task in order and then exit. |
| ThreadWorker.Stop | src/data/thread_worker.rs:173-175 | Sets the stop flag and changes nothing else. |
| ThreadWorker.IsFinished | src/data/thread_worker.rs:169-171 | Reports the exited flag. |
| ThreadWorker.Tick | src/data/thread_worker.rs:153-167 | Only entries whose task has run are removed, each callback once. Entries still waiting keep their order. Pending and called entries together are the old pending list. Returns true iff entries remain. |
| ThreadWorker.TickRemovesOne | src/data/thread_worker.rs:154-164 | When some pending task has run, tick calls at least one callback. |
| ThreadWorker.AdjacentReadySkipped | src/data/thread_worker.rs:154-164 | Example: with pending entries 0 and 1 both ready, one tick calls 0 only; 1 shifts into the vacated slot and waits for the next tick. |
| ThreadWorker.TickLoopIsPass | src/data/thread_worker.rs:154-164 | From any position, the index loop leaves the earlier entries alone and does exactly what `Pass` does. `Pass` is an independent definition: a ready entry is called and removed, and the entry after it is kept unexamined. |
| ThreadWorker.TickIsPass | src/data/thread_worker.rs:153-167 | One tick is one `Pass` over the whole pending list, both for the entries kept and for the callbacks called, in order. |
| ThreadWorker.ShiftedEntrySkipped | src/data/thread_worker.rs:154-164 | Whenever the loop removes the entry at index i, the entry that shifts into index i is not examined in that tick. It stays pending at index i, ready or not. |
| ThreadWorker.TickLoopPermutes | src/data/thread_worker.rs:154-164 | The loop neither loses nor invents entries: pending plus called is the starting list, as multisets. |
| ThreadWorker.TicksDrain | src/data/thread_worker.rs:153-167 | When every pending task has run, as many ticks as entries empty the list. |
| ThreadWorker.LateSubmissionStaysPending | src/data/thread_worker.rs:131-142 | A callback submitted after the thread exited stays pending, and tick keeps reporting entries. |
| WinBrowsers.ParseExePath | src/os/win/sys_browsers.rs:94-125 | With fewer than two quotes the text is the path and there are no arguments. Otherwise the path holds no quote. No argument holds a space. |
| WinBrowsers.ExePathShape | src/os/win/sys_browsers.rs:99-109 | With two or more quotes, the text is some prefix, the quoted path, and a rest. The arguments joined by spaces are the trimmed text after the closing quote, up to any third quote. |
| WinBrowsers.SortDedup | src/os/win/sys_browsers.rs:137-140 | After sort and dedup the raw paths are strictly ascending. Every survivor is an input entry, and every input path survives. |
| WinBrowsers.AscendingDistinct | src/os/win/sys_browsers.rs:137-140 | After sort and dedup no two entries share a raw path. |
| WinBrowsers.Normalise | src/os/win/sys_browsers.rs:137-153 | One browser per de-duplicated registry entry, in order. Each carries the parsed path, the parsed arguments, its name and its registry icon path. Its version record is the one read from the parsed path, or the default record when that read fails. |
| WinBrowsers.DedupBeforeSplit | src/os/win/sys_browsers.rs:137-145 | `"a"` and `"a" -x` both survive de-duplication and both end with the path `a`, because dedup runs before the split. |
| WinBrowsers.Subtitle | src/os/win/sys_browsers.rs:68-77 | The subtitle is empty iff version, bitness, company and description are all empty. For any set of present fields it is exactly those fields, in the order version, bitness, company, description, joined by " \| ". |
| WinBrowsers.NonEmpty | src/os/win/sys_browsers.rs:74-75 | Every kept piece is non-empty, and nothing is kept iff every field is empty. |
| WinBrowsers.NonEmptyMembers | src/os/win/sys_browsers.rs:74-75 | The filter keeps exactly the non-empty fields: a text is kept iff it is a non-empty field. |
| WinBrowsers.NonEmptyAppend | src/os/win/sys_browsers.rs:73-75 | The filter keeps the fields' order: filtering a concatenation concatenates the filtered parts. |
| WinBrowsers.NonEmptyFour | src/os/win/sys_browsers.rs:68-75 | Filtering the four subtitle fields gives each present field in source order, and nothing else. |
| WinBrowsers.SubtitleAllFields | src/os/win/sys_browsers.rs:68-77 | With all four fields present, they are joined by " \| " in the order version, bitness, company, description. |
| WinBrowsers.SubtitleVersionOnly | src/os/win/sys_browsers.rs:68-77 | With only the version present, the subtitle is the version alone. |
| WinBrowsers.ToListItem | src/os/win/sys_browsers.rs:53-83 | The item's title is the product name, its subtitle is the browser's `Subtitle`, its uuid is the path's hash, and it carries the browser. |
| WinBrowsers.BinaryTypeFromCode | src/os/win/sys_browsers.rs:234-238 | Code 0 is 32-bit, code 6 is 64-bit, and anything else is unknown. |
| WinBrowsers.ReadExeArch | src/os/win/sys_browsers.rs:214-239 | A failed call is an error naming the file. Otherwise the code is mapped. |
| WinBrowsers.CodeDisplay | src/os/win/sys_browsers.rs:234-238 | What the subtitle shows for each code. |
| WinBrowsers.ChooseTranslation | src/os/win/sys_browsers.rs:330-343 | An empty list panics. The choice is one of the entries: one in the user's language if any exists, else a neutral one (0) if any exists, else the first entry. In every case it is the first entry with its language. |
| WinBrowsers.ChooseFirstOfLanguage | src/os/win/sys_browsers.rs:334-343 | The first entry in the user's language is the one chosen. |
| WinBrowsers.ChooseFirstNeutral | src/os/win/sys_browsers.rs:335-343 | With no entry in the user's language, the first neutral entry is the one chosen. Its code page is the one the block names use. |
| WinBrowsers.BaseBlock | src/os/win/sys_browsers.rs:345-348 | The block name is `\StringFileInfo\` followed by eight hex digits. |
| WinBrowsers.BaseBlockRoundTrip | src/os/win/sys_browsers.rs:345-348 | Reading the eight digits back as two hex numbers gives the language and the code page. |
| WinBrowsers.FieldBlocks | src/os/win/sys_browsers.rs:349-351 | Each of the three field blocks extends the base block. |
| OsShared.DefaultBinaryType | src/os/shared.rs:19-23 | The default bitness displays as the empty text. |
| OsShared.Display | src/os/shared.rs:25-36 | Bits32 displays as "32 bits" and Bits64 as "64 bits". Unknown bitness, and only unknown bitness, displays as "". |
| OsShared.DisplayInjective | src/os/shared.rs:25-36 | Different bitnesses display differently. |
| OsShared.LaunchArgs | src/os/shared.rs:56-58 | The command line is the browser's arguments in order, followed by the URL. |
| Conf.DefaultConfig | src/conf.rs:24-32 | The default config has version 1, URL "about:home" and no hide entries. |
| Conf.HideFromRaw | src/conf.rs:5-11 | A missing path or name in a hide entry is empty. A present one is kept. |
| Conf.Deserialize | src/conf.rs:13-22 | A document deserialises iff it has a version within i16. A missing URL is empty. The hide entries are converted one by one. |
| Conf.MissingUrlIsEmpty | src/conf.rs:13-22 | A config file naming only a version gets the empty URL, not the built-in "about:home". |
| Conf.ReadConfig | src/conf.rs:34-76 | A missing, unreadable or empty file gives no config. Unparsable or schema-invalid YAML, and only that, panics. A non-empty file that parses and validates gives exactly its deserialised document, which is no config when the version is missing or outside i16. A config is always the deserialised document. |
| Conf.NoFileMeansDefaults | src/conf.rs:34-76 | Without a config file the built-in defaults apply. |
| Host.TargetUrl | src/main.rs:26 | The first command-line argument if present, else the config's URL. |
| Host.UrlFallback | src/main.rs:23-26 | Without argument and config file the target is "about:home". With a config file lacking the URL it is the empty text. |
| Host.HiddenAsWritten | src/main.rs:51-58 | The fold's verdict is the last hide entry's match alone, or the initial false for an empty list. |
| Host.OnlyLastRuleCounts | src/main.rs:51-58 | A browser matched only by the first of two hide entries is not hidden. |
| Host.EmptyRuleMatchesNothing | src/main.rs:52-57 | An entry with empty path and name hides nothing. |
| Host.Hidden | src/main.rs:51-58 | Hidden iff some hide entry matches. |
| Host.AsWrittenHidesLess | src/main.rs:51-58 | What the program hides, the intended rule hides too. Both agree for at most one entry. |
| Host.Visible | src/main.rs:48-61 | A browser is kept iff it is listed and not hidden. The program's verdict is the fold's; with `corrected`, it is the any-entry rule. |
| Host.VisibleAppend | src/main.rs:48-61 | Filtering keeps the input order, for the program's filter and for the corrected one. |
| Host.NoRulesKeepAll | src/main.rs:48-61 | An empty hide list keeps every browser, for the program's filter and for the corrected one. |
| Host.AsWrittenKeepsMore | src/main.rs:48-61 | Every browser the corrected filter keeps, the program's filter keeps too. |
| Host.EdgeStaysListed | src/main.rs:48-61 | With hide entries (name "Edge") then (path "firefox.exe"), the program lists Edge and the corrected filter drops it. |
| Host.ListItems | src/main.rs:48-63 | One list item per browser the program's fold-based filter keeps, in order. Each item is that browser's `ToListItem`: the product name as title, its `Subtitle`, its path's hash as uuid, and the browser. |
| Host.FindUuid | src/main.rs:73-75 | The position found holds the uuid, and no earlier item has it. No position is found iff no item has the uuid. |
| Host.OnSelected | src/main.rs:72-84 | Selecting a uuid launches the first item with that uuid, with its arguments and the URL. An unknown uuid launches nothing. |
| EvLoop.ListNumberFromVkey | src/ui/ev_loop.rs:141-155 | Keys 1-9 on the main row or keypad, and only those, name positions 0-8. |
| EvLoop.DigitKeysAgree | src/ui/ev_loop.rs:141-155 | Both keys labelled n+1 name position n, and only they do. |
| EvLoop.Clamp | src/ui/ev_loop.rs:77-86 | `clamp` panics iff the bounds are crossed. Otherwise the result lies in the bounds and equals the value when the value is inside. |
| EvLoop.LastIndex | src/ui/ev_loop.rs:68-71 | The list's last index. An empty list panics with overflow checks and gives -1 without them. |
| EvLoop.KeyAction | src/ui/ev_loop.rs:73-129 | Down and Up select the clamped neighbour. Digits 1 to 9, on the main row or the keypad, select their position clamped to the last index. Any other key does nothing. Enter launches the selected item and panics without one. Space launches the first prediction. Backspace launches the second (the first when alone). Escape exits. Selections stay inside the list, and a launch always exits. |
| EvLoop.HandleEvent | src/ui/ev_loop.rs:38-139 | Exit hides the window and destroys the UI, and nothing else does. A user event exits. A close request exits iff it is for this window. Resizes, releases and other events do nothing. An unidentified key panics. With overflow checks any key on an empty list panics. Otherwise an identified key press does exactly what `KeyAction` gives for that key, or fails as it does. |
| EvLoop.LabelledKeyLaunches | src/ui/ev_loop.rs:98-119 | The first two prediction labels name the key that launches their browser. |
| EvLoop.ThirdLabelMisleads | src/ui/ev_loop.rs:109-119 | The third prediction is labelled "backspace", but backspace launches the second. |
| WinUi.LightMonotone | src/ui/win.rs:542-544 | Lightness grows with each channel and ignores alpha. |
| WinUi.LightExamples | src/ui/win.rs:542-544 | White is light and black is not. The mid-grey threshold lies at 5g + 2r + b = 1024. |
| WinUi.CreateTheme | src/ui/win.rs:507-533 | White is the OS background and black the OS foreground. The greys are the foreground with new alpha: light grey 20, and dark grey 140 iff the foreground is light, else 200. |
| WinUi.GraysOrdered | src/ui/win.rs:507-533 | Light grey is always more transparent than dark grey. |
| WinUi.CursorMonitor | src/ui/win.rs:827-843 | The first monitor containing the cursor, edges inclusive. None gives the error "Could not determine monitor from the current cursor". |
| WinUi.SharedEdgePicksFirst | src/ui/win.rs:827-843 | A cursor on the edge shared by two monitors picks the first. |
| WinUi.HalfTowardZero | src/ui/win.rs:849-854 | `i32` division by two truncates toward zero. |
| WinUi.CenterAsWritten | src/ui/win.rs:845-854 | For x and for y, the origin is half of the monitor's position plus size, less half the window size. It is exact when that sum is not negative, and within rounding otherwise. |
| WinUi.CenterAsWrittenOffMonitor | src/ui/win.rs:845-854 | On a monitor at x = 1920 the window is placed left of the monitor. |
| WinUi.Center | src/ui/win.rs:845-854 | The corrected origin puts a fitting window inside the monitor, with the two margins differing by at most 1. |
| WinUi.CenterAgreesAtOrigin | src/ui/win.rs:845-854 | For a monitor at the origin both formulas agree. |
| WinUi.PredictionLabels | src/ui/win.rs:388-401 | The first label is the title plus " (space)". Every later one is the title plus " (backspace)". |
| WinUi.FindByTag | src/ui/win.rs:864-909 | Only a panel can be searched. A found element carries the needle as its string tag. |
| WinUi.RootTagIgnored | src/ui/win.rs:864-909 | The root's own tag never matters. |
| WinUi.FindInIsFirstPostOrder | src/ui/win.rs:864-909 | The search finds the first element, in post-order over the root's descendants, whose tag text is the needle. |
| WinUi.UntaggedMatchesEmpty | src/ui/win.rs:911-929 | An element without a string tag reads as the empty text, so it matches the empty needle. |
| WinUi.EnsureListPanel | src/ui/win.rs:365-376 | An existing list panel is reused. Otherwise one panel with the given tag is appended. |
| WinUi.ListPanelAsWrittenGrows | src/ui/win.rs:365-376 | The panel is looked up as "predictions_list_panel" but created as "prediction_list_panel", so every call appends another one. |
| WinUi.ListPanelCorrectedStable | src/ui/win.rs:365-376 | Created under the tag it is looked up by, a second call changes nothing. |
| WinUi.SelectedListItem | src/ui/win.rs:271-279 | A negative index selects nothing. An index past the list panics. Otherwise it is the item at that index. |
| Strings.JoinSplit | src/os/win/sys_browsers.rs:99-105 | Joining the pieces of a split with the separator gives back the text. |
| Strings.SplitJoin | src/data/statistics_repository.rs:81-87 | Splitting a join of pieces without the separator gives back the pieces. |
| Strings.Hex4RoundTrip | src/os/win/sys_browsers.rs:345-348 | Reading back four hex digits gives the number. |
| SortedMap.Insert | src/data/statistics_repository.rs:268-277 | The map stays sorted and holds the new value under the key. Other keys are unchanged. |
| SortedMap.InsertOverwrites | src/data/statistics_repository.rs:268-277 | Inserting an existing key keeps the key set, so a later entry with the same score replaces the earlier one. |

## Left out

- ThreadWorker.WorkerStep: tasks are assumed not to panic. The thread at src/data/thread_worker.rs:91-107 has no `catch_unwind`, so a panicking `task()` ends the thread without storing the exited flag. Later sends then fail while `is_finished` stays false, and the task's pending entry never becomes ready, so a `while tick()` loop never ends. `StopDrains` and `TicksDrain` therefore hold only for tasks that do not panic, although `Predict` and `FindTld` can panic.
- SQLite: executing SQL text, transactions, constraints, the `date > ?` filter and the row mapping. The history passed to `Predict` is the already-filtered last month. Each migration transaction's outcome is an oracle; `Migrations.Reexecution` fixes only that a step executed before fails on its first `CREATE`.
- Floating point: `predict` sums `f64` points and truncates with `as i64`. The model counts in exact tenths. A float sum such as ten times 0.1 may truncate one lower.
- URL parsing: the `url` crate follows the WHATWG URL Standard, section 3.5 (host parsing). Its outcome is the `ParsedUrl` input. The embedded public-suffix file is a string parameter.
- Tld.FindTld: offsets are character positions. The program searches bytes, which differs only for non-ASCII suffix data.
- Threads, channels, atomics and sleeping: the worker is a sequential state machine, one loop iteration per step. Task bodies and callback values are left out; only the task identities are tracked.
- The clock: `Local::now()` is the `LocalTime` parameter.
- Registry reads, `GetFileVersionInfo`/`VerQueryValue`, `GetBinaryType`, icon extraction, the user's UI language: inputs or oracles. `Normalise` takes the version lookup as a function.
- `DefaultHasher`: the path hash is a function parameter.
- Process spawning: only the argument list it builds is modelled (`LaunchArgs`, `LaunchItem`).
- YAML parsing and JSON-Schema validation: the `parse` and `valid` parameters. Conf.ReadConfig: the panic message lists only its prefix, not the validator's messages.
- The XAML/COM/WinRT construction, `update_layout_size`, the icon bitmaps, and the `expect`s around the UI getters; also `src/ui.rs`, the desktop window sources and the macOS stubs.
- `make_runner` in `src/ui/ev_loop.rs`, whose delegate signature does not match its use in `src/main.rs`: HandleEvent models `handle_ui_event` directly.
- EvLoop.HandleEvent: how an empty list behaves depends on the build (overflow checks). This is the `overflowChecks` parameter rather than one fixed behaviour.
- WinBrowsers.SortDedup: `sort_unstable_by_key` leaves the order of equal paths unspecified, so the contract does not say which duplicate survives, only that one entry per path does.
- WinUi.CenterAsWritten: the `i32` sums can overflow for monitors beyond 2^31; integers are unbounded here. For a negative position-plus-size sum its contract bounds each coordinate within rounding instead of giving the exact truncated value, which `HalfTowardZero` states.
- `src/data/mod.rs` (stale, does not compile), `src/os_browsers.rs` (not declared by any module), `src/error.rs` (replaced by `Wrappers.Error`), `src/os/win/util.rs`, `src/os_util/*`, `src/util.rs` and the build scripts and playgrounds are not part of this model.

## Findings

| source | as written | input that shows it | evidently intended | confidence | as-written member | corrected member |
|---|---|---|---|---|---|---|
| src/data/migrations.rs:55,63 | A resumed run records its first step with the last index already recorded (`max(last, 0)`) instead of `last + 1`. | Three migrations; step 1 fails once, and the next run records steps 1 and 2 as idx 0 and 1. Every later run re-executes step 2, whose `CREATE INDEX sel_browser_hash` already exists, so `migrate` fails on every later start. No failure is needed: appending a step n to a database that completed steps 0 .. n-1 records it as n-1 too (`Migrations.AppendedStepReusesIndex`). | Record each step with its own position, so resuming never repeats a step. | not executed | Migrations.ResumeReappliesStep | Migrations.CorrectedKeepsConsistent |
| src/main.rs:51-58 | The hide fold ignores its accumulator, so only the last hide entry decides. | Browser "Edge" with entries (name "Edge") then (path "firefox.exe"): not hidden. | Hide a browser when any entry matches. | not executed | Host.OnlyLastRuleCounts | Host.Hidden |
| src/ui/win.rs:851-854 | The window origin is (position + size)/2 - window/2, which is centred only for a monitor at 0. | A 400x400 window on a 1920-wide monitor at x = 1920 is placed at x = 1720, off that monitor. | position + size/2 - window/2. | not executed | WinUi.CenterAsWrittenOffMonitor | WinUi.Center |
| src/ui/win.rs:366-374 | The prediction panel is looked up as "predictions_list_panel" but created with the tag "prediction_list_panel". | Two calls on an empty layout append two panels. | Create the panel under the tag it is looked up by. | not executed | WinUi.ListPanelAsWrittenGrows | WinUi.ListPanelCorrectedStable |

`Host.Visible` and `Host.ListItems` model the program's filter, and `Host.Visible` with `corrected` set uses `Host.Hidden`. `Migrations.MigrateCorrected` and `WinUi.Center` are the corrected definitions.
