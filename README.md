# marv: preview-server registry and lifecycle, in Dafny

`marv` previews a Markdown (or Mermaid) file in the browser. `marv --start
doc.md` picks a free port, launches a detached copy of itself in server
mode, and writes a record of the port and pid. The server reloads open
pages when the file changes. `marv --stop doc.md` terminates that server,
and `marv --kill-all` terminates every server found in the registry.

The registry lives in `~/.marv`. For every watched path it holds two files:
- `<md5 of the path>.server`, whose text is `"{port}:{pid}"`;
- a companion `<md5>.filepath`, holding the path.

This project models the decision logic of that tool and proves what it
promises:

- `rust_core.dfy`, `rust_str.dfy`, `rust_path.dfy` model the parts of the
  Rust standard library the code relies on: `trim`, `split`, `parse::<u16>`
  and `parse::<u32>`, `to_string`, `contains`, `replace`, `lines`, and
  `Path::{file_name, extension, file_stem, with_extension}`.
- `file.dfy` (module `FileUtils`) models the record codec and file naming,
  and the registry directory as a class `ServerDir` whose `files` map
  (file name to text) the write and remove methods update.
- `server.dfy` (module `Server`) models `find_available_port`,
  `start_preview_server`, `stop_preview_server` and `kill_all_servers`.
  The last three are methods that take the registry (a `ServerDir`) and
  update it step by step; each is proved equal to a function of the
  registry (`StartPreview`, `StopPreview`, `KillAll`), and the lemmas about
  those functions state the behaviour. `FindAvailablePort` is a loop proved
  to return the least bindable port (`FirstFreePort`). It also models the refresh loop of
  `handle_ws_connection` and the reload-script injection of the page route.
- `renderer.dfy` (module `Renderer`) models `process_mermaid_diagrams`: the
  highlighting pass that skips mermaid blocks, the opener replacement, and
  the line loop with its `in_mermaid` flag.
- `main.dfy` (module `Cli`) models the dispatch in `main`.

The outside world is represented by parameters:
- `alive(pid)`: `is_process_running`. A failed `ps` check counts as not running.
- `killOk(pid)`: whether `kill_process` succeeds.
- `canBind(port)`: whether `127.0.0.1:port` can be bound.
- `launch`: what the detached launcher printed on standard output, or None
  when it could not be spawned.
- `md5`: the digest, as any function to 32 lower-case hex digits.
- `sendOk(i)`: whether the send attempted at the `i`-th change notification
  is accepted by the in-process channel to the task that forwards messages
  to the socket. A notification whose value is unchanged attempts no send. A send fails only
  once that task has dropped the channel; a successful send says nothing
  about delivery to the browser.
- `observed`: the values the content channel held at each wake-up.
- The blocks the code-block regular expression finds, and `highlight(lang, code)`:
  the highlighted HTML, or None when syntect has no syntax or fails.
- `isPresent(path)` and `canonicalize(path)`: `Path::exists` and `fs::canonicalize`.

Behaviour of the code worth noting, which the model keeps:
- The page route replaces every `</body>`. A page without one is served
  unchanged; no script is appended at the end.
- `stop` returns at once when terminating a live process fails. The record
  and companion stay.
- `stop` on a record that does not parse fails. Nothing is deleted.
- `kill_all_servers` deletes only `.server` files that parse, with their
  companions. Corrupt records stay. The count is the number of live
  processes whose termination succeeded.
- `start` deletes a record before relaunching only when it parses and its
  process is dead. An unparseable record is not deleted: it is overwritten
  by the new one.
- The Mermaid line loop tests for the opener first. A line holding both
  `<div class="mermaid">` and `</code></pre>` (an empty block rendered on
  one line) is emitted unchanged and leaves `in_mermaid` set.

## Model

| member | source | states |
|---|---|---|
| RustStr.Trim | rust/src/utils/file.rs:65 | the trimmed text starts and ends with a non-whitespace character (or is empty) |
| RustStr.TrimIsMiddle | rust/src/utils/file.rs:65 | `trim` removes whitespace from both ends only: the result is the middle slice between two all-whitespace runs |
| RustStr.TrimPadded | rust/src/utils/file.rs:65 | trimming `a + x + b` with `a`, `b` whitespace and `x` not whitespace at either end gives exactly `x` |
| RustStr.IndexOf | rust/src/utils/file.rs:65 | the first occurrence of a character, or None exactly when it does not occur |
| RustStr.Split | rust/src/utils/file.rs:65 | `split(':')` yields one more part than there are colons, and no part holds a colon |
| RustStr.SplitAround | rust/src/utils/file.rs:65 | splitting `a + ":" + b` with colon-free `a`, `b` yields exactly `[a, b]` |
| RustStr.SplitPair | rust/src/utils/file.rs:65-68 | a text that splits into two parts is the first part, the separator and the second part |
| RustStr.DecimalString | rust/src/utils/file.rs:39 | `to_string` of a number is a non-empty digit string with no leading zero whose value is that number |
| RustStr.ParseUnsigned | rust/src/utils/file.rs:70-75 | `parse::<uN>` accepts only an optional leading `+` followed by digits, never the empty string or a lone `+`; a digit string yields its decimal value when that is below the type's limit and fails otherwise |
| RustStr.ParseSignedZeros | rust/src/utils/file.rs:70-75 | an optional `+`, any leading zeros and the numeral of `n` parse to `n` when `n` is below the limit and fail otherwise, so `+04000` is port 4000 and `70000` is no port |
| RustStr.ParseDecimal | rust/src/utils/file.rs:38-75 | parsing the decimal string of any in-range number gives that number back |
| RustStr.Contains | rust/src/renderer.rs:250-254 | definition of `str::contains`: the pattern starts at some position; `Find` gives the leftmost one and `ContainsWithin` lifts it out of a slice |
| RustStr.ContainsWithin | rust/src/renderer.rs:250-254 | a pattern contained in a slice of a text is contained in the text |
| RustStr.Find | rust/src/server.rs:250 | the leftmost occurrence of a pattern, or None exactly when the text does not contain it |
| RustStr.ReplaceAllNoMatch | rust/src/server.rs:250 | `replace` leaves a text without the pattern unchanged |
| RustStr.ReplaceAllFirstMatch | rust/src/server.rs:250 | `replace` keeps the text before the leftmost match, puts the replacement in its place and continues after the match |
| RustStr.ReplaceAllInserts | rust/src/server.rs:250 | when the pattern occurs, the result contains the replacement |
| RustStr.ReplaceAllLength | rust/src/server.rs:250 | replacing with something no shorter never shortens the text, and strictly lengthens it when a match exists and the replacement is longer |
| RustStr.ReplaceAllAvoids | rust/src/renderer.rs:257 | a character in neither the text nor the replacement is not in the result |
| RustStr.ReplaceAllKeepsCount | rust/src/renderer.rs:238-243 | a character in neither the pattern nor the replacement occurs as often after `replace` as before |
| RustStr.Lines | rust/src/renderer.rs:249 | `lines()` yields lines without line feeds, one per line feed plus one for an unterminated last line |
| RustStr.StripCarriageReturn | rust/src/renderer.rs:249 | a line either is kept or loses exactly one final `'\r'`, and it is kept exactly when it does not end in `'\r'` |
| RustStr.LineInText | rust/src/renderer.rs:249 | each line of a text without carriage returns is a slice of that text |
| RustStr.LinesAreSegments | rust/src/renderer.rs:249 | the lines are the pieces of `split('\n')` without the empty piece after a final line feed, each piece ended by a line feed losing one `'\r'` |
| RustStr.Unlines | rust/src/renderer.rs:252-262 | definition: each line followed by a line feed, as `push_str(line); push('\n')` builds `result` |
| RustStr.LinesRejoin | rust/src/renderer.rs:249-263 | joining the lines of a text without carriage returns gives the text back, with a line feed added after an unterminated last line |
| RustStr.ReplaceAll | rust/src/server.rs:250 | definition of `str::replace`: left to right, non-overlapping; its properties are the `ReplaceAll…` lemmas |
| RustPath.LastIndexOf | rust/src/main.rs:90-93 | the last occurrence of a character, with none after it, or None when it does not occur |
| RustPath.FileName | rust/src/main.rs:90-93 | the last path component holds no slash and is what follows the last slash (or the whole path) |
| RustPath.Extension | rust/src/main.rs:90-93 | an extension holds no dot and is shorter than the name |
| RustPath.FileStem | rust/src/utils/file.rs:96 | the stem is a prefix of the name, empty only for the empty name, and the whole name when there is no extension |
| RustPath.WithExtension | rust/src/server.rs:44 | definition of `with_extension`: the stem, a dot and the new extension; see `WithExtensionParts` |
| RustPath.WithExtensionParts | rust/src/utils/file.rs:96 | `with_extension` by a non-empty dot-free extension keeps the stem and gives the name that extension |
| RustPath.NameParts | rust/src/utils/file.rs:96 | a name with an extension is its non-empty stem, a dot and the extension |
| RustPath.JoinedName | rust/src/utils/file.rs:32 | joining a non-empty stem and a dot-free extension gives back that extension and that stem |
| FileUtils.ServerInfoPath | rust/src/utils/file.rs:26-35 | the record name is the digest of the path with extension `server`, so equal paths share a record, and its companion is `<digest>.filepath` |
| FileUtils.CompanionOfRecord | rust/src/utils/file.rs:96 | the companion of a record is a `.filepath` file, differs from the record, and maps back to the record |
| FileUtils.RecordsAreNotCompanions | rust/src/server.rs:346-349 | no file name is both a `.server` record and a `.filepath` companion |
| FileUtils.CompanionInjective | rust/src/utils/file.rs:96 | distinct records have distinct companions |
| FileUtils.RecordOfCompanion | rust/src/utils/file.rs:96 | every `.filepath` file is the companion of its `.server` sibling |
| FileUtils.IsServerFile | rust/src/server.rs:346-349 | definition: the entries `kill_all_servers` reads are those with extension `server`; see `RecordsAreNotCompanions` |
| FileUtils.IsCompanionFile | rust/src/server.rs:369 | definition: the companions are the files with extension `filepath`; see `CompanionOfRecord` |
| FileUtils.CompanionPath | rust/src/utils/file.rs:96 | definition: `with_extension("filepath")` of the record name; see `CompanionOfRecord` |
| FileUtils.FormatServerInfo | rust/src/utils/file.rs:38-39 | the record text holds exactly one colon and otherwise only digits |
| FileUtils.ReadServerInfo | rust/src/utils/file.rs:61-81 | reading fails with a read error exactly when the file is missing; otherwise its text is parsed |
| FileUtils.ParseServerInfo | rust/src/utils/file.rs:65-81 | the format is rejected exactly when the trimmed text does not hold exactly one colon, and an accepted record holds only digits, the colon and plus signs once trimmed |
| FileUtils.NumeralFields | rust/src/utils/file.rs:70-75 | two fields that parse as numbers hold only digits and plus signs, so an inner space as in `4000 : 1` is rejected |
| FileUtils.ServerInfoRoundTrip | rust/src/utils/file.rs:38-81 | the text written for (port, pid), surrounded by any whitespace such as a trailing newline, reads back as (port, pid) |
| FileUtils.FormatParses | rust/src/utils/file.rs:38-39 | the record text as written parses to the port and pid it was written from |
| FileUtils.ReadAfterWrite | rust/src/utils/file.rs:49 | a record written and then left alone by a write to another file reads back as written |
| FileUtils.ParseServerInfoFields | rust/src/utils/file.rs:65-75 | with one colon, the port error comes from the first field, the pid error from the second, and success gives both values |
| FileUtils.ServerDir.WriteServerInfo | rust/src/utils/file.rs:38-58 | the record is replaced outright, with no append or merge, and reads back as the port and pid written |
| FileUtils.ServerDir.SaveFilePathInServerInfo | rust/src/utils/file.rs:85-107 | the companion named by `with_extension("filepath")` holds exactly the watched path, and nothing else changes |
| FileUtils.ServerDir.RemoveFile | rust/src/server.rs:40-41 | `remove_file` deletes that entry and nothing else |
| Server.FirstFreePort | rust/src/server.rs:312-322 | definition: the first port from `from` up to 4999 that binds; see `FirstFreePortIsLeast` |
| Server.FirstFreePortIsLeast | rust/src/server.rs:312-322 | the port found is the least port in [4000, 5000) that binds, every smaller one failed, and there is none exactly when no port in the range binds |
| Server.FindAvailablePort | rust/src/server.rs:312-322 | the ascending loop with early return finds the least bindable port |
| Server.LaunchedPid | rust/src/server.rs:96-103 | definition: the launcher's output trimmed and parsed as a u32, with a spawn failure and an unreadable pid as errors |
| Server.Forget | rust/src/server.rs:299-306 | definition: the registry without a record and its companion, which may be absent |
| Server.Registered | rust/src/server.rs:105-136 | definition: the registry with the record of (port, pid) and its companion written; see `RegisteredRecord` |
| Server.StartPreview | rust/src/server.rs:20-153 | definition of the start decision: the outcome and the registry it leaves; its properties are the `Start…` lemmas |
| Server.StartAlreadyRunning | rust/src/server.rs:25-37 | start reports a running server exactly when the record parses and its pid is alive, and then returns that port and writes nothing |
| Server.StartRegisters | rust/src/server.rs:38-136 | a launch writes a record that reads back as the new port and pid and a companion holding the path, changes no other entry, and uses the least free port and the pid the launcher printed |
| Server.StartFailureWritesNothing | rust/src/server.rs:38-54 | a failed start writes nothing and only deletes a stale readable record; it fails for want of a port exactly when no live server exists and no port in range binds |
| Server.RegisteredRecord | rust/src/server.rs:105-136 | writing the record and companion: the record reads back, the companion holds the path, no other entry changes |
| Server.RegisteredReadsBack | rust/src/server.rs:105-107 | the record written at launch reads back as that port and pid |
| Server.RegisteredFrame | rust/src/server.rs:135-136 | the companion holds the path and every other entry is unchanged |
| Server.StartPreviewServer | rust/src/server.rs:20-153 | the method returns and leaves in the registry what `StartPreview` prescribes for the record named by the path's digest |
| Server.StartWithRecord | rust/src/server.rs:25-136 | the step-by-step deletion, port search, launch and writes produce exactly `StartPreview`'s outcome and registry |
| Server.StartIsIdempotent | rust/src/server.rs:25-37 | starting again while the launched server is alive reports its port and changes nothing |
| Server.StopPreview | rust/src/server.rs:274-309 | definition of the stop decision: the outcome and the registry it leaves; see `StopOutcomes` |
| Server.StopOutcomes | rust/src/server.rs:274-309 | stop fails with no server exactly when there is no record; it succeeds exactly when the record parses and a live process was terminated; any failure changes nothing; success deletes the record and companion and reports the record's port and pid |
| Server.StopTwice | rust/src/server.rs:278-280 | a second stop after a successful one fails with no server and changes nothing |
| Server.StartThenStop | rust/src/server.rs:274-309 | stopping right after a launch reports the launched port and pid and leaves the registry as it was before the start, without the old record |
| Server.StopPreviewServer | rust/src/server.rs:274-309 | the method returns and leaves what `StopPreview` prescribes for the path's record |
| Server.StopWithRecord | rust/src/server.rs:278-306 | the checks, the kill and the two deletions produce exactly `StopPreview`'s outcome and registry |
| Server.Records | rust/src/server.rs:346-352 | the records acted on are among the entries listed |
| Server.Terminated | rust/src/server.rs:352-360 | the servers counted are among those records |
| Server.Swept | rust/src/server.rs:363-377 | definition: the records acted on and their companions |
| Server.KillAll | rust/src/server.rs:325-393 | definition of kill-all: the number terminated and the registry left; its properties are the `KillAll…` lemmas |
| Server.SweptServerFile | rust/src/server.rs:363-377 | sweeping other records never deletes a `.server` file that is not itself swept |
| Server.KillAllEntry | rust/src/server.rs:346-360 | an entry is acted on exactly when it is a `.server` file that parses, and counted exactly when its pid is alive and the kill succeeds |
| Server.KillAllStepRead | rust/src/server.rs:341-378 | an entry not yet visited reads the same after the earlier entries were swept |
| Server.KillAllStepSwept | rust/src/server.rs:363-377 | visiting an entry deletes that record and its companion when it parses and nothing otherwise |
| Server.KillAllStepCount | rust/src/server.rs:354-360 | visiting an entry adds one to the count exactly when its kill is counted |
| Server.SweepEntry | rust/src/server.rs:343-378 | one loop iteration deletes the entry and its companion exactly when it is a readable `.server` file, and reports a termination exactly when its pid was alive and the kill succeeded |
| Server.KillAllServers | rust/src/server.rs:325-393 | the loop over the directory listing returns the count and leaves the registry that `KillAll` prescribes |
| Server.SweptOther | rust/src/server.rs:346-349 | files that are neither records nor companions are never deleted |
| Server.KillAllKeeps | rust/src/server.rs:341-381 | kill-all deletes and never alters; corrupt records and unrelated files survive |
| Server.KillAllRemoves | rust/src/server.rs:363-377 | every record that parses is deleted with its companion regardless of liveness or kill outcome, and every surviving record is corrupt |
| Server.KillAllCount | rust/src/server.rs:337-360 | the count is at most the number of readable records, and zero when none reads |
| Server.KillAllIdempotent | rust/src/server.rs:341-381 | a second kill-all terminates nothing and changes nothing |
| Server.PairedForget | rust/src/server.rs:299-306 | deleting a record with its companion keeps every record paired with its companion |
| Server.PairedRegistered | rust/src/server.rs:105-136 | writing a record with its companion keeps the pairing |
| Server.StartKeepsPaired | rust/src/server.rs:20-153 | start keeps every record paired with its companion and vice versa |
| Server.StopKeepsPaired | rust/src/server.rs:274-309 | stop keeps the pairing |
| Server.KillAllKeepsPaired | rust/src/server.rs:341-381 | kill-all keeps the pairing |
| Server.SweptCompanion | rust/src/server.rs:369-377 | a companion is deleted exactly when its record is acted on |
| Server.WsStep | rust/src/server.rs:415-424 | definition of one wake-up: an unchanged value is skipped, a failed send ends the loop, a successful one updates `last_seen` |
| Server.WsRun | rust/src/server.rs:413-425 | definition: the loop state after the observed values, starting from the value at connection; see `WsRunSends` |
| Server.Latest | rust/src/server.rs:413-423 | definition: the last observed value, or the value at connection |
| Server.WsClosedStays | rust/src/server.rs:419-422 | once a send fails the loop has ended: later notifications change nothing |
| Server.HandleWsConnection | rust/src/server.rs:411-426 | the while loop produces exactly the sends, last value and exit point of `WsRun` |
| Server.WsRunLastSeen | rust/src/server.rs:413-424 | while the loop runs, `last_seen` is the latest observed value |
| Server.WsRunOrder | rust/src/server.rs:415-425 | refreshes are sent in order, only before the loop ends and only when the send succeeds; the loop ends on a failed send |
| Server.WsRunChanged | rust/src/server.rs:416-424 | a refresh is sent at a notification exactly when the value differs from the one before it (or from the value at connection), up to the failed send |
| Server.WsRunSends | rust/src/server.rs:413-425 | the whole behaviour of the refresh loop: which notifications send, in what order, the value it keeps, and where it stops |
| Server.WsNoRefresh | rust/src/server.rs:413-425 | no refresh is ever attempted exactly when every observed value equals the value at connection |
| Server.LatestStaysInitial | rust/src/server.rs:413-417 | when no notification brings a different value, every observed value is the value at connection |
| Server.ScriptElement | rust/src/server.rs:214-245 | definition: the reload script, verbatim |
| Server.ReloadScript | rust/src/server.rs:214-247 | definition: the script followed by `</body>` and a line feed |
| Server.ReplaceBodyClose | rust/src/server.rs:250 | definition: every `</body>` replaced |
| Server.InjectReloadScript | rust/src/server.rs:250 | definition: the page route's injection; its properties are the `Inject…` lemmas |
| Server.InjectWithoutBodyClose | rust/src/server.rs:250 | a page without `</body>` is served unchanged: no script is appended |
| Server.ReplaceBodyCloseFirst | rust/src/server.rs:250 | the leftmost `</body>` becomes the replacement, and the rest is processed the same way |
| Server.InjectBeforeBodyClose | rust/src/server.rs:214-250 | a page with `</body>` gets the script followed by `</body>`, and grows |
| Server.InjectKeepsBodyClose | rust/src/server.rs:246-250 | the served page has a closing body tag exactly when the rendered one had |
| Renderer.BlockText | rust/src/renderer.rs:199-204 | the full text of a block the regular expression matches, never empty |
| Renderer.HighlightedBlock | rust/src/renderer.rs:220-223 | definition: the `format!` that wraps highlighted HTML in `<pre class="syntax-highlight language-…">` |
| Renderer.HighlightStep | rust/src/renderer.rs:202-234 | definition of one highlighting iteration: mermaid and unhighlightable blocks skipped, otherwise every copy of the block replaced |
| Renderer.HighlightBlocks | rust/src/renderer.rs:196-235 | definition: the highlighting loop over the blocks in order |
| Renderer.HighlightSkipsMermaid | rust/src/renderer.rs:202-235 | when every block is a mermaid block or cannot be highlighted, the first pass returns the document unchanged |
| Renderer.HighlightDropsMermaid | rust/src/renderer.rs:207-209 | a mermaid block anywhere in the list has no effect on the first pass |
| Renderer.HighlightCodeBlocks | rust/src/renderer.rs:196-235 | the loop over captured blocks yields what `HighlightBlocks` prescribes |
| Renderer.ReplaceMermaidOpeners | rust/src/renderer.rs:238-243 | definition: both opener spellings replaced by `<div class="mermaid">`, in the source's order |
| Renderer.OpenersAbsent | rust/src/renderer.rs:238-243 | a text with no mermaid opener of either spelling is unchanged |
| Renderer.OpenerReplaced | rust/src/renderer.rs:238-242 | the leftmost `<pre><code class="language-mermaid">` becomes `<div class="mermaid">` and the rest is processed the same way |
| Renderer.OpenersKeepLineBreaks | rust/src/renderer.rs:238-243 | the opener replacement keeps the number of line feeds |
| Renderer.RewriteLine | rust/src/renderer.rs:250-262 | definition of one iteration of the line loop and the flag after it |
| Renderer.FlagAfter | rust/src/renderer.rs:247-258 | definition: the `in_mermaid` flag after some lines; see `FlagAfterOpen` |
| Renderer.RewriteLines | rust/src/renderer.rs:249-263 | the loop emits exactly one line per input line |
| Renderer.RewriteLinesAt | rust/src/renderer.rs:249-263 | each emitted line is that input line rewritten under the flag left by the lines before it |
| Renderer.FlagAfterOpen | rust/src/renderer.rs:247-258 | `in_mermaid` is set exactly when some line held the opener and no later line held `</code></pre>` |
| Renderer.OpenerLineKept | rust/src/renderer.rs:250-253 | a line holding the opener is emitted unchanged and sets the flag, even when it also holds `</code></pre>` |
| Renderer.OutsideLineKept | rust/src/renderer.rs:259-262 | outside a mermaid block a line is emitted unchanged, even when it holds `</code></pre>` |
| Renderer.CloserLineRewritten | rust/src/renderer.rs:254-258 | inside a mermaid block the first line holding `</code></pre>` has every occurrence replaced by `</div>`, and the flag is cleared |
| Renderer.RewriteLinesNoBreaks | rust/src/renderer.rs:249-263 | the rewritten lines hold no line feeds |
| Renderer.UnlinesBreaks | rust/src/renderer.rs:252-262 | appending each line with `\n` gives one line feed per line, a final line feed, and empty output exactly for no lines |
| Renderer.MermaidPassLines | rust/src/renderer.rs:246-265 | the second pass outputs one newline-terminated line per line of the intermediate text, and empty output exactly when there are no lines |
| Renderer.MermaidPass | rust/src/renderer.rs:237-265 | definition of the second pass; see `MermaidPassLines` and `MermaidPassPlain` |
| Renderer.NoBlockKeepsLines | rust/src/renderer.rs:249-263 | lines none of which holds the mermaid opener leave the flag clear and are all emitted unchanged |
| Renderer.MermaidPassPlain | rust/src/renderer.rs:237-265 | a text without carriage returns, either opener or the mermaid div comes out as it went in, with a line feed added after an unterminated last line |
| Renderer.ProcessMermaid | rust/src/renderer.rs:189-266 | definition of the whole post-processing; see `ProcessMermaidDiagrams` |
| Renderer.ProcessEmpty | rust/src/renderer.rs:189-266 | empty HTML gives empty output |
| Renderer.EmptyStaysEmpty | rust/src/renderer.rs:196-235 | the first pass leaves empty HTML empty |
| Renderer.ProcessMermaidDiagrams | rust/src/renderer.rs:189-266 | the two passes and the line loop yield exactly what `ProcessMermaid` prescribes |
| Cli.ExtensionOf | rust/src/main.rs:90-93 | definition: the extension of the last path component, or "" when there is none |
| Cli.Dispatch | rust/src/main.rs:37-112 | definition of `main`'s dispatch order; its properties are the lemmas below |
| Cli.AcceptedHasOneAction | rust/src/main.rs:16-29 | every accepted command line sets at most one action flag |
| Cli.KillAllNeedsNoInput | rust/src/main.rs:44-47 | `--kill-all` dispatches before the input is examined, so it needs none |
| Cli.OtherActionsNeedInput | rust/src/main.rs:50-57 | any other invocation without an input path is an error |
| Cli.BackgroundServer | rust/src/main.rs:60-78 | `--bg-server` runs the server for an input exactly when it exists and canonicalizes, whatever its extension |
| Cli.StartAccepted | rust/src/main.rs:81-111 | start (also the default with no flag) is dispatched exactly when no other action is given, the input canonicalizes, its extension is `md`, `markdown` or `mmd`, and the file exists |
| Cli.StopAccepted | rust/src/main.rs:81-106 | stop is dispatched exactly when it is the only action and the input canonicalizes; extension and existence are not checked |
| Cli.StartRejectsOtherExtensions | rust/src/main.rs:89-97 | a start with any other extension is refused, before existence is checked |
| Cli.ExtensionCaseSensitive | rust/src/main.rs:90-95 | the comparison is case-sensitive: `.md` is accepted where `.MD` is refused |
| Cli.ExtensionOfJoined | rust/src/main.rs:90-93 | the extension checked for `<dir>/<stem>.<ext>` is `ext` |
| Cli.LastComponent | rust/src/main.rs:90-91 | the extension is taken from what follows the last slash |

## Left out

- `rust/src/utils/process.rs` is not part of this model. `is_process_running` and `kill_process` are the oracles `alive` and `killOk`.
- Launching the background process (`current_exe`, `bash -c nohup … & echo $!`) is represented by its printed output `launch`, parsed as in the source. The Windows branch, which takes the pid of the spawned `cmd` process, is not modelled.
- `rust/src/watcher.rs` and the `tokio::sync::watch` channel are not part of this model. Their effect is the sequence `observed` of values the refresh loop sees. Coalescing of rapid publishes shows only as that sequence skipping values.
- `run_server`: warp routing, the tokio runtime, splitting and forwarding the WebSocket, and the inbound drain loop, which only discards frames. Only its refresh loop and the script injection are modelled.
- `markdown_to_html`, the regular expression that finds code blocks, `html_escape` and syntect are foreign libraries. They are represented by the list of blocks found and the `highlight` function.
- Renderer.HighlightBlocks: each highlighted block replaces every copy of its captured text in the intermediate document, as `replace` does. The regular expression's own matching (lazy `[\s\S]*?`, language class `[^"]+`) is not modelled.
- The MD5 hash (RFC 1321) is not modelled: `md5` is any function to 32 lower-case hex digits.
- Locating and creating `~/.marv` (`get_server_info_dir`) and `read_file` are file-system I/O. A registry directory that does not exist behaves like an empty one.
- I/O errors from `fs::write` and `fs::remove_file` are not modelled. Writes and deletions of existing entries always succeed in the model. A failed `read_dir` in `kill_all_servers`, which the source ignores, is not modelled either.
- Server.KillAllServers: the directory listing is a parameter listing every entry exactly once. Entries created or deleted by other processes during the scan are not modelled.
- Server.KillAll: `alive` and `killOk` are fixed for the whole scan, so two records naming the same live pid are both counted. In the source the second `is_process_running` may already see that pid dead, so the model's count can exceed the source's when records share a pid.
- Server.StartPreview: `canBind` is fixed for the length of one call, so a port that frees up while the scan runs is not seen.
- Opening the browser after a delay, and all messages printed to the terminal, are side effects without bearing on the registry.
- The check-then-write race between two `marv` invocations on the same registry is concurrent by nature. The model is sequential.
- Argument parsing by clap is represented by the parsed `Args`. The conflict rule between the four action flags is stated as at most one flag set.
