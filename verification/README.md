# che-machine-exec: terminal output and idle stop, verified

A Dafny 4.11 model of the two parts of che-machine-exec that carry state, loops
and arithmetic, with proofs of what they promise.

**Terminal output.** Bytes from the pod arrive in arbitrary chunks. A filter
turns them into UTF-8, a ring keeps the last 1000 lines, and every attached
websocket gets what the filter puts out; a client that attaches again first gets
the ring's content. A registry gives execs their ids and forgets them when they end.

- `Utf8` – UTF-8 as section 4 of RFC 3629 defines it, in the roles of Go's `utf8` package
- `Pieces`, `StreamFilter`, `ValidStreams`, `IdealRepair`, `HeldBytes`, `HeldBack` – the output filter
- `SharedBuffer` – the filter behind a loop that reads into one buffer again and again
- `LineScan`, `LineRing` – the line splitter and the ring buffer
- `WsConn`, `Pty`, `Screens`, `Reattach`, `SingleWriter`, `ReattachBytes` – the connection list, the output path, what a client is shown, and reattaching while output goes on
- `Machine`, `ExecManager`, `ExecRegistry`, `ExecIds` – execs, the manager's operations, and ids, registry and events over whole runs
- `Steps`, `ProgramOrder` – the order in which the operations take their steps, and that it is the one of the state machines

**Idle stop.** A manager stops the workspace when its timer runs out; a watcher
reports activity, with periods computed from the idle timeout and a
configuration file that is reloaded while it runs; the tty source decides which
processes count as activity.

- `IdleManager` – the timer and the select loop
- `WatcherConfig`, `InForce` – durations, defaults, admin ceilings, reload, the ticker's period; what a configuration in force says, field by field
- `WatcherRun` – watcher and manager together over whole runs
- `TtySource`, `TtyCaches` – the process tree walk, the scan, the two caches
- `ProcStat`, `ActivitySources`, `EntryForms` – the parsers of `/proc/[pid]/stat` and of the admin's source list, and the spellings of its entries

`Seqs`, `Text`, `Durations` and `Wrappers` hold what the others share. Objects
that the program updates in place are classes; each of their methods is proved
equal to a function of the old state, and the promises are proved about those
functions. Concurrent parts and whole runs are state machines whose steps are
the lock-protected or channel operations of the program.

## What turned out false, and what holds instead

- The filter is documented to replace invalid bytes. A bad start byte followed by
  two ASCII bytes at the end of a chunk makes it replace the first of these too
  (`IdealRepair.AsciiLost`). `IdealRepair.IdealRepairIff` says for every call
  exactly when only bytes that start no character are replaced; for a call that
  finds nothing held back that is decided by the chunk's last three bytes
  (`IdealRepair.FreshCallLossyIff`), for a run by its calls (`IdealRepair.RunIdealIff`).
  As long as all calls are of that kind the output does not depend on the cuts
  (`IdealRepair.ChunkIndependent`).
- The comment on `handleLastBytes` speaks of 1 to 3 bytes. More can be held back, on
  arbitrary bytes as well as on valid UTF-8 (`ValidStreams.HeldBackCanExceedThree`):
  `HeldBack.AtMostThreeIff` gives the exact condition for every call on any bytes. There is
  no bound, and while bytes are stuck nothing is shown: after F0 80 80, ASCII typed a
  byte at a time (`HeldBack.TypingNotShown`); on valid UTF-8 once a U+FFFD is held back
  (`HeldBack.ValidStreamNotShown`). `HeldBack.StandsStillIff` says exactly what ends that: a
  chunk of at least four bytes, or one that makes all of it well-formed.
- The held-back bytes are a slice of the caller's array. The program's caller,
  `io.Copy` at vendor/k8s.io/client-go/tools/remotecommand/v2.go:150, reads into the same
  array again, so a character split over two reads can be lost
  (`SharedBuffer.SplitCharacterLost`). `SharedBuffer.AgreesIff` and `SharedBuffer.VerbatimIff`
  say exactly when what is proved of the filter alone carries over: when no read
  overwrites what is held back at that time. Short enough reads never do
  (`SharedBuffer.ShortReadsSurvive`), and output and screen are well-formed in any case
  (`SharedBuffer.LoopWellFormed`, `Screens.LoopScreenWellFormed`).
- `FlushBuffer` is documented to clear the pending bytes; it leaves them, and later output
  tells exactly if there were any (`HeldBack.FlushedAgainIff`).
- A scanner gives up on a line that does not fit its 64 KiB buffer, and the ring
  then misses the rest of that chunk. `LineRing.WholeTextIff` gives the exact condition.
  On valid UTF-8 without U+FFFD chunks of up to 65532 bytes always fit
  (`Screens.ScreenIsBody`); on other bytes the output is up to three times as long, and of a
  chunk of 21846 continuation bytes nothing is shown (`Screens.StrayChunkShownIff`).
- The walk to the main user process is guarded against processes that are their own
  parent. The guard changes the answer for one that has no terminal, and only then
  (`TtySource.ChecksChangeNothingIff`).
- The watcher cannot start its ticker when the quarter of the idle timeout, or an admin
  check period, is less than a second. `WatcherConfig.FirstTickerStartsIff` says exactly
  when, from the idle timeout, the admin value and whether the file sets a period;
  half a second as the admin value is an example (`WatcherConfig.HalfSecondPanics`).
- Ticks that are dropped in a row can let active work be stopped, and so can looks at
  the file that fail before there is a configuration: until then nothing is scanned, and the
  ticker takes 60 seconds whatever the idle timeout. `WatcherRun.HarmlessDropsIff` says
  exactly how many of both are harmless, from the idle timeout and the longest check
  period a file can ask for. Without an admin period, if the first look finds a
  configuration, two drops always are, and three unless the idle timeout is a multiple of
  four seconds of at most forty minutes (`WatcherRun.ActiveWorkIsNeverStopped`). If the first
  look fails, not even no drop at all is up to an idle timeout of a minute
  (`WatcherRun.MalformedFileStops`); `WatcherRun.FirstLookFails` gives the exact idle timeouts.
- The check period in force can exceed a quarter of the idle timeout, exactly if the admin
  sets one that does and the file sets none (`WatcherConfig.PeriodWithinQuarterIff`).

## Model

| member | source | states |
|---|---|---|
| Utf8.EncodeDecode | output/utf8stream/utf8-stream-filter.go:76-79 | writing the rune that was read puts out the very bytes of the character |
| Utf8.DecodeEncode | output/utf8stream/utf8-stream-filter.go:50-53 | every scalar value's encoding is read back with its rune and width, whatever follows |
| Utf8.ErrorRune | output/utf8stream/utf8-stream-filter.go:50-58 | a read yields U+FFFD exactly at bytes that start no character and at a literal U+FFFD, and moves on by the character's width or one byte |
| Utf8.ExtendableIffTail | output/utf8stream/utf8-stream-filter.go:55-61 | bytes can be the beginning of a well-formed stream exactly if nothing or one unfinished character follows the complete ones |
| Utf8.WellFormedAfterNewline | output/line-buffer/line_scanner.go:43-45 | cutting a well-formed stream behind a line break leaves two well-formed streams |
| Pieces.RenderedWellFormed | output/utf8stream/utf8-stream-filter.go:28-29 | copied characters and placeholders in any order are well-formed, at least as long as their source and at most three times |
| Pieces.RepairVerbatim | output/utf8stream/utf8-stream-filter.go:41-43 | the repair of well-formed bytes is those bytes, as the early return gives them |
| StreamFilter.Utf8StreamFilter.constructor | output/utf8stream/utf8-stream-filter.go:22-26 | a new filter holds nothing back |
| StreamFilter.Utf8StreamFilter.ProcessRaw | output/utf8stream/utf8-stream-filter.go:30-82 | output and held-back bytes after a call are those of the filter function on the old held-back bytes and the chunk |
| StreamFilter.Utf8StreamFilter.HandleLastBytes | output/utf8stream/utf8-stream-filter.go:88-143 | output and held-back bytes for the last bytes are those of the function that `HeldBytes.LastBytesAre` describes |
| StreamFilter.Utf8StreamFilter.FlushBuffer | output/utf8stream/utf8-stream-filter.go:157-165 | one placeholder for each byte held back; the bytes stay held back, as in the code |
| StreamFilter.LastBytesAccounts | output/utf8stream/utf8-stream-filter.go:88-143 | the last bytes are put out piece by piece or held back, in order, none lost or doubled; what is held back starts with no continuation byte |
| HeldBytes.LastBytesAre | output/utf8stream/utf8-stream-filter.go:88-143 | of the last bytes exactly the longest end that may begin a longer character is held back (a byte from C0 up, then continuations in the next two places); each of the others is replaced, but an ASCII byte at the very end is copied |
| HeldBytes.CallHolds | output/utf8stream/utf8-stream-filter.go:30-82 | every call holds back exactly the longest such end of the bytes at which its read loop stops, and puts out the characters read before them and the others of them so |
| HeldBytes.PromptShown | output/utf8stream/utf8-stream-filter.go:132-137 | a new filter puts out two placeholders and the prompt for a cut-off character and a prompt, and holds nothing back |
| StreamFilter.RunRewritesInput | output/utf8stream/utf8-stream-filter.go:30-143 | over any calls on any bytes: input = consumed ++ held back, output rewrites consumed in order by copied characters and placeholders, is well-formed, and no longer than three times consumed |
| StreamFilter.FilterHeldBackGrowth | output/utf8stream/utf8-stream-filter.go:31-61 | one call lengthens the held-back bytes by at most three |
| HeldBack.AtMostThreeIff | output/utf8stream/utf8-stream-filter.go:84-143 | for every call on any bytes, at most three bytes are held back if and only if the decode does not stop before last bytes in which a start byte with two continuation bytes comes more than three bytes before the end; with nothing held back before, always |
| HeldBack.StuckIff | output/utf8stream/utf8-stream-filter.go:54-62 | with a U+FFFD or a bad start byte and two continuation bytes held back, a call puts out nothing and holds back all if and only if its chunk is shorter than four bytes and does not make all well-formed |
| HeldBack.StandsStillIff | output/utf8stream/utf8-stream-filter.go:54-62 | from such held-back bytes on the output stands still, and everything is held back, exactly as long as every further chunk is empty, or shorter than four bytes and leaves the whole not well-formed |
| HeldBack.TypingNotShown | output/utf8stream/utf8-stream-filter.go:54-62 | for every n, bytes without U+FFFD of which n + 3 are held back and none is shown |
| HeldBack.ValidStreamNotShown | output/utf8stream/utf8-stream-filter.go:54-62 | for every n, a beginning of valid UTF-8 of which 3n + 4 bytes are held back and none is shown |
| HeldBack.FlushedAgainIff | output/utf8stream/utf8-stream-filter.go:157-165 | that the flushed bytes are not cleared makes a difference to later output if and only if there are any |
| ValidStreams.ValidStreamVerbatim | output/utf8stream/utf8-stream-filter.go:31-143 | on every beginning of a well-formed stream, cut anywhere, outputs ++ held back are the bytes fed in |
| ValidStreams.HeldBackIsUnfinishedCharacter | output/utf8stream/utf8-stream-filter.go:31-143 | without U+FFFD in such a stream the held-back bytes are exactly its unfinished character, at most three bytes |
| ValidStreams.HoldsExactlyTheTail | output/utf8stream/utf8-stream-filter.go:54-61 | with U+FFFD, one call holds back exactly the unfinished character if and only if all is complete or no U+FFFD starts within the last three bytes counted by the chunk's length |
| ValidStreams.HeldBackCanExceedThree | output/utf8stream/utf8-stream-filter.go:31-61 | three chunks of a valid stream after which five bytes are held back |
| IdealRepair.IdealRepairIff | output/utf8stream/utf8-stream-filter.go:54-82 | a call replaces only bytes at which no character starts if and only if it is not lossy |
| IdealRepair.FreshCallLossyIff | output/utf8stream/utf8-stream-filter.go:114-130 | with nothing held back before, a call is lossy exactly if its chunk ends in a byte from C0 up, an ASCII byte, and a byte that is no continuation |
| IdealRepair.RunIdealIff | output/utf8stream/utf8-stream-filter.go:30-143 | a run puts out the ideal repair of its whole input if and only if none of its calls is lossy, and then whatever follows |
| IdealRepair.ChunkIndependent | output/utf8stream/utf8-stream-filter.go:30-143 | two ways to cut the same input, neither lossy, have outputs of which one continues the other |
| IdealRepair.AsciiLost | output/utf8stream/utf8-stream-filter.go:125-130 | three bytes whose ASCII character is replaced in one chunk and kept in two |
| SharedBuffer.TurnIff | vendor/k8s.io/client-go/tools/remotecommand/v2.go:150 | one read into the reused buffer and one call come to what the call alone comes to if and only if the read leaves the held-back bytes alone |
| SharedBuffer.WhereHeld | output/utf8stream/utf8-stream-filter.go:36-39 | what a call holds back lies in the reader's buffer exactly if nothing was held back before, or that lay in the buffer with room for the chunk behind it; then it ends where the chunk ends, there |
| SharedBuffer.AgreesIff | vendor/k8s.io/client-go/tools/remotecommand/v2.go:150 | over any reads output and held-back bytes are all along those of the filter alone if and only if no read overwrites what is held back |
| SharedBuffer.VerbatimIff | vendor/k8s.io/client-go/tools/remotecommand/v2.go:150 | on valid UTF-8 the output is verbatim all along if and only if no read overwrites what is held back |
| SharedBuffer.LoopWellFormed | vendor/k8s.io/client-go/tools/remotecommand/v2.go:150 | whatever reads overwrite, the output is well-formed, every byte read is counted once as put out or held back, and the output is at most three times as long as what it stands for |
| SharedBuffer.ShortReadsSurvive | vendor/k8s.io/client-go/tools/remotecommand/v2.go:150 | nothing is overwritten when each read behind held-back bytes is shorter than the chunk before it by at least as many bytes |
| SharedBuffer.SplitCharacterLost | output/utf8stream/utf8-stream-filter.go:36-39 | a two-byte character read byte by byte comes out as two placeholders, whatever the buffer contained |
| LineScan.ScanLinesNoDropCR | output/line-buffer/line_scanner.go:39-51 | a token is the bytes it advances over: up to the first line break, or to the end of the data; there is none exactly on no data or, before the end, no line break |
| LineScan.LinesOfText | output/line-buffer/line_scanner.go:39-51 | repeated splitting cuts a text into lines that make it up |
| LineScan.LinesUnique | output/line-buffer/line_scanner.go:43-48 | it finds every sequence of finished lines with at most one unfinished last line again: the cut is unique |
| LineScan.LinesOfConcat | output/line-buffer/line_ringe_buffer.go:46-58 | the lines of a text in two parts: the second part's first line continues an unfinished last line |
| LineScan.AcceptedIff | output/line-buffer/line_scanner.go:32-37 | a scanner yields a beginning of the chunk, and all of it if and only if each line fits the scanner's buffer |
| LineScan.LineScanner.CreateLineScanner | output/line-buffer/line_scanner.go:32-37 | a scanner starts with the whole chunk unread |
| LineScan.LineScanner.Scan | output/line-buffer/line_scanner.go:24-26 | the tokens still to come lose their first, which becomes the text, or there is none |
| LineRing.LineRingBuffer.New | output/line-buffer/line_ringe_buffer.go:32-34 | an empty ring of 1000 slots |
| LineRing.LineRingBuffer.Write | output/line-buffer/line_ringe_buffer.go:36-59 | read from the ring pointer, the slots hold the last 1000 lines of everything accepted, through wrap-around and unfinished lines |
| LineRing.LineRingBuffer.ShouldContinueLastRing | output/line-buffer/line_ringe_buffer.go:78-86 | the last slot is filled and its line has no line break |
| LineRing.LineRingBuffer.GetContent | output/line-buffer/line_ringe_buffer.go:61-76 | the last 1000 lines of everything accepted, in order |
| LineRing.KeptStep | output/line-buffer/line_ringe_buffer.go:46-58 | the lines kept after a write follow from those kept before it and the chunk's lines |
| LineRing.ContentIsSuffix | output/line-buffer/line_ringe_buffer.go:61-76 | the content is an end of the text that starts with a line, and all of it or exactly 1000 lines |
| LineRing.WholeTextIff | output/line-buffer/line_ringe_buffer.go:36-59 | a run of writes reaches the ring unshortened if and only if the scanner can hold every line of every chunk |
| LineRing.ChunkIndependent | output/line-buffer/line_ringe_buffer.go:36-76 | then the content does not depend on how the output was cut into writes |
| WsConn.ConnectionHandlerImpl.NewConnHandler | ws-conn/ws-connection-handler.go:50-55 | no connections |
| WsConn.ConnectionHandlerImpl.ReadConnection | ws-conn/ws-connection-handler.go:58-66 | the connection stands behind the others, without duplicates exactly if there were none and it is a new one |
| WsConn.ConnectionHandlerImpl.RemoveConnection | ws-conn/ws-connection-handler.go:69-78 | exactly the given connection is off the list, although the loop goes on over elements that move under it |
| WsConn.ConnectionHandlerImpl.WriteDataToWsConnections | ws-conn/ws-connection-handler.go:81-97 | each connection that takes the message got it once and stays, in order; the others are dropped |
| Pty.PtyHandlerImpl.CreatePtyHandlerImpl | exec/pty_handler.go:33-35 | a handler over an empty buffer and a new filter satisfies the invariant of the output path |
| Pty.PtyHandlerImpl.Write | exec/pty_handler.go:37-47 | one write keeps filter, buffer and connections in step with the whole run, fills the buffer before it broadcasts, sends each live connection the filtered chunk, and returns the original length |
| ExecManager.KubernetesExecManager.Attach | exec/kubernetes_exec_manager.go:271-293 | no exec under the id: an error and no change; else the connection is listed and then, with a buffer there, the buffer is read and sent to it unless it refuses, without one it is given a handler over a new buffer and filter |
| Pty.OutputsTogether | exec/pty_handler.go:37-43 | all that was broadcast is the filter's output on the whole run |
| Pty.ScreenWellFormed | exec/pty_handler.go:37-43 | after any writes of any bytes the restored content is well-formed UTF-8 |
| Pty.ScreenIsSuffix | exec/pty_handler.go:37-43 | it is the last 1000 lines of what the ring accepted, and so an end of that; which is everything broadcast if and only if the scanner can hold the lines |
| Pty.ScreenIsRawOutput | exec/pty_handler.go:37-43 | on valid UTF-8 what the ring accepted is the raw output without the held-back bytes if and only if the scanner can hold the lines; those bytes are the unfinished character if U+FFFD does not occur |
| Screens.ScreenIsBody | exec/pty_handler.go:37-43 | on valid UTF-8 without U+FFFD in chunks of at most 65532 bytes it is the last 1000 lines of the complete characters of the raw output |
| Screens.SmallCallsFit | output/line-buffer/line_scanner.go:32-37 | on any bytes the scanner can hold all lines if three times the held-back and new bytes of each call are less than 64 KiB |
| Screens.StrayChunkShownIff | output/line-buffer/line_ringe_buffer.go:36-59 | of a first chunk of continuation bytes all placeholders are shown up to 21845 bytes, and nothing from 21846 on |
| Screens.LoopScreenWellFormed | exec/pty_handler.go:37-43 | behind the loop that reads into one buffer it is well-formed, whatever reads overwrite |
| Screens.LoopScreenIsBody | exec/pty_handler.go:37-43 | it is the same as without that loop when no read overwrites what is held back |
| Reattach.NeverAGap | exec/kubernetes_exec_manager.go:279-285 | in every interleaving of writes and attaching clients, each write that was sent out reached an attached client after it registered or is behind the content it was sent |
| Reattach.NoGapIffOrder | exec/pty_handler.go:39-43 | of the four possible orders only buffer-before-broadcast with register-before-snapshot gives that guarantee |
| Reattach.OverlapHappens | exec/kubernetes_exec_manager.go:279-285 | a run in which a write is both in the content and sent afterwards |
| ProgramOrder.WriteFollowsIff | exec/pty_handler.go:41-43 | behind every run a write's two steps are possible in the order in which the handler takes them, and in no other |
| ProgramOrder.AttachFollows | exec/kubernetes_exec_manager.go:279-285 | behind every run the steps of an attach are possible in its order |
| ProgramOrder.EndFollowsIff | exec/health-watcher.go:41-49 | when a watcher has received the end, its two steps are possible in its order and in no other |
| SingleWriter.OneUnbrokenStretch | exec/pty_handler.go:37-47 | with one writer a client is sent one stretch of the writes in order, each once, that starts within or right behind its content |
| ReattachBytes.OneStretchOfBytes | exec/pty_handler.go:37-47 | in bytes: the client is sent the last 1000 lines of the first so many outputs, and the outputs from some point up to there on, in order and each once |
| ExecManager.KubernetesExecManager.constructor | exec/kubernetes_exec_manager.go:51-57 | no execs, counter at zero |
| ExecManager.KubernetesExecManager.DoCreate | exec/kubernetes_exec_manager.go:204-249 | success takes the next number, enters the exec under it and gives it an empty connection list; failure changes nothing |
| ExecManager.KubernetesExecManager.Create | exec/kubernetes_exec_manager.go:147-202 | the exec is entered once if any container can be prepared, else registry and exec are unchanged |
| ExecManager.KubernetesExecManager.Remove | exec/kubernetes_exec_manager.go:252-257 | the id is gone, everything else stays |
| ExecManager.KubernetesExecManager.Check | exec/kubernetes_exec_manager.go:260-268 | the id of the exec entered under the key, or nothing |
| ExecManager.HealthWatcher.CleanUpOnExitOrError | exec/health-watcher.go:38-52 | the entry is removed, and then one event with the exec's id is published |
| ExecRegistry.PublishedOnceAndGone | exec/health-watcher.go:38-52 | in every interleaving each exec's end is published at most once, after its entry is gone, and its id resolves in no later state |
| ExecRegistry.ResolvesToItsExec | exec/kubernetes_exec_manager.go:233-246 | an id resolves to the exec created under it until that is removed, and no two execs share an id |
| ExecIds.IdsGrowIff | exec/kubernetes_exec_manager.go:237 | in every reachable state ids are in the order of creation if and only if fewer than 2^63 execs have been created |
| IdleManager.DrainIff | timeout/inactivity.go:112-117 | stopping, draining and resetting leaves a freshly armed timer and never blocks, exactly if the timer runs or holds one fire, for both kinds of timer channel |
| IdleManager.RunsKeepPromises | timeout/inactivity.go:95-123 | in every run attempts come an idle timeout after the start and every activity, are a retry period apart without activity between them, nothing follows success or SIGTERM, and at every select the timer runs or holds one fire |
| IdleManager.InactivityIdleManager.constructor | timeout/inactivity.go:95-97 | the timer is armed for one idle timeout |
| IdleManager.InactivityIdleManager.OnActivity | timeout/inactivity.go:112-117 | the timer after an activity, or that the drain would block |
| IdleManager.AttemptsComeWhenDue | timeout/inactivity.go:101-117 | a manager that acts on its timer in time attempts to stop exactly an idle timeout after the start or the last activity, or a retry period after a failed attempt, and never waits longer |
| IdleManager.FailureIsRetried | timeout/inactivity.go:104-107 | without an activity or SIGTERM since a failure there is another attempt exactly a retry period after it, once that has passed |
| IdleManager.InactivityIdleManager.Start | timeout/inactivity.go:101-123 | the select loop goes through exactly the states of the run its events make up |
| WatcherConfig.ParseDuration | timeout/cli-watcher.go:628-680 | what the text means if that is positive and within the field's maximum, else the default |
| WatcherConfig.AdminDuration | timeout/cli-watcher.go:167-176 | an admin duration is what its text means if that is positive and at most a day, else nothing |
| WatcherConfig.DefaultedCheckPeriod | timeout/cli-watcher.go:684-729 | whatever is written, wrap-around included: at most a quarter of the idle timeout and ten minutes, at least ten seconds from an idle timeout of 40 seconds, and what is written if that is within the bounds |
| WatcherConfig.DefaultsFillIdleTimeout | timeout/cli-watcher.go:731-778 | with nothing configured grace, window and buffer are exactly the idle timeout or the window is two minutes; exactly the former from 225 seconds |
| WatcherConfig.Ceiling | timeout/cli-watcher.go:846-865 | an admin value caps what the file sets and replaces what it does not set |
| WatcherConfig.CheckPeriodInForce | timeout/cli-watcher.go:702-729 | without an admin value every configuration that can be in force has a check period of at most a quarter of the idle timeout |
| WatcherConfig.PeriodWithinQuarterIff | timeout/cli-watcher.go:846-867 | the period in force is at most a quarter of the idle timeout if and only if there is no admin value, or the file sets the period, or the admin value is |
| WatcherConfig.ReloadIsFromScratch | timeout/cli-watcher.go:495-596 | over edits, parse failures, failed looks and deletions with orderly modification times, reloading gives after each cycle what reading from scratch gives |
| WatcherConfig.StaleIff | timeout/cli-watcher.go:528-530 | a look puts a parsed file in force if and only if its time is later than that of the file in force, or equal and both come to the same settings; in place of the defaults, if it is later than the zero time |
| WatcherConfig.CliWatcher.ApplyDefaults | timeout/cli-watcher.go:683-810 | every parsed field and the modes of the commands after the defaults |
| WatcherConfig.CliWatcher.IgnoreExclusions | timeout/cli-watcher.go:599-625 | excluded commands move to the ignored ones unless forced, the others stay in order |
| InForce.FileDurations | timeout/cli-watcher.go:628-873 | each of the four durations of a file's configuration: what its own text says within its own maximum, or its own default, under its own admin value, which caps what the file sets and replaces what it does not |
| InForce.DefaultDurations | timeout/cli-watcher.go:731-781 | without a file each duration is its own admin value, or the default by the idle timeout: 15% as grace period, what that and a fifth leave as window, six hours as age, a minute within the bounds as check period |
| InForce.FromUnique | timeout/cli-watcher.go:683-781 | file and idle timeout give one value for each field |
| InForce.Switches | timeout/cli-watcher.go:815-844 | watcher and verbose logging are on exactly if the admin switches them on |
| InForce.FileCommands | timeout/cli-watcher.go:599-625 | exactly the commands that are not excluded, or forced, are watched, in order and with their modes; exactly the others' names are ignored, in order behind the file's own |
| InForce.LookFailsIff | timeout/cli-watcher.go:518-562 | a look is an error exactly if the path cannot be examined, or a newer file cannot be read or parsed |
| WatcherConfig.CliWatcher.ApplyEnvCeilings | timeout/cli-watcher.go:812-873 | enabled and verbose are the admin's, the four durations are capped |
| WatcherConfig.CliWatcher.LoadConfig | timeout/cli-watcher.go:495-596 | the configuration and the error of one reload, and when a missing file is reported |
| WatcherConfig.CliWatcher.FirstPeriod | timeout/cli-watcher.go:300-316 | the ticker's first period after the first load |
| WatcherConfig.CliWatcher.OnTicker | timeout/cli-watcher.go:325-376 | after one delivery: configuration, period, whether the ticker restarts, and a tick exactly if enabled and a source is active |
| WatcherConfig.FirstTickerStartsIff | timeout/cli-watcher.go:309-316 | whatever the first look finds, the first period is positive if and only if neither the quarter of the idle timeout nor the admin value, whichever decides, rounds down to no seconds |
| WatcherConfig.HalfSecondPanics | timeout/cli-watcher.go:309-316 | with an admin period of half a second and no file the first period is zero at every idle timeout |
| WatcherRun.HarmlessDropsIff | timeout/cli-watcher.go:300-376 | from every first look, while every scan finds activity: with at most d dropped ticks in a row and at most n looks that fail before there is a configuration no run contains a stop attempt, across changes of the period, if and only if the longer of n minutes and the longest period, and d longest periods more, are less than the idle timeout |
| WatcherRun.ActiveWorkIsNeverStopped | timeout/cli-watcher.go:709-729 | if the first look finds a configuration, without an admin period and from an idle timeout of four seconds: two dropped ticks in a row never lead to a stop attempt, and three do if and only if the idle timeout is a multiple of four seconds up to forty minutes |
| WatcherRun.FirstLookFails | timeout/cli-watcher.go:309-312 | if the first look can fail: no drop is harmless if and only if the idle timeout is above 60 seconds, two if and only if it is above 118 seconds and not 120, three if and only if it is above forty minutes, or no multiple of four seconds whose quarter rounded down and remainder make up more than 60 seconds |
| WatcherRun.MalformedFileStops | timeout/cli-watcher.go:309-312 | with a malformed file at the start a run without any drop attempts a stop at every idle timeout up to a minute |
| WatcherRun.LongGapStops | timeout/inactivity.go:86-93 | otherwise a slow file from the start, or a broken one that is repaired, leads to a run with an attempt to stop active work at the idle timeout |
| WatcherRun.OldWorkIsStopped | timeout/activity_source_tty.go:97-121 | with only the tty source and processes of known age started by s, an attempt is made by max(start, s + maximum age) + idle timeout |
| TtySource.WalkIsNearest | timeout/activity_source_tty.go:219-246 | the bounded walk finds exactly the nearest ancestor without a terminal below the top |
| TtySource.ChecksChangeNothingIff | timeout/activity_source_tty.go:219-233 | the checks for cycles and self-parents keep the walk's answer except for a terminal-less process that is its own parent |
| TtySource.GetMainUserProcess | timeout/activity_source_tty.go:213-251 | the loop with its visited set terminates and computes that answer on every table, cyclic ones included |
| TtySource.IsUserInitiatedProcess | timeout/activity_source_tty.go:257-277 | decides user-initiated processes |
| TtySource.UserInitiatedIff | timeout/activity_source_tty.go:253-277 | these have a terminal and, two to 64 steps up, the nearest ancestor without one |
| TtySource.Scan | timeout/activity_source_tty.go:42-145 | active exactly if some process holds, reported by the first such process's name |
| TtySource.NeverCounts | timeout/activity_source_tty.go:49-107 | what is no candidate, or above the maximum age, never counts: pid 1, the watcher, what no user started, the excluded commands |
| TtySource.YoungCounts | timeout/activity_source_tty.go:109-121 | a candidate of unknown age or younger than the grace period counts whatever it does |
| TtySource.UnconfiguredCounts | timeout/activity_source_tty.go:125-145 | beyond that, one that nobody configured counts exactly unless it uses its terminal without recent activity |
| TtySource.ConfiguredCounts | timeout/activity_source_tty.go:125-145 | and a configured one by the first entry of its name: yes and true exactly with recent activity, auto as unconfigured, no, false, nothing or anything else always |
| TtySource.AutoPolicyIff | timeout/activity_source_tty.go:162-197 | under the auto policy a process whose terminal was read since it started counts if and only if it is in the background or that was within the window; otherwise it fails to count exactly in the foreground, waiting for its terminal or for input, without recent CPU use |
| TtyCaches.TtyPathCache.CleanupTTYCache | timeout/activity_source_tty.go:323-337 | exactly the living, unexpired entries stay |
| TtyCaches.TtyPathCache.Evict | timeout/activity_source_tty.go:402-423 | terminates with at most 750 entries if all are older than now, never evicting a newer entry than one it keeps |
| TtyCaches.TtyPathCache.GetCachedTTYInfo | timeout/activity_source_tty.go:340-434 | hits change nothing, failures are entered for two seconds without a size check, successes leave at most 1000 entries |
| TtyCaches.CpuActivityCache.HasRecentCPUActivity | timeout/activity_source_tty.go:618-646 | the answer and the new sample of one measurement |
| TtyCaches.RecentIffLatestRecord | timeout/activity_source_tty.go:627-645 | over any measurements the answer is yes exactly at the first, or when the latest one above all before it is less than the window ago |
| ProcStat.ParseProcStat | timeout/procutil.go:138-196 | the parsed fields, or the first thing that is wrong |
| ProcStat.ParseInvertsRender | timeout/procutil.go:146-196 | for every command name and every list of integers the kernel's line gives back its numbers, or the first error: not 22 to 100 fields, a needed number beyond 64 bits, or a start time that is not positive |
| ProcStat.NoParenIff | timeout/procutil.go:148-151 | no closing parenthesis is the error exactly if the first 4096 bytes have none |
| Text.ScanRender | timeout/procutil.go:170-192 | scanning a rendered number gives it back exactly on the 64-bit range, whatever other text follows |
| Text.FieldsJoin | timeout/procutil.go:153 | splitting at blank space inverts joining by blanks |
| Text.SplitJoin | timeout/activity_source.go:103-109 | splitting inverts joining when no part contains the separator |
| Text.JoinSplit | timeout/activity_source.go:103-109 | joining inverts splitting, and no part contains the separator |
| Text.TrimParts | timeout/activity_source.go:104 | trimming takes off all spaces at both ends and nothing else |
| ActivitySources.ParseActivitySourcesEnv | timeout/activity_source.go:99-150 | the loop with its set of seen names yields the selectors of the entries |
| ActivitySources.SelectedNames | timeout/activity_source.go:140-146 | no name twice, and exactly the names of well-formed entries |
| ActivitySources.SelectedIff | timeout/activity_source.go:103-147 | a selector is in the list exactly if it is the first well-formed entry with its name |
| ActivitySources.SelectedOrder | timeout/activity_source.go:103-147 | selectors are in the order of these entries |
| ActivitySources.ResolveActiveActivitySources | timeout/activity_source.go:159-196 | the explicit sources, then the implicit ones, and one warning for each selector with an unknown name, in order |
| ActivitySources.UnknownIff | timeout/activity_source.go:173-176 | a name is warned about exactly if a selector has it and no source does, and once if no name is selected twice |
| ActivitySources.ChosenIff | timeout/activity_source.go:152-196 | for every text no source is chosen twice, and one is chosen exactly if its first entry enables it or it is on by default and unmentioned |
| ActivitySources.CompiledInChosen | timeout/activity_source.go:152-196 | of the compiled-in sources the terminals are chosen unless the text's first entry for them disables them, the app server if its first entry enables it |
| ActivitySources.ExplicitOrder | timeout/activity_source.go:170-182 | explicit sources are in the order of their selectors |
| ActivitySources.ImplicitOrder | timeout/activity_source.go:184-193 | implicit sources are in registry order |
| ActivitySources.ParseInvertsRender | timeout/activity_source.go:99-150 | parsing a rendered list of distinct lower-case names gives it back |
| EntryForms.EntryIff | timeout/activity_source.go:103-147 | an entry selects a name exactly if it is that name in any case with any spaces around it, alone or with one colon and a flag, which is read so too: on without a flag, with enabled or true, off with disabled or false; no other text selects anything |
| EntryForms.ParseInvertsSpelling | timeout/activity_source.go:99-150 | however a list of distinct names and flags is spelled, with or without flags, parsing gives it back |
| EntryForms.BareNameSelects | timeout/activity_source.go:127-138 | the bare name of the terminals, in any case and with blanks, selects them |

## Left out

- Kubernetes, SPDY, gin, gorilla websocket and JSON-RPC: the pod's output is any list of chunks, a socket write succeeds or fails.
- The real /proc, stat and readlink: parents, terminals, ages and ticks are inputs, and one scan sees a frozen table.
- Container lookup, command resolution, kubeconfig, authentication, flags and logging.
- Aliasing of the held-back bytes with the caller's buffer: in all modules but `SharedBuffer` they are a value. `SharedBuffer` is written on values too, the buffer's content being one of them.
- Pty.ScreenIsRawOutput: for held-back bytes that nobody overwrites; `Screens.LoopScreenIsBody` carries it over to the program's copying loop when that is so.
- Stderr of an exec without a terminal: a second loop calls the same handler at the same time, without a lock.
- Rereading a scanner after it gave up: the ring's writer does not do it.
- Two first attaches to one exec at the same time: the buffer's nil check and its assignment are not one step; the reattach model starts when the buffer exists.
- The first attach's stream and the keep-alive messages: they only start and end the runs modelled here.
- WsConn.ConnectionHandlerImpl.RemoveConnection: for lists without duplicates; with the same connection listed twice the loop can leave one or exceed the list, but every attach upgrades a new connection.
- WsConn.ConnectionHandlerImpl.WriteDataToWsConnections: for lists without duplicates, for the same reason.
- Closing all connections, pings, resizing and the text of error events.
- Making an idle manager: it needs a namespace and a workspace name; without an idle timeout it does nothing, and the retry period must be positive.
- The run-timeout manager: the idle manager without activities.
- The codex app-server source: network client code; it is a name in the registry here.
- Reading environment variables and the search for the configuration file: their results are inputs.
- The duration and YAML parsers: a written duration is given by what Go's duration and integer parsers say of it, a file by whether it parses and to what.
- Rounding of the 15% and 20% products in floating point: computed in integers, rounded down.
- The time a scan takes: scans are instantaneous and happen when the ticker is due.
- Looks that go on failing: as long as there is no configuration nothing is scanned, so active work is protected only up to the number of failed looks that `WatcherRun.HarmlessDropsIff` allows.
- Case folding beyond the letters whose lower case is ASCII: other letters cannot be part of an accepted name or flag.
- The documented effect of forceWatch: the scan skips always-ignored commands before it looks at it, and the model does the same.
- Clock readings within one cache call: they are one reading.
- WatcherRun.OldWorkIsStopped: takes a manager that acts on its timer as soon as it expires; a delay of the runtime adds to the bound.
- ExecRegistry.PublishedOnceAndGone: for runs that have not used up the 64-bit counter, after which ids would repeat.
- IdleManager.InactivityIdleManager.Start: the endless loop is driven by the finite list of a run's events.
