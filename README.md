# Cake.StartUp updater core, in Dafny

This project models four pieces of the WinForms updater built on Squirrel:

- `AppUpdate`: checks a local update directory or GitHub, and when releases are waiting, downloads and applies them. Along the way it reports progress through a log callback, the `State` property and the `UpdateDone`/`GotReleaseNotes` events. It also cleans and renders the release notes.
- `Activity<T>`: races a task against a timeout.
- `MessageBoxQueue`: shows queued prompts one at a time, with a 500 ms retry timer.
- `WinFormsExtensions`: `TakeLastLines`, `TakeLastLine` and `AppendLine`.

Outside collaborators are plain inputs:

- The Squirrel update manager is a value (`Squirrel.UpdateManager`). It holds the `UpdateInfo` (installed version or null, future version, releases to apply, the feed's release notes as a sequence of pairs) and the progress callbacks `DownloadReleases`/`UpdateApp` make. Each callback is a `Tick`: the percentage, and whether the token was cancelled at that moment.
- The file system is a `Directory` value: whether it exists, its full name, and whether it holds `RELEASES`.
- The connectivity check is a boolean.
- The `Task.WhenAny` race is a `Race` value.
- The clock string is a parameter.

The `AppUpdate` methods are imperative: they assign `State` and `Token` on the object, step by step, and read `FakeUpdate`. They also return what the run did as an ordered trace of `Output`s: log lines, state assignments, events, and the restart request. Each method is proved equal to a trace function (`LocalTrace`, `GitHubTrace`, `CheckTrace` and their parts), and the properties are lemmas about those functions. `State` always equals the last state the trace sets (`FinalState`).

Modules:

| file | module |
|---|---|
| `common.dfy` | `Common` |
| `dotnet_strings.dfy` | `DotNetStrings`: .NET string behaviour |
| `cancellation.dfy` | `Cancellation` |
| `squirrel.dfy` | `Squirrel`: the manager as inputs |
| `release_notes.dfy` | `ReleaseNotes` |
| `app_update.dfy` | `AppUpdate` |
| `app_update_properties.dfy` | `AppUpdateProperties` |
| `activity.dfy` | `Activity` |
| `message_box_queue.dfy` | `MessageBoxQueue` |
| `win_forms_extensions.dfy` | `WinFormsExtensions` |

Where the code and its test disagree, the model follows the code:

- `ActivityTests.cs` calls `Setup(task, 600)` (line 17), `.Wait(600)` (line 34) and `Setup(task, 100)` (line 46). These calls do not type-check against `Activity.cs:13` and `Activity.cs:61`, which take a `CancellationTokenSource` and a `TimeSpan`.
- The model reads the number as milliseconds, which is what the tests' names and assertions expect.

## Model

| member | source | states |
|---|---|---|
| ReleaseNotes.Rewritten | src/WindowsFormsApp/AppUpdate.cs:213-219 | The six `Replace` calls in order; after all six, no '\n' is left |
| ReleaseNotes.RewrittenKeepsSemicolon | src/WindowsFormsApp/AppUpdate.cs:213-219 | No replaced pattern holds ';', so the rewrites never lose a ';' |
| ReleaseNotes.ScrubNote | src/WindowsFormsApp/AppUpdate.cs:213-220 | Whatever the raw note, the cleaned note ends with ';' and holds no '\n' |
| ReleaseNotes.CleanEntry | src/WindowsFormsApp/AppUpdate.cs:222-229 | The entry carries the release's version and the scrubbed note; the "release notes not found" fallback is never taken |
| ReleaseNotes.CleanedNotes | src/WindowsFormsApp/AppUpdate.cs:207-233 | One entry per input pair, in input order, each with that pair's version and scrubbed note |
| ReleaseNotes.CleanedNotesAreClean | src/WindowsFormsApp/AppUpdate.cs:207-233 | Every cleaned note ends with ';' and holds no '\n' |
| ReleaseNotes.CleanReleaseNotes | src/WindowsFormsApp/AppUpdate.cs:207-233 | The `foreach` loop, with the blank-note branch, builds exactly `CleanedNotes` |
| ReleaseNotes.NotesByRelease | src/WindowsFormsApp/AppUpdate.cs:194-205 | One pair per release to apply, in order: the release and its package notes |
| ReleaseNotes.FetchReleaseNotes | src/WindowsFormsApp/AppUpdate.cs:194-205 | The loop over `ReleasesToApply` builds exactly `NotesByRelease` |
| ReleaseNotes.SelectedNotes | src/WindowsFormsApp/AppUpdate.cs:121-126 | Feed notes when cleaning them leaves any, else package notes; the count is that of the list used |
| ReleaseNotes.SelectedNotesAreClean | src/WindowsFormsApp/AppUpdate.cs:121-126 | Every reported note ends with ';' and holds no '\n' |
| ReleaseNotes.RenderedNotes | src/WindowsFormsApp/AppUpdate.cs:128-133 | The rendered text is empty exactly when there are no notes |
| ReleaseNotes.RenderReleaseNotes | src/WindowsFormsApp/AppUpdate.cs:128-133 | The StringBuilder loop produces `RenderedNotes` |
| ReleaseNotes.RenderedIsJoinPlusNewLine | src/WindowsFormsApp/AppUpdate.cs:128-133 | The rendering is the note lines joined by `NewLine`, plus one final `NewLine` |
| ReleaseNotes.TrimmedRenderingIsJoin | src/WindowsFormsApp/AppUpdate.cs:143 | For clean notes, `TrimEnd` of the new-line characters removes exactly the final line break |
| ReleaseNotes.TrimEndsAtLastChar | src/WindowsFormsApp/AppUpdate.cs:143 | `TrimEnd` of "\r\n" after a text ending in ';' gives the text back |
| ReleaseNotes.ScrubNoteAddsSemicolon | src/WindowsFormsApp/AppUpdate.cs:213-220 | Cleaning strictly increases the number of ';' |
| ReleaseNotes.ScrubNoteNotIdempotent | src/WindowsFormsApp/AppUpdate.cs:213-220 | Cleaning a cleaned note never gives it back |
| DotNetStrings.IsWhiteSpaceOnlyMeaning | src/WindowsFormsApp/AppUpdate.cs:222 | `IsNullOrWhiteSpace` on a non-null string holds exactly when every character is white space |
| DotNetStrings.ReplaceOnlyAdds | src/WindowsFormsApp/AppUpdate.cs:213-219 | Every character of a `Replace` result comes from the input or from the replacement |
| DotNetStrings.ReplaceRemovesChar | src/WindowsFormsApp/AppUpdate.cs:219 | Replacing one character by text without it removes it everywhere |
| DotNetStrings.ReplaceKeepsChar | src/WindowsFormsApp/AppUpdate.cs:213-219 | A character absent from the pattern is never lost by `Replace` |
| DotNetStrings.TrimStartChars | src/WindowsFormsApp/AppUpdate.cs:220 | The result is a suffix of the input that starts outside the trimmed set |
| DotNetStrings.TrimStartDropsOnly | src/WindowsFormsApp/AppUpdate.cs:220 | What `TrimStart` drops consists of trimmed characters |
| DotNetStrings.TrimEndChars | src/WindowsFormsApp/AppUpdate.cs:143 | The result is a prefix of the input that ends outside the trimmed set |
| DotNetStrings.TrimEndDropsOnly | src/WindowsFormsApp/AppUpdate.cs:143 | What `TrimEnd` drops consists of trimmed characters |
| DotNetStrings.Trim | src/WindowsFormsApp/AppUpdate.cs:220 | The result is no longer than the input; when non-empty, it starts and ends with a non-white-space character |
| DotNetStrings.TrimOnlyKeeps | src/WindowsFormsApp/AppUpdate.cs:220 | `Trim` adds no character |
| DotNetStrings.TrimStartKeepsChar | src/WindowsFormsApp/AppUpdate.cs:220 | `TrimStart` keeps every occurrence of a character outside the trimmed set |
| DotNetStrings.TrimEndKeepsChar | src/WindowsFormsApp/AppUpdate.cs:220 | `TrimEnd` keeps every occurrence of a character outside the trimmed set |
| DotNetStrings.TrimKeepsChar | src/WindowsFormsApp/AppUpdate.cs:220 | `Trim` keeps every occurrence of a non-white-space character |
| DotNetStrings.OnlyCharsExcludes | src/WindowsFormsApp/AppUpdate.cs:220 | A text made of a set of characters holds none outside it |
| DotNetStrings.NatToString | src/WindowsFormsApp/AppUpdate.cs:112 | The decimal rendering of a percentage is non-empty, with no leading zero |
| DotNetStrings.NatToStringDigits | src/WindowsFormsApp/AppUpdate.cs:112 | Every character of the rendering is a decimal digit |
| DotNetStrings.IntToString | src/WindowsFormsApp/AppUpdate.cs:112 | The rendering starts with '-' exactly for negative values |
| AppUpdate.CombinePath | src/WindowsFormsApp/AppUpdate.cs:33 | `Path.Combine` ends with the file name; for a relative name, the directory is a prefix |
| AppUpdate.FinalState | src/WindowsFormsApp/AppUpdate.cs:15 | The state after a trace is the initial one or one the trace sets |
| AppUpdate.FinalStateAppend | src/WindowsFormsApp/AppUpdate.cs:15 | The state after `a + b` is `b` run from the state after `a` |
| AppUpdate.FinalStateIsLastSet | src/WindowsFormsApp/AppUpdate.cs:15 | The last assignment of `State` in a trace decides it |
| AppUpdate.FinalStateWithoutSet | src/WindowsFormsApp/AppUpdate.cs:15 | A trace that assigns no state leaves it unchanged |
| AppUpdate.FinalStateFromHead | src/WindowsFormsApp/AppUpdate.cs:21 | An entry point that first assigns `State` ends in a state independent of the state before |
| AppUpdate.Abort | src/WindowsFormsApp/AppUpdate.cs:27-30 | An early exit sets the state, raises `UpdateDone` once, and never restarts |
| AppUpdate.AbortFinalState | src/WindowsFormsApp/AppUpdate.cs:27-30 | After an early exit, `State` is the exit's state |
| AppUpdate.ProgressTrace | src/WindowsFormsApp/AppUpdate.cs:108-119 | The ticks produce one or two outputs each, only log lines or `Timeout` |
| AppUpdate.ProgressTraceStep | src/WindowsFormsApp/AppUpdate.cs:108-119 | One more tick appends its own outputs |
| AppUpdate.Finish | src/WindowsFormsApp/AppUpdate.cs:182-189 | `UpdateDone` is raised once; the restart is requested exactly when asked for and `State == Done` |
| AppUpdate.CheckFinalState | src/WindowsFormsApp/AppUpdate.cs:74 | After a check, `State` is what the releases part leaves, starting from `Checking` |
| AppUpdate.AppUpdate.constructor | src/WindowsFormsApp/AppUpdate.cs:15-17 | A new updater: `State == None`, no token, not faked |
| AppUpdate.AppUpdate.CheckForUpdatesOnLocalNetwork | src/WindowsFormsApp/AppUpdate.cs:19-47 | The run is `LocalTrace`: `State = Init`, then an early exit (state, `UpdateDone`, reason) for a missing directory or RELEASES file, else the check; `State` is the trace's final state; the result is `State == Done`; `Token` is set only when the checks pass |
| AppUpdate.AppUpdate.CheckForUpdatesOnGitHub | src/WindowsFormsApp/AppUpdate.cs:49-69 | The run is `GitHubTrace`: `State = Init`, then the `CantConecctServer` exit when offline, else the check; `State` is the trace's final state; the result is `State == Done` |
| AppUpdate.AppUpdate.CheckForUpdates | src/WindowsFormsApp/AppUpdate.cs:71-192 | The run is `CheckTrace`: `Checking` and the two opening lines, then the not-installed exit, or the releases part (`ReleasesTrace`) followed by `UpdateDone` and the restart rule; `State` is the trace's final state; the result is `State == Done`; `Token` is the given token |
| AppUpdate.AppUpdate.NotifyDone | src/WindowsFormsApp/AppUpdate.cs:182-189 | `UpdateDone`, then a restart exactly when asked for and done |
| AppUpdate.AppUpdate.CheckReleases | src/WindowsFormsApp/AppUpdate.cs:93-180 | The update branch when releases wait, else the "No updates found" line |
| AppUpdate.AppUpdate.DownloadAndApply | src/WindowsFormsApp/AppUpdate.cs:93-176 | The branch is `UpdateTrace`: `DownloadTrace` (lines 95-119), `NotesTrace` (lines 121-144), `InstallTrace` (lines 146-175); it ends with `State == Done` |
| AppUpdate.AppUpdate.ReportReleaseNotes | src/WindowsFormsApp/AppUpdate.cs:121-144 | The event and the notes, or the "not found" line, for the selected notes |
| AppUpdate.AppUpdate.OnProgress | src/WindowsFormsApp/AppUpdate.cs:110-118 | One progress callback is `Stamp`: `Timeout` first when a token is set and cancelled, then its log line; `State` follows it |
| AppUpdate.AppUpdate.ReportProgress | src/WindowsFormsApp/AppUpdate.cs:108-119 | The callbacks over all ticks, in order; `State` follows the trace |
| AppUpdateProperties.Logs | src/WindowsFormsApp/AppUpdate.cs:19 | The log lines of a trace, in order |
| AppUpdateProperties.LogsAppend | src/WindowsFormsApp/AppUpdate.cs:19 | The log of `a + b` is the log of `a`, then that of `b` |
| AppUpdateProperties.LogsOfCheckHead | src/WindowsFormsApp/AppUpdate.cs:74-77 | Every check first logs "Contacting update server..." and "Checking for updates..." |
| AppUpdateProperties.LogsOfAbort | src/WindowsFormsApp/AppUpdate.cs:27-29 | An early exit logs its reason and nothing else |
| AppUpdateProperties.CancelledSplit | src/WindowsFormsApp/AppUpdate.cs:110 | Some tick was cancelled exactly when an earlier one or the last one was |
| AppUpdateProperties.StampLogs | src/WindowsFormsApp/AppUpdate.cs:110-118 | One tick logs exactly its line |
| AppUpdateProperties.TickLinesStep | src/WindowsFormsApp/AppUpdate.cs:108-119 | One more tick appends its line |
| AppUpdateProperties.ProgressLogsPerTick | src/WindowsFormsApp/AppUpdate.cs:108-119 | Each tick logs exactly one line, in order: "... i%", or "... i% [Timeout!]" when a token was given and cancelled |
| AppUpdateProperties.ProgressState | src/WindowsFormsApp/AppUpdate.cs:108-119 | The ticks set `Timeout` exactly when a token was given and some tick saw it cancelled; otherwise `State` is unchanged |
| AppUpdateProperties.NoTokenNoTimeout | src/WindowsFormsApp/AppUpdate.cs:110 | Without a token no tick sets `Timeout` |
| AppUpdateProperties.NoNotesEventAppend | src/WindowsFormsApp/AppUpdate.cs:141 | Two traces without `GotReleaseNotes` concatenate to one without it |
| AppUpdateProperties.QuietAppend | src/WindowsFormsApp/AppUpdate.cs:182 | Two traces without `UpdateDone` or a restart concatenate to one without them |
| AppUpdateProperties.QuietPrefix | src/WindowsFormsApp/AppUpdate.cs:182 | A prefix without `UpdateDone` or a restart changes neither the count of `UpdateDone` nor the restart |
| AppUpdateProperties.ProgressQuiet | src/WindowsFormsApp/AppUpdate.cs:108-119 | Progress callbacks raise no event and never restart |
| AppUpdateProperties.NotesQuiet | src/WindowsFormsApp/AppUpdate.cs:135-144 | Reporting notes raises neither `UpdateDone` nor a restart |
| AppUpdateProperties.DownloadQuiet | src/WindowsFormsApp/AppUpdate.cs:95-119 | The announcement and the download raise no event and never restart |
| AppUpdateProperties.InstallQuiet | src/WindowsFormsApp/AppUpdate.cs:146-175 | The apply part raises no event and never restarts |
| AppUpdateProperties.InstallEndsWithTail | src/WindowsFormsApp/AppUpdate.cs:171-175 | The apply part ends with "Updating 100%", "Update completed successfully" and `Done` |
| AppUpdateProperties.InstallEndsDone | src/WindowsFormsApp/AppUpdate.cs:175 | The apply part ends in `Done`, whatever state it starts from |
| AppUpdateProperties.UpdateQuiet | src/WindowsFormsApp/AppUpdate.cs:93-176 | The releases-waiting branch raises neither `UpdateDone` nor a restart |
| AppUpdateProperties.UpdateEndsWithTail | src/WindowsFormsApp/AppUpdate.cs:171-175 | The releases-waiting branch always ends with the two closing lines and `Done` |
| AppUpdateProperties.UpdateEndsDone | src/WindowsFormsApp/AppUpdate.cs:148-175 | The releases-waiting branch ends in `Done`, overwriting any `Timeout` a tick set |
| AppUpdateProperties.FakeUpdateSkipsApply | src/WindowsFormsApp/AppUpdate.cs:148-167 | With `FakeUpdate` the apply ticks make no difference, and the trace is shorter than without it |
| AppUpdateProperties.NotesAlwaysReported | src/WindowsFormsApp/AppUpdate.cs:121-144 | With releases waiting, the notes list is non-empty: the event carries it and the log gets the heading and the joined note lines |
| AppUpdateProperties.NotesEventOnce | src/WindowsFormsApp/AppUpdate.cs:121-146 | `GotReleaseNotes` occurs exactly once, right after the download, carrying the notes, three outputs before "Performing update" |
| AppUpdateProperties.NotesTraceReports | src/WindowsFormsApp/AppUpdate.cs:135-144 | No notes: only the "not found" line; otherwise the event first, then two log lines |
| AppUpdateProperties.InstallStartsPerforming | src/WindowsFormsApp/AppUpdate.cs:146 | The apply part starts with "Performing update, please wait..." |
| AppUpdateProperties.ReleasesEnd | src/WindowsFormsApp/AppUpdate.cs:93-180 | The releases part ends in `Done` when releases wait, else leaves `Checking`; it is quiet |
| AppUpdateProperties.CheckRun | src/WindowsFormsApp/AppUpdate.cs:71-192 | The final state is `NotInstalledApp`, `Done` or `Checking` by branch; `UpdateDone` occurs exactly once; restart iff asked for and done |
| AppUpdateProperties.NotInstalledStops | src/WindowsFormsApp/AppUpdate.cs:81-89 | Not installed and not faked: `NotInstalledApp`, the cancel line last, no download, and the releases do not matter |
| AppUpdateProperties.NotInstalledOutputs | src/WindowsFormsApp/AppUpdate.cs:74-89 | The not-installed exit's final state, its three log lines, and no `Downloading` |
| AppUpdateProperties.NoUpdatesFound | src/WindowsFormsApp/AppUpdate.cs:177-180 | No releases: `State` stays `Checking`, the last line is "No updates found on path: ...", no restart |
| AppUpdateProperties.NoUpdatesTrace | src/WindowsFormsApp/AppUpdate.cs:177-182 | A check without releases logs one line and then raises `UpdateDone` |
| AppUpdateProperties.LogsOfNoUpdates | src/WindowsFormsApp/AppUpdate.cs:75-179 | The log of such a check is the two opening lines and the "No updates" line |
| AppUpdateProperties.LocalRun | src/WindowsFormsApp/AppUpdate.cs:19-47 | Final state by branch; `Done` exactly when the path is valid, the app is installed or faked, and releases wait; `UpdateDone` exactly once; restart iff asked for and done |
| AppUpdateProperties.LocalRunInvalid | src/WindowsFormsApp/AppUpdate.cs:25-41 | The same facts for an invalid update path |
| AppUpdateProperties.NotesEvents | src/WindowsFormsApp/AppUpdate.cs:141 | The number of `GotReleaseNotes` events a trace raises, at most its length |
| AppUpdateProperties.NotesEventsAppend | src/WindowsFormsApp/AppUpdate.cs:141 | The count over `a + b` is the sum of the counts |
| AppUpdateProperties.NoNotesEventCount | src/WindowsFormsApp/AppUpdate.cs:141 | A trace has no `GotReleaseNotes` event exactly when the count is zero |
| AppUpdateProperties.NotesTraceEvents | src/WindowsFormsApp/AppUpdate.cs:135-144 | The notes part raises the event once when there are notes, never otherwise |
| AppUpdateProperties.ReleasesNotesEvents | src/WindowsFormsApp/AppUpdate.cs:93-180 | The releases part raises it once when releases wait and there are notes, never otherwise |
| AppUpdateProperties.AbortNotesEvents | src/WindowsFormsApp/AppUpdate.cs:27-30 | An early exit raises no `GotReleaseNotes` |
| AppUpdateProperties.NotesEventsBetween | src/WindowsFormsApp/AppUpdate.cs:71-192 | A head and a tail without the event leave the count of the part between them unchanged |
| AppUpdateProperties.DoneHasSelectedNotes | src/WindowsFormsApp/AppUpdate.cs:121-126 | A check that ends in `Done` has releases waiting, so the notes it selects are never empty |
| AppUpdateProperties.NotInstalledNotesEvents | src/WindowsFormsApp/AppUpdate.cs:81-89 | The not-installed exit raises no `GotReleaseNotes` |
| AppUpdateProperties.CheckedNotesEvents | src/WindowsFormsApp/AppUpdate.cs:93-192 | Past the installation check, `GotReleaseNotes` occurs once when releases wait and there are notes, never otherwise |
| AppUpdateProperties.CheckNotesEvents | src/WindowsFormsApp/AppUpdate.cs:71-192 | Over a whole check, `GotReleaseNotes` occurs once when the check ends in `Done` with notes, else never; with the selected notes, exactly when `Done` |
| AppUpdateProperties.InitNotesEvents | src/WindowsFormsApp/AppUpdate.cs:21 | The opening `State = Init` raises no event |
| AppUpdateProperties.LocalNotesEvents | src/WindowsFormsApp/AppUpdate.cs:19-47 | Over a local run, at most once: never on an invalid path; with the selected notes, exactly when the run ends in `Done` |
| AppUpdateProperties.GitHubNotesEvents | src/WindowsFormsApp/AppUpdate.cs:49-69 | Over a GitHub run, at most once: never offline; with the selected notes, exactly when the run ends in `Done` |
| AppUpdateProperties.InvalidPathStops | src/WindowsFormsApp/AppUpdate.cs:23-41 | A missing directory or RELEASES file: `InvalidUpdatePath`, `UpdateDone`, exactly one "not found" line, and the manager does not matter |
| AppUpdateProperties.GitHubRun | src/WindowsFormsApp/AppUpdate.cs:49-69 | Offline: `CantConecctServer`, one line, and the manager does not matter; otherwise the check decides; `UpdateDone` exactly once; restart iff asked for and done |
| Cancellation.CancellationTokenSource.Cancel | src/WindowsFormsApp/Activity.cs:37 | After `Cancel`, cancellation is requested |
| Activity.Await | src/WindowsFormsApp/Activity.cs:50 | `await` returns the result of a completed task, and rethrows a fault or a cancellation |
| Activity.RunOutcome | src/WindowsFormsApp/Activity.cs:20-53 | A value comes back iff the task completed, won the race, and the token was live; otherwise `OperationCanceledException`, or the task's own failure |
| Activity.Activity.constructor | src/WindowsFormsApp/Activity.cs:9-11 | No token, no task, a 10-second timeout |
| Activity.Activity.Setup | src/WindowsFormsApp/Activity.cs:13-18 | Task and token always replaced; timeout replaced only when non-default |
| Activity.Activity.ForTask | src/WindowsFormsApp/Activity.cs:55-59 | Changes only the task and returns the same instance |
| Activity.Activity.Wait | src/WindowsFormsApp/Activity.cs:61-65 | Changes only the timeout and returns the same instance |
| Activity.Activity.WithToken | src/WindowsFormsApp/Activity.cs:67-71 | Changes only the token source and returns the same instance |
| Activity.Activity.Run | src/WindowsFormsApp/Activity.cs:20-53 | A fresh token source only when none was set; the outcome is `RunOutcome`; the token is cancelled iff it already was or the timer won |
| Activity.CanRunTaskWithinTimeLimit | src/Example.Tests/ActivityTests.cs:12-24 | Through `Setup`, the task that finishes first yields 10 |
| Activity.CanRunTaskWithinTimeLimitFluent | src/Example.Tests/ActivityTests.cs:27-38 | The fluent form yields 10 too |
| Activity.ThrowErrorWhenTimeout | src/Example.Tests/ActivityTests.cs:41-65 | When the timer wins, `OperationCanceledException` is thrown |
| MessageBoxQueue.Timer.constructor | src/WindowsFormsApp/MessageBoxQueue.cs:18 | A new timer: 100 ms, disabled, no handler |
| MessageBoxQueue.MessageBoxQueue.constructor | src/WindowsFormsApp/MessageBoxQueue.cs:10-12 | Empty queue, not displaying, no timer |
| MessageBoxQueue.MessageBoxQueue.Add | src/WindowsFormsApp/MessageBoxQueue.cs:14-28 | A new 500 ms timer when the queue was empty, the same timer otherwise; the action goes to the tail; then `Show` |
| MessageBoxQueue.MessageBoxQueue.OnTimedEvent | src/WindowsFormsApp/MessageBoxQueue.cs:30-33 | A tick is a `Show` |
| MessageBoxQueue.MessageBoxQueue.Show | src/WindowsFormsApp/MessageBoxQueue.cs:35-54 | Displaying: nothing changes. Free: the head is removed and invoked, `displaying` is set, and an empty queue stops the timer. The FIFO invariant is kept |
| MessageBoxQueue.MessageBoxQueue.SetFree | src/WindowsFormsApp/MessageBoxQueue.cs:56-59 | Clears only the flag; queue, timer and logs unchanged |
| MessageBoxQueue.Enqueued | src/WindowsFormsApp/MessageBoxQueue.cs:25 | The actions added, in order |
| MessageBoxQueue.Invocations | src/WindowsFormsApp/MessageBoxQueue.cs:45 | The actions invoked, in order |
| MessageBoxQueue.AlternationSeparates | src/WindowsFormsApp/MessageBoxQueue.cs:37-46 | When every invocation is followed by `SetFree`, there is a `SetFree` between any two invocations |
| MessageBoxQueue.InvokeAfterFree | src/WindowsFormsApp/MessageBoxQueue.cs:42-46 | An invocation after a `SetFree` keeps the alternation |
| MessageBoxQueue.FreeAfter | src/WindowsFormsApp/MessageBoxQueue.cs:56-59 | A `SetFree` keeps the alternation |
| MessageBoxQueue.EnqueuedStep | src/WindowsFormsApp/MessageBoxQueue.cs:25 | One more operation adds its action if it is an `Add` |
| MessageBoxQueue.Apply | src/WindowsFormsApp/MessageBoxQueue.cs:14-59 | One `Add`, tick or `SetFree`: what is added and shown grows accordingly, and an invocation happens only after a `SetFree` |
| MessageBoxQueue.Replay | src/WindowsFormsApp/MessageBoxQueue.cs:14-59 | Over any sequence of calls, invocation order is a prefix of enqueue order, and between two invocations there is a `SetFree` |
| WinFormsExtensions.Split | src/WindowsFormsApp/WinFormsExtensions.cs:34 | A text has at least one line |
| WinFormsExtensions.SplitLinesHaveNoNewLine | src/WindowsFormsApp/WinFormsExtensions.cs:34 | No line holds '\n' |
| WinFormsExtensions.JoinSplit | src/WindowsFormsApp/WinFormsExtensions.cs:34 | Joining the lines with '\n' gives the text back |
| WinFormsExtensions.SplitJoin | src/WindowsFormsApp/WinFormsExtensions.cs:34 | Lines free of '\n' come back from splitting their join |
| WinFormsExtensions.SplitWithoutNewLine | src/WindowsFormsApp/WinFormsExtensions.cs:34 | A text without '\n' is one line |
| WinFormsExtensions.SplitAtNewLine | src/WindowsFormsApp/WinFormsExtensions.cs:34 | Splitting at a '\n' splits the lines before and after it |
| WinFormsExtensions.LineStart | src/WindowsFormsApp/WinFormsExtensions.cs:34 | The right-to-left `^.*$` match ending at a position starts after the previous '\n' and holds none |
| WinFormsExtensions.LastN | src/WindowsFormsApp/WinFormsExtensions.cs:36 | The last `count` elements: none for `count <= 0`, all when there are fewer, and always a suffix |
| WinFormsExtensions.TakeLastLines | src/WindowsFormsApp/WinFormsExtensions.cs:31-43 | The result is the last `count` lines of the text in top-to-bottom order, none when `count <= 0`, at most `count` |
| WinFormsExtensions.SplitUpTo | src/WindowsFormsApp/WinFormsExtensions.cs:36-40 | The lines of a prefix are the earlier lines and then the match found |
| WinFormsExtensions.TakeLastLine | src/WindowsFormsApp/WinFormsExtensions.cs:26-29 | The final line: the longest suffix without '\n' |
| WinFormsExtensions.LastLineIsSuffix | src/WindowsFormsApp/WinFormsExtensions.cs:26-29 | The last line is a suffix of the text, holds no '\n', and follows a '\n' unless it is the whole text |
| WinFormsExtensions.TextBox.constructor | src/WindowsFormsApp/WinFormsExtensions.cs:12 | A text box holding the given text |
| WinFormsExtensions.AppendLine | src/WindowsFormsApp/WinFormsExtensions.cs:12-24 | A null or blank value changes nothing; an empty box gets "[time]: value"; otherwise `NewLine` + "[time]: value" is appended, and the old text stays a prefix |

## Left out

- I/O and the network:
  - `CheckForInternetConnection` (a `WebClient` request) is a boolean input.
  - The `ServicePointManager` settings are left out.
  - `UpdateManager.GitHubUpdateManager` and `new UpdateManager(path)` are left out; the manager's results are inputs.
- Squirrel's `CheckForUpdate`, `DownloadReleases`, `UpdateApp` and `GetReleaseNotes` are foreign code. Their results and callbacks are inputs, and any exception they throw is not modelled.
- `RestartApp` starts a process; the model records a `RestartApp` output instead.
- `DirectoryInfo`/`FileInfo` become a `Directory` value. Path validation exceptions are not modelled.
- Asynchrony and timing:
  - `Task.Delay(1000)` for a faked update, and the `Task.WhenAny`/`Task.Delay` race in `Activity`, are not modelled. The race is a `Race` input.
  - `Console.WriteLine` is left out.
  - `DateTime.Now` is a clock-string parameter.
- The progress callbacks run in `DownloadReleases`/`UpdateApp`. The model assumes they run before the call returns, in order.
- Events: `UpdateDone?.Invoke()` and `GotReleaseNotes?.Invoke(...)` are recorded even when no handler is subscribed. Handlers that call back into the object are not modelled.
- `MessageBoxQueue`:
  - The static class is one object.
  - An `Action` is a number; invoking it is what `Show` hands back. An action that calls `Add` or `SetFree` while it runs is not modelled.
  - `ConcurrentQueue` thread safety and the timer's own thread are not modelled. Ticks are explicit `OnTimedEvent` calls.
- `MessageBoxQueue.Replay`: states the invoked actions as a prefix of the added ones, since actions may still be waiting at the end.
- Release notes:
  - The feed's notes dictionary is a sequence of pairs in enumeration order. Duplicate keys and `null` notes are not modelled.
  - Strings are sequences of `char` (UTF-16 code units); no culture-specific behaviour.
- `AppUpdate.AppUpdate.CheckForUpdates`: the notes in the trace are `SelectedNotes(manager.info)`, computed from the inputs. The trace functions take the notes as a parameter, so the lemmas hold for any list and `NotesAlwaysReported` ties them to the inputs.
- `Activity.Activity.Setup` and `Activity.Activity.ForTask` take a task, never `null`. Passing `null` there would make `Run` fail inside `Task.WhenAny`; the model reaches that failure only for an `Activity` whose task was never set.
- `WinFormsExtensions.TakeLastLines`: the regular expression engine is not modelled; `LineStart` states where each right-to-left match begins. A `null` text is not modelled.
- `WinFormsExtensions.TakeLastLine`: `FirstOrDefault` returning `null` cannot happen, because any text has a last line; it is not modelled.
- `MainForm.cs` and `MainForm.Designer.cs` (the UI and an older inline copy of the note cleaning) are not part of this model.
