/**
  What a run of `AppUpdate` guarantees, stated over the traces of its entry
  points: how each branch ends, what a progress tick does, when release
  notes are reported, that `UpdateDone` is raised exactly once, and that the
  application restarts only after a completed update.
*/
module AppUpdateProperties {
  import opened AppUpdate
  import opened ReleaseNotes
  import opened DotNetStrings
  import Squirrel

  /** The lines sent to the log, in order. */
  function Logs(trace: seq<Output>): (lines: seq<string>)
    ensures |lines| <= |trace|
  {
    if trace == [] then []
    else Logs(trace[..|trace| - 1]) + (if trace[|trace| - 1].Log? then [trace[|trace| - 1].line] else [])
  }

  lemma {:induction false} LogsAppend(a: seq<Output>, b: seq<Output>)
    ensures Logs(a + b) == Logs(a) + Logs(b)
    decreases |b|
  {
    if b == [] {
      assert a + b == a;
    } else {
      assert (a + b)[..|a + b| - 1] == a + b[..|b| - 1];
      LogsAppend(a, b[..|b| - 1]);
    }
  }

  lemma LogsOfOne(o: Output)
    ensures Logs([o]) == if o.Log? then [o.line] else []
  {
    assert [o][..0] == [];
  }

  /** Every check logs these two lines first. */
  lemma LogsOfCheckHead()
    ensures Logs(CheckHead) == [ContactingServer, CheckingForUpdates]
  {
    var a, b, c := StateSet(Checking), Log(ContactingServer), Log(CheckingForUpdates);
    assert CheckHead == [a] + ([b] + [c]);
    LogsAppend([a], [b] + [c]);
    LogsAppend([b], [c]);
    LogsOfOne(a);
    LogsOfOne(b);
    LogsOfOne(c);
  }

  /** An early exit logs its reason and nothing else. */
  lemma LogsOfAbort(state: UpdateState, message: string)
    ensures Logs(Abort(state, message)) == [message]
  {
    var a, b, c := StateSet(state), UpdateDone, Log(message);
    assert Abort(state, message) == [a] + ([b] + [c]);
    LogsAppend([a], [b] + [c]);
    LogsAppend([b], [c]);
    LogsOfOne(a);
    LogsOfOne(b);
    LogsOfOne(c);
  }

  /** Some tick was seen after the token had been cancelled. */
  predicate SomeTickCancelled(ticks: seq<Squirrel.Tick>)
  {
    exists k :: 0 <= k < |ticks| && ticks[k].cancelled
  }

  lemma CancelledSplit(ticks: seq<Squirrel.Tick>)
    requires ticks != []
    ensures SomeTickCancelled(ticks) <==> SomeTickCancelled(ticks[..|ticks| - 1]) || ticks[|ticks| - 1].cancelled
  {
    var init := ticks[..|ticks| - 1];
    if SomeTickCancelled(ticks) && !ticks[|ticks| - 1].cancelled {
      var k :| 0 <= k < |ticks| && ticks[k].cancelled;
      assert init[k] == ticks[k];
    }
    if SomeTickCancelled(init) {
      var k :| 0 <= k < |init| && init[k].cancelled;
      assert ticks[k] == init[k];
    }
  }

  /** The line a progress tick logs. */
  function TickLine(prefix: string, tick: Squirrel.Tick, hasToken: bool): string
  {
    prefix + IntToString(tick.percent) + (if hasToken && tick.cancelled then TimeoutMark else "%")
  }

  /** One tick logs exactly its line. */
  lemma StampLogs(prefix: string, tick: Squirrel.Tick, hasToken: bool)
    ensures Logs(Stamp(prefix, tick, hasToken)) == [TickLine(prefix, tick, hasToken)]
  {
    var stamp := Stamp(prefix, tick, hasToken);
    if !hasToken || !tick.cancelled {
      assert stamp[..0] == [];
    } else {
      assert stamp[..1] == [StateSet(Timeout)];
      assert stamp[..1][..0] == [];
    }
  }

  /** The lines of `ticks`, one per tick, in order. */
  function TickLines(prefix: string, ticks: seq<Squirrel.Tick>, hasToken: bool): seq<string>
  {
    seq(|ticks|, k requires 0 <= k < |ticks| => TickLine(prefix, ticks[k], hasToken))
  }

  /** One more tick adds its line at the end. */
  lemma TickLinesStep(prefix: string, ticks: seq<Squirrel.Tick>, hasToken: bool)
    requires ticks != []
    ensures TickLines(prefix, ticks, hasToken) ==
      TickLines(prefix, ticks[..|ticks| - 1], hasToken) + [TickLine(prefix, ticks[|ticks| - 1], hasToken)]
  {
    var init := TickLines(prefix, ticks[..|ticks| - 1], hasToken);
    var all := TickLines(prefix, ticks, hasToken);
    forall k | 0 <= k < |all|
      ensures all[k] == (init + [TickLine(prefix, ticks[|ticks| - 1], hasToken)])[k]
    {
      if k < |init| {
        assert ticks[..|ticks| - 1][k] == ticks[k];
      }
    }
  }

  /**
    Tick rule, log side: every tick logs exactly one line, in order, marked
    "[Timeout!]" exactly when a token was given and it was cancelled.
  */
  lemma {:induction false} ProgressLogsPerTick(prefix: string, ticks: seq<Squirrel.Tick>, hasToken: bool)
    ensures Logs(ProgressTrace(prefix, ticks, hasToken)) == TickLines(prefix, ticks, hasToken)
    decreases |ticks|
  {
    if ticks != [] {
      var init := ticks[..|ticks| - 1];
      var last := ticks[|ticks| - 1];
      ProgressLogsPerTick(prefix, init, hasToken);
      LogsAppend(ProgressTrace(prefix, init, hasToken), Stamp(prefix, last, hasToken));
      StampLogs(prefix, last, hasToken);
      TickLinesStep(prefix, ticks, hasToken);
    }
  }

  /**
    Tick rule, state side: the ticks leave `State` alone unless a token was
    given and some tick saw it cancelled; then they leave it `Timeout`.
  */
  lemma {:induction false} ProgressState(prefix: string, ticks: seq<Squirrel.Tick>, hasToken: bool, initial: UpdateState)
    ensures FinalState(ProgressTrace(prefix, ticks, hasToken), initial) ==
      if hasToken && SomeTickCancelled(ticks) then Timeout else initial
    ensures StateSet(Timeout) in ProgressTrace(prefix, ticks, hasToken) <==> hasToken && SomeTickCancelled(ticks)
    decreases |ticks|
  {
    if ticks == [] {
      assert !SomeTickCancelled(ticks);
    } else {
      var init := ticks[..|ticks| - 1];
      var last := ticks[|ticks| - 1];
      ProgressState(prefix, init, hasToken, initial);
      var earlier := ProgressTrace(prefix, init, hasToken);
      var stamp := Stamp(prefix, last, hasToken);
      FinalStateAppend(earlier, stamp, initial);
      CancelledSplit(ticks);
      if !hasToken || !last.cancelled {
        FinalStateWithoutSet(stamp, FinalState(earlier, initial));
      } else {
        FinalStateIsLastSet(stamp, 0, FinalState(earlier, initial));
      }
    }
  }

  /** Without a token no tick ever sets `Timeout`. */
  lemma NoTokenNoTimeout(prefix: string, ticks: seq<Squirrel.Tick>, initial: UpdateState)
    ensures StateSet(Timeout) !in ProgressTrace(prefix, ticks, false)
    ensures FinalState(ProgressTrace(prefix, ticks, false), initial) == initial
  {
    ProgressState(prefix, ticks, false, initial);
  }

  /** No `GotReleaseNotes` event anywhere in `trace`. */
  predicate NoNotesEvent(trace: seq<Output>)
  {
    forall k :: 0 <= k < |trace| ==> !trace[k].GotReleaseNotes?
  }

  lemma NoNotesEventAppend(a: seq<Output>, b: seq<Output>)
    requires NoNotesEvent(a) && NoNotesEvent(b)
    ensures NoNotesEvent(a + b)
  {
    forall k | 0 <= k < |a + b|
      ensures !(a + b)[k].GotReleaseNotes?
    {
      if k >= |a| {
        assert (a + b)[k] == b[k - |a|];
      }
    }
  }

  /** Neither `UpdateDone` nor a restart. */
  predicate Quiet(trace: seq<Output>)
  {
    UpdateDone !in trace && RestartApp !in trace
  }

  lemma QuietAppend(a: seq<Output>, b: seq<Output>)
    requires Quiet(a) && Quiet(b)
    ensures Quiet(a + b)
  {
  }

  /** A quiet prefix changes neither how often `UpdateDone` is raised nor whether a restart happens. */
  lemma QuietPrefix(a: seq<Output>, b: seq<Output>)
    requires Quiet(a)
    ensures multiset(a + b)[UpdateDone] == multiset(b)[UpdateDone]
    ensures RestartApp in a + b <==> RestartApp in b
  {
    assert multiset(a + b) == multiset(a) + multiset(b);
    assert UpdateDone !in multiset(a);
  }

  /** The progress callbacks raise no event and never restart the application. */
  lemma ProgressQuiet(prefix: string, ticks: seq<Squirrel.Tick>, hasToken: bool)
    ensures Quiet(ProgressTrace(prefix, ticks, hasToken))
    ensures NoNotesEvent(ProgressTrace(prefix, ticks, hasToken))
  {
    var trace := ProgressTrace(prefix, ticks, hasToken);
    forall k | 0 <= k < |trace|
      ensures trace[k] != UpdateDone && trace[k] != RestartApp
    {
    }
  }

  /** The release-notes part raises `GotReleaseNotes` at most, and never restarts. */
  lemma NotesQuiet(notes: seq<ReleaseEntry>)
    ensures Quiet(NotesTrace(notes))
  {
  }

  /** The announcement and the download raise no event and never restart. */
  lemma DownloadQuiet(manager: Squirrel.UpdateManager, hasToken: bool)
    ensures Quiet(DownloadTrace(manager, hasToken)) && NoNotesEvent(DownloadTrace(manager, hasToken))
  {
    var announce := DownloadTrace(manager, hasToken)[..6];
    var download := ProgressTrace(DownloadingLabel, manager.downloadProgress, hasToken);
    assert DownloadTrace(manager, hasToken) == announce + download;
    ProgressQuiet(DownloadingLabel, manager.downloadProgress, hasToken);
    QuietAppend(announce, download);
    NoNotesEventAppend(announce, download);
  }

  /** After the notes the branch raises no event and never restarts. */
  lemma InstallQuiet(manager: Squirrel.UpdateManager, hasToken: bool, fakeUpdate: bool)
    ensures Quiet(InstallTrace(manager, hasToken, fakeUpdate))
    ensures NoNotesEvent(InstallTrace(manager, hasToken, fakeUpdate))
  {
    var install := InstallTrace(manager, hasToken, fakeUpdate);
    var apply := if fakeUpdate then []
      else [Log(UpdatingLabel + "0%")] + ProgressTrace(UpdatingLabel, manager.applyProgress, hasToken);
    var front := [Log(PerformingUpdate)] + apply;
    ProgressQuiet(UpdatingLabel, manager.applyProgress, hasToken);
    if !fakeUpdate {
      QuietAppend([Log(UpdatingLabel + "0%")], ProgressTrace(UpdatingLabel, manager.applyProgress, hasToken));
      NoNotesEventAppend([Log(UpdatingLabel + "0%")], ProgressTrace(UpdatingLabel, manager.applyProgress, hasToken));
    }
    QuietAppend([Log(PerformingUpdate)], apply);
    NoNotesEventAppend([Log(PerformingUpdate)], apply);
    QuietAppend(front, UpdateTail);
    NoNotesEventAppend(front, UpdateTail);
  }

  /** After the notes the branch ends with the closing lines. */
  lemma InstallEndsWithTail(manager: Squirrel.UpdateManager, hasToken: bool, fakeUpdate: bool)
    ensures var install := InstallTrace(manager, hasToken, fakeUpdate);
      |install| >= 3 && install[|install| - 3..] == UpdateTail
  {
    var install := InstallTrace(manager, hasToken, fakeUpdate);
    assert install[|install| - 3..] == UpdateTail;
  }

  /** After the notes the branch ends in `Done`. */
  lemma InstallEndsDone(manager: Squirrel.UpdateManager, hasToken: bool, fakeUpdate: bool, initial: UpdateState)
    ensures FinalState(InstallTrace(manager, hasToken, fakeUpdate), initial) == Done
  {
    var install := InstallTrace(manager, hasToken, fakeUpdate);
    var front := install[..|install| - 3];
    assert install == front + UpdateTail;
    FinalStateAppend(front, UpdateTail, initial);
    FinalStateIsLastSet(UpdateTail, 2, FinalState(front, initial));
  }

  /** A trace whose last part ends with `UpdateTail` ends with it too. */
  lemma EndsWithTail(front: seq<Output>, install: seq<Output>)
    requires |install| >= 3 && install[|install| - 3..] == UpdateTail
    ensures |front + install| >= 3 && (front + install)[|front + install| - 3..] == UpdateTail
  {
    assert (front + install)[|front + install| - 3..] == install[|install| - 3..];
  }

  /** The releases-waiting branch neither raises `UpdateDone` nor restarts. */
  lemma UpdateQuiet(manager: Squirrel.UpdateManager, notes: seq<ReleaseEntry>, hasToken: bool, fakeUpdate: bool)
    ensures Quiet(UpdateTrace(manager, notes, hasToken, fakeUpdate))
  {
    var front := DownloadTrace(manager, hasToken) + NotesTrace(notes);
    DownloadQuiet(manager, hasToken);
    NotesQuiet(notes);
    InstallQuiet(manager, hasToken, fakeUpdate);
    QuietAppend(DownloadTrace(manager, hasToken), NotesTrace(notes));
    QuietAppend(front, InstallTrace(manager, hasToken, fakeUpdate));
  }

  /**
    The releases-waiting branch always ends by logging "Updating 100%" and
    "Update completed successfully" and setting `Done`.
  */
  lemma UpdateEndsWithTail(manager: Squirrel.UpdateManager, notes: seq<ReleaseEntry>, hasToken: bool, fakeUpdate: bool)
    ensures var trace := UpdateTrace(manager, notes, hasToken, fakeUpdate);
      |trace| >= 3 && trace[|trace| - 3..] == UpdateTail
  {
    var front := DownloadTrace(manager, hasToken) + NotesTrace(notes);
    var install := InstallTrace(manager, hasToken, fakeUpdate);
    InstallEndsWithTail(manager, hasToken, fakeUpdate);
    EndsWithTail(front, install);
  }

  /** The releases-waiting branch leaves `Done`, whatever the ticks did to the state before. */
  lemma UpdateEndsDone(manager: Squirrel.UpdateManager, notes: seq<ReleaseEntry>, hasToken: bool, fakeUpdate: bool, initial: UpdateState)
    ensures FinalState(UpdateTrace(manager, notes, hasToken, fakeUpdate), initial) == Done
  {
    var front := DownloadTrace(manager, hasToken) + NotesTrace(notes);
    var install := InstallTrace(manager, hasToken, fakeUpdate);
    InstallEndsDone(manager, hasToken, fakeUpdate, FinalState(front, initial));
    FinalStateAppend(front, install, initial);
  }

  /** With `FakeUpdate` set, the apply step is skipped: its ticks make no difference. */
  lemma FakeUpdateSkipsApply(manager: Squirrel.UpdateManager, notes: seq<ReleaseEntry>, otherTicks: seq<Squirrel.Tick>, hasToken: bool)
    ensures UpdateTrace(manager, notes, hasToken, true) == UpdateTrace(manager.(applyProgress := otherTicks), notes, hasToken, true)
    ensures |UpdateTrace(manager, notes, hasToken, true)| < |UpdateTrace(manager, notes, hasToken, false)|
  {
  }

  /**
    When releases are waiting the notes are always reported: the list is
    never empty (a release without feed notes still contributes its package
    notes), so the "Release notes not found" line is never written. The
    event carries the list, and the log gets the heading and the notes, one
    "Version v: notes" line each.
  */
  lemma NotesAlwaysReported(info: Squirrel.UpdateInfo)
    requires |info.releasesToApply| > 0
    ensures |SelectedNotes(info)| > 0
    ensures NotesTrace(SelectedNotes(info)) == [
      GotReleaseNotes(GotUpdateReleaseNotesEventArgs(SelectedNotes(info))),
      Log(NotesHeading),
      Log(JoinedNoteLines(SelectedNotes(info)))]
  {
    SelectedNotesAreClean(info);
    TrimmedRenderingIsJoin(SelectedNotes(info));
  }

  /** Where the parts of a three-part trace sit in it. */
  lemma AroundMiddle(x: seq<Output>, y: seq<Output>, z: seq<Output>)
    requires |y| == 3 && |z| >= 1
    ensures var t := x + y + z;
      && |x| + 3 < |t|
      && t[|x|] == y[0] && t[|x| + 3] == z[0]
      && t[..|x|] == x && t[|x| + 1..] == y[1..] + z
  {
    var t := x + y + z;
    assert t[..|x|] == x;
    assert t[|x| + 1..] == y[1..] + z;
  }

  /**
    `GotReleaseNotes` is raised exactly once in the releases-waiting branch
    when there are notes to report (`NotesAlwaysReported`: there always are):
    right after the download ticks, carrying the notes, and three outputs
    before "Performing update, please wait...", which comes before every
    apply tick.
  */
  lemma NotesEventOnce(manager: Squirrel.UpdateManager, notes: seq<ReleaseEntry>, hasToken: bool, fakeUpdate: bool)
    requires notes != []
    ensures var trace := UpdateTrace(manager, notes, hasToken, fakeUpdate);
      var i := |DownloadTrace(manager, hasToken)|;
      && i + 3 < |trace|
      && trace[i] == GotReleaseNotes(GotUpdateReleaseNotesEventArgs(notes))
      && trace[i + 3] == Log(PerformingUpdate)
      && NoNotesEvent(trace[..i]) && NoNotesEvent(trace[i + 1..])
  {
    var trace := UpdateTrace(manager, notes, hasToken, fakeUpdate);
    var download := DownloadTrace(manager, hasToken);
    var reported := NotesTrace(notes);
    var install := InstallTrace(manager, hasToken, fakeUpdate);
    NotesTraceReports(notes);
    InstallQuiet(manager, hasToken, fakeUpdate);
    InstallStartsPerforming(manager, hasToken, fakeUpdate);
    DownloadQuiet(manager, hasToken);
    NoNotesEventAppend(reported[1..], install);
    AroundMiddle(download, reported, install);
  }

  /**
    Non-empty notes are reported: the event comes first, then two log lines.
    Without notes there is no event, only the "not found" line.
  */
  lemma NotesTraceReports(notes: seq<ReleaseEntry>)
    ensures notes == [] ==> NotesTrace(notes) == [Log(NotesNotFoundMessage)]
    ensures notes != [] ==>
      && |NotesTrace(notes)| == 3
      && NotesTrace(notes)[0] == GotReleaseNotes(GotUpdateReleaseNotesEventArgs(notes))
      && NoNotesEvent(NotesTrace(notes)[1..])
  {
  }

  /** After the notes the branch starts by logging "Performing update". */
  lemma InstallStartsPerforming(manager: Squirrel.UpdateManager, hasToken: bool, fakeUpdate: bool)
    ensures |InstallTrace(manager, hasToken, fakeUpdate)| >= 1
    ensures InstallTrace(manager, hasToken, fakeUpdate)[0] == Log(PerformingUpdate)
  {
  }

  /** The state a check ends in: how it branches. */
  function CheckOutcome(manager: Squirrel.UpdateManager, fakeUpdate: bool): UpdateState
  {
    if !fakeUpdate && manager.info.currentlyInstalledVersion.None? then NotInstalledApp
    else if |manager.info.releasesToApply| > 0 then Done
    else Checking
  }

  /**
    The releases part of a check ends in `Done` when releases are waiting
    and leaves `Checking` otherwise; it neither raises `UpdateDone` nor
    restarts.
  */
  lemma ReleasesEnd(manager: Squirrel.UpdateManager, notes: seq<ReleaseEntry>, updatePath: string, hasToken: bool, fakeUpdate: bool)
    ensures var releases := ReleasesTrace(manager, notes, updatePath, hasToken, fakeUpdate);
      && FinalState(releases, Checking) == (if |manager.info.releasesToApply| > 0 then Done else Checking)
      && Quiet(releases)
  {
    if |manager.info.releasesToApply| > 0 {
      UpdateEndsDone(manager, notes, hasToken, fakeUpdate, Checking);
      UpdateQuiet(manager, notes, hasToken, fakeUpdate);
    } else {
      FinalStateWithoutSet([Log(NoUpdatesLabel + updatePath)], Checking);
    }
  }

  /**
    `CheckForUpdatesAsync`: the final state is `NotInstalledApp`, `Done` or
    `Checking` according to the branch; `UpdateDone` is raised exactly once;
    the application restarts exactly when a restart was asked for and the
    update is done.
  */
  lemma CheckRun(manager: Squirrel.UpdateManager, notes: seq<ReleaseEntry>, updatePath: string, hasToken: bool, fakeUpdate: bool,
                 restartOnSuccess: bool, initial: UpdateState)
    ensures var trace := CheckTrace(manager, notes, updatePath, hasToken, fakeUpdate, restartOnSuccess);
      && FinalState(trace, initial) == CheckOutcome(manager, fakeUpdate)
      && multiset(trace)[UpdateDone] == 1
      && (RestartApp in trace <==> restartOnSuccess && CheckOutcome(manager, fakeUpdate) == Done)
  {
    assert Quiet(CheckHead);
    if !fakeUpdate && manager.info.currentlyInstalledVersion.None? {
      AbortFinalState(CheckHead, NotInstalledApp, NotInstalledMessage, initial);
      QuietPrefix(CheckHead, Abort(NotInstalledApp, NotInstalledMessage));
    } else {
      var releases := ReleasesTrace(manager, notes, updatePath, hasToken, fakeUpdate);
      var body := CheckHead + releases;
      var finish := Finish(FinalState(body, None), restartOnSuccess);
      CheckFinalState(releases, finish, initial);
      ReleasesEnd(manager, notes, updatePath, hasToken, fakeUpdate);
      QuietAppend(CheckHead, releases);
      QuietPrefix(body, finish);
    }
  }

  /**
    When the update is not faked and no installed version is known, the run
    stops before any download: the state is `NotInstalledApp`, the log ends
    saying the update was canceled, and nothing about the releases matters.
  */
  lemma NotInstalledStops(manager: Squirrel.UpdateManager, other: Squirrel.UpdateManager,
                          notes: seq<ReleaseEntry>, otherNotes: seq<ReleaseEntry>, updatePath: string,
                          hasToken: bool, restartOnSuccess: bool, initial: UpdateState)
    requires manager.info.currentlyInstalledVersion.None? && other.info.currentlyInstalledVersion.None?
    ensures var trace := CheckTrace(manager, notes, updatePath, hasToken, false, restartOnSuccess);
      && trace == CheckTrace(other, otherNotes, updatePath, hasToken, false, restartOnSuccess)
      && FinalState(trace, initial) == NotInstalledApp
      && Logs(trace) == [ContactingServer, CheckingForUpdates, NotInstalledMessage]
      && StateSet(Downloading) !in trace
  {
    assert CheckTrace(manager, notes, updatePath, hasToken, false, restartOnSuccess) == NotInstalledTrace;
    assert CheckTrace(other, otherNotes, updatePath, hasToken, false, restartOnSuccess) == NotInstalledTrace;
    NotInstalledOutputs(initial);
  }

  /** What a check does when the application is not installed. */
  const NotInstalledTrace: seq<Output> := CheckHead + Abort(NotInstalledApp, NotInstalledMessage)

  /** The not-installed exit sets `NotInstalledApp`, logs the two opening lines and the reason, and never downloads. */
  lemma NotInstalledOutputs(initial: UpdateState)
    ensures FinalState(NotInstalledTrace, initial) == NotInstalledApp
    ensures Logs(NotInstalledTrace) == [ContactingServer, CheckingForUpdates, NotInstalledMessage]
    ensures StateSet(Downloading) !in NotInstalledTrace
  {
    AbortFinalState(CheckHead, NotInstalledApp, NotInstalledMessage, initial);
    LogsAppend(CheckHead, Abort(NotInstalledApp, NotInstalledMessage));
    LogsOfCheckHead();
    LogsOfAbort(NotInstalledApp, NotInstalledMessage);
  }

  /**
    With no releases to apply the state stays `Checking`, the log ends with
    the update path, the result is false and there is no restart.
  */
  lemma NoUpdatesFound(manager: Squirrel.UpdateManager, notes: seq<ReleaseEntry>, updatePath: string, hasToken: bool, fakeUpdate: bool,
                       restartOnSuccess: bool, initial: UpdateState)
    requires fakeUpdate || manager.info.currentlyInstalledVersion.Some?
    requires manager.info.releasesToApply == []
    ensures var trace := CheckTrace(manager, notes, updatePath, hasToken, fakeUpdate, restartOnSuccess);
      && FinalState(trace, initial) == Checking
      && Logs(trace) == [ContactingServer, CheckingForUpdates, NoUpdatesLabel + updatePath]
      && RestartApp !in trace
  {
    var releases := [Log(NoUpdatesLabel + updatePath)];
    NoUpdatesTrace(manager, notes, updatePath, hasToken, fakeUpdate, restartOnSuccess);
    CheckFinalState(releases, [UpdateDone], initial);
    FinalStateWithoutSet(releases, Checking);
    LogsOfNoUpdates(NoUpdatesLabel + updatePath);
  }

  /** A check that finds no releases logs one line and raises `UpdateDone`. */
  lemma NoUpdatesTrace(manager: Squirrel.UpdateManager, notes: seq<ReleaseEntry>, updatePath: string, hasToken: bool,
                       fakeUpdate: bool, restartOnSuccess: bool)
    requires fakeUpdate || manager.info.currentlyInstalledVersion.Some?
    requires manager.info.releasesToApply == []
    ensures CheckTrace(manager, notes, updatePath, hasToken, fakeUpdate, restartOnSuccess)
      == CheckHead + [Log(NoUpdatesLabel + updatePath)] + [UpdateDone]
  {
    var releases := [Log(NoUpdatesLabel + updatePath)];
    FinalStateWithoutSet(releases, Checking);
    CheckFinalState(releases, [], None);
  }

  /** The log of a check that finds no releases: the two opening lines and the one given. */
  lemma LogsOfNoUpdates(line: string)
    ensures Logs(CheckHead + [Log(line)] + [UpdateDone]) == [ContactingServer, CheckingForUpdates, line]
  {
    LogsAppend(CheckHead + [Log(line)], [UpdateDone]);
    LogsAppend(CheckHead, [Log(line)]);
    LogsOfCheckHead();
    LogsOfOne(UpdateDone);
    LogsOfOne(Log(line));
  }

  /** The state a local run ends in. */
  function LocalOutcome(directory: Directory, manager: Squirrel.UpdateManager, fakeUpdate: bool): UpdateState
  {
    if !directory.found || !directory.releasesFileExists then InvalidUpdatePath
    else CheckOutcome(manager, fakeUpdate)
  }

  /**
    `CheckForUpdatesOnLocalNetwordkAsync`: the final state follows the
    branch taken, so the result (`State == Done`) is true exactly when the
    directory and its RELEASES file exist, the installation is known or the
    update faked, and releases are waiting. `UpdateDone` is raised exactly
    once, and the restart happens exactly when asked for and done.
  */
  lemma LocalRun(updatePath: string, directory: Directory, manager: Squirrel.UpdateManager, notes: seq<ReleaseEntry>,
                 hasToken: bool, fakeUpdate: bool, restartOnSuccess: bool, initial: UpdateState)
    ensures var trace := LocalTrace(updatePath, directory, manager, notes, hasToken, fakeUpdate, restartOnSuccess);
      && FinalState(trace, initial) == LocalOutcome(directory, manager, fakeUpdate)
      && (FinalState(trace, initial) == Done <==>
            directory.found && directory.releasesFileExists
            && (fakeUpdate || manager.info.currentlyInstalledVersion.Some?)
            && |manager.info.releasesToApply| > 0)
      && multiset(trace)[UpdateDone] == 1
      && (RestartApp in trace <==> restartOnSuccess && FinalState(trace, initial) == Done)
  {
    var trace := LocalTrace(updatePath, directory, manager, notes, hasToken, fakeUpdate, restartOnSuccess);
    var rest := trace[1..];
    assert trace == [StateSet(Init)] + rest;
    QuietPrefix([StateSet(Init)], rest);
    FinalStateAppend([StateSet(Init)], rest, initial);
    if !directory.found || !directory.releasesFileExists {
      LocalRunInvalid(updatePath, directory, manager, notes, hasToken, fakeUpdate, restartOnSuccess, initial);
    } else {
      CheckRun(manager, notes, updatePath, hasToken, fakeUpdate, restartOnSuccess, FinalState([StateSet(Init)], initial));
    }
  }

  /** The case of `LocalRun` where the update path is invalid. */
  lemma LocalRunInvalid(updatePath: string, directory: Directory, manager: Squirrel.UpdateManager, notes: seq<ReleaseEntry>,
                 hasToken: bool, fakeUpdate: bool, restartOnSuccess: bool, initial: UpdateState)
    requires !directory.found || !directory.releasesFileExists
    ensures var trace := LocalTrace(updatePath, directory, manager, notes, hasToken, fakeUpdate, restartOnSuccess);
      && FinalState(trace, initial) == LocalOutcome(directory, manager, fakeUpdate)
      && (FinalState(trace, initial) == Done <==>
            directory.found && directory.releasesFileExists
            && (fakeUpdate || manager.info.currentlyInstalledVersion.Some?)
            && |manager.info.releasesToApply| > 0)
      && multiset(trace)[UpdateDone] == 1
      && (RestartApp in trace <==> restartOnSuccess && FinalState(trace, initial) == Done)
  {
    var trace := LocalTrace(updatePath, directory, manager, notes, hasToken, fakeUpdate, restartOnSuccess);
    var rest := trace[1..];
    assert trace == [StateSet(Init)] + rest;
    QuietPrefix([StateSet(Init)], rest);
    FinalStateAppend([StateSet(Init)], rest, initial);
    var message := if !directory.found then DirectoryNotFoundLabel + directory.fullName
      else FileNotFoundLabel + CombinePath(directory.fullName, ReleasesFileName);
    AbortFinalState([], InvalidUpdatePath, message, FinalState([StateSet(Init)], initial));
    assert rest == [] + Abort(InvalidUpdatePath, message);
  }

  /**
    A missing directory or RELEASES file ends the local run at once: the
    state is `InvalidUpdatePath`, `UpdateDone` is raised, the one line
    logged names what is missing, and the manager is never consulted.
  */
  lemma InvalidPathStops(updatePath: string, directory: Directory, manager: Squirrel.UpdateManager,
                         other: Squirrel.UpdateManager, notes: seq<ReleaseEntry>, otherNotes: seq<ReleaseEntry>,
                         hasToken: bool, fakeUpdate: bool,
                         restartOnSuccess: bool, initial: UpdateState)
    requires !directory.found || !directory.releasesFileExists
    ensures var trace := LocalTrace(updatePath, directory, manager, notes, hasToken, fakeUpdate, restartOnSuccess);
      && trace == LocalTrace(updatePath, directory, other, otherNotes, hasToken, fakeUpdate, restartOnSuccess)
      && FinalState(trace, initial) == InvalidUpdatePath
      && Logs(trace) == [if !directory.found then DirectoryNotFoundLabel + directory.fullName
                         else FileNotFoundLabel + CombinePath(directory.fullName, ReleasesFileName)]
      && UpdateDone in trace
  {
    var message := if !directory.found then DirectoryNotFoundLabel + directory.fullName
      else FileNotFoundLabel + CombinePath(directory.fullName, ReleasesFileName);
    var abort := Abort(InvalidUpdatePath, message);
    AbortFinalState([StateSet(Init)], InvalidUpdatePath, message, initial);
    LogsAppend([StateSet(Init)], abort);
    LogsOfOne(StateSet(Init));
    LogsOfAbort(InvalidUpdatePath, message);
    assert abort[1] == UpdateDone;
  }

  /** The state a GitHub run ends in. */
  function GitHubOutcome(online: bool, manager: Squirrel.UpdateManager, fakeUpdate: bool): UpdateState
  {
    if !online then CantConecctServer else CheckOutcome(manager, fakeUpdate)
  }

  /**
    `CheckForUpdatesOnGitHubAsync`: without a connection the state is
    `CantConecctServer`, the one line logged says so, and the manager is
    never consulted; otherwise the check decides. `UpdateDone` is raised
    exactly once, and the restart happens exactly when asked for and done.
  */
  lemma GitHubRun(updateUrl: string, online: bool, manager: Squirrel.UpdateManager, other: Squirrel.UpdateManager,
                  notes: seq<ReleaseEntry>, otherNotes: seq<ReleaseEntry>,
                  hasToken: bool, fakeUpdate: bool, restartOnSuccess: bool, initial: UpdateState)
    ensures var trace := GitHubTrace(updateUrl, online, manager, notes, hasToken, fakeUpdate, restartOnSuccess);
      && FinalState(trace, initial) == GitHubOutcome(online, manager, fakeUpdate)
      && (!online ==> trace == GitHubTrace(updateUrl, online, other, otherNotes, hasToken, fakeUpdate, restartOnSuccess)
                      && Logs(trace) == [CannotConnectMessage])
      && multiset(trace)[UpdateDone] == 1
      && (RestartApp in trace <==> restartOnSuccess && FinalState(trace, initial) == Done)
  {
    var trace := GitHubTrace(updateUrl, online, manager, notes, hasToken, fakeUpdate, restartOnSuccess);
    var rest := trace[1..];
    assert trace == [StateSet(Init)] + rest;
    QuietPrefix([StateSet(Init)], rest);
    FinalStateAppend([StateSet(Init)], rest, initial);
    if !online {
      AbortFinalState([], CantConecctServer, CannotConnectMessage, FinalState([StateSet(Init)], initial));
      assert rest == [] + Abort(CantConecctServer, CannotConnectMessage);
      LogsAppend([StateSet(Init)], rest);
      LogsOfOne(StateSet(Init));
      LogsOfAbort(CantConecctServer, CannotConnectMessage);
    } else {
      CheckRun(manager, notes, updateUrl, hasToken, fakeUpdate, restartOnSuccess, FinalState([StateSet(Init)], initial));
    }
  }

  /** How many `GotReleaseNotes` events `trace` raises. */
  function NotesEvents(trace: seq<Output>): (n: nat)
    ensures n <= |trace|
  {
    if trace == [] then 0
    else (if trace[0].GotReleaseNotes? then 1 else 0) + NotesEvents(trace[1..])
  }

  lemma {:induction false} NotesEventsAppend(a: seq<Output>, b: seq<Output>)
    ensures NotesEvents(a + b) == NotesEvents(a) + NotesEvents(b)
  {
    if a != [] {
      assert (a + b)[0] == a[0];
      assert (a + b)[1..] == a[1..] + b;
      NotesEventsAppend(a[1..], b);
    } else {
      assert a + b == b;
    }
  }

  /** A trace raises no `GotReleaseNotes` event exactly when its count is zero. */
  lemma {:induction false} NoNotesEventCount(trace: seq<Output>)
    ensures NoNotesEvent(trace) <==> NotesEvents(trace) == 0
  {
    if trace != [] {
      NoNotesEventCount(trace[1..]);
      if NoNotesEvent(trace[1..]) && !trace[0].GotReleaseNotes? {
        forall k | 0 <= k < |trace|
          ensures !trace[k].GotReleaseNotes?
        {
          if k > 0 {
            assert trace[k] == trace[1..][k - 1];
          }
        }
      }
      if NoNotesEvent(trace) {
        assert !trace[0].GotReleaseNotes?;
        forall k | 0 <= k < |trace[1..]|
          ensures !trace[1..][k].GotReleaseNotes?
        {
          assert trace[1..][k] == trace[k + 1];
        }
      }
    }
  }

  /** The notes part raises the event once when there are notes, and never otherwise. */
  lemma NotesTraceEvents(notes: seq<ReleaseEntry>)
    ensures NotesEvents(NotesTrace(notes)) == if notes == [] then 0 else 1
  {
    var reported := NotesTrace(notes);
    NotesTraceReports(notes);
    if notes == [] {
      assert NoNotesEvent(reported);
      NoNotesEventCount(reported);
    } else {
      assert reported == [reported[0]] + reported[1..];
      NotesEventsAppend([reported[0]], reported[1..]);
      NoNotesEventCount(reported[1..]);
    }
  }

  /** The releases part raises the event once when releases wait and there are notes, and never otherwise. */
  lemma ReleasesNotesEvents(manager: Squirrel.UpdateManager, notes: seq<ReleaseEntry>, updatePath: string,
                            hasToken: bool, fakeUpdate: bool)
    ensures NotesEvents(ReleasesTrace(manager, notes, updatePath, hasToken, fakeUpdate))
      == if |manager.info.releasesToApply| > 0 && notes != [] then 1 else 0
  {
    if |manager.info.releasesToApply| > 0 {
      var download := DownloadTrace(manager, hasToken);
      var install := InstallTrace(manager, hasToken, fakeUpdate);
      DownloadQuiet(manager, hasToken);
      InstallQuiet(manager, hasToken, fakeUpdate);
      NoNotesEventCount(download);
      NoNotesEventCount(install);
      NotesTraceEvents(notes);
      NotesEventsAppend(download, NotesTrace(notes));
      NotesEventsAppend(download + NotesTrace(notes), install);
    } else {
      assert NoNotesEvent([Log(NoUpdatesLabel + updatePath)]);
      NoNotesEventCount([Log(NoUpdatesLabel + updatePath)]);
    }
  }

  /** An early exit raises no `GotReleaseNotes` event. */
  lemma AbortNotesEvents(state: UpdateState, message: string)
    ensures NotesEvents(Abort(state, message)) == 0
  {
    var abort := Abort(state, message);
    assert NoNotesEvent(abort) by {
      assert abort == [StateSet(state), UpdateDone, Log(message)];
    }
    NoNotesEventCount(abort);
  }

  /** Around a part, a head and a tail without the event leave its count unchanged. */
  lemma {:induction false} NotesEventsBetween(head: seq<Output>, middle: seq<Output>, tail: seq<Output>)
    requires NoNotesEvent(head) && NoNotesEvent(tail)
    ensures NotesEvents(head + middle + tail) == NotesEvents(middle)
  {
    NoNotesEventCount(head);
    NoNotesEventCount(tail);
    NotesEventsAppend(head, middle);
    NotesEventsAppend(head + middle, tail);
  }

  /** A check that ends in `Done` has releases waiting, so the notes it selects are never empty. */
  lemma DoneHasSelectedNotes(manager: Squirrel.UpdateManager, fakeUpdate: bool)
    ensures CheckOutcome(manager, fakeUpdate) == Done ==> SelectedNotes(manager.info) != []
  {
  }

  /**
    Over a whole `CheckForUpdatesAsync` run, `GotReleaseNotes` is raised at
    most once: once when the check ends in `Done` with notes to report, and
    never on the not-installed or no-update exits. With the notes the method
    reports (`SelectedNotes`), it is raised exactly when the check is done.
  */
  lemma CheckNotesEvents(manager: Squirrel.UpdateManager, notes: seq<ReleaseEntry>, updatePath: string, hasToken: bool,
                         fakeUpdate: bool, restartOnSuccess: bool)
    ensures var trace := CheckTrace(manager, notes, updatePath, hasToken, fakeUpdate, restartOnSuccess);
      && NotesEvents(trace) == (if CheckOutcome(manager, fakeUpdate) == Done && notes != [] then 1 else 0)
      && (notes == SelectedNotes(manager.info) ==>
            NotesEvents(trace) == if CheckOutcome(manager, fakeUpdate) == Done then 1 else 0)
  {
    DoneHasSelectedNotes(manager, fakeUpdate);
    if !fakeUpdate && manager.info.currentlyInstalledVersion.None? {
      NotInstalledNotesEvents();
    } else {
      CheckedNotesEvents(manager, notes, updatePath, hasToken, fakeUpdate, restartOnSuccess);
    }
  }

  /** The not-installed exit raises no `GotReleaseNotes`. */
  lemma NotInstalledNotesEvents()
    ensures NotesEvents(CheckHead + Abort(NotInstalledApp, NotInstalledMessage)) == 0
  {
    var abort := Abort(NotInstalledApp, NotInstalledMessage);
    assert NoNotesEvent(CheckHead);
    AbortNotesEvents(NotInstalledApp, NotInstalledMessage);
    NoNotesEventCount(CheckHead);
    NotesEventsAppend(CheckHead, abort);
  }

  /** Past the installation check, only the releases part can raise `GotReleaseNotes`. */
  lemma CheckedNotesEvents(manager: Squirrel.UpdateManager, notes: seq<ReleaseEntry>, updatePath: string, hasToken: bool,
                           fakeUpdate: bool, restartOnSuccess: bool)
    requires fakeUpdate || manager.info.currentlyInstalledVersion.Some?
    ensures NotesEvents(CheckTrace(manager, notes, updatePath, hasToken, fakeUpdate, restartOnSuccess))
      == if |manager.info.releasesToApply| > 0 && notes != [] then 1 else 0
  {
    var releases := ReleasesTrace(manager, notes, updatePath, hasToken, fakeUpdate);
    var finish := Finish(FinalState(CheckHead + releases, None), restartOnSuccess);
    assert NoNotesEvent(CheckHead);
    assert NoNotesEvent(finish);
    ReleasesNotesEvents(manager, notes, updatePath, hasToken, fakeUpdate);
    NotesEventsBetween(CheckHead, releases, finish);
  }

  /** The entry points open with `State = Init`, which raises no event. */
  lemma InitNotesEvents(rest: seq<Output>)
    ensures NotesEvents([StateSet(Init)] + rest) == NotesEvents(rest)
  {
    NotesEventsAppend([StateSet(Init)], rest);
    assert NoNotesEvent([StateSet(Init)]);
    NoNotesEventCount([StateSet(Init)]);
  }

  /**
    `CheckForUpdatesOnLocalNetwordkAsync` raises `GotReleaseNotes` at most
    once, never on an invalid update path, and with the notes the method
    reports exactly when the run ends in `Done`.
  */
  lemma LocalNotesEvents(updatePath: string, directory: Directory, manager: Squirrel.UpdateManager, notes: seq<ReleaseEntry>,
                         hasToken: bool, fakeUpdate: bool, restartOnSuccess: bool)
    ensures var trace := LocalTrace(updatePath, directory, manager, notes, hasToken, fakeUpdate, restartOnSuccess);
      && NotesEvents(trace) == (if LocalOutcome(directory, manager, fakeUpdate) == Done && notes != [] then 1 else 0)
      && (notes == SelectedNotes(manager.info) ==>
            NotesEvents(trace) == if LocalOutcome(directory, manager, fakeUpdate) == Done then 1 else 0)
  {
    var trace := LocalTrace(updatePath, directory, manager, notes, hasToken, fakeUpdate, restartOnSuccess);
    InitNotesEvents(trace[1..]);
    assert trace == [StateSet(Init)] + trace[1..];
    if !directory.found {
      AbortNotesEvents(InvalidUpdatePath, DirectoryNotFoundLabel + directory.fullName);
    } else if !directory.releasesFileExists {
      AbortNotesEvents(InvalidUpdatePath, FileNotFoundLabel + CombinePath(directory.fullName, ReleasesFileName));
    } else {
      CheckNotesEvents(manager, notes, updatePath, hasToken, fakeUpdate, restartOnSuccess);
    }
  }

  /**
    `CheckForUpdatesOnGitHubAsync` raises `GotReleaseNotes` at most once,
    never when offline, and with the notes the method reports exactly when
    the run ends in `Done`.
  */
  lemma GitHubNotesEvents(updateUrl: string, online: bool, manager: Squirrel.UpdateManager, notes: seq<ReleaseEntry>,
                          hasToken: bool, fakeUpdate: bool, restartOnSuccess: bool)
    ensures var trace := GitHubTrace(updateUrl, online, manager, notes, hasToken, fakeUpdate, restartOnSuccess);
      && NotesEvents(trace) == (if GitHubOutcome(online, manager, fakeUpdate) == Done && notes != [] then 1 else 0)
      && (notes == SelectedNotes(manager.info) ==>
            NotesEvents(trace) == if GitHubOutcome(online, manager, fakeUpdate) == Done then 1 else 0)
  {
    var trace := GitHubTrace(updateUrl, online, manager, notes, hasToken, fakeUpdate, restartOnSuccess);
    InitNotesEvents(trace[1..]);
    assert trace == [StateSet(Init)] + trace[1..];
    if !online {
      AbortNotesEvents(CantConecctServer, CannotConnectMessage);
    } else {
      CheckNotesEvents(manager, notes, updateUrl, hasToken, fakeUpdate, restartOnSuccess);
    }
  }
}
