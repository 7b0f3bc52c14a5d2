/**
  `AppUpdate`: checks an update source (a local directory or GitHub), and
  when releases are waiting downloads and applies them while reporting
  progress through a log callback and two events.

  What a run does is recorded as a sequence of `Output`s, in order: lines
  passed to the log callback, assignments to `State`, invocations of the
  `UpdateDone` and `GotReleaseNotes` events, and the restart request. The
  file system, the network check and the Squirrel update manager are
  inputs (`Directory`, a connectivity flag, `Squirrel.UpdateManager`).
*/
module AppUpdate {
  import opened DotNetStrings
  import opened Cancellation
  import opened ReleaseNotes
  import Common
  import Squirrel

  /** `UpdateState`, in declaration order. */
  datatype UpdateState =
    | None
    | Timeout
    | Checking
    | Downloading
    | Done
    | NotInstalledApp
    | InvalidUpdatePath
    | CantConecctServer
    | Init

  /** One observable effect of a run. */
  datatype Output =
    | Log(line: string)
    | StateSet(state: UpdateState)
    | UpdateDone
    | GotReleaseNotes(args: GotUpdateReleaseNotesEventArgs)
    | RestartApp

  /** What `DirectoryInfo`/`FileInfo` report for the update path. */
  datatype Directory = Directory(found: bool, fullName: string, releasesFileExists: bool)

  /** The lines written to the log. */
  const ContactingServer: string := "Contacting update server..."
  const CheckingForUpdates: string := "Checking for updates..."
  const NotInstalledMessage: string := "Current installation path not found, update canceled!"
  const NewVersionAvailable: string := "New version available!"
  const InstalledVersionLabel: string := "Current installed version: "
  const NewVersionLabel: string := "New version: "
  const DownloadAnnouncement: string := "The application will now download and apply the update..."
  const DownloadingLabel: string := "Downloading update "
  const UpdatingLabel: string := "Updating "
  const NotesNotFoundMessage: string := "Release notes not found"
  const NotesHeading: string := "Release notes:"
  const PerformingUpdate: string := "Performing update, please wait..."
  const UpdateCompleted: string := "Update completed successfully"
  const NoUpdatesLabel: string := "No updates found on path: "
  const RestartingMessage: string := "Restarting application..."
  const DirectoryNotFoundLabel: string := "Directory not found: "
  const FileNotFoundLabel: string := "File not found: "
  const CannotConnectMessage: string := "Could not connect to server"
  const TimeoutMark: string := "% [Timeout!]"

  /** The name of the feed file a local update directory must hold. */
  const ReleasesFileName: string := "RELEASES"

  /**
    `Path.Combine(directory, fileName)` on Windows: a rooted `fileName`
    replaces the directory; otherwise a '\' is put between them unless the
    directory already ends with a separator.
  */
  function CombinePath(directory: string, fileName: string): (path: string)
    ensures |path| >= |fileName| && path[|path| - |fileName|..] == fileName
    ensures directory != [] && fileName != [] && fileName[0] != '\\' && fileName[0] != '/'
      && !(|fileName| >= 2 && fileName[1] == ':')
      ==> directory <= path
  {
    if fileName == [] then
      assert directory[|directory|..] == [];
      directory
    else if directory == [] then fileName
    else if fileName[0] == '\\' || fileName[0] == '/' || (|fileName| >= 2 && fileName[1] == ':') then fileName
    else if directory[|directory| - 1] in {'\\', '/', ':'} then directory + fileName
    else directory + "\\" + fileName
  }

  /** The state a trace leaves `State` in, starting from `initial`: the last one it sets. */
  function FinalState(trace: seq<Output>, initial: UpdateState): (state: UpdateState)
    ensures state == initial || StateSet(state) in trace
  {
    if trace == [] then initial
    else if trace[|trace| - 1].StateSet? then trace[|trace| - 1].state
    else FinalState(trace[..|trace| - 1], initial)
  }

  /** The final state of a concatenation: the second part run from where the first one left off. */
  lemma {:induction false} FinalStateAppend(a: seq<Output>, b: seq<Output>, initial: UpdateState)
    ensures FinalState(a + b, initial) == FinalState(b, FinalState(a, initial))
    decreases |b|
  {
    if b == [] {
      assert a + b == a;
    } else {
      assert (a + b)[..|a + b| - 1] == a + b[..|b| - 1];
      FinalStateAppend(a, b[..|b| - 1], initial);
    }
  }

  /** The final state is the one the last `StateSet` sets, whatever follows it. */
  lemma {:induction false} FinalStateIsLastSet(trace: seq<Output>, k: nat, initial: UpdateState)
    requires k < |trace| && trace[k].StateSet?
    requires forall j :: k < j < |trace| ==> !trace[j].StateSet?
    ensures FinalState(trace, initial) == trace[k].state
    decreases |trace|
  {
    if k < |trace| - 1 {
      FinalStateIsLastSet(trace[..|trace| - 1], k, initial);
    }
  }

  /** A trace that sets no state leaves it as it was. */
  lemma {:induction false} FinalStateWithoutSet(trace: seq<Output>, initial: UpdateState)
    requires forall k :: 0 <= k < |trace| ==> !trace[k].StateSet?
    ensures FinalState(trace, initial) == initial
    decreases |trace|
  {
    if trace != [] {
      FinalStateWithoutSet(trace[..|trace| - 1], initial);
    }
  }

  /** A trace that starts by setting the state ends in a state that does not depend on the initial one. */
  lemma FinalStateFromHead(trace: seq<Output>, initial: UpdateState, other: UpdateState)
    requires trace != [] && trace[0].StateSet?
    ensures FinalState(trace, initial) == FinalState(trace, other)
  {
    FinalStateAppend([trace[0]], trace[1..], initial);
    FinalStateAppend([trace[0]], trace[1..], other);
    assert [trace[0]] + trace[1..] == trace;
  }

  /** An early exit: the state is set, `UpdateDone` raised, and the reason logged. */
  function Abort(state: UpdateState, message: string): (trace: seq<Output>)
    ensures |trace| == 3 && trace[0] == StateSet(state) && trace[1] == UpdateDone
    ensures multiset(trace)[UpdateDone] == 1 && RestartApp !in trace
  {
    [StateSet(state), UpdateDone, Log(message)]
  }

  /** After an early exit the state is the one it set. */
  lemma AbortFinalState(prefix: seq<Output>, state: UpdateState, message: string, initial: UpdateState)
    ensures FinalState(prefix + Abort(state, message), initial) == state
  {
    FinalStateIsLastSet(prefix + Abort(state, message), |prefix|, initial);
  }

  /** What one progress callback does. */
  function Stamp(prefix: string, tick: Squirrel.Tick, hasToken: bool): seq<Output>
  {
    if !hasToken || !tick.cancelled then [Log(prefix + IntToString(tick.percent) + "%")]
    else [StateSet(Timeout), Log(prefix + IntToString(tick.percent) + TimeoutMark)]
  }

  /**
    What the progress callbacks do over `ticks`: only log lines and, once the
    token is cancelled, a `Timeout` state.
  */
  function ProgressTrace(prefix: string, ticks: seq<Squirrel.Tick>, hasToken: bool): (trace: seq<Output>)
    ensures |ticks| <= |trace| <= 2 * |ticks|
    ensures forall k :: 0 <= k < |trace| ==> trace[k].Log? || trace[k] == StateSet(Timeout)
  {
    if ticks == [] then []
    else ProgressTrace(prefix, ticks[..|ticks| - 1], hasToken) + Stamp(prefix, ticks[|ticks| - 1], hasToken)
  }

  /** One more tick adds its stamp at the end. */
  lemma ProgressTraceStep(prefix: string, ticks: seq<Squirrel.Tick>, i: nat, hasToken: bool)
    requires i < |ticks|
    ensures ProgressTrace(prefix, ticks[..i + 1], hasToken)
      == ProgressTrace(prefix, ticks[..i], hasToken) + Stamp(prefix, ticks[i], hasToken)
  {
    assert ticks[..i + 1][..i] == ticks[..i];
  }

  /** The release-notes part: the event and the rendered notes, or a line saying there are none. */
  function NotesTrace(notes: seq<ReleaseEntry>): seq<Output>
  {
    var text := RenderedNotes(notes);
    if |text| <= 0 then [Log(NotesNotFoundMessage)]
    else [GotReleaseNotes(GotUpdateReleaseNotesEventArgs(notes)), Log(NotesHeading), Log(TrimEndChars(text, NewLineChars))]
  }

  /** `CurrentlyInstalledVersion?.Version.ToString()` as interpolated: empty when null. */
  function InstalledVersionText(info: Squirrel.UpdateInfo): string
  {
    if info.currentlyInstalledVersion.Some? then info.currentlyInstalledVersion.value else ""
  }

  /**
    The releases-waiting branch up to the release notes: the announcement
    of the new version, then the download ticks.
  */
  function DownloadTrace(manager: Squirrel.UpdateManager, hasToken: bool): seq<Output>
  {
    [ StateSet(Downloading),
      Log(NewVersionAvailable),
      Log(InstalledVersionLabel + InstalledVersionText(manager.info)),
      Log(NewVersionLabel + manager.info.futureVersion),
      Log(DownloadAnnouncement),
      Log(DownloadingLabel + "0%") ]
    + ProgressTrace(DownloadingLabel, manager.downloadProgress, hasToken)
  }

  /** The last three outputs of the releases-waiting branch. */
  const UpdateTail: seq<Output> := [Log(UpdatingLabel + "100%"), Log(UpdateCompleted), StateSet(Done)]

  /**
    The releases-waiting branch after the release notes: the apply ticks,
    skipped when the update is faked, then the closing lines and `Done`.
  */
  function InstallTrace(manager: Squirrel.UpdateManager, hasToken: bool, fakeUpdate: bool): seq<Output>
  {
    [Log(PerformingUpdate)]
    + (if fakeUpdate then []
       else [Log(UpdatingLabel + "0%")] + ProgressTrace(UpdatingLabel, manager.applyProgress, hasToken))
    + UpdateTail
  }

  /**
    The branch taken when releases are waiting: download, the release notes
    `notes`, apply, done.
  */
  function UpdateTrace(manager: Squirrel.UpdateManager, notes: seq<ReleaseEntry>, hasToken: bool, fakeUpdate: bool): seq<Output>
  {
    DownloadTrace(manager, hasToken)
    + NotesTrace(notes)
    + InstallTrace(manager, hasToken, fakeUpdate)
  }

  /** The log lines that open every check. */
  const CheckHead: seq<Output> :=
    [StateSet(Checking), Log(ContactingServer), Log(CheckingForUpdates)]

  /** The update when releases are waiting, or a line saying there are none. */
  function ReleasesTrace(manager: Squirrel.UpdateManager, notes: seq<ReleaseEntry>, updatePath: string,
                         hasToken: bool, fakeUpdate: bool): seq<Output>
  {
    if |manager.info.releasesToApply| > 0 then UpdateTrace(manager, notes, hasToken, fakeUpdate)
    else [Log(NoUpdatesLabel + updatePath)]
  }

  const RestartingLine: Output := Log(RestartingMessage)

  /** What follows the check: `UpdateDone`, then a restart when asked for and the state is `Done`. */
  function Finish(state: UpdateState, restartOnSuccess: bool): (trace: seq<Output>)
    ensures forall k :: 0 <= k < |trace| ==> !trace[k].StateSet?
    ensures |trace| >= 1 && trace[0] == UpdateDone && multiset(trace)[UpdateDone] == 1
    ensures RestartApp in trace <==> restartOnSuccess && state == Done
  {
    [UpdateDone] + (if restartOnSuccess && state == Done then [RestartingLine, RestartApp] else [])
  }

  /**
    What `CheckForUpdatesAsync` does with a manager; `notes` are the release
    notes it reports when releases are waiting.
  */
  function CheckTrace(manager: Squirrel.UpdateManager, notes: seq<ReleaseEntry>, updatePath: string, hasToken: bool,
                      fakeUpdate: bool, restartOnSuccess: bool): seq<Output>
  {
    if !fakeUpdate && manager.info.currentlyInstalledVersion.None? then
      CheckHead + Abort(NotInstalledApp, NotInstalledMessage)
    else
      var body := CheckHead + ReleasesTrace(manager, notes, updatePath, hasToken, fakeUpdate);
      body + Finish(FinalState(body, None), restartOnSuccess)
  }

  /** The state after a check is the one its releases part leaves, starting from `Checking`. */
  lemma CheckFinalState(releases: seq<Output>, finish: seq<Output>, initial: UpdateState)
    requires forall k :: 0 <= k < |finish| ==> !finish[k].StateSet?
    ensures FinalState(CheckHead + releases, None) == FinalState(releases, Checking)
    ensures FinalState(CheckHead + releases + finish, initial) == FinalState(releases, Checking)
  {
    FinalStateIsLastSet(CheckHead, 0, initial);
    FinalStateIsLastSet(CheckHead, 0, None);
    FinalStateAppend(CheckHead, releases, None);
    FinalStateAppend(CheckHead, releases, initial);
    FinalStateAppend(CheckHead + releases, finish, initial);
    FinalStateWithoutSet(finish, FinalState(CheckHead + releases, initial));
  }

  /** What `CheckForUpdatesOnLocalNetwordkAsync` does. */
  function LocalTrace(updatePath: string, directory: Directory, manager: Squirrel.UpdateManager,
                      notes: seq<ReleaseEntry>, hasToken: bool, fakeUpdate: bool, restartOnSuccess: bool): seq<Output>
  {
    [StateSet(Init)] + (
      if !directory.found then
        Abort(InvalidUpdatePath, DirectoryNotFoundLabel + directory.fullName)
      else if !directory.releasesFileExists then
        Abort(InvalidUpdatePath, FileNotFoundLabel + CombinePath(directory.fullName, ReleasesFileName))
      else CheckTrace(manager, notes, updatePath, hasToken, fakeUpdate, restartOnSuccess))
  }

  /** What `CheckForUpdatesOnGitHubAsync` does, given the result of the connectivity check. */
  function GitHubTrace(updateUrl: string, online: bool, manager: Squirrel.UpdateManager,
                       notes: seq<ReleaseEntry>, hasToken: bool, fakeUpdate: bool, restartOnSuccess: bool): seq<Output>
  {
    [StateSet(Init)] + (
      if !online then Abort(CantConecctServer, CannotConnectMessage)
      else CheckTrace(manager, notes, updateUrl, hasToken, fakeUpdate, restartOnSuccess))
  }

  class AppUpdate {
    var State: UpdateState
    var Token: CancellationTokenSource?
    var FakeUpdate: bool

    constructor ()
      ensures State == None && Token == null && !FakeUpdate
    {
      State := None;
      Token := null;
      FakeUpdate := false;
    }

    /**
      `CheckForUpdatesOnLocalNetwordkAsync`: the directory and its RELEASES
      file must exist; then the check runs against the directory's manager.
      Returns whether the update was applied, and what the run did.
    */
    method CheckForUpdatesOnLocalNetwork(updatePath: string, directory: Directory, manager: Squirrel.UpdateManager,
                                         token: CancellationTokenSource?, restartOnSuccess: bool)
      returns (updated: bool, trace: seq<Output>)
      modifies this
      ensures trace == LocalTrace(updatePath, directory, manager, SelectedNotes(manager.info),
                                  token != null, old(FakeUpdate), restartOnSuccess)
      ensures State == FinalState(trace, old(State))
      ensures updated <==> State == Done
      ensures FakeUpdate == old(FakeUpdate)
      ensures Token == if directory.found && directory.releasesFileExists then token else old(Token)
    {
      State := Init;
      trace := [StateSet(Init)];
      if !directory.found {
        State := InvalidUpdatePath;
        AbortFinalState(trace, InvalidUpdatePath, DirectoryNotFoundLabel + directory.fullName, old(State));
        trace := trace + Abort(InvalidUpdatePath, DirectoryNotFoundLabel + directory.fullName);
        return false, trace;
      }
      var releasesFile := CombinePath(directory.fullName, ReleasesFileName);
      if !directory.releasesFileExists {
        State := InvalidUpdatePath;
        AbortFinalState(trace, InvalidUpdatePath, FileNotFoundLabel + releasesFile, old(State));
        trace := trace + Abort(InvalidUpdatePath, FileNotFoundLabel + releasesFile);
        return false, trace;
      }
      var check;
      updated, check := CheckForUpdates(manager, updatePath, token, restartOnSuccess);
      FinalStateAppend(trace, check, old(State));
      trace := trace + check;
    }

    /**
      `CheckForUpdatesOnGitHubAsync`: without a connection the run stops at
      once; otherwise the check runs against the GitHub manager.
    */
    method CheckForUpdatesOnGitHub(updateUrl: string, online: bool, manager: Squirrel.UpdateManager,
                                   token: CancellationTokenSource?, restartOnSuccess: bool)
      returns (updated: bool, trace: seq<Output>)
      modifies this
      ensures trace == GitHubTrace(updateUrl, online, manager, SelectedNotes(manager.info),
                                   token != null, old(FakeUpdate), restartOnSuccess)
      ensures State == FinalState(trace, old(State))
      ensures updated <==> State == Done
      ensures FakeUpdate == old(FakeUpdate)
      ensures Token == if online then token else old(Token)
    {
      State := Init;
      trace := [StateSet(Init)];
      if !online {
        State := CantConecctServer;
        AbortFinalState(trace, CantConecctServer, CannotConnectMessage, old(State));
        trace := trace + Abort(CantConecctServer, CannotConnectMessage);
        return false, trace;
      }
      var check;
      updated, check := CheckForUpdates(manager, updateUrl, token, restartOnSuccess);
      FinalStateAppend(trace, check, old(State));
      trace := trace + check;
    }

    /** `CheckForUpdatesAsync`. */
    method CheckForUpdates(manager: Squirrel.UpdateManager, updatePath: string,
                           token: CancellationTokenSource?, restartOnSuccess: bool)
      returns (updated: bool, trace: seq<Output>)
      modifies this
      ensures trace == CheckTrace(manager, SelectedNotes(manager.info), updatePath, token != null, FakeUpdate, restartOnSuccess)
      ensures State == FinalState(trace, old(State))
      ensures updated <==> State == Done
      ensures Token == token && FakeUpdate == old(FakeUpdate)
    {
      Token := token;
      State := Checking;
      var updateInfo := manager.info;
      if !FakeUpdate {
        if updateInfo.currentlyInstalledVersion.None? {
          State := NotInstalledApp;
          AbortFinalState(CheckHead, NotInstalledApp, NotInstalledMessage, old(State));
          return false, CheckHead + Abort(NotInstalledApp, NotInstalledMessage);
        }
      }
      var releases := CheckReleases(manager, updatePath, token);
      var finish := NotifyDone(restartOnSuccess);
      CheckFinalState(releases, finish, old(State));
      trace := CheckHead + releases + finish;
      updated := State == Done;
    }

    /** Raises `UpdateDone`, then restarts the application when asked to and the update is done. */
    method NotifyDone(restartOnSuccess: bool) returns (finish: seq<Output>)
      ensures finish == Finish(State, restartOnSuccess)
      ensures (RestartApp in finish) <==> restartOnSuccess && State == Done
    {
      finish := [UpdateDone];
      if restartOnSuccess && State == Done {
        finish := finish + [RestartingLine, RestartApp];
      }
    }

    /** Whether releases are waiting decides between updating and reporting that there are none. */
    method CheckReleases(manager: Squirrel.UpdateManager, updatePath: string, token: CancellationTokenSource?)
      returns (trace: seq<Output>)
      modifies this
      ensures trace == ReleasesTrace(manager, SelectedNotes(manager.info), updatePath, token != null, FakeUpdate)
      ensures State == FinalState(trace, old(State))
      ensures Token == old(Token) && FakeUpdate == old(FakeUpdate)
    {
      if |manager.info.releasesToApply| > 0 {
        trace := DownloadAndApply(manager, token);
        FinalStateIsLastSet(trace, |trace| - 1, old(State));
      } else {
        trace := [Log(NoUpdatesLabel + updatePath)];
        assert trace[..0] == [];
      }
    }

    /** The releases-waiting branch of `CheckForUpdatesAsync`. */
    method DownloadAndApply(manager: Squirrel.UpdateManager, token: CancellationTokenSource?)
      returns (trace: seq<Output>)
      modifies this
      ensures trace == UpdateTrace(manager, SelectedNotes(manager.info), token != null, FakeUpdate)
      ensures State == Done && trace[|trace| - 1] == StateSet(Done)
      ensures Token == old(Token) && FakeUpdate == old(FakeUpdate)
    {
      var updateInfo := manager.info;
      State := Downloading;
      var currentVersion := if updateInfo.currentlyInstalledVersion.Some? then updateInfo.currentlyInstalledVersion.value else "";
      var futureVersion := updateInfo.futureVersion;
      var announce := [
        StateSet(Downloading),
        Log(NewVersionAvailable),
        Log(InstalledVersionLabel + currentVersion),
        Log(NewVersionLabel + futureVersion),
        Log(DownloadAnnouncement),
        Log(DownloadingLabel + "0%")];
      var download := ReportProgress(DownloadingLabel, manager.downloadProgress, token);

      var notes := ReportReleaseNotes(updateInfo);

      var apply := [];
      if !FakeUpdate {
        var progress := ReportProgress(UpdatingLabel, manager.applyProgress, token);
        apply := [Log(UpdatingLabel + "0%")] + progress;
      }
      State := Done;
      trace := (announce + download) + notes
        + ([Log(PerformingUpdate)] + apply + [Log(UpdatingLabel + "100%"), Log(UpdateCompleted), StateSet(Done)]);
    }

    /**
      The release notes of the feed, or failing those of the packages,
      cleaned and rendered: the `GotReleaseNotes` event and the notes logged,
      or a line saying there are none.
    */
    method ReportReleaseNotes(updateInfo: Squirrel.UpdateInfo) returns (notes: seq<Output>)
      ensures notes == NotesTrace(SelectedNotes(updateInfo))
    {
      var feedNotes := updateInfo.fetchedNotes;
      var cleanReleaseNotes := CleanReleaseNotes(feedNotes);
      if |cleanReleaseNotes| <= 0 {
        var packageNotes := FetchReleaseNotes(updateInfo);
        cleanReleaseNotes := CleanReleaseNotes(packageNotes);
      }
      var releaseNotes := RenderReleaseNotes(cleanReleaseNotes);
      if |releaseNotes| <= 0 {
        notes := [Log(NotesNotFoundMessage)];
      } else {
        notes := [
          GotReleaseNotes(GotUpdateReleaseNotesEventArgs(cleanReleaseNotes)),
          Log(NotesHeading),
          Log(TrimEndChars(releaseNotes, NewLineChars))];
      }
    }

    /**
      The progress callback for one tick: its percentage is logged, and once
      the token is cancelled the state becomes `Timeout` and the line is marked.
    */
    method OnProgress(prefix: string, tick: Squirrel.Tick, token: CancellationTokenSource?)
      returns (stamp: seq<Output>)
      modifies this
      ensures stamp == Stamp(prefix, tick, token != null)
      ensures State == FinalState(stamp, old(State))
      ensures Token == old(Token) && FakeUpdate == old(FakeUpdate)
    {
      if token == null || !tick.cancelled {
        stamp := [Log(prefix + IntToString(tick.percent) + "%")];
        assert stamp[..0] == [];
      } else {
        State := Timeout;
        stamp := [StateSet(Timeout), Log(prefix + IntToString(tick.percent) + TimeoutMark)];
        FinalStateIsLastSet(stamp, 0, old(State));
      }
    }

    /**
      The progress callbacks a manager call makes, one per tick, in order.
    */
    method ReportProgress(prefix: string, ticks: seq<Squirrel.Tick>, token: CancellationTokenSource?)
      returns (trace: seq<Output>)
      modifies this
      ensures trace == ProgressTrace(prefix, ticks, token != null)
      ensures State == FinalState(trace, old(State))
      ensures Token == old(Token) && FakeUpdate == old(FakeUpdate)
    {
      trace := [];
      for i := 0 to |ticks|
        invariant trace == ProgressTrace(prefix, ticks[..i], token != null)
        invariant State == FinalState(trace, old(State))
        invariant Token == old(Token) && FakeUpdate == old(FakeUpdate)
      {
        var stamp := OnProgress(prefix, ticks[i], token);
        FinalStateAppend(trace, stamp, old(State));
        ProgressTraceStep(prefix, ticks, i, token != null);
        trace := trace + stamp;
      }
      assert ticks[..|ticks|] == ticks;
    }
  }
}
