/**
  What the Squirrel update manager hands back, as plain values. A run of the
  updater is determined by these: the result of `CheckForUpdate`, and the
  progress callbacks `DownloadReleases` and `UpdateApp` make.
*/
module Squirrel {
  import Common

  /** A release to apply: its version, and the notes `GetReleaseNotes` reads from its package. */
  datatype ReleaseEntry = ReleaseEntry(version: string, packageNotes: string)

  /** The result of `CheckForUpdate`. */
  datatype UpdateInfo = UpdateInfo(
    currentlyInstalledVersion: Common.Option<string>,
    futureVersion: string,
    releasesToApply: seq<ReleaseEntry>,
    // what `updateInfo.FetchReleaseNotes()` returns, in the dictionary's order
    fetchedNotes: seq<(ReleaseEntry, string)>)

  /**
    One call of a progress callback: the percentage passed, and whether the
    cancellation token had been cancelled at that moment.
  */
  datatype Tick = Tick(percent: int, cancelled: bool)

  /** An update manager, given by what its calls produce. */
  datatype UpdateManager = UpdateManager(
    info: UpdateInfo,
    downloadProgress: seq<Tick>,   // callbacks made by DownloadReleases
    applyProgress: seq<Tick>)      // callbacks made by UpdateApp
}
