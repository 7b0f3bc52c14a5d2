/**
  Release notes as the updater prepares them: the raw notes of each release
  are stripped of CDATA and paragraph markup, their lines joined with "; ",
  and the result trimmed and ended with ';'. The notes are then rendered one
  "Version v: notes" line each for the log.
*/
module ReleaseNotes {
  import opened DotNetStrings
  import Squirrel

  /** `GotUpdateReleaseNotesEventArgs.ReleaseEntry`. */
  datatype ReleaseEntry = ReleaseEntry(version: string, releaseNotes: string)

  /** The payload of the `GotReleaseNotes` event. */
  datatype GotUpdateReleaseNotesEventArgs = GotUpdateReleaseNotesEventArgs(releaseNotes: seq<ReleaseEntry>)

  /** The text used for a note that is blank after cleaning. */
  const NotesNotFound: string := "release notes not found"

  /** A cleaned note: it ends with ';' and holds no '\n'. */
  predicate IsCleanNote(notes: string)
  {
    |notes| >= 1 && notes[|notes| - 1] == ';' && '\n' !in notes
  }

  /** The pattern of the `n`-th rewrite (from 0) and its replacement. */
  function Pattern(n: nat): (p: string)
    requires n < 6
    ensures |p| > 0 && ';' !in p
  {
    if n == 0 then "<![CDATA[\n" else if n == 1 then "<p>" else if n == 2 then "</p>"
    else if n == 3 then "]]>" else if n == 4 then "\n\n" else "\n"
  }

  /** What the `n`-th pattern is replaced with. */
  function Replacement(n: nat): (r: string)
    requires n < 6
  {
    if n == 5 then "; " else ""
  }

  /** The first `n` rewrites applied to `raw`. */
  function Rewritten(raw: string, n: nat): (s: string)
    requires n <= 6
    ensures n == 6 ==> '\n' !in s
    decreases n
  {
    if n == 0 then raw
    else
      var prev := Rewritten(raw, n - 1);
      if n < 6 then Replace(prev, Pattern(n - 1), Replacement(n - 1))
      else
        ReplaceRemovesChar(prev, '\n', "; ");
        Replace(prev, Pattern(5), Replacement(5))
  }

  /** No pattern holds a ';', so the rewrites never lose one. */
  lemma {:induction false} RewrittenKeepsSemicolon(raw: string, n: nat)
    requires n <= 6
    ensures multiset(Rewritten(raw, n))[';'] >= multiset(raw)[';']
    decreases n
  {
    if n > 0 {
      RewrittenKeepsSemicolon(raw, n - 1);
      ReplaceKeepsChar(Rewritten(raw, n - 1), Pattern(n - 1), Replacement(n - 1), ';');
    }
  }

  /**
    `notes.Replace(...)...Replace("\n", "; ").Trim() + ";"` for one raw note.
    Whatever the input, the result ends with ';' and holds no '\n'.
  */
  function ScrubNote(raw: string): (notes: string)
    ensures |notes| >= 1 && notes[|notes| - 1] == ';'
    ensures '\n' !in notes
  {
    var s6 := Rewritten(raw, 6);
    TrimOnlyKeeps(s6, '\n');
    Trim(s6) + ";"
  }

  /**
    One cleaned entry. The fallback to "release notes not found" is never
    taken: a scrubbed note always ends with ';', so it is never blank.
  */
  function CleanEntry(pair: (Squirrel.ReleaseEntry, string)): (entry: ReleaseEntry)
    ensures entry == ReleaseEntry(pair.0.version, ScrubNote(pair.1))
    ensures entry.releaseNotes != NotesNotFound
  {
    var notes := ScrubNote(pair.1);
    assert !IsWhiteSpaceOnly(notes) by {
      assert notes[|notes| - 1] == ';' && ';' !in WhiteSpace;
    }
    if !IsWhiteSpaceOnly(notes) then ReleaseEntry(pair.0.version, notes)
    else ReleaseEntry(pair.0.version, NotesNotFound)
  }

  /** `f` applied to every element of `s`, in order. */
  function Map<A, B>(s: seq<A>, f: A -> B): (r: seq<B>)
    ensures |r| == |s| && forall k :: 0 <= k < |s| ==> r[k] == f(s[k])
  {
    seq(|s|, k requires 0 <= k < |s| => f(s[k]))
  }

  /** Mapping one more element appends its image. */
  lemma MapStep<A, B>(s: seq<A>, f: A -> B, i: nat)
    requires i < |s|
    ensures Map(s[..i + 1], f) == Map(s[..i], f) + [f(s[i])]
  {
    var longer := Map(s[..i + 1], f);
    var shorter := Map(s[..i], f);
    forall k | 0 <= k < i
      ensures longer[k] == shorter[k]
    {
      assert s[..i + 1][k] == s[..i][k];
    }
  }

  /** The cleaned list: one entry per pair, in the same order. */
  function CleanedNotes(pairs: seq<(Squirrel.ReleaseEntry, string)>): (notes: seq<ReleaseEntry>)
    ensures |notes| == |pairs|
    ensures forall k :: 0 <= k < |pairs| ==>
      notes[k].version == pairs[k].0.version && notes[k].releaseNotes == ScrubNote(pairs[k].1)
  {
    Map(pairs, CleanEntry)
  }

  /** Every cleaned note ends with ';' and holds no '\n'. */
  lemma CleanedNotesAreClean(pairs: seq<(Squirrel.ReleaseEntry, string)>)
    ensures forall k :: 0 <= k < |CleanedNotes(pairs)| ==> IsCleanNote(CleanedNotes(pairs)[k].releaseNotes)
  {
    forall k | 0 <= k < |CleanedNotes(pairs)|
      ensures IsCleanNote(CleanedNotes(pairs)[k].releaseNotes)
    {
      assert CleanedNotes(pairs)[k].releaseNotes == ScrubNote(pairs[k].1);
    }
  }

  /** Every note the updater reports ends with ';' and holds no '\n'. */
  lemma SelectedNotesAreClean(info: Squirrel.UpdateInfo)
    ensures forall k :: 0 <= k < |SelectedNotes(info)| ==> IsCleanNote(SelectedNotes(info)[k].releaseNotes)
  {
    CleanedNotesAreClean(info.fetchedNotes);
    CleanedNotesAreClean(NotesByRelease(info.releasesToApply));
  }

  /** `CleanReleaseNotes`: the loop over the dictionary. */
  method CleanReleaseNotes(releaseNotes: seq<(Squirrel.ReleaseEntry, string)>)
    returns (cleanReleaseNotes: seq<ReleaseEntry>)
    ensures cleanReleaseNotes == CleanedNotes(releaseNotes)
  {
    cleanReleaseNotes := [];
    for i := 0 to |releaseNotes|
      invariant cleanReleaseNotes == CleanedNotes(releaseNotes[..i])
    {
      var entry := releaseNotes[i];
      MapStep(releaseNotes, CleanEntry, i);
      var notes := ScrubNote(entry.1);
      if !IsWhiteSpaceOnly(notes) {
        cleanReleaseNotes := cleanReleaseNotes + [ReleaseEntry(entry.0.version, notes)];
      } else {
        cleanReleaseNotes := cleanReleaseNotes + [ReleaseEntry(entry.0.version, NotesNotFound)];
      }
    }
    assert releaseNotes[..|releaseNotes|] == releaseNotes;
  }

  /** The notes of each release to apply, read from its package, in order. */
  function NotesByRelease(releases: seq<Squirrel.ReleaseEntry>): (pairs: seq<(Squirrel.ReleaseEntry, string)>)
    ensures |pairs| == |releases|
    ensures forall k :: 0 <= k < |releases| ==> pairs[k] == (releases[k], releases[k].packageNotes)
  {
    if releases == [] then []
    else NotesByRelease(releases[..|releases| - 1]) + [(releases[|releases| - 1], releases[|releases| - 1].packageNotes)]
  }

  /** `FetchReleaseNotes(updateInfo)`: the loop over the releases to apply. */
  method FetchReleaseNotes(updateInfo: Squirrel.UpdateInfo) returns (releaseNotes: seq<(Squirrel.ReleaseEntry, string)>)
    ensures releaseNotes == NotesByRelease(updateInfo.releasesToApply)
  {
    releaseNotes := [];
    var releases := updateInfo.releasesToApply;
    for i := 0 to |releases|
      invariant releaseNotes == NotesByRelease(releases[..i])
    {
      var entry := releases[i];
      releaseNotes := releaseNotes + [(entry, entry.packageNotes)];
      assert releases[..i + 1][..i] == releases[..i];
    }
    assert releases[..|releases|] == releases;
  }

  /**
    The notes the updater reports: those of the feed, or, when cleaning them
    leaves nothing, those read from each release's package.
  */
  function SelectedNotes(info: Squirrel.UpdateInfo): (notes: seq<ReleaseEntry>)
    ensures |notes| == if |info.fetchedNotes| > 0 then |info.fetchedNotes| else |info.releasesToApply|
  {
    var fromFeed := CleanedNotes(info.fetchedNotes);
    if |fromFeed| <= 0 then CleanedNotes(NotesByRelease(info.releasesToApply)) else fromFeed
  }

  /** One rendered note. */
  function NoteLine(note: ReleaseEntry): string
  {
    "Version " + note.version + ": " + note.releaseNotes
  }

  /** What the StringBuilder holds: each note's line followed by a line break. */
  function RenderedNotes(notes: seq<ReleaseEntry>): (text: string)
    ensures |text| == 0 <==> notes == []
  {
    if notes == [] then ""
    else RenderedNotes(notes[..|notes| - 1]) + NoteLine(notes[|notes| - 1]) + NewLine
  }

  /** The StringBuilder loop. */
  method RenderReleaseNotes(cleanReleaseNotes: seq<ReleaseEntry>) returns (releaseNotes: string)
    ensures releaseNotes == RenderedNotes(cleanReleaseNotes)
  {
    releaseNotes := "";
    for i := 0 to |cleanReleaseNotes|
      invariant releaseNotes == RenderedNotes(cleanReleaseNotes[..i])
    {
      var note := cleanReleaseNotes[i];
      releaseNotes := releaseNotes + ("Version " + note.version + ": " + note.releaseNotes + NewLine);
      assert cleanReleaseNotes[..i + 1][..i] == cleanReleaseNotes[..i];
    }
    assert cleanReleaseNotes[..|cleanReleaseNotes|] == cleanReleaseNotes;
  }

  /** The lines of the notes with a line break between consecutive ones and none at the end. */
  function JoinedNoteLines(notes: seq<ReleaseEntry>): string
    requires |notes| >= 1
  {
    if |notes| == 1 then NoteLine(notes[0])
    else JoinedNoteLines(notes[..|notes| - 1]) + NewLine + NoteLine(notes[|notes| - 1])
  }

  /** The characters `TrimEnd(Environment.NewLine.ToCharArray())` removes. */
  const NewLineChars: set<char> := {'\r', '\n'}

  /**
    The logged notes text: trimming the line-break characters off the
    rendering removes exactly the final line break, because every note ends
    with ';'.
  */
  lemma {:induction false} TrimmedRenderingIsJoin(notes: seq<ReleaseEntry>)
    requires |notes| >= 1
    requires forall k :: 0 <= k < |notes| ==> IsCleanNote(notes[k].releaseNotes)
    ensures TrimEndChars(RenderedNotes(notes), NewLineChars) == JoinedNoteLines(notes)
  {
    RenderedIsJoinPlusNewLine(notes);
    var joined := JoinedNoteLines(notes);
    var last := notes[|notes| - 1];
    assert IsCleanNote(last.releaseNotes);
    assert joined[|joined| - 1] == ';' by {
      assert joined == (if |notes| == 1 then "" else JoinedNoteLines(notes[..|notes| - 1]) + NewLine)
        + "Version " + last.version + ": " + last.releaseNotes;
    }
    TrimEndsAtLastChar(joined);
  }

  /** Trimming the line-break characters off `text` + `NewLine` stops at the last character of `text`. */
  lemma TrimEndsAtLastChar(text: string)
    requires |text| >= 1 && text[|text| - 1] == ';'
    ensures TrimEndChars(text + NewLine, NewLineChars) == text
  {
    var rendered := text + NewLine;
    assert rendered[..|rendered| - 1] == text + "\r";
    assert (text + "\r")[..|text|] == text;
    assert TrimEndChars(rendered, NewLineChars) == TrimEndChars(text + "\r", NewLineChars);
    assert TrimEndChars(text + "\r", NewLineChars) == TrimEndChars(text, NewLineChars);
  }

  /** The rendering is the joined lines plus one final line break. */
  lemma {:induction false} RenderedIsJoinPlusNewLine(notes: seq<ReleaseEntry>)
    requires |notes| >= 1
    ensures RenderedNotes(notes) == JoinedNoteLines(notes) + NewLine
    decreases |notes|
  {
    if |notes| > 1 {
      RenderedIsJoinPlusNewLine(notes[..|notes| - 1]);
    } else {
      assert notes[..0] == [];
    }
  }

  /**
    Cleaning always adds a ';': the patterns it removes hold none, "\n"
    becomes "; ", trimming removes only white space, and one more ';' is
    appended.
  */
  lemma ScrubNoteAddsSemicolon(raw: string)
    ensures multiset(ScrubNote(raw))[';'] > multiset(raw)[';']
  {
    var s6 := Rewritten(raw, 6);
    RewrittenKeepsSemicolon(raw, 6);
    TrimKeepsChar(s6, ';');
    assert ScrubNote(raw) == Trim(s6) + ";";
  }

  /** Cleaning is not idempotent: cleaning a cleaned note never gives it back. */
  lemma ScrubNoteNotIdempotent(raw: string)
    ensures ScrubNote(ScrubNote(raw)) != ScrubNote(raw)
  {
    ScrubNoteAddsSemicolon(ScrubNote(raw));
  }
}
