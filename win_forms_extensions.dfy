/**
  `WinFormsExtensions`: appending a time-stamped line to a text box, and
  taking the last lines of a text.

  The regular expression `^.*$` with `Multiline | RightToLeft` matches the
  lines of a text from the last one up: a line is a maximal run of
  characters other than '\n' (a '\r' stays in its line). `LineStart` is the
  left end the engine finds for the match that ends at a given position.
  The reference meaning is `Split`, the text cut at every '\n', left to right.
*/
module WinFormsExtensions {
  import opened Common
  import opened DotNetStrings

  /** The text cut at every '\n'; an empty text is one empty line. */
  function Split(text: string): (lines: seq<string>)
    ensures |lines| >= 1
    decreases |text|
  {
    if text == [] then [""]
    else
      var rest := Split(text[1..]);
      if text[0] == '\n' then [""] + rest
      else [[text[0]] + rest[0]] + rest[1..]
  }

  /** The lines put back together with '\n' between them. */
  function Join(lines: seq<string>): (text: string)
    decreases |lines|
  {
    if lines == [] then ""
    else if |lines| == 1 then lines[0]
    else lines[0] + "\n" + Join(lines[1..])
  }

  /** No line holds a '\n'. */
  lemma {:induction false} SplitLinesHaveNoNewLine(text: string)
    ensures forall k :: 0 <= k < |Split(text)| ==> '\n' !in Split(text)[k]
    decreases |text|
  {
    if text != [] {
      SplitLinesHaveNoNewLine(text[1..]);
      SplitHead(text);
      var rest := Split(text[1..]);
      if text[0] != '\n' {
        assert '\n' !in [text[0]] + rest[0];
      }
    }
  }

  /** Splitting and joining again gives the text back. */
  lemma {:induction false} JoinSplit(text: string)
    ensures Join(Split(text)) == text
    decreases |text|
  {
    if text != [] {
      JoinSplit(text[1..]);
      JoinSplitStep(text);
    }
  }

  /** The inductive step of `JoinSplit`: one more character in front. */
  lemma JoinSplitStep(text: string)
    requires text != [] && Join(Split(text[1..])) == text[1..]
    ensures Join(Split(text)) == text
  {
    SplitHead(text);
    var rest := Split(text[1..]);
    if text[0] == '\n' {
      JoinCons("", rest);
    } else {
      JoinFirstLine(text[0], rest);
    }
    assert [text[0]] + text[1..] == text;
  }

  /** Joining a line in front of at least one more line puts a '\n' after it. */
  lemma JoinCons(line: string, more: seq<string>)
    requires |more| >= 1
    ensures Join([line] + more) == line + "\n" + Join(more)
  {
    assert ([line] + more)[1..] == more;
  }

  /** Putting a character in front of the first line puts it in front of the joined text. */
  lemma JoinFirstLine(c: char, lines: seq<string>)
    requires |lines| >= 1
    ensures Join([[c] + lines[0]] + lines[1..]) == [c] + Join(lines)
  {
    if |lines| > 1 {
      JoinCons([c] + lines[0], lines[1..]);
    }
  }

  /** Lines free of '\n' come back from splitting their join. */
  lemma {:induction false} SplitJoin(lines: seq<string>)
    requires |lines| >= 1
    requires forall k :: 0 <= k < |lines| ==> '\n' !in lines[k]
    ensures Split(Join(lines)) == lines
    decreases |lines|
  {
    if |lines| == 1 {
      SplitWithoutNewLine(lines[0]);
    } else {
      SplitJoin(lines[1..]);
      SplitWithoutNewLine(lines[0]);
      SplitAtNewLine(lines[0], Join(lines[1..]));
      assert Split(lines[0]) + Split(Join(lines[1..])) == [lines[0]] + lines[1..];
      assert [lines[0]] + lines[1..] == lines;
    }
  }

  /** A text without '\n' is one line. */
  lemma {:induction false} SplitWithoutNewLine(s: string)
    requires '\n' !in s
    ensures Split(s) == [s]
    decreases |s|
  {
    if s != [] {
      assert s[0] in s;
      assert forall c :: c in s[1..] ==> c in s;
      SplitWithoutNewLine(s[1..]);
      assert [s[0]] + s[1..] == s;
    }
  }

  /** Splitting at one '\n' splits the text into the lines before and after it. */
  lemma {:induction false} SplitAtNewLine(a: string, b: string)
    ensures Split(a + "\n" + b) == Split(a) + Split(b)
    decreases |a|
  {
    var t := a + "\n" + b;
    if a == [] {
      assert t[0] == '\n' && t[1..] == b;
    } else {
      assert t[0] == a[0] && t[1..] == a[1..] + "\n" + b;
      SplitAtNewLine(a[1..], b);
      if a[0] == '\n' {
        SplitConsNewLine(a, t, b);
      } else {
        SplitConsChar(a, t, b);
      }
    }
  }

  /** The inductive step of `SplitAtNewLine` when the text starts with '\n'. */
  lemma SplitConsNewLine(a: string, t: string, b: string)
    requires a != [] && a[0] == '\n' && t != [] && t[0] == a[0]
    requires Split(t[1..]) == Split(a[1..]) + Split(b)
    ensures Split(t) == Split(a) + Split(b)
  {
    SplitHead(t);
    SplitHead(a);
    AppendAssociates([""], Split(a[1..]), Split(b));
  }

  /**
    Regrouping line lists, proved apart from `SplitConsNewLine`: asserted
    inside that lemma, with `Split` unfolded around it, the same step runs
    out of resource.
  */
  lemma AppendAssociates(x: seq<string>, y: seq<string>, z: seq<string>)
    ensures x + (y + z) == (x + y) + z
  {
  }

  /** The inductive step of `SplitAtNewLine` when the text starts with another character. */
  lemma SplitConsChar(a: string, t: string, b: string)
    requires a != [] && a[0] != '\n' && t != [] && t[0] == a[0]
    requires Split(t[1..]) == Split(a[1..]) + Split(b)
    ensures Split(t) == Split(a) + Split(b)
  {
    var head := Split(a[1..]);
    SplitHead(t);
    SplitHead(a);
    ConsFirstLine(a[0], head, Split(b));
  }

  /** One step of `Split`: a leading '\n' starts a new line, another character joins the first line. */
  lemma SplitHead(t: string)
    requires t != []
    ensures t[0] == '\n' ==> Split(t) == [""] + Split(t[1..])
    ensures t[0] != '\n' ==> Split(t) == [[t[0]] + Split(t[1..])[0]] + Split(t[1..])[1..]
  {
  }

  /** Putting a character in front of the first line commutes with appending more lines. */
  lemma ConsFirstLine(c: char, head: seq<string>, more: seq<string>)
    requires |head| >= 1
    ensures [[c] + (head + more)[0]] + (head + more)[1..] == [[c] + head[0]] + head[1..] + more
  {
    assert (head + more)[0] == head[0];
    assert (head + more)[1..] == head[1..] + more;
  }

  /**
    Where the line that ends at `end` begins: the engine's `.*` runs left from
    `end` over characters other than '\n', and `^` holds at the start of the
    text or just after a '\n'.
  */
  function LineStart(text: string, end: nat): (start: nat)
    requires end <= |text|
    ensures start <= end
    ensures start == 0 || text[start - 1] == '\n'
    ensures '\n' !in text[start..end]
    decreases end
  {
    if end == 0 || text[end - 1] == '\n' then end
    else
      var start := LineStart(text, end - 1);
      assert text[start..end] == text[start..end - 1] + [text[end - 1]];
      start
  }

  /** The last `count` elements of `s`, all of them when there are fewer, none when `count <= 0`. */
  function LastN<T>(s: seq<T>, count: int): (r: seq<T>)
    ensures count <= 0 ==> r == []
    ensures 0 <= count <= |s| ==> |r| == count
    ensures count >= |s| ==> r == s
    ensures exists k :: 0 <= k <= |s| && r == s[k..]
  {
    if count <= 0 then
      assert s[|s|..] == [];
      []
    else if count >= |s| then
      assert s[0..] == s;
      s
    else s[|s| - count..]
  }

  /**
    `text.TakeLastLines(count)`: the last `count` lines of `text`, top to
    bottom. Each right-to-left match is inserted at the front; the next match
    ends at the '\n' before the current one, and there is none once the
    start of the text is reached.
  */
  method TakeLastLines(text: string, count: int) returns (lines: seq<string>)
    ensures lines == LastN(Split(text), count)
    ensures count <= 0 ==> lines == []
    ensures |lines| <= count || lines == []
  {
    lines := [];
    var end := |text|;        // where the current match ends
    var success := true;      // match.Success
    assert text[..end] == text;
    while success && |lines| < count
      invariant 0 <= end <= |text|
      invariant success ==> end == |text| || text[end] == '\n'
      invariant success ==> Split(text) == Split(text[..end]) + lines
      invariant !success ==> Split(text) == lines
      invariant lines == [] || |lines| <= count
      decreases if success then end + 1 else 0
    {
      var start := LineStart(text, end);
      var line := text[start..end];
      SplitUpTo(text, end);
      if start == 0 {
        success := false;
      } else {
        assert Split(text[..start - 1]) + [line] + lines == Split(text[..start - 1]) + ([line] + lines);
        end := start - 1;
      }
      lines := [line] + lines;
    }
  }

  /** The lines of a prefix of `text`: those before the last one, then the last one. */
  lemma SplitUpTo(text: string, end: nat)
    requires end <= |text|
    ensures var start := LineStart(text, end);
      && (start == 0 ==> Split(text[..end]) == [text[start..end]])
      && (start > 0 ==> Split(text[..end]) == Split(text[..start - 1]) + [text[start..end]])
  {
    var start := LineStart(text, end);
    var line := text[start..end];
    SplitWithoutNewLine(line);
    if start == 0 {
      assert text[..end] == line;
    } else {
      assert text[..end] == text[..start - 1] + "\n" + line;
      SplitAtNewLine(text[..start - 1], line);
    }
  }

  /** `text.TakeLastLine()`: the final line of `text`. */
  method TakeLastLine(text: string) returns (line: string)
    ensures line == Split(text)[|Split(text)| - 1]
    ensures '\n' !in line
    ensures |line| <= |text| && text[|text| - |line|..] == line
    ensures |line| == |text| || text[|text| - |line| - 1] == '\n'
  {
    var lines := TakeLastLines(text, 1);
    line := lines[0];
    LastLineIsSuffix(text);
  }

  /** The last line of a text is its longest suffix without '\n'. */
  lemma {:induction false} LastLineIsSuffix(text: string)
    ensures var last := Split(text)[|Split(text)| - 1];
      && '\n' !in last
      && |last| <= |text| && text[|text| - |last|..] == last
      && (|last| == |text| || text[|text| - |last| - 1] == '\n')
  {
    var start := LineStart(text, |text|);
    var line := text[start..];
    SplitWithoutNewLine(line);
    if start == 0 {
      assert text == line;
    } else {
      assert text == text[..start - 1] + "\n" + line;
      SplitAtNewLine(text[..start - 1], line);
    }
  }

  /** A `TextBox`; only its text is modelled. */
  class TextBox {
    var Text: string

    constructor (text: string)
      ensures Text == text
    {
      Text := text;
    }
  }

  /** `string.IsNullOrWhiteSpace`. */
  predicate IsNullOrWhiteSpace(value: Option<string>)
  {
    value.None? || IsWhiteSpaceOnly(value.value)
  }

  /**
    `source.AppendLine(value)`: a null or blank value changes nothing;
    otherwise `[clock]: value` becomes the whole text of an empty box, or is
    appended after a line break. `clock` is `DateTime.Now` formatted with "T".
  */
  method AppendLine(source: TextBox, value: Option<string>, clock: string)
    modifies source
    ensures IsNullOrWhiteSpace(value) ==> source.Text == old(source.Text)
    ensures !IsNullOrWhiteSpace(value) && old(source.Text) == [] ==>
      source.Text == "[" + clock + "]: " + value.value
    ensures !IsNullOrWhiteSpace(value) && old(source.Text) != [] ==>
      source.Text == old(source.Text) + NewLine + "[" + clock + "]: " + value.value
    ensures old(source.Text) <= source.Text
  {
    if IsNullOrWhiteSpace(value) {
      return;
    }
    var time := "[" + clock + "]: ";
    if |source.Text| == 0 {
      source.Text := time + value.value;
    } else {
      source.Text := source.Text + (NewLine + time + value.value);
    }
  }
}
