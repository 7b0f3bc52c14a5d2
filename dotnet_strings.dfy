/**
  The parts of .NET's `System.String` that the updater relies on, over Dafny
  strings: `Environment.NewLine`, `char.IsWhiteSpace`, `Replace`, `Trim`,
  `TrimEnd(params char[])` and the decimal rendering of an `int`.
*/
module DotNetStrings {

  /** `Environment.NewLine` on Windows. */
  const NewLine: string := "\r\n"

  /** `char.IsWhiteSpace`: the Unicode White_Space characters. */
  predicate IsWhiteSpaceChar(c: char)
  {
    c == ' ' || '\t' <= c <= '\r' || c == '\U{85}' || c == '\U{A0}' || c == '\U{1680}'
    || '\U{2000}' <= c <= '\U{200A}' || c == '\U{2028}' || c == '\U{2029}' || c == '\U{202F}'
    || c == '\U{205F}' || c == '\U{3000}'
  }

  /** The white-space characters as a set, for the trimming functions. */
  const WhiteSpace: set<char> := set c: char | '\t' <= c <= '\U{3000}' && IsWhiteSpaceChar(c)

  /** Every character of `s` belongs to `chars`. */
  predicate OnlyChars(s: string, chars: set<char>)
  {
    forall i :: 0 <= i < |s| ==> s[i] in chars
  }

  /**
    `string.IsNullOrWhiteSpace` for a string that is not null, read from the
    last character back (`IsWhiteSpaceOnlyMeaning`).
  */
  predicate IsWhiteSpaceOnly(s: string)
    decreases |s|
  {
    s == [] || (s[|s| - 1] in WhiteSpace && IsWhiteSpaceOnly(s[..|s| - 1]))
  }

  /** A text is white space only exactly when every character is white space. */
  lemma {:induction false} IsWhiteSpaceOnlyMeaning(s: string)
    ensures IsWhiteSpaceOnly(s) <==> OnlyChars(s, WhiteSpace)
    decreases |s|
  {
    if s != [] {
      IsWhiteSpaceOnlyMeaning(s[..|s| - 1]);
      assert s == s[..|s| - 1] + [s[|s| - 1]];
    }
  }

  /**
    `s.Replace(oldValue, newValue)`: scanning from the left, each occurrence of
    `oldValue` that does not overlap an earlier one is replaced by `newValue`.
    .NET rejects an empty `oldValue`.
  */
  function Replace(s: string, oldValue: string, newValue: string): (r: string)
    requires |oldValue| > 0
    decreases |s|
  {
    if |s| < |oldValue| then s
    else if s[..|oldValue|] == oldValue then newValue + Replace(s[|oldValue|..], oldValue, newValue)
    else [s[0]] + Replace(s[1..], oldValue, newValue)
  }

  /** Every character of the result comes from `s` or from `newValue`. */
  lemma {:induction false} ReplaceOnlyAdds(s: string, oldValue: string, newValue: string, c: char)
    requires |oldValue| > 0
    ensures c in Replace(s, oldValue, newValue) ==> c in s || c in newValue
    decreases |s|
  {
    if |s| >= |oldValue| {
      if s[..|oldValue|] == oldValue {
        ReplaceOnlyAdds(s[|oldValue|..], oldValue, newValue, c);
        if c in s[|oldValue|..] {
          var i :| |oldValue| <= i < |s| && s[i] == c;
        }
      } else {
        ReplaceOnlyAdds(s[1..], oldValue, newValue, c);
        if c in s[1..] {
          var i :| 1 <= i < |s| && s[i] == c;
        }
      }
    }
  }

  /** Replacing a single character by text that does not contain it removes it everywhere. */
  lemma {:induction false} ReplaceRemovesChar(s: string, c: char, newValue: string)
    requires c !in newValue
    ensures c !in Replace(s, [c], newValue)
    decreases |s|
  {
    if |s| >= 1 {
      if s[..1] == [c] {
        ReplaceRemovesChar(s[1..], c, newValue);
      } else {
        ReplaceRemovesChar(s[1..], c, newValue);
        assert s[0] != c;
      }
    }
  }

  /** `s.TrimStart(chars)`: drops the longest prefix made of `chars`. */
  function TrimStartChars(s: string, chars: set<char>): (r: string)
    ensures |r| <= |s| && r == s[|s| - |r|..]
    ensures r == [] || r[0] !in chars
    decreases |s|
  {
    if |s| > 0 && s[0] in chars then TrimStartChars(s[1..], chars) else s
  }

  /** What `TrimStart` drops is made of `chars`. */
  lemma {:induction false} TrimStartDropsOnly(s: string, chars: set<char>)
    ensures OnlyChars(s[..|s| - |TrimStartChars(s, chars)|], chars)
    decreases |s|
  {
    if |s| > 0 && s[0] in chars {
      var r := TrimStartChars(s[1..], chars);
      TrimStartDropsOnly(s[1..], chars);
      assert s[..|s| - |r|] == [s[0]] + s[1..][..|s| - 1 - |r|];
    }
  }

  /** `s.TrimEnd(chars)`: drops the longest suffix made of `chars`. */
  function TrimEndChars(s: string, chars: set<char>): (r: string)
    ensures |r| <= |s| && r == s[..|r|]
    ensures r == [] || r[|r| - 1] !in chars
    decreases |s|
  {
    if |s| > 0 && s[|s| - 1] in chars then TrimEndChars(s[..|s| - 1], chars) else s
  }

  /** What `TrimEnd` drops is made of `chars`. */
  lemma {:induction false} TrimEndDropsOnly(s: string, chars: set<char>)
    ensures OnlyChars(s[|TrimEndChars(s, chars)|..], chars)
    decreases |s|
  {
    if |s| > 0 && s[|s| - 1] in chars {
      var r := TrimEndChars(s[..|s| - 1], chars);
      TrimEndDropsOnly(s[..|s| - 1], chars);
      assert s[|r|..] == s[..|s| - 1][|r|..] + [s[|s| - 1]];
    }
  }

  /** `s.Trim()`: drops leading and trailing white space. */
  function Trim(s: string): (r: string)
    ensures |r| <= |s|
    ensures r == [] || (r[0] !in WhiteSpace && r[|r| - 1] !in WhiteSpace)
  {
    var t := TrimStartChars(s, WhiteSpace);
    TrimEndChars(t, WhiteSpace)
  }

  lemma CharOfSuffix(s: string, t: string, i: nat)
    requires |t| <= |s| && t == s[|s| - |t|..] && i < |t|
    ensures t[i] in s
  {
    assert t[i] == s[|s| - |t| + i];
  }

  /** Trimming adds no character: the result is a slice of `s`. */
  lemma TrimOnlyKeeps(s: string, c: char)
    ensures c in Trim(s) ==> c in s
  {
    var t := TrimStartChars(s, WhiteSpace);
    var r := TrimEndChars(t, WhiteSpace);
    if c in r {
      var i :| 0 <= i < |r| && r[i] == c;
      assert t[i] == c;
      CharOfSuffix(s, t, i);
    }
  }

  /** Replacing text that does not contain `c` by any text never loses an occurrence of `c`. */
  lemma {:induction false} ReplaceKeepsChar(s: string, oldValue: string, newValue: string, c: char)
    requires |oldValue| > 0 && c !in oldValue
    ensures multiset(Replace(s, oldValue, newValue))[c] >= multiset(s)[c]
    decreases |s|
  {
    if |s| >= |oldValue| {
      if s[..|oldValue|] == oldValue {
        ReplaceKeepsChar(s[|oldValue|..], oldValue, newValue, c);
        assert s == oldValue + s[|oldValue|..];
        assert multiset(oldValue)[c] == 0;
      } else {
        ReplaceKeepsChar(s[1..], oldValue, newValue, c);
        assert s == [s[0]] + s[1..];
      }
    }
  }

  /** A text made of `chars` holds no character outside `chars`. */
  lemma {:induction false} OnlyCharsExcludes(s: string, chars: set<char>, c: char)
    requires OnlyChars(s, chars) && c !in chars
    ensures multiset(s)[c] == 0
    decreases |s|
  {
    if s != [] {
      assert s == [s[0]] + s[1..];
      OnlyCharsExcludes(s[1..], chars, c);
    }
  }

  /** The occurrences of `c` in a text are those before a cut plus those after it. */
  lemma CountSplits(s: string, cut: nat, c: char)
    requires cut <= |s|
    ensures multiset(s)[c] == multiset(s[..cut])[c] + multiset(s[cut..])[c]
  {
    assert s == s[..cut] + s[cut..];
  }

  /** Trimming `chars` off the start keeps every occurrence of a character outside `chars`. */
  lemma TrimStartKeepsChar(s: string, chars: set<char>, c: char)
    requires c !in chars
    ensures multiset(TrimStartChars(s, chars))[c] == multiset(s)[c]
  {
    var t := TrimStartChars(s, chars);
    var head := s[..|s| - |t|];
    TrimStartDropsOnly(s, chars);
    OnlyCharsExcludes(head, chars, c);
    CountSplits(s, |s| - |t|, c);
  }

  /** Trimming `chars` off the end keeps every occurrence of a character outside `chars`. */
  lemma TrimEndKeepsChar(s: string, chars: set<char>, c: char)
    requires c !in chars
    ensures multiset(TrimEndChars(s, chars))[c] == multiset(s)[c]
  {
    var r := TrimEndChars(s, chars);
    var tail := s[|r|..];
    TrimEndDropsOnly(s, chars);
    OnlyCharsExcludes(tail, chars, c);
    CountSplits(s, |r|, c);
  }

  /** Trimming white space keeps every occurrence of a character that is not white space. */
  lemma TrimKeepsChar(s: string, c: char)
    requires c !in WhiteSpace
    ensures multiset(Trim(s))[c] == multiset(s)[c]
  {
    var t := TrimStartChars(s, WhiteSpace);
    TrimStartKeepsChar(s, WhiteSpace, c);
    TrimEndKeepsChar(t, WhiteSpace, c);
  }

  function DigitChar(d: nat): char
    requires d < 10
  {
    "0123456789"[d]
  }

  /** The decimal digits of `n`, most significant first, with no leading zero. */
  function NatToString(n: nat): (r: string)
    ensures 1 <= |r|
    ensures '0' <= r[0] <= '9'
    ensures |r| > 1 ==> r[0] != '0'
    decreases n
  {
    if n < 10 then [DigitChar(n)] else NatToString(n / 10) + [DigitChar(n % 10)]
  }

  /** Every character of `NatToString(n)` is a decimal digit. */
  lemma {:induction false} NatToStringDigits(n: nat)
    ensures forall i :: 0 <= i < |NatToString(n)| ==> '0' <= NatToString(n)[i] <= '9'
    decreases n
  {
    if n >= 10 {
      NatToStringDigits(n / 10);
    }
  }

  /** `i.ToString()` for an `int`: a minus sign before the digits of a negative value. */
  function IntToString(i: int): (r: string)
    ensures 1 <= |r|
    ensures (r[0] == '-') <==> i < 0
  {
    if i < 0 then "-" + NatToString(-i) else NatToString(i)
  }
}
