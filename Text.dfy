/** Character-level text handling of the viewer: finding a character,
    expanding tabs for display and splitting file content into lines the way
    repeated `std::getline` calls do. */
module Text {

  /** Default tab width of `replace_tabs_with_spaces`. */
  const TabWidth: nat := 4

  /** Length of the longest prefix of `s` free of `c`; equals `|s|` when `c`
      does not occur. */
  function IndexOf(s: string, c: char): (n: nat)
    ensures n <= |s|
  {
    if s == [] || s[0] == c then 0 else 1 + IndexOf(s[1..], c)
  }

  /** `IndexOf` stops at an occurrence of `c` when it stops before the end. */
  lemma {:induction false} IndexOfFound(s: string, c: char)
    ensures IndexOf(s, c) < |s| ==> s[IndexOf(s, c)] == c
  {
    if s != [] && s[0] != c {
      IndexOfFound(s[1..], c);
    }
  }

  /** No `c` comes before `IndexOf`. */
  lemma {:induction false} IndexOfBefore(s: string, c: char, j: nat)
    requires j < IndexOf(s, c)
    ensures s[j] != c
  {
    if j > 0 {
      IndexOfBefore(s[1..], c, j - 1);
    }
  }

  /** `IndexOf` finds the first occurrence of `c`, if there is one. */
  lemma IndexOfFirst(s: string, c: char)
    ensures forall j :: 0 <= j < IndexOf(s, c) ==> s[j] != c
    ensures IndexOf(s, c) < |s| ==> s[IndexOf(s, c)] == c
  {
    IndexOfFound(s, c);
    forall j | 0 <= j < IndexOf(s, c)
      ensures s[j] != c
    {
      IndexOfBefore(s, c, j);
    }
  }

  /** Any position with no `c` before it and `c` (or the end) at it is
      where `IndexOf` stops. */
  lemma IndexOfUnique(s: string, c: char, k: nat)
    requires k <= |s|
    requires forall j :: 0 <= j < k ==> s[j] != c
    requires k < |s| ==> s[k] == c
    ensures IndexOf(s, c) == k
  {
    IndexOfFirst(s, c);
  }

  // ---------------------------------------------------------------------
  // Tab expansion
  // ---------------------------------------------------------------------

  function Spaces(n: nat): (r: string)
    ensures |r| == n
    ensures forall j :: 0 <= j < n ==> r[j] == ' '
  {
    seq(n, _ => ' ')
  }

  /** What one input character becomes on screen. */
  function ExpandChar(ch: char, width: nat): string
  {
    if ch == '\t' then Spaces(width) else [ch]
  }

  /** The displayed form of `s`: every tab replaced by `width` spaces. */
  function ExpandTabs(s: string, width: nat): string
  {
    if s == [] then [] else ExpandTabs(s[..|s| - 1], width) + ExpandChar(s[|s| - 1], width)
  }

  function TabCount(s: string): nat
  {
    if s == [] then 0 else TabCount(s[..|s| - 1]) + (if s[|s| - 1] == '\t' then 1 else 0)
  }

  /** The character loop of `replace_tabs_with_spaces`. */
  method ReplaceTabsWithSpaces(str: string, tabWidth: nat) returns (result: string)
    ensures result == ExpandTabs(str, tabWidth)
  {
    result := "";
    for i := 0 to |str|
      invariant result == ExpandTabs(str[..i], tabWidth)
    {
      assert str[..i + 1][..i] == str[..i];
      if str[i] == '\t' {
        result := result + Spaces(tabWidth);
      } else {
        result := result + [str[i]];
      }
    }
    assert str[..|str|] == str;
  }

  /** Expansion is independent of the surrounding text. */
  lemma {:induction false} ExpandTabsAppend(a: string, b: string, width: nat)
    ensures ExpandTabs(a + b, width) == ExpandTabs(a, width) + ExpandTabs(b, width)
    decreases |b|
  {
    if b == [] {
      assert a + b == a;
    } else {
      var b' := b[..|b| - 1];
      assert (a + b)[..|a + b| - 1] == a + b';
      ExpandTabsAppend(a, b', width);
    }
  }

  /** Each character of `s`, at its own position in the output, becomes
      exactly its expansion: a tab `width` spaces, any other character itself. */
  lemma ExpandTabsAt(s: string, width: nat, i: nat)
    requires i < |s|
    ensures var p := |ExpandTabs(s[..i], width)|;
            var e := ExpandChar(s[i], width);
            p + |e| <= |ExpandTabs(s, width)| && ExpandTabs(s, width)[p..p + |e|] == e
  {
    assert s == s[..i] + [s[i]] + s[i + 1..];
    ExpandTabsAppend(s[..i] + [s[i]], s[i + 1..], width);
    ExpandTabsAppend(s[..i], [s[i]], width);
    assert ExpandTabs([s[i]], width) == ExpandChar(s[i], width) by {
      assert [s[i]][..0] == [];
    }
  }

  /** The output grows by `width - 1` characters per tab. */
  lemma {:induction false} ExpandTabsLength(s: string, width: nat)
    ensures |ExpandTabs(s, width)| == |s| + (width - 1) * TabCount(s)
  {
    if s != [] {
      var init, last := s[..|s| - 1], s[|s| - 1];
      ExpandTabsLength(init, width);
      var c := TabCount(init);
      assert |ExpandTabs(s, width)| == |ExpandTabs(init, width)| + |ExpandChar(last, width)|;
      if last == '\t' {
        assert TabCount(s) == c + 1;
        assert (width - 1) * (c + 1) == (width - 1) * c + (width - 1);
      } else {
        assert TabCount(s) == c;
      }
    }
  }

  /** No tab survives expansion. */
  lemma {:induction false} ExpandTabsNoTab(s: string, width: nat)
    ensures '\t' !in ExpandTabs(s, width)
  {
    if s != [] {
      ExpandTabsNoTab(s[..|s| - 1], width);
    }
  }

  /** Text without tabs is displayed unchanged. */
  lemma {:induction false} ExpandTabsWithoutTabs(s: string, width: nat)
    requires '\t' !in s
    ensures ExpandTabs(s, width) == s
  {
    if s != [] {
      assert s == s[..|s| - 1] + [s[|s| - 1]];
      ExpandTabsWithoutTabs(s[..|s| - 1], width);
    }
  }

  /** Expanding already expanded text changes nothing. */
  lemma ExpandTabsIdempotent(s: string, width: nat)
    ensures ExpandTabs(ExpandTabs(s, width), width) == ExpandTabs(s, width)
  {
    ExpandTabsNoTab(s, width);
    ExpandTabsWithoutTabs(ExpandTabs(s, width), width);
  }

  // ---------------------------------------------------------------------
  // Line splitting
  // ---------------------------------------------------------------------

  /** The first line of non-empty `s`, without its terminator. */
  function FirstLine(s: string): string
  {
    s[..IndexOf(s, '\n')]
  }

  /** What follows the first line and its terminator, if any. */
  function AfterFirstLine(s: string): (r: string)
    requires s != []
    ensures |r| < |s|
  {
    var n := IndexOf(s, '\n');
    if n < |s| then s[n + 1..] else []
  }

  /** The lines successive `std::getline` calls extract from `s`: pieces
      between '\n' characters, terminators dropped, no trailing empty line
      after a final '\n', and no line at all for empty content. */
  function SplitLines(s: string): seq<string>
    decreases |s|
  {
    if s == [] then [] else [FirstLine(s)] + SplitLines(AfterFirstLine(s))
  }

  /** Lines written back with a '\n' after each one. */
  function JoinLines(lines: seq<string>): string
  {
    if lines == [] then [] else lines[0] + "\n" + JoinLines(lines[1..])
  }

  /** `s` with a final '\n' added if it is non-empty and lacks one. */
  function Terminated(s: string): string
  {
    if s == [] || s[|s| - 1] == '\n' then s else s + "\n"
  }

  /** One getline step: from `pos`, the next line ends at the first '\n'
      at or after `pos`, or at the end of the content. */
  lemma SplitLinesAt(content: string, pos: nat, end: nat)
    requires pos <= end <= |content| && pos < |content|
    requires forall j :: pos <= j < end ==> content[j] != '\n'
    requires end < |content| ==> content[end] == '\n'
    ensures SplitLines(content[pos..])
            == [content[pos..end]] + SplitLines(content[if end < |content| then end + 1 else end..])
  {
    var rest := content[pos..];
    IndexOfUnique(rest, '\n', end - pos);
    assert FirstLine(rest) == content[pos..end];
    if end < |content| {
      assert AfterFirstLine(rest) == content[end + 1..];
    } else {
      assert AfterFirstLine(rest) == content[end..];
    }
  }

  /** The character scan of one getline call: from `pos`, the position of
      the next '\n', or the end of the content. */
  method ScanLine(content: string, pos: nat) returns (end: nat)
    requires pos <= |content|
    ensures pos <= end <= |content|
    ensures forall j :: pos <= j < end ==> content[j] != '\n'
    ensures end < |content| ==> content[end] == '\n'
  {
    end := pos;
    while end < |content| && content[end] != '\n'
      invariant pos <= end <= |content|
      invariant forall j :: pos <= j < end ==> content[j] != '\n'
    {
      end := end + 1;
    }
  }

  /** The getline loop: reads `content` line by line. */
  method ReadLines(content: string) returns (lines: seq<string>)
    ensures lines == SplitLines(content)
  {
    lines := [];
    var pos := 0;
    while pos < |content|
      invariant pos <= |content|
      invariant lines + SplitLines(content[pos..]) == SplitLines(content)
      decreases |content| - pos
    {
      var end := ScanLine(content, pos);
      SplitLinesAt(content, pos, end);
      lines := lines + [content[pos..end]];
      pos := if end < |content| then end + 1 else end;
    }
  }

  /** No extracted line contains a terminator. */
  lemma {:induction false} SplitLinesNoNewline(s: string)
    ensures forall l :: l in SplitLines(s) ==> '\n' !in l
    decreases |s|
  {
    if s != [] {
      SplitLinesNoNewline(AfterFirstLine(s));
      IndexOfFirst(s, '\n');
    }
  }

  lemma TerminatedAfterLine(first: string, rest: string)
    ensures first + "\n" + Terminated(rest) == Terminated(first + "\n" + rest)
  {
    var t := first + "\n" + rest;
    if rest != [] {
      assert t[|t| - 1] == rest[|rest| - 1];
      if rest[|rest| - 1] != '\n' {
        assert first + "\n" + (rest + "\n") == t + "\n";
      }
    } else {
      assert t[|t| - 1] == '\n';
    }
  }

  /** `s` cut around its character at `n`. */
  lemma SplitAround(s: string, n: nat)
    requires n < |s|
    ensures s == s[..n] + [s[n]] + s[n + 1..]
  {
    assert s[n..] == [s[n]] + s[n + 1..];
    assert s == s[..n] + s[n..];
  }

  /** Content with a terminator is its first line, the terminator and the
      rest. */
  lemma FirstLineTerminated(s: string)
    requires s != [] && IndexOf(s, '\n') < |s|
    ensures s == FirstLine(s) + "\n" + AfterFirstLine(s)
  {
    IndexOfFound(s, '\n');
    SplitAround(s, IndexOf(s, '\n'));
  }

  /** Content without a terminator is all first line and does not end in
      '\n'. */
  lemma FirstLineUnterminated(s: string)
    requires s != [] && IndexOf(s, '\n') == |s|
    ensures s == FirstLine(s) && AfterFirstLine(s) == [] && s[|s| - 1] != '\n'
  {
    IndexOfBefore(s, '\n', |s| - 1);
    assert s[..|s|] == s;
  }

  /** Non-empty content is its first line, then, if a terminator follows,
      the terminator and the rest; without one the content does not end in
      '\n'. */
  lemma FirstLineThenRest(s: string)
    requires s != []
    ensures IndexOf(s, '\n') < |s| ==> s == FirstLine(s) + "\n" + AfterFirstLine(s)
    ensures IndexOf(s, '\n') == |s| ==> s == FirstLine(s) && AfterFirstLine(s) == [] && s[|s| - 1] != '\n'
  {
    if IndexOf(s, '\n') < |s| {
      FirstLineTerminated(s);
    } else {
      FirstLineUnterminated(s);
    }
  }

  lemma JoinLinesCons(first: string, rest: seq<string>)
    ensures JoinLines([first] + rest) == first + "\n" + JoinLines(rest)
  {
    assert ([first] + rest)[1..] == rest;
  }

  /** Writing the lines back, each followed by '\n', gives the content with
      its final line terminated. */
  lemma {:induction false} JoinSplitLines(s: string)
    ensures JoinLines(SplitLines(s)) == Terminated(s)
    decreases |s|
  {
    if s != [] {
      var first, rest := FirstLine(s), AfterFirstLine(s);
      JoinSplitLines(rest);
      JoinLinesCons(first, SplitLines(rest));
      FirstLineThenRest(s);
      if IndexOf(s, '\n') < |s| {
        TerminatedAfterLine(first, rest);
      }
    }
  }

  /** Splitting terminated lines that hold no '\n' gives them back. */
  lemma {:induction false} SplitJoinLines(lines: seq<string>)
    requires forall l :: l in lines ==> '\n' !in l
    ensures SplitLines(JoinLines(lines)) == lines
  {
    if lines != [] {
      var first, rest := lines[0], JoinLines(lines[1..]);
      var s := first + "\n" + rest;
      assert JoinLines(lines) == s;
      assert lines[0] in lines;
      assert forall j :: 0 <= j < |first| ==> s[j] == first[j];
      IndexOfUnique(s, '\n', |first|);
      assert s[..|first|] == first && s[|first| + 1..] == rest;
      SplitJoinLines(lines[1..]);
    }
  }
}
