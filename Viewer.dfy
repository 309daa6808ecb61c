/** The source viewer's state and the callbacks that change it: the editor
    pane's lines and window (`file_view`), the error list (`update_error_list`
    and the error buttons), reloading a file (`update_editor`) and clicks in
    the project explorer. The locals of `main` that these lambdas share by
    reference are the fields of one `Viewer` object. */
module Viewer {

  import opened Wrappers
  import Text
  import Analyzer
  import FileTree

  function Max(a: int, b: int): int { if a < b then b else a }
  function Min(a: int, b: int): int { if a < b then a else b }

  /** One row of the editor pane: its 1-based line number, the line's text
      with tabs expanded, and whether it has the highlight background. */
  datatype Row = Row(number: int, text: string, highlighted: bool)

  /** The offset the renderer keeps: `offset` brought into
      `[0, max(0, lineCount - visible)]`, moved as little as possible. */
  function ClampOffset(offset: int, lineCount: nat, visible: int): (r: int)
    ensures 0 <= r <= Max(0, lineCount - visible)
    ensures 0 <= offset <= lineCount - visible ==> r == offset
    ensures offset < 0 ==> r == 0
    ensures Max(0, lineCount - visible) < offset ==> r == Max(0, lineCount - visible)
  {
    Max(0, Min(offset, lineCount - visible))
  }

  /** The offset an error button scrolls to for a diagnostic at 1-based line
      `line`: half a window above the line, but not above the top. */
  function CentredOffset(line: int, visible: nat): (r: int)
    ensures 0 <= r
    ensures 1 <= line && 0 < visible ==> r <= line - 1 < r + visible
    ensures visible / 2 <= line - 1 ==> line - 1 - r == visible / 2
    ensures line - 1 < visible / 2 ==> r == 0
  {
    Max(0, line - 1 - visible / 2)
  }

  /** Rows `offset .. min(offset + visible, |lines|) - 1` of the file as the
      editor pane shows them. */
  function VisibleRows(lines: seq<string>, offset: nat, visible: int, current: int): seq<Row>
  {
    var count := Max(0, Min(offset + visible, |lines|) - offset);
    seq(count, k requires 0 <= k < count =>
      Row(offset + k + 1, Text.ExpandTabs(lines[offset + k], Text.TabWidth), offset + k == current))
  }

  /** The row loop of the `file_view` renderer. */
  method RenderWindow(lines: seq<string>, offset: nat, visible: int, current: int) returns (rows: seq<Row>)
    ensures rows == VisibleRows(lines, offset, visible, current)
  {
    rows := [];
    var i := offset;
    while i < offset + visible && i < |lines|
      invariant offset <= i
      invariant i == offset || (i <= |lines| && i <= offset + visible)
      invariant |rows| == i - offset
      invariant forall k :: 0 <= k < |rows| ==>
        rows[k] == Row(offset + k + 1, Text.ExpandTabs(lines[offset + k], Text.TabWidth), offset + k == current)
      decreases |lines| - i
    {
      var text := Text.ReplaceTabsWithSpaces(lines[i], Text.TabWidth);
      rows := rows + [Row(i + 1, text, i == current)];
      i := i + 1;
    }
  }

  /** At most one row is highlighted, and one is exactly when the highlighted
      line lies in the window; that row carries the line's number. */
  lemma HighlightedRows(lines: seq<string>, offset: nat, visible: int, current: int)
    ensures var rows := VisibleRows(lines, offset, visible, current);
            forall j, k :: 0 <= j < |rows| && 0 <= k < |rows| && rows[j].highlighted && rows[k].highlighted ==> j == k
    ensures var rows := VisibleRows(lines, offset, visible, current);
            (exists k :: 0 <= k < |rows| && rows[k].highlighted) <==> offset <= current < Min(offset + visible, |lines|)
    ensures var rows := VisibleRows(lines, offset, visible, current);
            offset <= current < Min(offset + visible, |lines|) ==> rows[current - offset].highlighted && rows[current - offset].number == current + 1
  {
    var rows := VisibleRows(lines, offset, visible, current);
    if offset <= current < Min(offset + visible, |lines|) {
      assert rows[current - offset].highlighted;
    }
  }

  /** Clamping twice is clamping once. */
  lemma ClampIdempotent(offset: int, lineCount: nat, visible: int)
    ensures ClampOffset(ClampOffset(offset, lineCount, visible), lineCount, visible) == ClampOffset(offset, lineCount, visible)
  {
  }

  /** After jumping to a diagnostic at line `n` of an `L`-line file and
      rendering, line `n` is in the window and is the one highlighted row. */
  lemma JumpShowsLine(lines: seq<string>, n: int, visible: nat)
    requires 1 <= n <= |lines| && 0 < visible
    ensures var offset := ClampOffset(CentredOffset(n, visible), |lines|, visible);
            && 0 <= offset <= n - 1 < offset + visible
            && var rows := VisibleRows(lines, offset, visible, n - 1);
               rows[n - 1 - offset].highlighted && rows[n - 1 - offset].number == n
               && forall k :: 0 <= k < |rows| && rows[k].highlighted ==> k == n - 1 - offset
  {
    var offset := ClampOffset(CentredOffset(n, visible), |lines|, visible);
    HighlightedRows(lines, offset, visible, n - 1);
  }

  /** A diagnostic at line 50 of a 100-line file with a 25-line window:
      line index 49 is highlighted and the window starts at index 37, which
      the renderer keeps. */
  lemma JumpExample(lines: seq<string>)
    requires |lines| == 100
    ensures CentredOffset(50, 25) == 37
    ensures ClampOffset(CentredOffset(50, 25), 100, 25) == 37
    ensures var rows := VisibleRows(lines, 37, 25, 49);
            && |rows| == 25
            && rows[12].highlighted && rows[12].number == 50
            && forall k :: 0 <= k < |rows| && rows[k].highlighted ==> k == 12
  {
    HighlightedRows(lines, 37, 25, 49);
  }

  /** The state the lambdas of `main` share. */
  class Viewer {
    /** `dynamic_file_lines`: the open file, one string per line. */
    var lines: seq<string>
    /** `dynamic_errors`: the diagnostics of the open file. */
    var errors: seq<Analyzer.Error>
    /** Labels of the buttons in `error_list`, one per error. */
    var entries: seq<string>
    /** `current_line`: highlighted 0-based line, -1 for none. */
    var currentLine: int
    /** `scroll_offset`: first line shown. */
    var scrollOffset: int
    /** `visible_lines`: rows in the editor window. */
    const visibleLines: nat := 25

    /** Button `i` of the error list stands for `errors[i]`; the offset is
        never negative (it is clamped against the file length only when
        rendering). */
    ghost predicate Valid()
      reads this
    {
      && 0 <= scrollOffset
      && |entries| == |errors|
      && forall i :: 0 <= i < |errors| ==> entries[i] == Analyzer.Label(errors[i])
    }

    /** The state before the first load: nothing open, no errors, no highlight. */
    constructor ()
      ensures Valid()
      ensures lines == [] && errors == [] && entries == []
      ensures currentLine == -1 && scrollOffset == 0
    {
      lines := [];
      errors := [];
      entries := [];
      currentLine := -1;
      scrollOffset := 0;
    }

    /** `update_error_list`: drops every button, then adds one per error in
        order. */
    method UpdateErrorList()
      requires 0 <= scrollOffset
      modifies this`entries
      ensures Valid()
      ensures |entries| == |errors|
      ensures forall i :: 0 <= i < |errors| ==> entries[i] == Analyzer.Label(errors[i])
    {
      entries := [];
      for i := 0 to |errors|
        invariant |entries| == i
        invariant forall j :: 0 <= j < i ==> entries[j] == Analyzer.Label(errors[j])
      {
        entries := entries + [Analyzer.Label(errors[i])];
      }
    }

    /** The callback of error button `i`: highlight the error's line and
        scroll so that it sits half a window below the top. */
    method SelectDiagnostic(i: nat)
      requires Valid() && i < |entries|
      modifies this`currentLine, this`scrollOffset
      ensures Valid()
      ensures currentLine == errors[i].line - 1
      ensures scrollOffset == CentredOffset(errors[i].line, visibleLines)
    {
      var error := errors[i];
      currentLine := error.line - 1;
      scrollOffset := Max(0, error.line - 1 - visibleLines / 2);
    }

    /** The `file_view` renderer: clamps the offset against the current file,
        then draws the window. */
    method Render() returns (rows: seq<Row>)
      requires Valid()
      modifies this`scrollOffset
      ensures Valid()
      ensures scrollOffset == ClampOffset(old(scrollOffset), |lines|, visibleLines)
      ensures 0 <= scrollOffset <= Max(0, |lines| - visibleLines)
      ensures rows == VisibleRows(lines, scrollOffset, visibleLines, currentLine)
    {
      scrollOffset := Max(0, Min(scrollOffset, |lines| - visibleLines));
      rows := RenderWindow(lines, scrollOffset, visibleLines, currentLine);
    }

    /** `update_editor`. `content` is the file's text, `None` when it cannot
        be opened; `output` is what the analyzer wrote, `None` when it could
        not be started. The lines are cleared before the file is opened, so
        a file that fails to open leaves no lines but keeps the old errors,
        highlight and offset. */
    method Reload(content: Option<string>, output: Option<seq<string>>, parse: Analyzer.Parser)
      requires Valid()
      modifies this`lines, this`errors, this`entries, this`currentLine, this`scrollOffset
      ensures Valid()
      ensures content.None? ==>
        && lines == []
        && errors == old(errors) && entries == old(entries)
        && currentLine == old(currentLine) && scrollOffset == old(scrollOffset)
      ensures content.Some? ==>
        && lines == Text.SplitLines(content.value)
        && errors == (if output.Some? then Analyzer.Decoded(output.value, parse) else [])
        && currentLine == -1 && scrollOffset == 0
    {
      lines := [];
      if content.None? {
        return;
      }
      lines := Text.ReadLines(content.value);
      errors := Analyzer.RunLexer(output, parse);
      currentLine := -1;
      scrollOffset := 0;
      UpdateErrorList();
    }

    /** The callback of a project explorer button for `item`: reloads only
        when `base_path / item` is a regular file. */
    method TreeClick(root: FileTree.Node, item: string, content: Option<string>,
                     output: Option<seq<string>>, parse: Analyzer.Parser)
      requires Valid()
      modifies this`lines, this`errors, this`entries, this`currentLine, this`scrollOffset
      ensures Valid()
      ensures !FileTree.IsRegularFileAt(root, item) ==> unchanged(this)
      ensures FileTree.IsRegularFileAt(root, item) && content.Some? ==>
        && lines == Text.SplitLines(content.value)
        && errors == (if output.Some? then Analyzer.Decoded(output.value, parse) else [])
        && currentLine == -1 && scrollOffset == 0
      ensures FileTree.IsRegularFileAt(root, item) && content.None? ==>
        && lines == []
        && errors == old(errors) && entries == old(entries)
        && currentLine == old(currentLine) && scrollOffset == old(scrollOffset)
    {
      if FileTree.IsRegularFileAt(root, item) {
        Reload(content, output, parse);
      }
    }
  }
}
