# cqc-tui viewer core in Dafny

A model of the interactive part of the Code Quality Checker terminal UI
(`cqc-tui/src/main.cpp`). The UI is a read-only source viewer with three
panes. A project explorer lists the files under the path given on the
command line. An editor pane shows a 25-line window of the open file, with
one line optionally highlighted. An error list shows the diagnostics that the
external analyzer reported for that file. Clicking a diagnostic highlights its
line and scrolls to it. Clicking a file in the explorer reloads the editor
and the diagnostics.

Modules:

- `Text`: tab expansion (`replace_tabs_with_spaces`) and the `std::getline`
  loops that split a file into lines.
- `Decimal`: `std::to_string` on an `int`, and reading the text back.
- `Analyzer`: the `Error` record, the record loop of `run_lexer`, and the
  label of each error button.
- `FileTree`: the directory tree, `build_tree`, and resolving
  `base_path / item` for an explorer click.
- `Viewer`: the state that the lambdas of `main` capture by reference. It is
  a class `Viewer` with fields `lines`, `errors`, `entries` (the button
  labels), `currentLine`, `scrollOffset` and `visibleLines`. It has the
  callbacks `UpdateErrorList`, `SelectDiagnostic`, `Render`, `Reload` and
  `TreeClick`.
- `Wrappers`: `Option`.

What the environment provides is passed in as parameters:

- The file's text is an `Option<string>`; `None` means the `ifstream`
  could not be opened.
- The analyzer's standard output is an `Option<seq<string>>` of records;
  `None` means `popen` failed.
- Decoding one JSON record is a given `string -> Option<Error>`.
- The file system is a finite tree of `Node`s whose child order is the
  order of `directory_iterator`.

Behaviour of the code worth noting:

- A file that fails to open does not leave the previous state in place.
  `update_editor` clears the lines before it tries to open the file. So the
  viewer is left with no lines while the old errors, the highlight and the
  offset stay.
- The offset is not clamped after every change. Only the renderer clamps it,
  so `SelectDiagnostic` can leave it beyond the end of the file until the
  next frame.
- The code keeps no count of records that fail to decode, and no run is
  cancelled. `Analyzer.Failures` counts failed records for the lemmas only.

## Model

| member | source | states |
|---|---|---|
| `Text.ReplaceTabsWithSpaces` | cqc-tui/src/main.cpp:48-59 | the character loop returns exactly `ExpandTabs(str, tabWidth)` |
| `Text.ExpandTabsAt` | cqc-tui/src/main.cpp:51-57 | each character of the input appears at its own position in the output as its expansion: a tab as exactly `width` spaces, any other character as itself |
| `Text.ExpandTabsLength` | cqc-tui/src/main.cpp:51-57 | the output has length `|s| + (width - 1) * number of tabs` |
| `Text.ExpandTabsNoTab` | cqc-tui/src/main.cpp:51-57 | no tab survives expansion |
| `Text.ExpandTabsWithoutTabs` | cqc-tui/src/main.cpp:51-57 | a line without tabs is displayed unchanged |
| `Text.ExpandTabsIdempotent` | cqc-tui/src/main.cpp:48-59 | expanding already expanded text is a no-op |
| `Text.ExpandTabsAppend` | cqc-tui/src/main.cpp:51-57 | expansion is independent of the surrounding text: it distributes over concatenation |
| `Text.ReadLines` | cqc-tui/src/main.cpp:141-144 | the getline loop returns exactly `SplitLines(content)` (the same loop reads the initial file at lines 98-101) |
| `Text.ScanLine` | cqc-tui/src/main.cpp:142 | the character scan of one getline call stops at the first '\n' after the start, or at the end of the content |
| `Text.SplitLinesAt` | cqc-tui/src/main.cpp:142-143 | one getline step extracts the text up to the next '\n' (or the end) and resumes after the terminator |
| `Text.SplitLinesNoNewline` | cqc-tui/src/main.cpp:142-143 | no extracted line contains a '\n' terminator |
| `Text.JoinSplitLines` | cqc-tui/src/main.cpp:142-143 | writing the lines back, each followed by '\n', gives the content with its last line terminated, so nothing is lost except a missing final terminator; empty content gives no lines |
| `Text.SplitJoinLines` | cqc-tui/src/main.cpp:142-143 | reading terminated lines that contain no '\n' gives back exactly those lines |
| `Analyzer.RunLexer` | cqc-tui/src/main.cpp:27-44 | a failed spawn gives no errors; otherwise the result is `Decoded(records)`, the successfully decoded records in order |
| `Analyzer.DecodedAppend` | cqc-tui/src/main.cpp:35-42 | decoding works record by record: the errors and failures of `a + b` are those of `a` followed by those of `b` |
| `Analyzer.DecodedSkipsFailure` | cqc-tui/src/main.cpp:36-41 | a record that fails to decode contributes nothing and counts one failure, and the records after it are still decoded |
| `Analyzer.DecodedCount` | cqc-tui/src/main.cpp:35-42 | every record yields either one error or one failure |
| `Analyzer.DecodedMembers` | cqc-tui/src/main.cpp:37-38 | an error is in the result if and only if some record decodes to it |
| `Analyzer.DecodedAllValid` | cqc-tui/src/main.cpp:35-42 | when every record decodes, the result has one error per record, in record order |
| `Analyzer.DecodedExample` | cqc-tui/src/main.cpp:35-42 | the records `line 1`, garbage, `line 2` give the errors for lines 1 and 2 and one failure |
| `Decimal.NatToStringRoundTrip` | cqc-tui/src/main.cpp:126 | the decimal digits of a natural number read back as that number |
| `Decimal.IntToStringRoundTrip` | cqc-tui/src/main.cpp:126 | `std::to_string` of an int holds only a sign and digits and reads back as that int |
| `Analyzer.LabelRoundTrip` | cqc-tui/src/main.cpp:126 | the button label "Line {line}: {message}" can be parsed back into exactly its error |
| `Analyzer.LabelInjective` | cqc-tui/src/main.cpp:126 | two errors have the same label if and only if they are equal, so duplicate diagnostics keep identical, separate buttons |
| `FileTree.BuildTree` | cqc-tui/src/main.cpp:62-73 | the recursive walk appends exactly `Flatten(children, prefix)` to the vector it was given |
| `FileTree.FlattenCount` | cqc-tui/src/main.cpp:65-72 | one entry per non-directory, so an empty directory yields no entries |
| `FileTree.FlattenMember` | cqc-tui/src/main.cpp:65-72 | a directory's entries are exactly the entries of its children |
| `FileTree.EntriesResolve` | cqc-tui/src/main.cpp:67-70 | every entry is the prefix followed by a path that leads, below the directory, to a non-directory |
| `FileTree.FoundIsListed` | cqc-tui/src/main.cpp:65-72 | every path that names a non-directory below the directory is listed, prefixed, so no file is missing from the explorer |
| `FileTree.ClickOnListedEntry` | cqc-tui/src/main.cpp:201-211 | when sibling names are distinct, every listed entry joined to the base path reaches a file, and the click reloads if and only if that file is regular |
| `FileTree.LeftTreeListsFiles` | cqc-tui/src/main.cpp:192-195 | for a directory base path, a path is listed in the explorer if and only if it names a file below the base path |
| `FileTree.LeftTreeFile` | cqc-tui/src/main.cpp:192-198 | a base path that is not a directory is listed as the single line "File: <name>", and clicking that line never reloads, since nothing lies below a file |
| `Viewer.ClampOffset` | cqc-tui/src/main.cpp:168-170 | the offset lands in `[0, max(0, lines - visible)]`; an offset in range is unchanged; one below is set to 0 and one above to the upper bound, so a file shorter than the window forces 0 |
| `Viewer.ClampIdempotent` | cqc-tui/src/main.cpp:168-170 | clamping twice is clamping once |
| `Viewer.CentredOffset` | cqc-tui/src/main.cpp:129 | the jump offset is non-negative and keeps line `n` in the window; when there is room, line `n` is `visible / 2` rows below the top, and otherwise the offset is 0 |
| `Viewer.RenderWindow` | cqc-tui/src/main.cpp:171-183 | the row loop returns exactly `VisibleRows`: rows `offset .. min(offset + visible, |lines|) - 1`, numbered `i + 1`, with tabs expanded and highlighted if and only if `i == current_line` |
| `Viewer.HighlightedRows` | cqc-tui/src/main.cpp:177-182 | at most one row is highlighted; one is if and only if the current line lies in the window, and that row carries the line's number |
| `Viewer.JumpShowsLine` | cqc-tui/src/main.cpp:128-129 | after jumping to line `n` (with `1 <= n <= |lines|`) and clamping at render, line `n` is in the window and is the only highlighted row |
| `Viewer.JumpExample` | cqc-tui/src/main.cpp:128-129 | line 50 with a 25-line window scrolls to 37, which a 100-line file keeps; the window then has 25 rows and row 12 (line 50, index 49) is the only highlighted one |
| `Viewer.Viewer.constructor` | cqc-tui/src/main.cpp:110-121 | the initial state: no lines, no errors, no buttons, no highlight, offset 0 |
| `Viewer.Viewer.UpdateErrorList` | cqc-tui/src/main.cpp:122-134 | old buttons are dropped, then there is exactly one button per error, in order, labelled "Line {line}: {message}"; duplicates are kept |
| `Viewer.Viewer.SelectDiagnostic` | cqc-tui/src/main.cpp:127-130 | sets `currentLine` to `line - 1` and `scrollOffset` to `max(0, line - 1 - visible / 2)`, without clamping |
| `Viewer.Viewer.Render` | cqc-tui/src/main.cpp:167-185 | clamps the offset against the current file, then returns the window of rows at that offset |
| `Viewer.Viewer.Reload` | cqc-tui/src/main.cpp:136-157 | on success, replaces the lines, errors and buttons and resets the highlight to -1 and the offset to 0; on an open failure, leaves no lines and keeps the errors, buttons, highlight and offset |
| `Viewer.Viewer.TreeClick` | cqc-tui/src/main.cpp:204-210 | reloads only when `base_path / item` is a regular file; otherwise nothing changes |

## Left out

- Running the analyzer is not modelled: the `popen`, `fgets` and `pclose` plumbing, and the command line it builds. Its output arrives as a sequence of whole records. `fgets` with a 256-byte buffer splits longer records into pieces that each go to the decoder. That is library I/O behaviour, so it is left out.
- JSON decoding is not modelled. It is an arbitrary partial function from a record to an `Error`, and every exception that `catch (...)` swallows counts as a failure.
- File I/O is not modelled: `ifstream` opening and reading, and the file's bytes before they become a string. The getline split keeps a '\r' before a '\n' as part of the line, as the code does.
- `std::filesystem` is modelled only as a finite tree. The iteration order is given by the tree. Symbolic links are not modelled. `fs::is_directory` follows a link, so `build_tree` recurses into a linked directory, including one that forms a cycle, until the path grows too deep for the file system to resolve. Lookup resolves a path component by component and does not normalise `.`, `..` or repeated '/'.
- Errors of the file system during `build_tree` are not modelled. An unreadable directory, or a symbolic-link cycle that exceeds the link limit, makes `directory_iterator` or `is_directory` throw `filesystem_error`. Nothing catches it (lines 65-72), so the program terminates. The model's tree is always readable.
- All FTXUI rendering is left out: colours, boxes, frames, the resizable splits and their sizes, the title, and the "Run"/"Build" buttons that only increment a counter. A rendered row keeps its number, text and highlight flag.
- The command-line checks and exits (lines 76-86) and all `std::cerr`/`std::cout` logging are left out.
- The startup sequence in `main` (lines 88-104 and 160-198) is not modelled as one operation. It calls `update_editor` for the given path once or twice, calls `update_error_list` once more, and fills the explorer with `LeftTree`. The model has the constructor, `Reload` and `UpdateErrorList` it is made of. The file read at lines 98-101 is never used afterwards.
- Viewer.Viewer.SelectDiagnostic: does not model the 32-bit `int` overflow of `error.line - 1` at `INT_MIN`, because a line number there is outside any file; line numbers are unbounded integers.
- Text.ReplaceTabsWithSpaces: takes the tab width as a natural number. A negative `int` width would make `append` throw, and the code only uses the default of 4.
- There is no scrolling by a delta, no resizing of the window, no cancellation of an analyzer run and no run sequence numbers. None of these exist in this code.
