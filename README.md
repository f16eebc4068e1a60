# venture-directory, modelled in Dafny

venture-directory is a terminal directory browser. At start-up it reads every directory from the filesystem root down to the invoked directory. This gives a stack of directory records, and in each parent the cursor sits on the child that comes next. The records are drawn side by side as panes: the last `max_directory_depth` records each get a window of `n_rows` entries. Left goes up one level, Up and Down move the cursor of the last record, and Esc ends the loop.

The model follows the source file by file:

- `constants.dfy`: the hidden-file attribute bit (`src/constants.rs`).
- `types.dfy`: the records of `src/types.rs`.
  - The directory record is a `class Directory` whose `SelectNext`/`SelectPrev` move its cursor in place.
  - `Snapshot` is the value of its four fields.
  - `PaddedEntryRepr` composes one pane row: name, fill, marker and style.
- `listing.dfy`: `read_dir` and `init_directories`.
  - A filesystem listing is a parameter.
  - The directories-first `sort_by` is modelled by its result, which is proved to be the unique stable directories-first permutation.
  - The stack invariant `ValidStack` is proved for the stack that start-up builds. It says every record is well formed and each parent's cursor names its child.
- `display.dfy`: the scroll window (`get_entry_display_start_idx`), the path line (`display_path_at_row`) and `display_dirs`.
  - `display_dirs` is an imperative loop proved equal to a specification (`Rows`).
  - It is modelled as written, including the endless `.cycle()` over the shown panes. That cycle keeps its columns aligned only while every record is shown.
- `session.dfy`: the meaning of the loop in `main` on values.
  - Key events decode to commands, and `Step` is the effect of one command on the stack.
  - `Replay` is the effect of a sequence of events, and `Shown` and `Frames` are what the loop draws.
- `controller.dfy`: the loop of `main` on the records themselves.
  - `class Browser` keeps the `Directory` objects and moves the last one's cursor in place.
  - Its `Run` is proved to draw exactly `Frames` and to end in `Replay`.

Terminal I/O is replaced by values:

- The key events read are a finite sequence given to `Run`.
- Each drawn screen is a `Frame`: the path line plus one `Line` per row, holding the styled cells printed and the counted `line_len`.

## Model

| member | source | states |
|---|---|---|
| Types.LongestNameLen | src/types.rs:45 | `max_by_key` then `unwrap` on a non-empty listing: the larger of the first name's length and the rest's longest; `Types.LongestNameLenIsMax` proves it is the maximum |
| Types.LongestNameLenIsMax | src/types.rs:44-51 | the stored longest-name length is at least every entry's name length and is attained by some entry |
| Types.PadRightLayout | src/types.rs:68-76 | left-aligned padding keeps the text as a prefix and fills only the positions after it, up to the width |
| Types.MarkerRoundTrip | src/types.rs:61-77 | the seven characters after the name column are decodable: they tell whether the name was cut and whether it is the cursor row of a non-tail pane |
| Types.Snapshot.Next | src/types.rs:32-36 | moving down changes only the cursor, never past one beyond the last entry, and keeps a record well formed |
| Types.Snapshot.Prev | src/types.rs:38-42 | moving up changes only the cursor, never increases it, and keeps a record well formed |
| Types.Snapshot.PaddedEntryRepr | src/types.rs:54-88 | every row of a well-formed record is the name column width plus seven characters wide |
| Types.NextNClamps | src/types.rs:32-36 | n presses of Down move the cursor to min(len, cursor + n) and change nothing else |
| Types.PrevNClamps | src/types.rs:38-42 | n presses of Up move the cursor to max(0, cursor - n) and change nothing else |
| Types.RowText | src/types.rs:55-77 | the shown name (the whole name, or its first max_col_width characters) fits in the name column, and a cut name means the column is exactly max_col_width wide |
| Types.TextLayout | src/types.rs:61-77 | the character layout of a row built from a name: name or cut name with "...", fill up to the column width, decodable marker |
| Types.RowLayout | src/types.rs:54-77 | a composed row shows the name (or its first max_col_width characters and "..."), the fill, and a marker that reads back as (cut, cursor) |
| Types.BlankRow | src/types.rs:56-58 | past the end of the listing a row is all spaces, column width plus seven wide, unstyled |
| Types.RowStyle | src/types.rs:79-87 | a row is red exactly on the tail pane's cursor, green exactly on another pane's cursor, cyan exactly on other directories, plain otherwise |
| Types.Directory.constructor | src/types.rs:44-51 | a new record stores its name, listing and cursor and the maximal name length of a non-empty listing |
| Types.Directory.SelectNext | src/types.rs:32-36 | the cursor advances by one only while it is below the listing length; the record's value becomes `Next()` |
| Types.Directory.SelectPrev | src/types.rs:38-42 | the cursor goes back by one only while it is above zero; the record's value becomes `Prev()` |
| Types.DistinctCons | src/main.rs:57-70 | a fresh record pushed to the front keeps the records pairwise distinct objects |
| Listing.ToEntry | src/main.rs:28-32 | an entry keeps the name and kind and is hidden exactly when the hidden attribute bit (0x2) is set |
| Listing.ToEntries | src/main.rs:22-34 | the listing is converted entry by entry, in enumeration order |
| Listing.DirName | src/main.rs:47-52 | a directory is named by its file name, and the root, which has none, by "/" |
| Listing.FilterKind | src/main.rs:37 | selecting one kind of entry keeps only that kind |
| Listing.FilterMultiset | src/main.rs:37 | directories and files together are exactly the original entries |
| Listing.SortDirsFirst | src/main.rs:37 | the order after the sort by kind: the directories, then the files; `Listing.SortDirsFirstIsStableSort` and `Listing.SortDirsFirstUnique` prove it is the stable sort's result |
| Listing.SortDirsFirstIsStableSort | src/main.rs:36-37 | the ordered listing has all directories before all files, is a permutation, and keeps the enumeration order within each kind |
| Listing.SortDirsFirstUnique | src/main.rs:37 | any stable directories-first order of the listing is the one modelled |
| Listing.Position | src/main.rs:38-44 | the found index is the first entry with the target name; none is found only when no entry has it |
| Listing.SortedHasName | src/main.rs:37-44 | a name in the raw listing is still found after ordering, so the `expect` cannot fire |
| Listing.ReadSnapshot | src/main.rs:20-55 | the record read is well formed, is named by the file name or "/", holds the ordered listing, and has its cursor on the first entry with the hinted name, or at 0 without a hint |
| Listing.ReadDir | src/main.rs:20-55 | the record object built by `read_dir` has the value `ReadSnapshot` |
| Listing.PushValid | src/main.rs:59-67 | pushing a parent whose cursor names the current front keeps the stack valid |
| Listing.BuiltValid | src/main.rs:57-70 | after reading i ancestors the stack is valid, begins with the last-read and ends with the invoked directory, whose cursor is 0 |
| Listing.AncestorStackValid | src/main.rs:57-70 | the start-up stack is valid, runs from the root to the invoked directory, and the invoked directory's cursor is 0 |
| Listing.PushAncestor | src/main.rs:59-67 | one loop turn reads the next ancestor with the previous name as hint and pushes a fresh record in front |
| Listing.InitDirectories | src/main.rs:57-70 | the records built are fresh, distinct, one per ancestor, and their values are the start-up stack |
| Display.DisplayStartIdx | src/main.rs:84-97 | the window starts at 0 while the cursor is in the first page, never after the cursor, stays within the listing once scrolled, and shows a cursor that is on an entry; a cursor one past the end of a listing of at least n_rows entries gets the last page, which ends before it |
| Display.DisplayStartIdxCases | src/main.rs:84-97 | the window start for every input: 0 while the cursor is in the first page, the last page (`len - n_rows`) once the cursor is within n_rows of the end, and the cursor itself otherwise |
| Display.DisplayStartIdxLastPage | src/main.rs:90-93 | one example of the last-page case: 50 entries, 10 rows and the cursor on entry 45 give a window starting at 40 |
| Display.FoldPathIsJoin | src/main.rs:77-79 | the fold over names is the "/"-join of the names |
| Display.DisplayPath | src/main.rs:73-82 | the path line joins every name after the root with a leading "/", and is empty for the root alone |
| Display.JoinedPathAppend | src/main.rs:77-79 | joining one more name appends "/" and that name |
| Display.PathOfLast | src/main.rs:73-82 | the path of a stack is its parent's path followed by "/" and the last name |
| Display.NShow | src/main.rs:102-107 | the number of panes shown; `Display.NShowIsMin` proves it is the smaller of the number of records and the depth |
| Display.NShowIsMin | src/main.rs:102-107 | the number of panes shown is at most the number of records and at most the depth, and equals one of them |
| Display.CyclePos | src/main.rs:111-114 | the cycle's position is always one of the shown panes |
| Display.Cell | src/main.rs:109-127 | the cell at row r, column j: the cycle's item for that cell, at its window start plus r, printed as the tail pane only in the last column; `Display.CellFromShownPane` proves it comes from a shown pane |
| Display.CycleStep | src/main.rs:111-127 | each cell takes the next pane of the cycle, wrapping after the last shown pane; a row takes as many items as there are records |
| Display.CellOfPane | src/main.rs:119-138 | printing one cell appends it to the row and adds its width plus two to `line_len` |
| Display.LineLenIsPrintedWidth | src/main.rs:117-138 | the counted `line_len` equals the number of characters the row prints |
| Display.DisplayCell | src/main.rs:120-137 | one inner-loop turn extends the printed row by the next cell and keeps the cycle's position and the width in step |
| Display.DisplayLine | src/main.rs:116-141 | one outer-loop turn prints the specified row and leaves the cycle where the next row starts |
| Display.DisplayDirs | src/main.rs:99-142 | the rows printed are exactly the specified rows |
| Display.DisplayLayout | src/main.rs:116-141 | there are n_rows rows of one cell per record, each the specified cell, and each row's `line_len` is its printed width |
| Display.CyclePosFromStart | src/main.rs:111-114 | from the start of the cycle the j-th item is pane j |
| Display.RowStartsCycle | src/main.rs:116-119 | when every record is shown, each row begins at the start of the cycle |
| Display.CellFromShownPane | src/main.rs:109-127 | every cell is a row of one of the last max_directory_depth records, taken from its scroll window |
| Display.AlignedCells | src/main.rs:103-127 | when every record is shown, column j is record j, from its own scroll window |
| Display.CycleMisaligned | src/main.rs:103-127 | with three records and depth two, the tail column prints the middle record and the second row starts with the last record |
| Display.AlignedLineLen | src/main.rs:117-138 | when every record is shown, a row's `line_len` is 2 plus the panes' widths |
| Display.AlignedRows | src/main.rs:116-141 | when every record is shown, every row has record j in column j and the same width |
| Session.PressOf | src/main.rs:161-206 | each command has a plain key press that decodes to it |
| Session.Decode | src/main.rs:161-207 | an event does something exactly when it is a press of Left, Right, Up, Down or Esc without modifiers |
| Session.DecodeInvertsPress | src/main.rs:161-206 | an event that does something is exactly the plain press of its command |
| Session.Step | src/main.rs:161-208 | the stack never becomes empty and never grows; `Session.StepValid` and `Session.StepTouchesOnlyLast` give the effect of each key |
| Session.StepValid | src/main.rs:161-200 | every command keeps the stack valid |
| Session.StepTouchesOnlyLast | src/main.rs:161-207 | a command changes only the last record: Left drops it unless it is the only one, Up and Down replace it by its `Prev()` and `Next()`, and Right, Esc and ignored events leave the stack unchanged |
| Session.AscendSelectsChild | src/main.rs:168-172 | after Left the new last record's cursor is on the directory just left |
| Session.CursorMovesUndo | src/main.rs:182-200 | Down then Up, and Up then Down, leave the stack as it was when the cursor is not at the clamp |
| Session.QuitAt | src/main.rs:201-206 | the loop's end is the first Esc press, or the end of the events |
| Session.Replay | src/main.rs:155-209 | the stack after handling events up to the first Esc never becomes empty and never grows |
| Session.ReplayValid | src/main.rs:155-209 | handling any events keeps the stack valid |
| Session.ReplayOnlyShrinks | src/main.rs:155-209 | the records left after any events are the first records of the start stack with their names and listings unchanged |
| Session.ReplayStopsAtQuit | src/main.rs:201-206 | events after the first Esc have no effect |
| Session.ValidRenderable | src/main.rs:99-142 | a valid stack is drawn without panicking when depth is positive |
| Session.Screen | src/main.rs:156-158 | a screen has n_rows rows |
| Session.Shown | src/main.rs:155-209 | one stack is drawn per event read before Esc, plus one at the end, and the first is the start stack |
| Session.ShownIsReplay | src/main.rs:155-209 | the k-th stack drawn is the start stack after the first k events, and the last is the final stack |
| Session.ShownValid | src/main.rs:155-209 | every stack drawn is valid |
| Session.FramesOf | src/main.rs:156-159 | one frame per stack drawn |
| Session.Frames | src/main.rs:155-209 | the loop draws one frame per event before Esc, plus one |
| Session.FramesShowReplay | src/main.rs:155-209 | the k-th frame shows the stack after the first k events, and the last frame shows the final stack |
| Session.ProgressStart | src/main.rs:155 | before the first turn nothing has been drawn |
| Session.ProgressStep | src/main.rs:155-209 | a turn that handles a non-Esc event draws the current stack and steps it |
| Session.ProgressStop | src/main.rs:155-209 | a turn that meets Esc or the end of the events has drawn every stack, and the stack is the final one |
| Session.FramesOfSnoc | src/main.rs:156-159 | drawing one more stack appends its screen to the frames |
| Controller.ViewsUnchanged | src/main.rs:188-199 | records whose fields are unchanged keep their values |
| Controller.ViewsAfterLastUpdate | src/main.rs:188-199 | updating only the last record in place changes only the last value of the stack |
| Controller.Browser.constructor | src/main.rs:151-152 | the browser starts with fresh, distinct records whose values are the valid start-up stack |
| Controller.Browser.Render | src/main.rs:156-159 | the drawn frame is the specified screen of the current stack |
| Controller.Browser.MoveCursor | src/main.rs:182-200 | Up or Down moves the last record's cursor in place, and the stack becomes its `Step` |
| Controller.Browser.Ascend | src/main.rs:161-173 | Left drops the last record unless it is the only one, keeping the stack valid |
| Controller.Browser.HandleEvent | src/main.rs:161-208 | handling an event steps the stack by its decoded command, keeps it valid, and reports Esc |
| Controller.Browser.Turn | src/main.rs:155-209 | one loop turn draws the current stack, then stops at Esc or the end of the events, or handles the event |
| Controller.Browser.Run | src/main.rs:155-209 | the loop draws exactly `Frames` of the start stack, ends in `Replay` of the events, and reports whether it met Esc |
| Controller.Browse | src/main.rs:144-225 | with the main settings, the program draws exactly the frames of the start-up stack under the events |

## Where the code and its description differ

The model follows the code in each of these cases:

- **Scroll window.** There is no lookback. Past the first page the window starts at the cursor, or at the last page near the end (`src/main.rs:84-97`).
- **Missing hint.** A hint that is missing from the parent listing is a panic (`expect`), not a fall-back to index 0 (`src/main.rs:42`). The model requires the hint to be present (`Listing.Consistent`).
- **Empty directory.** An empty directory panics in `Directory::new` (`unwrap` of the maximum), so every listing must be non-empty.
- **Cursor range.** `select_next` can move the cursor one past the last entry: it stops at `len`, not at `len - 1`. In a listing shorter than `n_rows`, that row is drawn blank. In a listing of at least `n_rows` entries the window is the last page, which ends at the last entry, so the cursor row is not drawn at all and no row is highlighted (`Display.DisplayStartIdx`).
- **Sorting.** Entries are ordered directories first and stably, with no alphabetical order.
- **Left key.** Left only drops the last record; no directory is re-read.
- **Right key.** Right prints "LEFT" and does not descend.
- **Esc key.** Esc ends the loop without returning a path.
- **Depth limit.** `max_directory_depth` limits the panes drawn, not the stack.
- **Cursor marker.** The tail pane draws its cursor row with the plain marker and red style. Only the other panes draw the "-->" cursor marker.
- **Column alignment.** With more records than `max_directory_depth`, the `.cycle()` puts panes in the wrong columns (`Display.CycleMisaligned`).

## Left out

- **Filesystem.** Enumeration, metadata and `canonicalize` are not modelled. Listings are parameters (`Listing.DirListing`), listed from the invoked directory up to the root.
- **`read_dir` error path.** `read_dir` returning `Err` is left out. `init_directories` turns it into a panic.
- **Terminal I/O.** Raw mode, `Clear`, cursor moves, `flush`, the final `MoveDown` and `disable_raw_mode` are not modelled. Frames are values, and key events are a finite parameter sequence.
- **End of input.** Where the source blocks on `read`, the model's loop ends when the events run out.
- **Right key.** Right prints "LEFT" on the terminal. The model keeps it as the `Open` command, which leaves the stack unchanged and draws nothing extra.
- **`KeyEvent.state`.** It is ignored, as the source's patterns ignore it. Modifier sets other than none are represented by a single flag.
- **Strings.** Names are sequences of single-width characters. UTF-8 byte lengths, slicing inside a multi-byte character, and display width are not modelled.
- Display.DisplayLine: does not model the 16-bit wrap-around of `line_len`. The model counts it as an unbounded natural number.
- **Cursor placement.** `MoveTo(10, 10)`, the row arguments and `MoveLeft(line_len)` only place the cursor on screen and are not modelled.
- **Unused code.** `ClientState`, `EMPTY_DIR_ENTRY` and `MAX_DEPTH_DEFAULT` are never used by the program. `Config::default` (src/types.rs:12-20) is used: `main` starts from it (src/main.rs:145), which sets every field to 0, and then src/main.rs:146-148 overwrite `max_col_width` (20), `max_directory_depth` (5) and `n_rows` (20). The result is `Session.MainConfig`. Its `max_path_length` stays 0 and is never read.
- Listing.SortDirsFirstIsStableSort: states the result of the library's stable `sort_by`, not the merge sort itself.
