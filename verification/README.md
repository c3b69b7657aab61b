# A verified model of the terminal editor

A terminal text editor keeps its text in a gap buffer, wraps it to 60 columns on
the screen, and can share it over TCP: a host edits, clients follow. This project
models that program in Dafny and proves what its code does.

| file | what it models |
|---|---|
| `Bytes`, `Lines`, `Moves` | bytes, logical lines, tab-expanded widths, and where each cursor command goes |
| `GapModel`, `Walks`, `GapBuffers` | the gap buffer: as a value, and as a class over one array that is moved in place; `Walks` has the loops of the class, one turn at a time |
| `Layout`, `Views` | rows and columns of the screen; the two passes of `print_buffer` |
| `Visual` | the vertical cursor moves against the rows of the screen |
| `Highlights`, `Selection`, `Edits`, `Copying` | the selection, and what a copy reads from the raw storage, after moves and after edits |
| `Disks`, `EditorModel`, `Editors` | files, the file dialog, and one key event in each of the three modes; the class is proved against `EditorModel.Process` |
| `Keys` | what each input does, said key by key and field by field, and the laws over runs that follow |
| `Wire`, `Network` | length-prefixed frames, the receive machine, the server's broadcast |
| `Replication`, `Agreement` | host, server and clients as atomic steps; what every run keeps |
| `Globs` | doctest's `wildcmp` |

Five kinds of main results:

- **The cursor and the screen.** For text without tabs, "up" goes to the row above in
  the same column or at the end of that row, from every row but the first
  (`Visual.UpIsRowAbove`); on the first row it stays exactly when the first line is
  not wrapped (`Visual.UpOnFirstRow`). "Down" is not its mirror: `Visual.DownIsRowBelow`
  says exactly when it is one row down, and `Visual.UpAfterDown` exactly when "up" takes
  it back. With tabs, `Moves.UpStopsRightmost` says where the walk ends,
  `Visual.TabsMislead` shows why the statement about rows needs text without tabs, and
  `Visual.UpWithTabs` and `Visual.DownWithTabs` say exactly when it holds between lines
  that are not wrapped. The
  early exit of the drawing loop loses nothing (`Views.PrintBuffer`). On a terminal at
  least 60 columns wider than the left margin, a frame of printable ASCII, newlines and
  tabs comes out where the layout says exactly when the margin is a multiple of 8 or
  every tab on the screen wraps (`Views.FrameInPlace`). Other bytes are the terminal's
  affair; a carriage return, which a loaded file may hold, is misplaced
  (`Views.ReturnMisleads`).
- **The gap buffer.** Every method of the class equals a function on values, and any run
  of commands acts on text and cursor as a plain text with a cursor would
  (`GapModel.RunRefines`, `EditorModel.EditingRefines`). The storage never exceeds 1024
  plus the longest text so far (`EditorModel.RunBounded`).
- **Copy.** Copy takes raw bytes by offsets of the text. Right after a selection,
  `Copying.CopyAfterSelecting` says exactly when they are the selected text: forwards
  always; backwards, unless the gap was overrun (`Copying.BackwardCopyCanFail` is a run
  of keys that does it). Typing and backspaces keep a selection, and
  `Copying.CopyAfterEditing` says exactly when the copy is still what the screen
  highlights: the raw storage is the paper of a typewriter, and erased bytes stay on it
  (`Copying.ErasedByteCopied` is a run of three keys in which it is not).
- **The keys.** `Keys` says what every key does to text and cursor, selection, clipboard,
  dialog and files in each mode, without the functions the model is made of
  (`Keys.ArrowsMove`, `Keys.SelectionAfter`, `Keys.ClipboardKept`, `Keys.DialogEdits`).
  From it follow laws over runs: what was copied is what a later paste puts in
  (`Keys.CopyAndPaste`), a cancelled dialog changes nothing (`Keys.CancelLeavesAll`), a
  client's cursor stays where it fits (`Keys.CursorOverTexts`). The frame spells the part
  of the text that is on the screen and lights up the selected part of it
  (`Views.FrameSpells`).
- **Replication.** In every run, a client at rest shows the server's latest text
  (`Agreement.QuiescentAgreement`), it shows only texts that were in force
  (`Agreement.OnlyHistory`), in the order they were (`Agreement.NeverBack`), and while
  the host pauses at most a stated number of steps is left until it has the host's text
  (`Agreement.CatchesUp`).

Assumptions. Both ends of a connection use the same byte order. The packets of one
session are written one after the other, each completely. A text a host shares is
shorter than 2^32 bytes; `Wire.OneMessage` shows that a longer one does not arrive. The
handlers of the network thread, a poll and a key are atomic. C++ `char` is read as an
unsigned byte, and sizes and columns are unbounded integers. A C string has no zero
byte inside. Different paths name different files, and which of them can be read and
which can be written does not change. The terminal has at least as many rows as the
frame.

The repository's own README says that a client cannot save. The code does save when a
client quits, but under the empty file name, which cannot be opened; the model has both,
and `EditorModel.ClientWritesNothing` shows that no file changes. It also says that
clients see the host's file; in the code, and in the model, they do once the host has
processed a key.

The model's source citations are relative to the root of the repository.

## Model

| member | source | states |
|---|---|---|
| Lines.LineStartBounds | src/buffer_service.cpp:98-101 | a line starts at the start of the text or after a newline, with no newline from there to the offset |
| Lines.LineEndBounds | src/buffer_service.cpp:173-175 | a line ends at the end of the text or at a newline, with none before it |
| Lines.WidthGrows | src/buffer_service.cpp:111-120 | the tab-expanded width of a line grows with every byte |
| Lines.WidthTabFree | src/buffer_service.cpp:111-120 | without tabs the width is the number of bytes |
| Lines.ColumnTabFree | src/buffer_service.cpp:56-80 | without tabs the backward scan gives the distance from the start of the line |
| Lines.ColumnIsMirroredWidth | src/buffer_service.cpp:56-80 | with tabs the backward scan gives the width of the mirror image of what is left of the cursor on its line |
| Lines.LineIndexCounts | src/buffer_service.cpp:98-101 | the index of a line is the number of newlines before it |
| Moves.FitIsFurthest | src/buffer_service.cpp:134-147 | the target offset is the furthest of the line whose width does not exceed the target |
| Moves.WordLeftNearest | src/buffer_service.cpp:28-35 | word-left stops at the nearest offset on the left that starts the text or follows a space |
| Moves.WordRightNearest | src/buffer_service.cpp:37-45 | word-right stops at the nearest offset on the right that ends the text or has a space |
| Moves.NowhereToGo | src/buffer_service.cpp:19-54 | at the start of the text nothing goes left or up, at its end nothing right or down |
| Moves.UpASegmentBack | src/buffer_service.cpp:88-96 | tabs allowed: from column 60 of its line on "up" goes 60 bytes back, but not past the line's start |
| Moves.UpStopsRightmost | src/buffer_service.cpp:111-147 | tabs allowed: "up" across a newline stops at the rightmost offset not wider than min((W/60)*60 + column mod 60, W), at the newline only if that target is W |
| Moves.UpLineIndex | src/buffer_service.cpp:81-148 | for any text "up" changes the logical line by 0 or -1 |
| Moves.DownLineIndex | src/buffer_service.cpp:149-190 | for any text "down" changes the logical line by 0 or +1 |
| Layout.Monotone | src/view_service.cpp:94-108 | rows never decrease along the text, and on one row columns increase |
| Layout.Segments | src/view_service.cpp:94-108 | a line without tabs is cut into rows of exactly 60 columns |
| Layout.RowWidthAtEnd | src/view_service.cpp:191-210 | the last offset of a row has the row's greatest column |
| Layout.LandsOnMin | src/view_service.cpp:94-108 | landing on a row is being in column min(column asked for, width of the row), both ways |
| Visual.UpIsRowAbove | src/buffer_service.cpp:81-148 | from any row but the first, "up" lands on the row above in the same column or at its end, within a wrapped line and across a newline; tabs excluded only between the previous line's start and the cursor |
| Visual.UpInTabFreeText | src/buffer_service.cpp:81-148 | the same with row and column written out, for a text without tabs |
| Visual.UpOnFirstRow | src/buffer_service.cpp:98-132 | on the first row "up" stays exactly when the first line is under 60 wide; otherwise it goes forward, to that line's last segment |
| Visual.UpWithTabs | src/buffer_service.cpp:63-147 | tabs allowed, no line wrapped: "up" lands on the row above in the screen's column or at that row's end exactly when the backward column is below 60 and leads there |
| Visual.UpOnFirstLineWithTabs | src/buffer_service.cpp:98-147 | tabs allowed, on a first line that is not wrapped: "up" stays exactly when the backward column is below 60 and fits no offset but the cursor's |
| Visual.TabsMislead | src/buffer_service.cpp:63-78 | a text with one tab on which "up" leaves the screen column |
| Visual.DownOffset | src/buffer_service.cpp:149-190 | without tabs: 60 further if as many bytes remain, else the next line at min(column, its width), else the end of the text |
| Visual.DownIsRowBelow | src/buffer_service.cpp:149-190 | "down" lands on the row below in the same column or at its end exactly when `DownFollowsRows` holds of column, line width and next line width |
| Visual.DownWithTabs | src/buffer_service.cpp:149-190 | tabs allowed, neither line wrapped: where "down" goes, and that it is the row below in the screen's column or at its end exactly when the bytes skipped there are that wide, or the whole line is less wide and the backward column reaches its end |
| Visual.UpAfterDown | src/buffer_service.cpp:81-190 | "up" after "down" is back exactly when `UpUndoesDown` holds of the same numbers |
| GapModel.LeftKeepsText | src/buffer_service.cpp:19-26 | a move left keeps the text and the length of the gap |
| GapModel.RightKeepsText | src/buffer_service.cpp:47-54 | a move right keeps the text and the length of the gap |
| GapModel.TravelRefines | src/buffer_service.cpp:28-190 | every cursor command keeps the text and the gap's length and moves the cursor to its destination |
| GapModel.GrowRefines | src/buffer_service.cpp:191-208 | growing changes neither text nor cursor and widens the gap by the amount |
| GapModel.InsertRefines | src/buffer_service.cpp:256-270 | an insertion puts the byte (a carriage return as a newline) at the cursor, whether or not the gap had to grow |
| GapModel.EraseRefines | src/input_handler.cpp:128-131 | backspace removes the byte before the cursor, if there is one |
| GapModel.PasteRefines | src/input_handler.cpp:150-156 | a paste byte by byte is one insertion of the clipboard without carriage returns |
| GapModel.ReturnsDropOut | src/input_handler.cpp:150-156 | what a paste drops it drops byte by byte |
| GapModel.OneByteDropsOut | src/input_handler.cpp:150-156 | and that is the carriage return alone |
| GapModel.RunRefines | src/input_handler.cpp:104-158 | any run of commands acts on the buffer as on a text with a cursor |
| GapModel.StepBounded | src/buffer_service.cpp:256-270 | a command leaves the storage at most as large as it was or 1024 larger than the text |
| GapModel.Loaded | src/file_io.cpp:15-28 | a loaded buffer holds the file's text with the cursor at 0 |
| GapModel.Refreshed | src/editor.cpp:40-46 | a refreshed buffer holds exactly the new text |
| GapBuffers.GapBuffer.constructor | src/buffer_service.cpp:12-18 | a new buffer is empty with a gap of 1024 |
| GapBuffers.GapBuffer.Load | src/file_io.cpp:19-28 | the copy loop fills the storage behind a gap of 1024 |
| GapBuffers.GapBuffer.MoveLeft | src/buffer_service.cpp:19-26 | the raw storage after a move left |
| GapBuffers.GapBuffer.MoveRight | src/buffer_service.cpp:47-54 | the raw storage after a move right |
| GapBuffers.GapBuffer.MoveWordLeft | src/buffer_service.cpp:28-35 | the loop makes the trip to the word's start, byte by byte |
| GapBuffers.GapBuffer.MoveWordRight | src/buffer_service.cpp:37-45 | the loop makes the trip to the word's end |
| GapBuffers.GapBuffer.GetColumn | src/buffer_service.cpp:56-80 | the backward scan computes the column |
| GapBuffers.GapBuffer.MoveUp | src/buffer_service.cpp:81-148 | the loops make the trip of "up" and terminate |
| GapBuffers.GapBuffer.UpASegment | src/buffer_service.cpp:88-96 | within the line: 60 moves left, stopping at a newline |
| GapBuffers.GapBuffer.UpALine | src/buffer_service.cpp:98-147 | across the newline: to the start of the previous line, then right to the target |
| GapBuffers.GapBuffer.MeasureLine | src/buffer_service.cpp:111-120 | the forward scan measures the whole line |
| GapBuffers.GapBuffer.WalkTo | src/buffer_service.cpp:134-147 | the walk right ends at the furthest offset not wider than the target |
| GapBuffers.GapBuffer.MoveDown | src/buffer_service.cpp:149-190 | the loops make the trip of "down" and terminate |
| GapBuffers.GapBuffer.CountRemaining | src/buffer_service.cpp:152-161 | the capped count is min(60, bytes left on the line) |
| GapBuffers.GapBuffer.DownASegment | src/buffer_service.cpp:163-171 | within the line: 60 moves right |
| GapBuffers.GapBuffer.DownALine | src/buffer_service.cpp:173-189 | across the newline, then right to the column or the end of the line |
| GapBuffers.GapBuffer.GrowGap | src/buffer_service.cpp:191-208 | the overlapping backward copy in place yields the grown buffer, for any amount |
| GapBuffers.GapBuffer.ShiftRight | src/buffer_service.cpp:191-208 | the loop itself: the bytes end up `amount` further although source and destination overlap |
| GapBuffers.GapBuffer.InsertChar | src/buffer_service.cpp:256-270 | the raw storage after an insertion |
| GapBuffers.GapBuffer.EraseLeft | src/input_handler.cpp:67-70 | the raw storage after a backspace |
| GapBuffers.GapBuffer.PasteText | src/input_handler.cpp:89-95 | the raw storage after a paste |
| GapBuffers.GapBuffer.Serialize | src/buffer_service.cpp:247-255 | the two loops yield the text |
| GapBuffers.GapBuffer.ReadRaw | src/input_handler.cpp:84-85 | the copy loop yields the raw bytes between two positions inside the storage |
| GapBuffers.GapBuffer.Refresh | src/editor.cpp:42-46 | the new text, no gap, the cursor clamped |
| Selection.ForwardCopy | src/input_handler.cpp:140-146 | after any moves to the right of the anchor, copy reads the selected text |
| Selection.BackwardCopy | src/input_handler.cpp:140-146 | after any moves to its left, each byte read is the text's, or the one a gap's length before it where the cursor has been a gap's length below |
| Selection.BackwardCopyExact | src/input_handler.cpp:140-146 | a backward copy is the selected text exactly when every overrun offset repeats the byte a gap's length before |
| Selection.BackwardCopyWithinGap | src/buffer_service.cpp:19-26 | it is, when no move went further below the anchor than the gap is long, or there is no gap |
| Selection.LeftwardCopyExact | src/input_handler.cpp:140-146 | after moves to the left alone, a copy is the selected text exactly when the text repeats itself a gap's length apart, over all of the selection but its first gap's length |
| Edits.EditsOnPaper | src/buffer_service.cpp:191-270 | after typing and backspaces each raw position shows the last byte typed there or what it held before, also when the gap had to grow |
| Edits.EditedCopyExact | src/input_handler.cpp:140-146 | a copy after edits is the highlighted text exactly when every selected position is left of the cursor or shows the byte that has moved to its offset |
| Edits.PastBothEnds | src/input_handler.cpp:140-146 | so it is right whenever the cursor is at or past both ends, as after typing alone |
| Copying.SelectingRun | src/editor.cpp:108-123 | a run of shift-arrows leaves the selection from the cursor's first place to its last, and the buffer moved accordingly |
| Copying.CopyAfterSelecting | src/editor.cpp:108-123 | select, then copy at once: the clipboard is the selected text, forwards always, backwards exactly when overrun offsets repeat |
| Copying.CopyLeftwards | src/editor.cpp:108-123 | the same for the keys: shift and left `n` times, then copy |
| Copying.BackwardCopyCanFail | src/input_handler.cpp:140-146 | a failing run: paste 1023 bytes into a new file, select the last three, copy; the clipboard is right only if the three are all the same |
| Copying.CopyAfterEdits | src/editor.cpp:112-117 | from any state with a selection in either direction: after any typing and backspaces the copy is what is highlighted exactly when every selected position is still right |
| Copying.CopyAfterEditing | src/editor.cpp:108-123 | the same for a forward selection made by keys, said of the text alone |
| Copying.CopyAfterBackspaces | src/editor.cpp:112-117 | after backspaces the copy is the text as it was selected, and so what is highlighted exactly when the erased part repeats that many bytes further |
| Copying.ErasedByteCopied | src/editor.cpp:112-117 | a failing run: in a file of two different bytes select the first, erase it, copy; the clipboard has the erased byte |
| Highlights.Highlight.Clear | src/selection_service.cpp:13-17 | an inactive selection is (0, 0) |
| Highlights.Highlight.Start | src/selection_service.cpp:19-24 | both ends at the cursor |
| Highlights.Highlight.UpdateEndpoint | src/selection_service.cpp:26-31 | the end follows the cursor while active |
| Views.NothingBelow | src/view_service.cpp:212-214 | from a byte below the screen on, a full scan draws nothing more |
| Views.FirstRow | src/view_service.cpp:88-112 | the first pass puts the cursor's row 10 rows below the first row shown, or as many as there are |
| Views.PrintBuffer | src/view_service.cpp:117-215 | with the early exit, the frame (visible bytes, highlight by offset in the text, margins, wraps) is that of a full scan; the cursor is where the layout puts it if anything is stored at or after the gap's start, and (0, 0) otherwise |
| Views.DrawByte | src/view_service.cpp:170-210 | the marks and the position after one byte |
| Views.FrameSpells | src/view_service.cpp:139-189 | the bytes drawn, in order, are the text's stretch on the twenty rows shown, and those drawn highlighted are its part between the ends of the selection, whichever was set first |
| Views.FrameHighlights | src/view_service.cpp:126-189 | with all rows on the screen the text is drawn and the selected text highlighted |
| Views.EveryWindow | src/view_service.cpp:172 | the offsets on the twenty rows from any row on are one stretch of the text |
| Views.CursorOnItsRow | src/view_service.cpp:110-145 | `PrintBuffer` draws the cursor in its column, on its own row with the text's first row on top while that row is below 10, and on row 10 from there on |
| Views.CursorInUpperHalf | src/view_service.cpp:110-112 | the same of the scroll offset: the drawn row is the smaller of the row and 10, on the screen, and the column below 60 |
| Views.UnmetCursor | src/view_service.cpp:117-145 | the cursor is drawn at (0, 0) although it is elsewhere exactly when there is no gap and it is at the end of a text that is not empty |
| Views.RefreshMisdraws | src/editor.cpp:40-46 | a client gets there exactly when a text arrives that is not empty and ends at or before its cursor |
| Keys.PasteMisdraws | src/input_handler.cpp:150-156 | so does a paste, at the end of the text, of as many bytes as the gap is long (1024 in an empty file) |
| Views.FrameInPlace | src/view_service.cpp:170-210 | on a terminal wide enough, with tab stops every 8 columns and plain bytes on the screen, every byte appears where the layout puts it exactly when the margin is a multiple of 8 or every tab on the screen wraps |
| Views.MisalignedMargin | src/view_service.cpp:24-27 | with any other margin a lone tab ends elsewhere |
| Views.ReturnMisleads | src/file_io.cpp:15-28 | a carriage return, kept by a load and drawn as it is, puts the terminal off the layout with any margin |
| Keys.ArrowsMove | src/input_handler.cpp:9-30 | in every mode, each arrow with and without control: the text stays and the cursor goes up, down, one byte or one word |
| Keys.UpKeyIsRowAbove | src/input_handler.cpp:110-112 | the up key lands on the row above in the same column or at its end, from every row but the first |
| Keys.DownKeyIsRowBelow | src/input_handler.cpp:113-115 | the down key lands on the row below exactly when `DownFollowsRows` holds |
| Keys.TypingKeys | src/input_handler.cpp:132-135 | a typed byte goes in at the cursor, a return as a newline |
| Keys.ErasingKey | src/input_handler.cpp:128-131 | backspace takes the byte before the cursor if there is one |
| Keys.PastingKey | src/input_handler.cpp:150-158 | paste puts the clipboard without its returns in at the cursor |
| Keys.OthersLeave | src/input_handler.cpp:9-41 | every other key, and in client mode every key but an arrow, leaves the storage |
| Keys.SelectionAfter | src/editor.cpp:108-123 | the selection after each key: stretched by a shift-arrow from its anchor, kept by typing, backspace and copy, ended by the others |
| Keys.ClipboardKept | src/input_handler.cpp:140-149 | only a copy with an active selection changes the clipboard, to the raw bytes between its ends |
| Keys.RunKeepsClipboard | src/input_handler.cpp:140-149 | over any run without a copy the clipboard stays |
| Keys.CopyAndPaste | src/input_handler.cpp:140-158 | select forwards, copy, anything but a copy, paste: the selected text without its returns is put in at the cursor |
| Keys.DialogEdits | src/changefilemodal.cpp:13-31 | the whole state after each key in the dialog, except what Enter loads |
| Keys.CancelLeavesAll | src/editor.cpp:96-106 | opening the dialog, any keys in it and Escape change nothing but the selection |
| Keys.OpensAtStart | src/editor.cpp:14-18 | the state an editor is opened in |
| Keys.RunsUntilQuit | src/input_handler.cpp:136-139 | the editor stops running exactly when Quit is pressed in the text |
| Keys.OnlyQuitWrites | src/input_handler.cpp:136-139 | in the text only Quit writes: the text under the path, if that can be written |
| Keys.PollTakesOver | src/editor.cpp:35-47 | a client takes a new text over, its cursor where it was or at the end of a shorter text; the rest of its state, and the other modes, ignore it |
| Keys.CursorOverTexts | src/editor.cpp:41-46 | over any texts and no keys a client's cursor is the least of where it was and the lengths of the texts, and the last text is shown |
| Keys.CursorStays | src/editor.cpp:41-46 | so it stays over texts at least as long |
| EditorModel.CopyStaysInside | src/input_handler.cpp:140-146 | in every state reachable by producible events, the ends of the selection are inside the storage, and an inactive one is (0, 0) |
| EditorModel.ShiftElsewhereEscapes | src/terminal_manager.cpp:146-160 | with an event that cannot be produced (shift on the key of the dialog) a selection ends up beyond the storage of the next file, where a copy would read it |
| EditorModel.KeyRefines | src/input_handler.cpp:104-166 | a key acts on text and cursor as the command it stands for |
| EditorModel.EditingRefines | src/editor.cpp:91-127 | so does any run of keys in one file |
| EditorModel.ClientKeepsText | src/input_handler.cpp:9-41 | no key changes a client's text |
| EditorModel.ClientWritesNothing | src/input_handler.cpp:31-34 | no run of a client changes a file, although it saves when it quits |
| EditorModel.HostPosts | src/editor.cpp:124-126 | exactly a host posts its text, after every key but the empty one |
| EditorModel.RunBounded | src/editor.cpp:35-47 | over any run of keys and network texts the storage stays within 1024 plus the longest text so far |
| EditorModel.CapacityBound | src/editor.cpp:14-18 | the same from an opened file, and outside client mode it never falls below 1024 |
| EditorModel.DialogLeavesText | src/editor.cpp:96-106 | no key but Enter in the dialog touches text, path, selection or files |
| EditorModel.ConfirmSwitches | src/editor.cpp:99-102 | Enter stores the old text under the old path if that can be written, keeps all third files and loads what the new path then holds; a new path that can be written and not read is emptied |
| EditorModel.ThereAndBack | src/editor.cpp:96-106 | changing away, working there and changing back restores the text exactly when the first path can be both written and read, or a load of it gave that text already |
| Disks.Load | src/file_io.cpp:6-29 | the loaded text is that of the path, and empty when missing or unreadable; then the path is created, or emptied, if it can be written; no other file changes |
| Disks.RightsMatter | src/file_io.cpp:6-39 | a path without the right, or the empty one, is neither written nor read, and any other is |
| Editors.Editor.LoadFile | src/file_io.cpp:6-29 | the buffer and the files after a load |
| Editors.Editor.SaveFile | src/file_io.cpp:32-39 | the files after a save |
| Editors.Editor.Init | src/editor.cpp:14-18 | path, files and buffer after opening another file |
| Editors.Editor.MoveCursor | src/input_handler.cpp:110-127 | which move an arrow key makes |
| Editors.Editor.Copy | src/input_handler.cpp:140-149 | the clipboard after a copy |
| Editors.Editor.Handle | src/input_handler.cpp:104-166 | the whole new state after a key in each mode |
| Editors.Editor.ProcessDialog | src/editor.cpp:96-106 | the whole new state after a key in the dialog |
| Editors.Editor.ProcessInput | src/editor.cpp:91-127 | the whole new state after an event, with the order of selection, handling and broadcast |
| Editors.Editor.BroadcastBuffer | src/editor.cpp:79-85 | the text posted is the text now |
| Editors.Editor.PollNetwork | src/editor.cpp:35-47 | a client whose mailbox has a new text takes it over and the mailbox is not new any more; otherwise nothing changes |
| Editors.ChangeFileModal.Activate | src/changefilemodal.cpp:6-10 | an empty, open, unconfirmed dialog |
| Editors.ChangeFileModal.HandleInput | src/changefilemodal.cpp:13-31 | the dialog after a key, and whether it closes |
| Wire.HeaderReads | src/network_models.cpp:30-32 | reading a written length gives it back modulo 2^32 |
| Wire.HeaderWrites | src/network_models.cpp:116-117 | any four bytes are the header of the length they give |
| Wire.ChunksDoNotMatter | src/network_models.cpp:104-141 | how the bytes are cut makes no difference to what is published |
| Wire.PublishesComplete | src/network_models.cpp:104-141 | at every moment exactly the messages whose frames have arrived completely have been published, in order |
| Wire.PublishesCompleteInChunks | src/network_models.cpp:104-141 | the same for chunks of any sizes |
| Wire.PublishesAll | src/network_models.cpp:29-33 | all bytes of the packets publish all messages, empty ones included |
| Wire.OneMessage | src/network_models.cpp:30 | a packet arrives as its message exactly when the text is shorter than 2^32 bytes |
| Network.SendBuffer | src/network_models.cpp:29-35 | the session has one more packet written |
| Network.TcpServer.Accept | src/network_models.cpp:60-71 | a new session is listed and sent the latest text unless that is empty |
| Network.TcpServer.Broadcast | src/network_models.cpp:77-89 | the loop reaches every open session once, in order, and erases the others |
| Network.TcpClient.OnRead | src/network_models.cpp:104-141 | a header starts the read of its body, a body goes to the mailbox and starts the next header |
| Network.TcpClient.GetLatestBuffer | src/network_models.cpp:145-149 | the mailbox's text, which is no longer new |
| Replication.BroadcastIsTheLoop | src/network_models.cpp:77-89 | the broadcast step changes the listed sessions as the server's loop does |
| Replication.RunPostIsTheLoop | src/network_models.cpp:77-89 | so does the step that runs a posted broadcast, and only the open sessions stay listed |
| Replication.JoinIsAccept | src/network_models.cpp:60-71 | the step that lets a client in changes the list as the accept handler does; the client is listed, open, and sent the latest text unless that is empty |
| Replication.StepsAreTheMethods | src/network_models.cpp:104-149 | a completed read and a poll change receiver and editor as the client's methods do |
| Agreement.SendKeeps | src/network_models.cpp:77-82 | a broadcast keeps an open client's invariant |
| Agreement.ArriveKeeps | src/network_models.cpp:108-131 | so does a byte that arrives |
| Agreement.ReadTransits | src/network_models.cpp:108-139 | a completed read publishes nothing for a header and exactly the next frame for a body |
| Agreement.ReadKeeps | src/network_models.cpp:134-139 | it keeps the client's invariant |
| Agreement.PollKeeps | src/editor.cpp:38-46 | a poll takes over the last published text |
| Agreement.KeyKeeps | src/input_handler.cpp:9-41 | a client's key keeps what it shows |
| Agreement.StepKeeps | src/network_models.cpp:60-149 | every step keeps the invariant of the whole system |
| Agreement.Reachable | src/network_models.cpp:60-149 | it holds in every state of every run |
| Agreement.NeverStuck | src/network_models.cpp:104-141 | an open client's receiver that waits with no byte under way is between frames and has delivered all of them |
| Agreement.QuiescentAgreement | src/editor.cpp:79-126 | where no step can bring anything to an open client, it shows the latest text, and the host's text exactly when the host has processed a key or has an empty text |
| Agreement.CatchesUp | src/network_models.cpp:77-149 | from any reachable state, while no key is pressed at the host and a client's connection stays open, at most a stated number of steps towards the client can happen, whatever happens between them, and when no more can it shows the host's text, if a key was pressed there |
| Agreement.OnlyHistory | src/network_models.cpp:60-149 | over any run a client's frames are a contiguous stretch of the history from the text in force when it joined, its deliveries a prefix of them, its adopted texts a subsequence, and what it shows was in force once |
| Agreement.NeverBack | src/editor.cpp:35-47 | over any run there is one ascending walk through the history such that at every moment the client shows the text the walk has come to |
| Globs.WildcardsMatch | libs/doctest/doctest.h:4138-4172 | `*` matches every string, `?` exactly those of one byte |
| Globs.PlainMatchesItself | libs/doctest/doctest.h:4143-4146 | a pattern without them matches itself alone, if case matters |
| Globs.CaseFolds | libs/doctest/doctest.h:4143-4146 | if it does not, the two forms of a letter are the same and nothing else is |
| Globs.SomewhereIsASuffix | libs/doctest/doctest.h:4138-4172 | a star matches only if the rest matches some suffix |
| Globs.SuffixIsSomewhere | libs/doctest/doctest.h:4138-4172 | and whenever it matches one |
| Globs.NextStar | libs/doctest/doctest.h:4152-4157 | at the next star the previous one can be forgotten |
| Globs.Mismatch | libs/doctest/doctest.h:4162-4165 | a mismatch rules out exactly the start of the current attempt |
| Globs.StringEnds | libs/doctest/doctest.h:4168-4171 | with the string used up, what is left of the pattern decides |
| Globs.WildCmp | libs/doctest/doctest.h:4138-4172 | the matcher returns true exactly when the recursive meaning of `*` and `?` matches, for every string and pattern, and terminates |

## Left out

- Raw terminal mode, reading and decoding keys (src/terminal_manager.cpp): operating system calls; an event is an input, with the one fact that shift comes only with arrows.
- Escape sequences, the box, the padding above the text, the dialog's and the log window's drawing, and the debug view of the gap (never switched on): presentation only.
- The clipboard programs (src/clipboard.cpp): other processes; the clipboard is a variable.
- Connecting, resolving, stopping, joining threads and asio itself: library behaviour; connections are byte channels in order, and a broken one may swallow what was under way.
- The unlocked read of the mailbox's flag (src/network_models.cpp:143): taken as atomic.
- File streams: a map from path to text, with the paths that cannot be read or written.
- The command line, the singleton and the logger: they hold no state that the properties depend on.
- The rest of doctest.
- Network.TcpServer.Broadcast: the sessions are values in the server's list, not shared objects, so a handler that keeps an erased session alive is not modelled.
- Views.PrintBuffer: `debug_mode` is false, as it always is; a frame is a list of marks without escape sequences.
- Visual.UpIsRowAbove: tabs between the start of the previous line and the cursor are excluded, because the code measures the cursor's column backwards; `Moves.UpStopsRightmost` covers them, and `Visual.UpWithTabs` where no line is wrapped. Wrapped lines with tabs have no statement about rows.
- Copying.CopyAfterEdits: the selection reaches at most 1024 bytes beyond the end of the gap; a growth moves the storage further on. A forward selection never does (`Copying.CopyAfterEditing`). Edits followed by more shift-arrows before the copy are not covered.
