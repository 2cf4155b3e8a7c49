# Verification of the terminal UI core

A Dafny model of the interactive part of shuvarie, the terminal UI, and proofs about it.
`dafny verify dfyconfig.toml` checks everything.

What is modelled, each with an independent description it is proved against:

* **The composer** (`Utf8`, `Pastes`, `Wrap`, `WrapFacts`, `WrapContent`, `WrapCount`, `HitTest`,
  `VerticalMotion`, `Editor`, `InputBuffer`, `TextArea`, `Recall`). `InputBuffer` is a class with
  the fields of the original: text, byte cursor, anchor, scroll offset, paste slots. Its methods are proved against `Editor.Doc`,
  a sequence of atoms (a character or a whole payload) with a position, that knows no bytes, markers
  or slots. `ComputeRows` is the wrapping loop; its result is described by what every step of the
  loop keeps. The cursor lookup and the hit test are proved to undo each other on those rows. The
  two recall stacks are a zipper over one line of drafts.
* **The tabs** (`Tabs`, `TabRuns`, `App`, `RenderLoop`). `App` keeps one set of working slots and
  swaps them among the tabs; `Strip` is a plain map from tab id to tab state. Every operation of
  `App` is proved to be the step of `Strip`, every run of `App` a run of `Strip`, and over those runs
  each tab is shown to be the fold of its own messages. `RenderLoop` adds the running cores and the accounting of command
  senders. A handler is any function of a tab's content, and of whether the tab is in the
  foreground, that may send commands.
* **The frame scheduler** (`Scheduler`), a timed state machine with the loop's variables beside it.
* **The attachment picker and its directory prompt** (`Attach`, `DirPrompt`), as conversations with
  a core that may reply late, out of order, twice or never, and **lexical paths** (`Paths`).
* **Scroll offsets** (`Scroll`), **the add-provider form** (`AddProvider`, `Decimal`), **dropped
  paths** (`PastePath`) and **slash commands** (`Commands`, `Whitespace`).

Results where the code does less than one might ask, each with its exact condition:

* A selection anchor that sits on the cursor survives every edit (`src/tui/components.rs:138-146`).
  `PhantomSelection` and `StrandedAnchor` are concrete runs in which text nobody selected becomes
  selected, and in which the anchor ends up past the text. From there a motion, a press, Submit or
  Clear recovers, and an edit slices the text off a boundary and panics: `TextArea.Update` says
  exactly when, and `UpdateAll` that everything but the anchor stays in order until then. A copy
  panics in the same case (`SelectedText`).
* The hit test misses behind characters without width (`HitTestInverseIff`, `HitTestMisses`), and
  Down stays put in front of what wrapped at the cursor (`DownIncreasesIff`, `DownStays`): always in
  front of a chip wider than a row.
* After Down recalled a newer draft, Up recalls the older one again exactly when the newer is one
  visual row (`DownAndUp`, `LongDraftStays`).
* The simple scroll offset leaves its range when it scrolls up to a selection past the last full
  window (`OffsetInRangeIff`); the picker gets there when its list shrinks (`OffsetLeavesRange`).
* A shell-escaped path and a root's label read back exactly under the conditions of
  `ShellEscapeRoundTripIff` and `LabelRoundTrip`; `ParenthesisFails`, `TripleFails`, `TildeFails`
  and two members called `SpaceFails` are inputs that do not.
* The peak countdown cannot starve while the frame rate is capped (`TickOnTime`,
  `PeakNeverStarves`). Without a cap it depends on which ready branch of the `select!` is taken:
  events that always win starve it (`UncappedStarves`), ties that go to it do not.
* Enter in the directory prompt can fall back to a hint for an older text than the one typed
  (`OldHintSubmitted`, `SubmittedHint`).

Where code and comments disagree the code is followed. The comment on `Row::end_byte`
(`src/tui/components.rs`) speaks of the byte before a wrapped character; the loop records the
wrapped character's own byte. The comment on `AppMessage::TabClosed` (`src/tui/app.rs`) says the
core was stopped already; `apply_loop_effect` (`src/tui.rs:661-669`) applies the message first and
stops the core after it. The comment on `is_command_name` (`src/tui/commands.rs:469-470`) takes
command names to be validated on loading, where an invalid one only warns
(`crates/core/src/custom_commands.rs:120-126`); `CustomReads` says that such a command cannot be
invoked by its alias.

## Model

| member | source | states |
|---|---|---|
| `Pastes.NormalizeIdempotent` | `src/tui/components.rs:42-44` | normalized text holds no carriage return, and normalizing it again changes nothing |
| `Pastes.NormalizeParts` | `src/tui/components.rs:42-44` | wherever it is looked at: CR LF becomes one newline, a CR without a LF one too, and any other character stays |
| `Pastes.NormalizeWithEndings` | `src/tui/components.rs:42-44` | a text comes out as it was, whether its lines end in LF, CR LF or CR |
| `Pastes.LineCountJoined` | `src/tui/components.rs:180-190` | the lines counted are those the text is joined from, an empty last one left out |
| `Pastes.CompactsIff` | `src/tui/components.rs:180-190` | a paste becomes a chip exactly when its text goes on behind the second newline and one of the 6400 markers is left |
| `Pastes.PasteExpands` | `src/tui/components.rs:180-190` | a paste stands for its newline-normalized text, whether it is compacted into a chip or not |
| `Pastes.CutTable` | `src/tui/components.rs:229-238` | dropping the payloads of the markers in a cut keeps the marker table in order and removes exactly the cut atoms |
| `Pastes.InsertTextTable` | `src/tui/components.rs:171-175` | inserting plain text keeps the table and inserts its characters as atoms |
| `Pastes.InsertChipTable` | `src/tui/components.rs:180-190` | a fresh slot and its marker keep the table in order (each marker once, naming a filled slot; a slot without a marker empty; never more than 6400 slots) and add one chip |
| `Pastes.EmptySlotsExpand` | `src/tui/components.rs:193-205` | with every slot empty the text is its own expansion, so the shortcut agrees with the general loop |
| `Editor.InsertExpands` | `src/tui/components.rs:165-190` | typing or pasting splices its text into the expanded draft in place of the selection and puts the position right behind it |
| `Editor.MotionsLand` | `src/tui/components.rs:252-363` | the places the motions lead to, told by what stands around them: the next atom, the ends of the line, over breaks and then over the word |
| `InputBuffer.InputBuffer.Clear` | `src/tui/components.rs:80-86` | an empty document, no anchor, no slots, the scroll offset back at the top |
| `InputBuffer.InputBuffer.Set` | `src/tui/components.rs:406-412` | the buffer holds the text, the cursor is at its end, slots and anchor are dropped, the scroll offset is back at the top |
| `InputBuffer.InputBuffer.AnchorHere` | `src/tui/components.rs:94-98` | an anchor that is set stays; otherwise it is set on the cursor |
| `InputBuffer.InputBuffer.SelectTo` | `src/tui/components.rs:101-104` | the cursor moves to the byte, kept inside the text, and the anchor is set at most once |
| `InputBuffer.InputBuffer.PlaceCursor` | `src/tui/components.rs:107-110` | the cursor moves to the byte, kept inside the text, and the anchor is dropped |
| `InputBuffer.InputBuffer.SelectedRange` | `src/tui/components.rs:113-121` | the bytes between anchor and cursor in order, none when there is no anchor or it sits on the cursor; for an anchor on a boundary that is the range of the selected atoms |
| `InputBuffer.InputBuffer.RangeSlicesIff` | `src/tui/components.rs:229-238` | the range an edit slices out of the text has boundaries for ends exactly when the anchor is not stranded off one |
| `InputBuffer.InputBuffer.SlicePanics` | `src/tui/components.rs:229-238` | the check that slicing makes of both ends fails exactly when the anchor is stranded |
| `InputBuffer.InputBuffer.SelectedText` | `src/tui/components.rs:124-134` | a copy takes the selected atoms with chips expanded, and panics exactly when the anchor is stranded |
| `InputBuffer.InputBuffer.Expanded` | `src/tui/components.rs:193-205` | the expansion of the atoms, through the shortcut or the loop |
| `InputBuffer.InputBuffer.CutRange` | `src/tui/components.rs:229-238` | exactly the characters of the range go, and exactly their payloads are emptied |
| `InputBuffer.InputBuffer.DeleteSelection` | `src/tui/components.rs:138-146` | the selection and nothing else goes; whether something went; a collapsed anchor is left in place, any other is dropped |
| `InputBuffer.InputBuffer.InsertStr` | `src/tui/components.rs:171-175` | the string replaces the selection and the cursor stands behind it |
| `InputBuffer.InputBuffer.InsertChar` | `src/tui/components.rs:165-169` | the character replaces the selection and the cursor stands behind it |
| `InputBuffer.InputBuffer.Paste` | `src/tui/components.rs:180-190` | the plain editor gets one chip for a long paste while slots last, the normalized characters otherwise, in place of the selection |
| `InputBuffer.InputBuffer.StaleAnchor` | `src/tui/components.rs:138-146` | an anchor left behind by a cut is a boundary of the new text exactly when the text after the cut has a boundary that far in |
| `InputBuffer.InputBuffer.Backspace` | `src/tui/components.rs:240-250` | removes the selection, or else the atom before the cursor; the buffer stays in order exactly unless a collapsed anchor is stranded |
| `InputBuffer.InputBuffer.Delete` | `src/tui/components.rs:281-290` | removes the selection, or else the atom after the cursor, and keeps cursor, anchor and table in order |
| `InputBuffer.InputBuffer.KillToEnd` | `src/tui/components.rs:295-311` | removes the selection, or else up to the end of the logical line, or the newline the cursor stands on |
| `InputBuffer.InputBuffer.KillToLineStart` | `src/tui/components.rs:315-325` | removes the selection, or else back to the start of the logical line; the buffer stays in order exactly unless a collapsed anchor is stranded |
| `InputBuffer.InputBuffer.Left` | `src/tui/components.rs:252-257` | one atom to the left, ending on a character boundary |
| `InputBuffer.InputBuffer.Right` | `src/tui/components.rs:259-263` | one atom to the right, ending on a character boundary |
| `InputBuffer.InputBuffer.Home` | `src/tui/components.rs:266-271` | to the start of the logical line |
| `InputBuffer.InputBuffer.End` | `src/tui/components.rs:274-279` | to the end of the logical line |
| `InputBuffer.InputBuffer.LeftWord` | `src/tui/components.rs:327-344` | back over white space and chips, then over the word before them |
| `InputBuffer.InputBuffer.RightWord` | `src/tui/components.rs:346-363` | forward over white space and chips, then over the word after them |
| `InputBuffer.InputBuffer.Up` | `src/tui/components.rs:372-379` | the cursor goes to the byte under its column one row up, on a character boundary |
| `InputBuffer.InputBuffer.Down` | `src/tui/components.rs:382-389` | the cursor goes to the byte under its column one row down, on a character boundary |
| `InputBuffer.InputBuffer.ByteAt` | `src/tui/components.rs:151-155` | the byte under a cell of the wrapped rows, always a character boundary; none below the last row |
| `InputBuffer.InputBuffer.CursorOnFirstRow` | `src/tui/components.rs:392-394` | whether the cursor is on the first visual row |
| `InputBuffer.InputBuffer.CursorOnLastRow` | `src/tui/components.rs:397-399` | whether the cursor is on the last visual row |
| `InputBuffer.InputBuffer.EnsureCursorVisible` | `src/tui/components.rs:501-512` | the cursor's row is inside the viewport (at least one row high), the offset is a row, and it moved only when it had to and no further than needed |
| `InputBuffer.PhantomSelection` | `src/tui/components.rs:94-98` | witness: an anchor set on the cursor at the start of the text turns the next typed character into a selection |
| `InputBuffer.StrandedAnchor` | `src/tui/components.rs:240-250` | witness: after Backspace a collapsed anchor lies past the end of the text, where the next edit slices and panics |
| `Wrap.FeedLabel` | `src/tui/components.rs:443-463` | the two ways of placing a chip label agree with the step function of the wrapping state |
| `Wrap.ComputeRows` | `src/tui/components.rs:427-479` | the wrapping loop computes the rows that the facts below are about |
| `WrapFacts.WrappedGood` | `src/tui/components.rs:427-479` | every recorded byte and row end is a character boundary; along a row the text goes on without a gap; a row is no wider than the width unless it is one character; rows are parted by one newline, or softly where the next character did not fit |
| `WrapContent.RowsShowText` | `src/tui/components.rs:427-479` | the rows laid end to end are the label-expanded text without its newlines, in order, and the last row ends at the length of the text |
| `WrapContent.EveryBoundaryShown` | `src/tui/components.rs:427-479` | every character boundary of the text is a cell or a row end |
| `WrapContent.ChipStaysWhole` | `src/tui/components.rs:456-463` | the label of a chip that fits an empty row stands on one row in one piece |
| `HitTest.ComputeCursorRowCol` | `src/tui/components.rs:482-498` | the loop finds the first row and cell at or after the cursor byte |
| `HitTest.RowColToByte` | `src/tui/components.rs:622-631` | the loop finds the byte of the first cell at or after a column |
| `HitTest.CursorFound` | `src/tui/components.rs:482-498` | a cursor on a boundary is found at its own byte, so the fallback is never taken |
| `HitTest.VerticalBoundary` | `src/tui/components.rs:372-389` | moving up or down lands on a character boundary |
| `HitTest.CursorCell` | `src/tui/components.rs:482-498` | the cursor is shown at its own byte, as many columns in as the cells before it take, behind nothing but earlier bytes |
| `HitTest.VerticalLands` | `src/tui/components.rs:372-389` | Up lands on the row above and Down on the row below, on the first cell that does not begin left of the cursor's column; on the first and on the last row they stay |
| `HitTest.ByteAtLands` | `src/tui/components.rs:151-155` | a cell hits exactly when its row is there, and then the byte under its column |
| `HitTest.HitTestInverseIff` | `src/tui/components.rs:151-155` | looking up the cell of a boundary gives the boundary back exactly unless the character before it stands on the same line and takes no column |
| `HitTest.HitTestMisses` | `src/tui/components.rs:151-155` | witness: behind an `a` and a combining accent the lookup goes back |
| `HitTest.HitTestInverse` | `src/tui/components.rs:151-155` | with visible characters hit-testing inverts the cursor lookup, at every width, for every boundary, split chips included |
| `VerticalMotion.UpDecreases` | `src/tui/components.rs:372-379` | Up from any row but the first moves the cursor back, for every text |
| `VerticalMotion.DownIncreasesIff` | `src/tui/components.rs:382-389` | Down from any row but the last never moves back, and moves on exactly unless the row wrapped at the cursor and what wrapped there covers its column below: a plain character column 0, a fitting label its own length, a label wider than a row every column |
| `VerticalMotion.DownStays` | `src/tui/components.rs:382-389` | witness: `x` and a chip of three lines at a width of 16, where Down stays at the end of the first row |
| `VerticalMotion.WideChipHolds` | `src/tui/components.rs:382-389` | Down never moves a cursor in front of a chip wider than a row |
| `WrapCount.RowsCount` | `src/tui/components.rs:427-479` | all rows together show each character once, a newline never, and a chip once for each character of its label |
| `VerticalMotion.DownIncreases` | `src/tui/components.rs:382-389` | with visible characters and no chips Down from any row but the last moves on |
| `VerticalMotion.DownReachesLast` | `src/tui/components.rs:382-389` | so Down pressed often enough reaches the last row |
| `HitTest.EndOnLastRow` | `src/tui/components.rs:397-412` | a cursor at the end of the text, where setting the buffer puts it, is on the last visual row |
| `TextArea.TextArea.Edit` | `src/tui/components.rs:807-834` | each edit does to the buffer what it does to the plain editor, with the selection replaced and the anchor cleared; it strands the anchor exactly when a collapsed one is left inside a character or past the text |
| `TextArea.TextArea.Move` | `src/tui/components.rs:835-864` | from any anchor, each motion moves the position of the plain editor, clears the anchor and leaves the text alone |
| `TextArea.TextArea.Select` | `src/tui/components.rs:879-908` | from any anchor, each selecting motion keeps the first anchor, moves the cursor and leaves the text alone |
| `TextArea.TextArea.HitByte` | `src/tui/components.rs:945-958` | the byte under a terminal cell inside the padded box, none outside it; always a boundary |
| `TextArea.TextArea.HitIff` | `src/tui/components.rs:945-960` | a cell hits exactly when it is inside the padding of two columns and one row and not below the text |
| `TextArea.TextArea.HitShown` | `src/tui/components.rs:945-960` | with visible characters, pressing on the cell that shows a place in the text hits that place |
| `TextArea.TextArea.Mouse` | `src/tui/components.rs:909-920` | a press places the cursor and drops the anchor, a drag selects to the byte and keeps the first anchor, a miss does nothing |
| `TextArea.TextArea.RecallUp` | `src/tui/components.rs:993-1002` | from the first row the newest older draft comes into the buffer, the current one goes on the other stack, and the cursor is on the last row |
| `TextArea.TextArea.RecallDown` | `src/tui/components.rs:1005-1014` | the same towards the newer drafts, from the last row |
| `TextArea.TextArea.StashDraft` | `src/tui/components.rs:980-983` | the expanded draft goes on the older stack, which stays tidy |
| `TextArea.TextArea.RememberSent` | `src/tui/components.rs:986-989` | what was sent goes on the older stack and the newer ones are forgotten |
| `TextArea.TextArea.Update` | `src/tui/components.rs:804-936` | from any anchor every message keeps cursor, table and stacks in order and does what the plain editor, the row lookup and the draft line say; it panics exactly when it is an edit and the anchor is stranded |
| `TextArea.TextArea.UpdateAll` | `src/tui/components.rs:804-936` | over any sequence of messages the marker table and the cursor stay in order, up to an edit that panics; none panics unless a Backspace or KillToLineStart came before |
| `TextArea.TextArea.UpAndDown` | `src/tui/components.rs:993-1014` | up into an older draft and down again restores a non-empty draft and the older stack, and the newer one up to a copy of the draft on top of it |
| `TextArea.TextArea.ClearAndUp` | `src/tui/components.rs:930-1002` | Up right after Clear brings the cleared draft back and leaves the newer ones as they were |
| `TextArea.TextArea.DownAndUp` | `src/tui/components.rs:993-1014` | down into a newer draft and up again recalls again exactly when that draft is one visual row; otherwise the newer draft stays |
| `TextArea.LongDraftStays` | `src/tui/components.rs:993-1014` | witness: with `x` and a draft of two lines sent and recalled, Down and Up stay in the longer one |
| `TextArea.TextArea.Submit` | `src/tui/components.rs:922-929` | the trimmed expansion of the draft is handed out and the buffer emptied; a blank draft does nothing |
| `TextArea.TextArea.ClearDraft` | `src/tui/components.rs:930-934` | the draft is stashed and the buffer emptied |
| `TextArea.EditIsSplice` | `src/tui/components.rs:807-834` | every edit is one splice of the expanded draft: exactly the selection goes, or with none the atom before or behind the cursor, the newline on it, the rest of its line or its line so far, and what the message brings comes in their place |
| `TextArea.MotionLands` | `src/tui/components.rs:835-905` | where each motion message leads, selecting or not |
| `Recall.PushTidy` | `src/tui/components.rs:972-976` | a stack stays free of empty drafts and of equal neighbours |
| `Recall.LineKept` | `src/tui/components.rs:980-1014` | the whole line of drafts, empties dropped and equal neighbours collapsed, is the same before and after going up, going down and clearing |
| `Recall.UpThenDown` | `src/tui/components.rs:993-1014` | on the line of drafts, up and then down restores a non-empty draft and the older stack, and the newer one up to a copy of the draft on top of it |
| `Recall.DownThenUp` | `src/tui/components.rs:993-1014` | on the line of drafts, down and then up, likewise |
| `Recall.StashThenUp` | `src/tui/components.rs:980-1002` | on the line of drafts, clearing and then going up restores the draft and the newer stack |
| `Tabs.Around` | `src/tui/app.rs:1990-1997` | cycling steps one position and wraps at either end |
| `TabRuns.ClosedShows` | `src/tui/app.rs:965-985` | closing keeps the other tabs in order; from the tab on screen it shows the one after it, or the one before it if it came last |
| `TabRuns.CycledShows` | `src/tui/app.rs:1987-2000` | cycling shows the next or the previous tab of the strip, from either end the other end |
| `TabRuns.CycledBack` | `src/tui/app.rs:1987-2000` | cycling one way and then the other shows the same tab again |
| `TabRuns.OthersShow` | `src/tui/app.rs:786-960` | a position shows the tab there, a new tab comes last and is shown, and no other event changes what is shown or the order |
| `TabRuns.StepValid` | `src/tui/app.rs:803-985` | every step keeps ids distinct and below the next one, one state and one core per tab, and the active tab among them at the width of the window |
| `TabRuns.StepOwnCores` | `src/tui/app.rs:933-985` | two tabs never come to share a core |
| `TabRuns.StepIsolated` | `src/tui/app.rs:895-906` | a step changes a tab by its own part of the event and by nothing else |
| `TabRuns.TabIsFoldOfItsOwn` | `src/tui/app.rs:803-985` | over every interleaving of switching, opening, closing and tagged messages, the state of a tab that is still open is the fold of its own messages alone |
| `TabRuns.EveryTabIsFold` | `src/tui/app.rs:803-985` | the same for every tab that is open in the end, from its opening on when it was opened on the way |
| `TabRuns.ComesOpened` | `src/tui/app.rs:933-960` | a tab that comes into the strip was just opened: under a fresh id, on screen, driven by its own core, with the roster and default scene of the tab before it |
| `TabRuns.StepHeard` | `src/tui/app.rs:895-1013` | a step sends the core of an open tab exactly what its own handler sends, its scroll position when the screen is handed over, and every broadcast |
| `TabRuns.CoreHearsItsOwn` | `src/tui/app.rs:895-1013` | over every interleaving the core of a tab that stays open hears just that, in order, and nothing else |
| `TabRuns.NeverReused` | `src/tui/app.rs:933-960` | an id that was handed out and is not in the strip never comes back |
| `TabRuns.ClosedTabDropped` | `src/tui/app.rs:895-906` | a message for a closed tab changes and sends nothing; one for an open tab sends only to that tab's core |
| `TabRuns.BroadcastOnce` | `src/tui/app.rs:1006-1013` | a broadcast from the foreground reaches every core exactly once |
| `TabRuns.StagedBroadcast` | `src/tui/app.rs:1006-1013` | why a broadcast has to come from the foreground: with a tab staged, every core is reached once exactly when that tab is the active one |
| `App.App.constructor` | `src/tui/app.rs:631-763` | one tab, number 0, in the working slots |
| `App.App.Stage` | `src/tui/app.rs:834-850` | the tab's parked state is in the working slots with its core's sender, what was there is handed out; nothing happens to a tab without a parked screen |
| `App.App.Park` | `src/tui/app.rs:856-865` | the state handed out by staging is parked in the tab being left, every other tab untouched |
| `App.App.Restore` | `src/tui/app.rs:871-880` | the staged tab takes the working state back and the slots take what staging handed out |
| `App.App.SetActive` | `src/tui/app.rs:803-824` | the swap shows the tab and does to the plain map of tabs just that; an unknown id changes nothing |
| `App.App.ApplyToTab` | `src/tui/app.rs:895-906` | a tagged message runs on its tab's state and sends to its tab's core, and the screen is left as it was; a closed tab's message is dropped |
| `App.App.SaveScroll` | `src/tui/app.rs:2885-2905` | each tab's scroll position goes to that tab's own core, in strip order |
| `App.App.SwitchToPosition` | `src/tui/app.rs:786-795` | scrolls are saved, then the tab at that position is shown; out of range and the active one do nothing |
| `App.App.CycleTab` | `src/tui/app.rs:1987-2000` | the next or previous tab in strip order is shown, around the ends; a single tab does nothing |
| `App.App.OpenTab` | `src/tui/app.rs:933-960` | a fresh id, with the roster and default scene of the working slots, parked at the end of the strip |
| `App.App.TabOpened` | `src/tui/app.rs:2002-2009` | the new tab is opened, reported to the loop and shown, after every scroll was saved |
| `App.App.CloseTab` | `src/tui/app.rs:965-985` | the tab leaves the strip; if it was on screen the neighbour after it, or else before it, takes over first |
| `App.App.Resize` | `src/tui/app.rs:2531-2537` | the window and the tab on screen take the new width |
| `App.App.SendToAll` | `src/tui/app.rs:1006-1013` | one command to each tab that is not active, in strip order, and one through the working sender |
| `App.App.SendToEveryone` | `src/tui/app.rs:1006-1013` | in the foreground that is the broadcast of the plain map |
| `App.App.Update` | `src/tui/app.rs:803-985` | whatever the event, the swapped slots do to the tabs, and send to the cores, exactly what the plain map of tabs does; exactly the active tab has no parked screen |
| `App.App.Updates` | `src/tui/app.rs:803-985` | over every run of events the App stands for the run of the plain map of tabs, and sends that run's log |
| `App.App.SendersOf` | `src/tui/app.rs:834-985` | the App holds one sender of each open tab's core, a second one for the active tab, and none of any other core |
| `RenderLoop.RenderLoop.constructor` | `src/tui.rs:133-142` | the first core is live and belongs to tab 0 |
| `RenderLoop.RenderLoop.SenderAccounting` | `src/tui.rs:145-190` | each live core has one sender in the strip, one in the loop, and a third exactly when its tab is active |
| `RenderLoop.RenderLoop.Dispatch` | `src/tui.rs:706-742` | no other event changes which cores are live |
| `RenderLoop.RenderLoop.SpawnTab` | `src/tui.rs:628-650` | the tab is opened before its core is added, and then the live cores are again those of the open tabs |
| `RenderLoop.RenderLoop.CloseTab` | `src/tui.rs:661-669` | the App drops its senders first, so the one the loop drops is the last and the core can end; the live cores stay those of the open tabs |
| `RenderLoop.RenderLoop.CloseActive` | `src/tui/app.rs:3389-3400` | the last tab stays; otherwise the active tab goes and no sender of its core is left |
| `RenderLoop.RenderLoop.Close` | `src/tui.rs:169-190` | called without App senders, it cancels the turn of the tab's core, removes that core and no other, and leaves no sender of it; an unknown tab changes nothing |
| `Scheduler.InvHolds` | `src/tui.rs:426-602` | in every run: while listening the deadline is absent or exactly one budget after the last draw, and armed exactly while a change waits |
| `Scheduler.DrawsApart` | `src/tui.rs:577-600` | two draws in a row are at least a budget apart unless the first delivered media |
| `Scheduler.DrawsAgainIff` | `src/tui.rs:429-458` | a draw is followed by another one at once exactly when it delivered media |
| `Scheduler.ChangesDrawnInTime` | `src/tui.rs:577-600` | with prompt timers no change waits past the later of its own time and one budget after the draw before it |
| `Scheduler.PeakKept` | `src/tui.rs:684-694` | an armed countdown keeps its deadline through any number of redraws |
| `Scheduler.WithdrawnSilent` | `src/tui.rs:684-694` | once a draw found the schedule withdrawn, the countdown stays disarmed and never ticks until a draw finds one again |
| `Scheduler.ArmedByDraw` | `src/tui.rs:684-694` | an armed countdown was armed by a draw, its interval after the end of that draw, and nothing touched it since |
| `Scheduler.EventDrawsIff` | `src/tui.rs:577-600` | a change is drawn at once exactly when a budget has passed since the last draw, else when it has; an event without one only lets time pass |
| `Scheduler.TickOnTime` | `src/tui.rs:498-512` | in every run with prompt timers a tick is late by no more than the burst of draws in progress when it came due, if the frame rate is capped or a due countdown wins ties |
| `Scheduler.CappedFair` | `src/tui.rs:351-357` | with a cap on the frame rate nothing has to be asked of ties |
| `Scheduler.PeakNeverStarves` | `src/tui.rs:498-512` | under the same condition, with bursts of draws no longer than d, no moment is further from the last tick than a budget, an interval and twice d |
| `Scheduler.TicksTogether` | `src/tui.rs:498-512` | nor are two ticks in a row |
| `Scheduler.KeptTicks` | `src/tui.rs:684-694` | a run of the loop without a tick, however it redraws, is over within a budget, an interval and twice d |
| `Scheduler.UncappedStarves` | `src/tui.rs:577-600` | witness: without a cap and with events always taken first there is, for every n, a prompt run of the loop that lasts n and never ticks |
| `Scheduler.RederivingStarves` | `src/tui.rs:684-694` | were the deadline derived anew at every draw, redraws faster than the interval would be, for every number of them, a prompt run without a tick |
| `Scheduler.FrameClock.DrawFrame` | `src/tui.rs:426-458` | the variables of the loop after a draw are those of the machine |
| `Scheduler.FrameClock.Wake` | `src/tui.rs:464-600` | and after each kind of wake-up |
| `Scroll.OffsetShowsSelected` | `src/tui/list.rs:7-25` | the selected row is in the window, and from an offset in range no window that shows it is nearer to the old one |
| `Scroll.OffsetInRangeIff` | `src/tui/list.rs:7-25` | the result stays in range, and a second application changes nothing, exactly when a selection past the last full window was not scrolled up to |
| `Attach.OffsetLeavesRange` | `src/tui/attach.rs:218-237` | witness: a run of the picker, its list shrinking under the highlight, after which the offset is past the last full window |
| `Scroll.RowOffsetShowsSpan` | `src/tui/list.rs:32-54` | a span that fits is wholly shown by the nearest window in range, a taller one is aligned to its top |
| `Scroll.RowOffsetIsOffset` | `src/tui/list.rs:32-54` | on one-row spans it is the simple offset kept in range |
| `Decimal.ShowInjective` | `src/tui/add_provider.rs:400-412` | no two numbers print alike |
| `Decimal.ShowValue` | `src/tui/add_provider.rs:400-412` | the digits stand for the number, without a leading zero |
| `AddProvider.Pigeonhole` | `src/tui/add_provider.rs:400-412` | at most as many candidate names are taken as there are names |
| `AddProvider.Form.RebuildRows` | `src/tui/add_provider.rs:335-362` | each group shows its header and its matches in order, an empty group nothing while filtering, the custom row comes last, and the first selectable row is selected and shown |
| `AddProvider.GroupAt` | `src/tui/add_provider.rs:335-362` | a group begins where those before it end, with its header, and its j-th row is its j-th match; it shows nothing exactly when it has no match while a filter is on |
| `AddProvider.Form.MoveSelection` | `src/tui/add_provider.rs:378-392` | the selection goes to the nearest selectable row that way, or stays; it is always a row and never a header |
| `AddProvider.Form.Next` | `src/tui/add_provider.rs:378-392` | down to the nearest selectable row |
| `AddProvider.Form.Prev` | `src/tui/add_provider.rs:378-392` | up to the nearest selectable row, staying when only headers are above |
| `AddProvider.Form.ComputeDefaultName` | `src/tui/add_provider.rs:400-412` | the loop stops; the name is free, every earlier candidate is taken, and its number is at most the number of names |
| `PastePath.ComputePercentDecode` | `src/tui/paste_path.rs:112-129` | the loop computes percent decoding |
| `PastePath.ComputeUnescape` | `src/tui/paste_path.rs:91-107` | the loop computes the unescaped text |
| `PastePath.ComputeHasEscapePair` | `src/tui/paste_path.rs:76-87` | the loop answers whether some backslash stands before white space or a backslash |
| `PastePath.EncodeInjective` | `src/tui/paste_path.rs:38-60` | no two texts have the same UTF-8 bytes |
| `PastePath.EncodeCharBits` | `src/tui/paste_path.rs:112-129` | the bytes of a character are those of section 3 of RFC 3629: as few as hold it, marked, and their bits its number |
| `PastePath.PercentRoundTrip` | `src/tui/paste_path.rs:112-129` | percent decoding inverts percent encoding, whatever bytes but the percent sign are left as they are |
| `PastePath.TripleDecodes` | `src/tui/paste_path.rs:112-140` | a triple stands for its value, its hex digits in either case |
| `PastePath.DecodeIff` | `src/tui/paste_path.rs:112-129` | decoding changes a text exactly when it holds a percent triple |
| `PastePath.EscapedIff` | `src/tui/paste_path.rs:91-107` | of the printable ASCII characters a backslash escapes all but letters, digits and + , - . / : = @ ^ _ |
| `PastePath.FileUriRoundTrip` | `src/tui/paste_path.rs:23-60` | the percent-encoded file URI of an absolute one-line path is classified as that path, or as text when it ends in a slash |
| `PastePath.LocalUri` | `src/tui/paste_path.rs:38-60` | a URI that names this host is classified as the one that names none |
| `PastePath.RemoteUri` | `src/tui/paste_path.rs:38-60` | one that names another host stays text |
| `PastePath.QuotedRoundTripIff` | `src/tui/paste_path.rs:38-73` | a text in either kind of quotes is classified as itself exactly when it looks like a path and holds no scheme separator, no escape pair and no percent triple |
| `PastePath.BareLooksIff` | `src/tui/paste_path.rs:144-178` | a path of no other form needs a separator and, behind its last dot, one to eight letters or digits |
| `PastePath.OpenedLooksIff` | `src/tui/paste_path.rs:144-169` | behind a root, home, this or the parent directory any one line that does not end in a slash looks like a path; behind a drive or a share any one line |
| `PastePath.ClassifiedLooks` | `src/tui/paste_path.rs:23-31` | only one line that looks like a path is classified as one, and several lines never |
| `PastePath.ShellEscapeRoundTripIff` | `src/tui/paste_path.rs:23-107` | the backslash-escaped form of such a path is classified as it exactly when it does not end in white space, holds no "://", and either holds white space or a backslash but no percent triple, or needs no escaping |
| `PastePath.ParenthesisFails` | `src/tui/paste_path.rs:23-107` | witness: `/(` is escaped and has no gap |
| `PastePath.TripleFails` | `src/tui/paste_path.rs:23-107` | witness: a path with a gap and a percent triple |
| `PastePath.SpaceFails` | `src/tui/paste_path.rs:23-107` | witness: a path that ends in white space |
| `Paths.ComputeNormalize` | `src/tui/attach.rs:767-784` | the loop computes the fold of the components |
| `Paths.NormalizeIsNormal` | `src/tui/attach.rs:767-784` | the result is root, then parents, then names; a path is left alone exactly when it is of that form; normalizing is idempotent |
| `Paths.NormalizeJoin` | `src/tui/attach.rs:767-784` | normalizing the first part of a join changes nothing |
| `Paths.NormalizeKeepsMeaning` | `src/tui/attach.rs:767-784` | in a tree without links both paths lead to the same place from everywhere |
| `Paths.WalkJoin` | `src/tui/attach.rs:84-101` | walking a joined path is walking its parts one after the other |
| `Paths.ParsePrint` | `src/tui/attach.rs:84-124` | a path reads back from its text |
| `Paths.ParseWellFormed` | `src/tui/attach.rs:84-124` | a text never has components that a path cannot have |
| `Paths.ParseJoined` | `src/tui/attach.rs:84-124` | joining texts with a slash joins the paths; more slashes say no more |
| `Paths.HomeArgument` | `src/tui/attach.rs:84-101` | no argument, or a blank one, names the workspace, and a `~` home |
| `Paths.PathArgument` | `src/tui/attach.rs:84-101` | an argument names the way from home behind a `~`, an absolute path itself, and else the way from the workspace, whatever white space is around it |
| `Paths.LabelShows` | `src/tui/attach.rs:105-124` | the workspace is titled by a dot, what is in it by the way from there, home and what is in it behind a `~`, and anything else in full |
| `Paths.LabelRoundTrip` | `src/tui/attach.rs:84-124` | re-resolving a root's label gives the root back exactly when the label has no outer white space and its trimmed form opens with no workspace `~`, or when home makes up for reading that `~` as home |
| `Paths.TildeFails` | `src/tui/attach.rs:84-124` | witness: `x` in a workspace directory called `~` is taken for `x` in the home directory |
| `Paths.SpaceFails` | `src/tui/attach.rs:84-124` | witness: the space in front of a directory name is lost |
| `Attach.ShownIsAnswered` | `src/tui/attach.rs:197-237` | whatever the core replies and when: the candidates on show answer the directory on show and the answered query, and an open dialog has its query in flight or answered |
| `Attach.StaleRepliesDrop` | `src/tui/attach.rs:218-237` | a reply to any request but the last, or to one sent before the directory was left, changes nothing |
| `Attach.NeverAskedTwice` | `src/tui/attach.rs:197-214` | a request goes out exactly for the query of an open dialog that is neither in flight nor answered, and never repeats the last one asked of this directory |
| `Attach.RootAsked` | `src/tui/attach.rs:169-294` | opening, or another root while open, drops what belonged to the old tree and asks for all of the new one, under a normal path that leads where the given one does |
| `Attach.SettlesInTwo` | `src/tui/attach.rs:197-237` | once edits stop each landing reply brings the list one step nearer, and at most two of them settle it |
| `Attach.EffectIff` | `src/tui/attach.rs:239-280` | which message attaches what, asks for the directory prompt or reports the dialog closed, and when it is open afterwards; a shut dialog awaits nothing |
| `Attach.MovedTo` | `src/tui/attach.rs:296-308` | k rows down or up, stopping at the ends of the list, which stays as it is |
| `Attach.MovesUndo` | `src/tui/attach.rs:296-308` | away from the ends a move back undoes a move |
| `Attach.Picked` | `src/tui/attach.rs:218-322` | after a reply has landed, Accept behind k rows down attaches the path k rows below the highlight, or the last one, and closes the dialog |
| `Attach.HighlightStaysShown` | `src/tui/attach.rs:310-317` | after any run the highlighted row is in the window |
| `Attach.QueryTyped` | `src/tui/attach.rs:239-254` | typed text is put behind the query |
| `Attach.QueryErased` | `src/tui/attach.rs:251-253` | Backspace takes as many characters off its end |
| `Attach.QueryPasted` | `src/tui/attach.rs:245-254` | a paste adds its first line without the white space around it; clearing drops all |
| `Attach.AttachFinder.NextRequest` | `src/tui/attach.rs:197-214` | the dialog asks what its value says is owed |
| `Attach.AttachFinder.SetCandidates` | `src/tui/attach.rs:218-237` | only the awaited reply lands, and the highlight stays on its path when that survives |
| `Attach.AttachFinder.Reroot` | `src/tui/attach.rs:283-294` | a new root is normalized and forgets query, candidates and the awaited reply |
| `Attach.AttachFinder.Update` | `src/tui/attach.rs:239-280` | every message does to the fields what it does to the dialog as a value |
| `Attach.AttachFinder.Hop` | `src/tui/app.rs:2270-2289` | the app hands the message over and then sends the request that is owed |
| `DirPrompt.HintsAreAnswered` | `src/tui/attach.rs:533-564` | whatever the core replies and when, and however the text is edited or completed meanwhile: the hints on show answer the answered text, one is highlighted if there are any, and an open prompt has its text in flight or answered |
| `DirPrompt.OpenAsks` | `src/tui/attach.rs:503-550` | opening shows the given directory with the cursor behind it and asks for its hints |
| `DirPrompt.StaleHintsDrop` | `src/tui/attach.rs:553-564` | a reply to any request but the last, or to one sent before the prompt was opened, changes nothing |
| `DirPrompt.AcceptAsks` | `src/tui/attach.rs:642-651` | completing the highlighted hint makes it the text, keeps the hints, and asks the core for it exactly unless it was asked already |
| `DirPrompt.SubmittedHint` | `src/tui/attach.rs:652-661` | the hint Enter falls back to answers the answered text; where that is an older text, the typed one is in flight |
| `DirPrompt.OldHintSubmitted` | `src/tui/attach.rs:652-661` | witness: a run in which Enter falls back to a hint for an older text |
| `DirPrompt.HintsSettle` | `src/tui/attach.rs:533-564` | once edits stop at most two replies have to land before the hints answer the text |
| `DirPrompt.EffectIff` | `src/tui/attach.rs:607-668` | which message hands out the line or closes the prompt, and what becomes of a refusal |
| `DirPrompt.HintPicked` | `src/tui/attach.rs:553-651` | after a reply has landed, k rows down is the hint of that number, or the last one, and completing makes it the text |
| `DirPrompt.LineEdited` | `src/tui/attach.rs:607-636` | what typing, pasting and deleting do to the text before and behind the cursor |
| `DirPrompt.LineMoved` | `src/tui/attach.rs:607-636` | where each motion leads |
| `DirPrompt.FlattenIs` | `src/tui/components.rs:47-49` | a pasted text comes in with a space for each newline of the normalized text |
| `DirPrompt.DirPrompt.OpenAt` | `src/tui/attach.rs:503-512` | the prompt shows the given directory and forgets hints, refusal and the awaited reply |
| `DirPrompt.DirPrompt.Shut` | `src/tui/attach.rs:514-522` | closing empties the prompt; its request numbers go on |
| `DirPrompt.DirPrompt.HintsRequest` | `src/tui/attach.rs:533-550` | the prompt asks what its value says is owed |
| `DirPrompt.DirPrompt.SetHints` | `src/tui/attach.rs:553-564` | only the awaited reply lands |
| `DirPrompt.DirPrompt.Update` | `src/tui/attach.rs:607-669` | every message does to the line and the fields what it does to the prompt as a value |
| `DirPrompt.DirPrompt.Hop` | `src/tui/app.rs:2313-2332` | the app hands the message over and then sends the request that is owed |
| `Commands.OpensIff` | `src/tui/commands.rs:380-400` | a text is read as a command exactly when, white space aside, it opens with a slash or a colon that is not doubled; what follows is read |
| `Commands.FindIff` | `src/tui/commands.rs:415-419` | the first action found is the only one of that name, whatever the case |
| `Commands.ParsersDisjoint` | `src/tui/commands.rs:402-507` | no text is read by two of the three parsers |
| `Commands.CustomReads` | `src/tui/commands.rs:162-173` | a custom command's alias reads back as that command and its trimmed arguments, behind either trigger and however the white space lies, exactly when its name is one a command may have |
| `Commands.BuiltinReads` | `src/tui/commands.rs:402-427` | a builtin's name in any case reads back as its action and arguments, and as nothing when arguments follow that it does not take |
| `Commands.SkillReads` | `src/tui/commands.rs:440-458` | a skill's name reads back exactly when it is one non-empty word |
| `Commands.LiteralReads` | `src/tui/commands.rs:357-373` | doubling the trigger sends any text that opens with one as it is: nothing reads the doubled form and unescaping gives the text back |
| `Commands.EscapeAtFrontIff` | `src/tui/commands.rs:366-373` | of a text whose trimmed form is escaped, unescaping takes the extra character off exactly when no white space stands in front |

## Left out

- `TextArea.TextArea.Update`: asks that typed and pasted text hold no private-use characters U+E000 to U+F8FF (`Plain`), which the original takes for paste markers; of an edit that panics it says when, and nothing of the state left behind.
- `DirPrompt.DirPrompt.Update`: likewise asks for text and hints without private-use characters.
- `Scheduler.PeakNeverStarves`: the peak schedule governs the model throughout the run; with the schedule withdrawn the countdown is disarmed.
- `Paths.LabelRoundTrip`: home, if there is one, is taken to be absolute.
- `PastePath.ShellEscapeRoundTripIff`: `String::from_utf8` is its specification, the text with those bytes if there is one, and not a decoder.
- `AddProvider.Form.RebuildRows`: which providers match the filter, and in what order, is an argument.
- `RenderLoop.RenderLoop.CloseTab`: that the last tab is not closed is asked for here, because the original refuses it where the command is run (`CloseActive`).
- `App.App.Update`: handlers do not change the width of a screen and do not themselves switch, open or close tabs.
- Character widths are a parameter of the wrapping; the proofs ask only that printable ASCII takes one column each.
- Mouse coordinates and screen sizes are natural numbers: the saturation of 16-bit screen geometry is not modelled.
- The numbering of paste slots as 32-bit values: with at most 6400 slots the conversion never wraps.
- Painting of any kind, popups, themes, spinners and the status rows; key mapping.
- Popups and app-wide state that a background tab's message may touch: isolation is about the tabs.
- Channel capacities, Tokio scheduling and stream internals; a channel is a sender count and a log of what was sent, and a dropped command is not modelled.
- `Cores::shutdown_all`, and the failure branches of spawning a core.
- Whether a typed directory exists is not modelled: that the app refuses it or closes the prompt are messages of `DirPrompt`.
- Windows path prefixes, network paths and drive letters, except in the guess whether a text looks like a path.
- File, process and network code; sessions, the tree, search, the registry and the tab strip as shown on screen.
- Running an expanded command or skill, and the guard that holds a mistyped command for confirmation.
