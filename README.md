# A verified model of the untitled-unmastered editor core

untitled-unmastered is a small modal text editor written in Rust. This
project models its core in Dafny and proves properties of the model. The
core has five parts:

- **The piece arena** (`src/buffer/piece_list.rs`, module `Arena`). It is a
  doubly-linked list of pieces kept in a vector of nodes, linked by
  `NodeIndex` values rather than pointers, with a free list of retired
  slots. The live code holds `NodeIndex`, `PieceList::new`, `iter` and the
  iterator. The structural edits (`insert_before`, `remove`) and the
  `PieceCursor` exist only in a commented-out earlier version; the model
  gives them as methods of a `PieceList` class over a `seq<Node>` field.
  That version links nodes by raw `usize` slots and marks a missing link
  with `INVALID_NODE_INDEX`; the model stores these as the live
  `NodeIndex` values `At(i)` and `Empty()`. Its `new`
  (src/buffer/piece_list.rs:80-91) sets `head` and `tail` to slot 0 of a
  one-node vector, which is what `PieceList.Single` does.
- **The byte piece table** (`src/buffer/mod.rs`, module `PieceTable`). It has
  an immutable `original` byte store, an `append` store, the arena of pieces,
  and a caret of grapheme column, line and remembered column. It covers
  `from`, `to_string`, the two cursor moves, `cursor`,
  `cursor_position_in_buffer`, and the commented body of `remove`. The
  code is modelled as written (`Buffer.From`, `Buffer.Remove`). Where it
  goes wrong, a corrected version sits beside it (`Buffer.FromSingle`,
  `Buffer.RemoveSpliced`), and "## Findings" names the input that tells
  the two apart.
- **The earlier char piece table** (`src/buffer.rs`, module `CharTable`). Its
  pieces live in a vector and are linked by optional indices. `insert` only
  pushes pieces and re-points `first`; `to_string` follows `next` from
  `first`.
- **The modal editor** (`src/editor.rs`, module `EditorModel`). It covers
  NORMAL and INSERT modes, the pending input that waits to match a command,
  its one-second timeout, and the scroll offset that follows the caret.
- **The `make_binding!` macro** (`rust-macros/src/lib.rs`, module
  `BindingMacro`). It turns a binding specification such as
  `CTRL | a, b` into the string of keys and one modifier mask per component.

Shared vocabulary lives in `Seqs`: `Option`, flattening, sums, Rust's
`split` and `join`. `Text` holds UTF-8 well-formedness, grapheme
segmentation as a parameter (`Segmenter`), `str::len` and `str::trim`.

Stateful source types become classes whose methods state their whole new
state: `PieceList`, `PieceIterator`, `PieceCursor`, both `Buffer`s and
`Editor`. The specification functions those methods are proved against
carry the lemmas: `Render`, `CutPieces`, `CutPiecesAsWritten`,
`InsertResult`, `Step`, `ScrollOffset`, `KeysOf`, `ModifsOf` and others.

Two modelling conventions apply throughout:

- `usize` is a natural below 2^64. The `i64` casts of the cursor moves are
  written out (`WrappingAdd`).
- Grapheme segmentation, `Instant` (a duration is a number of nanoseconds)
  and the key modifiers (an abstract type) are parameters.

## Model

| member | source | states |
|---|---|---|
| Arena.With | src/buffer/piece_list.rs:7-9 | as written: `with(v)` stores `v` unchanged, so `with(0)` is the empty index and `with(v)` designates slot `v - 1` |
| Arena.Empty | src/buffer/piece_list.rs:10-12 | the empty index designates no slot |
| Arena.At | src/buffer/piece_list.rs:7-18 | corrected `with`: storing `i + 1` makes `get` return slot `i` |
| Arena.IndexOf | src/buffer/piece_list.rs:7-18 | for an optional slot, the index that designates exactly that slot |
| Arena.GetInvertsAt | src/buffer/piece_list.rs:13-18 | `get` and the corrected `with` are inverse: every non-empty index is `At` of its slot, and no two indices share a slot |
| Arena.WithMissesItsSlot | src/buffer/piece_list.rs:7-18 | as written, `with(v)` never designates slot `v`, `with(0)` is empty, and `with(v + 1)` is the corrected `At(v)` |
| Arena.Values | src/buffer/piece_list.rs:55-75 | the pieces of a slot order, one per slot, each the piece stored in that slot |
| Arena.PositionIn | src/buffer/piece_list.rs:103-168 | the position of a slot on the list |
| Arena.ValuesSplice | src/buffer/piece_list.rs:103-168 | splicing slots into an order splices their pieces into the values, when kept slots keep their pieces |
| Arena.LinkedAfterReplace | src/buffer/piece_list.rs:125-137 | the neighbour updates of `insert_before`, as written, thread the list with the new slot in the pivot's place, forward and backward |
| Arena.LinkedAfterSplice | src/buffer/piece_list.rs:125-137 | linking a slot between the pivot's predecessor and the pivot keeps the list threaded both ways with the slot inserted |
| Arena.LinkedAfterRemove | src/buffer/piece_list.rs:142-168 | unlinking a slot keeps the rest threaded both ways and puts the slot at the head of the free list |
| Arena.RemovedFreeList | src/buffer/piece_list.rs:164-165 | the removed slot, linked to the old free list, heads the new free list |
| Arena.RemovedValues | src/buffer/piece_list.rs:142-168 | the slots left on the list keep their pieces |
| Arena.PieceList.Contents | src/buffer/piece_list.rs:55-75 | the pieces in list order, one per slot of the chain |
| Arena.PieceList.constructor | src/buffer/piece_list.rs:33-42 | as written: one node holds the piece, but `head` and `tail` are `with(0)`, so the list reaches no node |
| Arena.PieceList.Single | src/buffer/piece_list.rs:33-42 | corrected `new`: a list holding exactly the given piece, as the comment "never empty" intends |
| Arena.PieceList.Iter | src/buffer/piece_list.rs:55-60 | a fresh iterator at `head` that has yielded nothing |
| Arena.PieceList.Cursor | src/buffer/piece_list.rs:170-175 | a fresh cursor before the first node |
| Arena.PieceList.Allocate | src/buffer/piece_list.rs:116-123 | the slot reused from the head of the free list, or a new slot pushed when the free list is empty; the list itself is unchanged |
| Arena.PieceList.InsertBefore | src/buffer/piece_list.rs:103-140 | as written: the new node takes the pivot's links, so it replaces the node at the pivot's position (the pivot itself, or the node it still links around after a `remove`); the pivot is then off the list, does not reach the free list, and keeps its links |
| Arena.PieceList.SpliceBefore | src/buffer/piece_list.rs:103-140 | corrected insertion: the list's pieces gain the new piece just before the pivot, or at the end when there is no pivot |
| Arena.PieceList.Remove | src/buffer/piece_list.rs:142-168 | returns the removed node; the list loses exactly that piece, the rest stay in order, and the slot heads the free list |
| Arena.PieceList.Relink | src/buffer/piece_list.rs:125-137 | the neighbour fix-up: the `next` of the node before the gap and the `prev` of the node after it, or `head`/`tail` at the ends |
| Arena.PieceIterator.constructor | src/buffer/piece_list.rs:55-60 | an iterator at `head` of the given list |
| Arena.PieceIterator.Next | src/buffer/piece_list.rs:69-75 | yields the pieces of the list in order, then `None`, and never changes the list |
| Arena.PieceCursor.constructor | src/buffer/piece_list.rs:170-175 | a cursor before the first node |
| Arena.PieceCursor.Next | src/buffer/piece_list.rs:214-223 | steps over and returns the node after the cursor, or `None` at the end |
| Arena.PieceCursor.Prev | src/buffer/piece_list.rs:224-233 | steps back over and returns the node before the cursor, or `None` at the start |
| Arena.PieceCursor.RemovePrev | src/buffer/piece_list.rs:234-240 | removes exactly the piece before the cursor; nothing changes at the start |
| Arena.PieceCursor.ValidPivots | src/buffer/piece_list.rs:241-246 | a cursor with a node after it can call `insert_before` as written: that node is a pivot the list's `insert_before` accepts |
| Arena.PieceCursor.InsertBefore | src/buffer/piece_list.rs:241-246 | as written: the new piece replaces the node after the cursor, which stays at the same position and keeps the old `next` index as its pivot; there must be a node after the cursor, since `get` on the empty index panics |
| Arena.PieceCursor.SpliceBefore | src/buffer/piece_list.rs:241-246 | corrected: the new piece goes just before the cursor, which then stands after it |
| PieceTable.WrappingAddIsModular | src/buffer/mod.rs:182 | `((u as i64) + d) as usize` is the sum modulo 2^64, and the plain sum when that is a `usize` |
| PieceTable.Slice | src/buffer/mod.rs:163 | a piece's slice of its store has the piece's length |
| PieceTable.RenderConcat | src/buffer/mod.rs:156-167 | the text of concatenated piece lists is the concatenation of their texts |
| PieceTable.RenderSnoc | src/buffer/mod.rs:156-167 | one more piece appends its slice to the text |
| PieceTable.RenderStep | src/buffer/mod.rs:156-167 | the text of a prefix grows by one slice per piece |
| PieceTable.RenderLength | src/buffer/mod.rs:156-167 | the byte length of the text is the sum of the piece lengths |
| PieceTable.TotalLengthConcat | src/buffer/mod.rs:156-167 | piece lengths add up over concatenation |
| PieceTable.RenderIsUtf8 | src/buffer/mod.rs:164 | when every slice is valid UTF-8, so is the text, so `to_string` does not panic |
| PieceTable.Lines | src/buffer/mod.rs:173 | `split('\n')` always gives at least one line |
| PieceTable.HorizontalMoveStep | src/buffer/mod.rs:169-185 | a one-step move goes exactly one column left or right unless it would leave the line, never reaches the line's grapheme count, and sets the remembered column when it moves |
| PieceTable.HorizontalMove | src/buffer/mod.rs:178-184 | the line stays; the column changes only when the move does not leave the line, a move sets the remembered column, and a zero move keeps the column |
| PieceTable.Column | src/buffer/mod.rs:203-208 | the column never passes the remembered one and lies inside a non-empty line |
| PieceTable.ColumnClamps | src/buffer/mod.rs:203-208 | the column is the remembered column clamped to the last grapheme, or 0 on an empty line |
| PieceTable.VerticalTarget | src/buffer/mod.rs:196-201 | the line changes only when the move does not leave the text, and a zero move keeps it |
| PieceTable.VerticalMove | src/buffer/mod.rs:189-209 | the caret lands on a line of the text, keeps its remembered column, goes no further right than it, and stands on a grapheme of a non-empty line |
| PieceTable.VerticalMoveStep | src/buffer/mod.rs:189-209 | a one-step move stays on a line of the text, goes exactly one line unless blocked, keeps the remembered column, and clamps the column to the new line |
| PieceTable.LinesWithBreaks | src/buffer/mod.rs:225-228 | each of the first `n` lines followed by its newline |
| PieceTable.LinesPrefix | src/buffer/mod.rs:221-228 | a text begins with its first `n` lines, each with its newline, followed by line `n` |
| PieceTable.CursorOffset | src/buffer/mod.rs:219-235 | the caret at the origin is at byte 0 |
| PieceTable.CursorOffsetSpellsPrefix | src/buffer/mod.rs:219-235 | the caret offset is where the text spells the lines above the caret with their newlines and then the caret's first graphemes, so it never passes the end of the text |
| PieceTable.RemoveFragments | src/buffer/mod.rs:140-148 | each fragment made is a non-empty part of the piece, over the piece's store |
| PieceTable.FragmentsPartition | src/buffer/mod.rs:140-148 | the fragments of `remove` split the piece around the grapheme: the bytes before it and the bytes after it, each present exactly when non-empty |
| PieceTable.FragmentsSpellCut | src/buffer/mod.rs:140-148 | over the piece's store, the fragments spell the piece's bytes with the grapheme's bytes cut out |
| PieceTable.Locate | src/buffer/mod.rs:111-117 | the scan of `remove` stops at the first piece holding the position, or passes all pieces |
| PieceTable.LocateFinds | src/buffer/mod.rs:111-117 | the piece found starts after exactly the pieces before it; a piece is found exactly when the position is inside the text |
| PieceTable.CutBytes | src/buffer/mod.rs:140-148 | cutting bytes out of one piece of a text cuts them out of the text |
| PieceTable.CutText | src/buffer/mod.rs:127-148 | replacing the piece holding a position by its fragments cuts the grapheme's bytes out of the text |
| PieceTable.GraphemeLength | src/buffer/mod.rs:129-138 | the first grapheme from a byte offset is non-empty and does not pass the end of the store |
| PieceTable.LocateInText | src/buffer/mod.rs:111-117 | the scan from the first piece finds a piece exactly for positions inside the text |
| PieceTable.RemovedLengthPositive | src/buffer/mod.rs:129-138 | `remove` cuts a non-empty grapheme exactly at positions inside the text |
| PieceTable.CutPiecesCutText | src/buffer/mod.rs:107-152 | a fitting cut at a position inside the text removes exactly those bytes from the text |
| PieceTable.CutPieces | src/buffer/mod.rs:107-152 | a cut loses at most one piece and gains at most one |
| PieceTable.CutPiecesPastEnd | src/buffer/mod.rs:111-117 | at a position past the end, the pieces are left alone |
| PieceTable.CutPiecesAt | src/buffer/mod.rs:127-148 | once the scan has found a piece, the cut replaces it by its fragments |
| PieceTable.RemovePlan | src/buffer/mod.rs:119-148 | the grapheme cut is taken from the found piece's store, and the resulting pieces still lie in the stores |
| PieceTable.RemoveCutsText | src/buffer/mod.rs:107-152 | the corrected cut removes exactly the grapheme's bytes from the text at a position inside it, leaves the text alone past its end, and keeps the pieces in the stores |
| PieceTable.CutNothing | src/buffer/mod.rs:111-117 | when the scan passes every piece, both the as-written and the corrected cut leave the pieces alone |
| PieceTable.CutAsWrittenLosesNext | src/buffer/mod.rs:127-148 | as written, a cut that finds a piece leaves one piece fewer: without fragments it is the corrected cut, otherwise the last fragment stands in the cut piece's place and the piece after it is gone |
| PieceTable.CutAsWrittenInStore | src/buffer/mod.rs:127-148 | the pieces left by the as-written cut still lie in the stores |
| PieceTable.RemoveAsWrittenPlan | src/buffer/mod.rs:119-148 | as written, once the scan has found a piece: the grapheme is cut from its store, a fragment left means a piece follows, and the result is the fragment overwrite of the pieces without the found one |
| PieceTable.RemoveAsWrittenOverwritesNext | src/buffer/mod.rs:127-148 | pieces "abc" and "de" with the one-byte cut at offset 1: as written the text becomes "c", the corrected cut gives "acde" |
| PieceTable.RemoveAsWrittenPanicsAtEnd | src/buffer/mod.rs:140-148 | the single piece "abc" with the one-byte cut at offset 1: the cut fits the piece, but as written no node follows for `insert_before`, so it panics |
| PieceTable.Buffer.From | src/buffer/mod.rs:33-51 | as written: the source becomes the original store and the arena's one node holds a piece over all of it, but through the as-written `PieceList::new` the list reaches no node, so the text is empty whatever the source; the caret is at the origin |
| PieceTable.Buffer.FromSingle | src/buffer/mod.rs:33-51 | corrected: one original piece covering the whole source, an empty append store, the caret at the origin, and the text equal to the source |
| PieceTable.Buffer.ToString | src/buffer/mod.rs:156-167 | the slices of the pieces in list order: the buffer's text |
| PieceTable.Buffer.MoveCursorHorizontal | src/buffer/mod.rs:169-185 | the caret moves by `x` on its line unless that would leave the line; the text and the pieces are unchanged |
| PieceTable.Buffer.MoveCursorVertical | src/buffer/mod.rs:189-209 | the caret line moves by `y` unless that would leave the text, the column is the remembered one clamped to the new line, and the text is unchanged |
| PieceTable.Buffer.Cursor | src/buffer/mod.rs:213-215 | `cursor` returns the caret's column and line, in that order |
| PieceTable.Buffer.CursorPositionInBuffer | src/buffer/mod.rs:219-235 | the byte offset of the caret, which spells the lines above it and the graphemes to its left, and never passes the end of the text |
| PieceTable.Buffer.Seek | src/buffer/mod.rs:109-117 | the scan of `remove`: the cursor stops just after the first piece holding `position` and returns it with its start in the text, or returns nothing after passing every piece |
| PieceTable.Buffer.Remove | src/buffer/mod.rs:107-152 | as written: the pieces become `CutPiecesAsWritten`, so the found piece is dropped and its fragments overwrite the piece after it; a position past the end changes nothing |
| PieceTable.Buffer.CutFound | src/buffer/mod.rs:119-148 | as written, once the scan has passed the piece: `remove_prev`, then the fragments through the cursor's `insert_before`, giving `CutPiecesAsWritten` |
| PieceTable.Buffer.InsertFragments | src/buffer/mod.rs:140-148 | as written: each present fragment replaces the piece after the cursor, so only the last one made stays, in that piece's place |
| PieceTable.Buffer.RemoveSpliced | src/buffer/mod.rs:107-152 | corrected: the piece holding `position` is replaced by the fragments around the grapheme there, which cuts exactly that grapheme out of the text; a position past the end changes nothing |
| PieceTable.Buffer.SpliceFound | src/buffer/mod.rs:119-148 | corrected, once the scan has passed the piece: the pieces become `CutPieces` |
| PieceTable.Buffer.SplicePrev | src/buffer/mod.rs:127-148 | corrected: `remove_prev` and the fragment insertions replace the piece before the cursor by the fragments |
| PieceTable.Buffer.SpliceFragments | src/buffer/mod.rs:140-148 | corrected: each fragment is inserted before the cursor when present, in order |
| PieceTable.Buffer.SpliceFragment | src/buffer/mod.rs:140-147 | corrected: one insertion before the cursor, made only when the fragment is present, after which the cursor stands after it |
| CharTable.Chain | src/buffer.rs:140-159 | the indices visited following `next`, all inside the vector |
| CharTable.ChainRankFree | src/buffer.rs:140-159 | the visited chain depends on the links only |
| CharTable.ChainGrows | src/buffer.rs:80-123 | pushing pieces leaves the chain from an old index unchanged |
| CharTable.ChainStep | src/buffer.rs:142-155 | one step of `to_string`: the slice of the piece, then the text from its `next` |
| CharTable.RenderLength | src/buffer.rs:140-159 | the text has the total length of the visited pieces |
| CharTable.RenderAppendGrows | src/buffer.rs:51-54 | chars pushed onto the append store leave the text of old pieces alone |
| CharTable.RenderPiecesGrow | src/buffer.rs:80-123 | pushed pieces leave the text of a chain of old indices alone |
| CharTable.Find | src/buffer.rs:56-66 | the piece the scan of `insert` finds is on the table, starts between `searchPos` and `pos`, and its end reaches `pos` |
| CharTable.FindIsFirst | src/buffer.rs:56-66 | the found piece is the k-th of the chain for some k, its start is `searchPos` plus the lengths of the k pieces before it, and no earlier piece's end reaches `pos`: the scan stops at the first piece that does |
| CharTable.FindStep | src/buffer.rs:58-66 | one step of the scan along the chain |
| CharTable.FindNone | src/buffer.rs:56-137 | the scan finds nothing exactly when the chain is empty or `pos` is past the chain's text |
| CharTable.Pushed | src/buffer.rs:66-131 | as written, once the scan has found the piece: two or three pieces are pushed after the old ones, which stay; the last is the new APPEND piece over the inserted chars; `first` stays or moves to a pushed piece |
| CharTable.InsertResult | src/buffer.rs:66-131 | `insert` only pushes pieces, none, two or three of them, and the last one pushed covers the inserted chars |
| CharTable.InsertPushesIffInText | src/buffer.rs:56-137 | pieces are pushed exactly when the chain is non-empty and `pos` is within its text; otherwise nothing changes |
| CharTable.InsertKeepsRanked | src/buffer.rs:66-131 | after `insert`, following `next` still always ends and `first` is in the vector |
| CharTable.RenderCons | src/buffer.rs:142-155 | a piece in front of a chain renders as its slice followed by the chain's text |
| CharTable.PrependShape | src/buffer.rs:67-93 | at the start of a head without `prev`, the new piece becomes `first` and leads to a copy of the old head |
| CharTable.RenderTwo | src/buffer.rs:142-155 | two pieces in front of a chain render as their two slices, then the chain's text |
| CharTable.RenderGrows | src/buffer.rs:51-123 | pushed chars and pieces leave the text of old pieces alone |
| CharTable.PrependText | src/buffer.rs:67-93 | after a prepend's pushes, the text is the inserted chars, then the old head's chars, then the rest |
| CharTable.PrependAtStart | src/buffer.rs:50-93 | with ASCII text, inserting at position 0 makes the text the inserted text followed by the old text |
| CharTable.InsertInsidePieceOverruns | src/buffer.rs:94-130 | as written: after `from("abc")` and `insert("x", 1)`, the chain keeps "ab" before the new piece and then reaches a piece past the end of the store |
| CharTable.SplitPushed | src/buffer.rs:94-130 | corrected cuts: the old pieces stay, the two cuts share the piece's length, and the pushed pieces link first cut, new piece, second cut between the old piece's neighbours |
| CharTable.SplitPushedSpellsInsert | src/buffer.rs:94-130 | with the cuts corrected, the pushed pieces followed in link order lie in the stores and spell the piece's chars before `pos`, the inserted chars, then the rest of the piece |
| CharTable.FromText | src/buffer.rs:35-49 | the piece of `from(s)` lies inside the store exactly when `s` is ASCII, and the text is then `s` |
| CharTable.Buffer.constructor | src/buffer.rs:27-34 | empty stores, no pieces, no `first`, and an empty text |
| CharTable.Buffer.From | src/buffer.rs:35-49 | the chars of the source, one original piece of its byte length, readable exactly for ASCII sources |
| CharTable.Buffer.Insert | src/buffer.rs:50-138 | the chars are pushed onto the append store, and the pieces and `first` become `InsertResult` |
| CharTable.Buffer.Push | src/buffer.rs:66-131 | the pushes once the scan has found the piece: exactly the pieces and `first` of `InsertResult` |
| CharTable.Buffer.ToString | src/buffer.rs:140-159 | the slices of the pieces met following `next` from `first`, in order |
| EditorModel.InsertIsFinal | src/editor.rs:115-162 | no sequence of inputs ever leaves INSERT mode |
| EditorModel.StuckInputAccumulates | src/editor.rs:65-114 | a pending text that no command starts with never matches: every later input is appended to it and the mode never changes |
| EditorModel.StepSettles | src/editor.rs:65-162 | the timeout restarts at one second; a recognised command leaves nothing pending, anything else leaves all of it pending in order; INSERT is reached only from "i" or "a" |
| EditorModel.FadeSplits | src/editor.rs:164-171 | whether the pending input fades does not depend on how the elapsed time is split between calls, and the timeout never grows |
| EditorModel.NextMode | src/editor.rs:87-108 | only a NORMAL command switches the mode, and only to INSERT |
| EditorModel.MotionOf | src/editor.rs:87-108 | only a NORMAL command moves the caret, and by one column or one line |
| EditorModel.Step | src/editor.rs:65-162 | INSERT mode is never left, and an input that switches the mode or moves the caret leaves nothing pending |
| EditorModel.Fade | src/editor.rs:164-171 | the timeout never grows, the pending input is kept whole or dropped whole, and no elapsed time changes nothing |
| EditorModel.ScrollOffset | src/editor.rs:55-60 | the offset moves by exactly `y` or stays, and stays on a zero move |
| EditorModel.ScrollRule | src/editor.rs:55-60 | the offset grows by `y` on a move down past line `height - 7` of the window, shrinks on a move up above line 5 when it stays non-negative, and stays otherwise |
| EditorModel.ScrollKeepsMargins | src/editor.rs:51-60 | on a window of at least 12 lines, a one-line move and its scroll keep the caret inside the margins |
| EditorModel.Editor.constructor | src/editor.rs:29-44 | NORMAL mode over an empty buffer, the caret at the origin, nothing pending and a one-second timeout |
| EditorModel.Editor.MoveCursorHorizontal | src/editor.rs:46-49 | the buffer's horizontal move; the text, the append buffer and `piece_under_cursor` are unchanged |
| EditorModel.Editor.MoveCursorVertical | src/editor.rs:51-63 | the buffer's vertical move, then the scroll offset of `ScrollOffset`; the modes, pending input, file path, text, append buffer and `piece_under_cursor` are unchanged |
| EditorModel.Editor.HandleInput | src/editor.rs:65-80 | the new state is one `Step` of the pure input machine, and the caret and offset make the motion of the pending text; the file path, text, append buffer and `piece_under_cursor` are unchanged |
| EditorModel.Editor.HandleInputInNormalMode | src/editor.rs:82-114 | each NORMAL command's mode switch (`NextMode`) and cursor move (`MotionOf`, through `Move`); a recognised command clears the pending input; the file path, text, append buffer and `piece_under_cursor` are unchanged. The match at src/editor.rs:86-108 is the helper `NormalArm` |
| EditorModel.Editor.Move | src/editor.rs:88-96 | a motion of one column or line does what `Moved` says to the caret and the offset; the modes, pending input, file path, text, append buffer and `piece_under_cursor` are unchanged |
| EditorModel.Editor.HandleInputInInsertMode | src/editor.rs:115-162 | "a" only clears the pending input; the mode stays INSERT; the offset and file path are unchanged, and the buffer is outside its frame |
| EditorModel.Editor.FadeMatchingInput | src/editor.rs:164-171 | after more than the time left, the pending input is dropped; otherwise the time left shrinks by `delta`; the mode, offset and file path are unchanged, and the buffer is outside its frame |
| BindingMacro.Modif | rust-macros/src/lib.rs:19-25 | a component's mask is CTRL, SHIFT, ALT or 0, and non-zero exactly for a modifier name |
| BindingMacro.TrimAllAt | rust-macros/src/lib.rs:11 | `map(str::trim)` trims each part and keeps their number |
| BindingMacro.KeysOf | rust-macros/src/lib.rs:18-27 | the keys are never longer than the components run together |
| BindingMacro.ModifsOf | rust-macros/src/lib.rs:18-27 | exactly one mask per component |
| BindingMacro.ModifsAt | rust-macros/src/lib.rs:18-26 | the `i`th mask is the `i`th component's |
| BindingMacro.MakeBinding | rust-macros/src/lib.rs:9-31 | the keys are the non-modifier components run together, and the masks are one per component, in the order of the loops |
| BindingMacro.KeysInOrder | rust-macros/src/lib.rs:24 | each non-modifier component appears in the keys between the keys before it and the keys after it |
| BindingMacro.KeysOfModifiers | rust-macros/src/lib.rs:21-23 | modifier names never reach the keys |
| BindingMacro.SplitCount | rust-macros/src/lib.rs:11-17 | a split has one more part than the separators it splits on |
| BindingMacro.TrimKeepsCount | rust-macros/src/lib.rs:11-17 | trimming keeps every non-white-space character |
| BindingMacro.ModifsCount | rust-macros/src/lib.rs:11-28 | there is one mask per component: one more than the count of '|' and ',' in the specification |
| BindingMacro.PaddedComponent | rust-macros/src/lib.rs:17-25 | white space around a component changes neither its mask nor its key part |
| BindingMacro.PaddedBinding | rust-macros/src/lib.rs:17 | white space around a binding gives the same components |
| Seqs.Split | rust-macros/src/lib.rs:11 | `split` gives at least one part, and no part holds the separator |
| Seqs.JoinSplit | rust-macros/src/lib.rs:11 | joining the parts of a `split` gives back the input |
| Seqs.SplitJoin | rust-macros/src/lib.rs:11 | splitting a join of separator-free parts gives back the parts |
| Text.Trim | rust-macros/src/lib.rs:11 | `trim` never lengthens its input, and its result neither starts nor ends with white space |
| Text.TrimBothEnds | rust-macros/src/lib.rs:11 | `trim` is `trim_end` after `trim_start` |
| Text.TrimPadded | rust-macros/src/lib.rs:11 | white space around a string does not change its trimmed form |
| Text.Utf8LengthCountsChars | src/buffer.rs:38 | `str::len` counts bytes; it equals the number of chars exactly for ASCII |

## Left out

- `CharacterIterator` (src/buffer/piece_list.rs:178-206): commented out and unfinished. It is not part of this model.
- The `PieceList` stubs `next`, `prev`, `insert_after` and `delete`: they have empty bodies or a `todo!()` and define no behaviour.
- The commented `len` and `get_by_id`: they only read the vector length and one node, and no modelled operation uses them.
- `Buffer::insert_under_cursor` and `Buffer::get` (src/buffer/mod.rs): they panic through `todo!()` and depend on the missing `piece_under_cursor`.
- `PieceTable.Buffer.Remove`: the live `remove` panics at its first line with `todo!()`. `Buffer.Remove` models the commented body that follows it, as written, and `Buffer.RemoveSpliced` models its evident intent.
- `PieceTable.Buffer.MoveCursorHorizontal`, `PieceTable.Buffer.MoveCursorVertical`: both end in `todo!("piece_under_cursor")`, which panics after the caret update. The model stops before that panic, and `piece_under_cursor` is kept unchanged.
- `PieceTable.Buffer.ToString`: the panic of `from_utf8(...).unwrap_or_else` is excluded by requiring UTF-8 pieces. `PieceTable.RenderIsUtf8` proves that this suffices.
- `PieceTable.GraphemeLength`: the `from_utf8_unchecked` call and the "does not exist" panic are not modelled. Segmentation is a parameter, and the store past the offset is never empty where it is called.
- `PieceTable.Buffer.Remove`: requires that the grapheme ends inside its piece. Otherwise `piece_length - remove_offset - len` underflows and panics. As written it also requires a piece after the cut one whenever a fragment is left: the cursor's `insert_before` otherwise calls `get` on the empty index and panics (`PieceTable.RemoveAsWrittenPanicsAtEnd`).
- `PieceTable.Buffer.RemoveSpliced`: requires, like `remove`, that the grapheme ends inside its piece.
- `Arena.PieceCursor.InsertBefore`: requires a node after the cursor. At the end of the list the code calls `get` on the empty index and panics. `Arena.PieceCursor.SpliceBefore` handles that case as the corrected insertion.
- `PieceTable.Buffer.From`: models `from` as written, so the buffer's text is empty for every source (see "## Findings"). `PieceTable.Buffer.FromSingle` is the corrected constructor. The editor builds its buffer with `From` from an empty source, as `Editor::new` does, and the two constructors agree on it.
- `CharTable.Buffer.Insert`: the `usize` overflow of `search_pos` is not modelled. Integers are unbounded.
- `CharTable.Buffer.ToString`: requires every visited piece to be sliceable. The slice panics otherwise, and `InsertInsidePieceOverruns` shows that the code as written can reach that panic.
- `CharTable.Buffer.Insert`: keeps the split as written. The corrected cuts are stated on the pushed pieces alone (`CharTable.SplitPushed`, `CharTable.SplitPushedSpellsInsert`). The source also never re-points the old piece's neighbours at the pushed pieces, so a corrected `insert` would need links that the code does not write.
- `EditorModel.Editor.HandleInput`: excludes "e" in NORMAL mode. That arm loops over `get_under_cursor`, an operation the buffer does not have.
- `EditorModel.Editor.HandleInputInNormalMode`: the arm's cursor move is made through one `Move` call after the command is decided, and the mode is set after that move, as in the "a" arm (src/editor.rs:90-91). This is the order of the source's arms, but not their whole effect: every moving arm panics inside the move (next line). The `println!` of "dd" is left out.
- `EditorModel.Editor.HandleInput`, `EditorModel.Editor.HandleInputInNormalMode`, `EditorModel.Editor.Move`, `EditorModel.Editor.MoveCursorHorizontal`, `EditorModel.Editor.MoveCursorVertical`, `EditorModel.ScrollOffset`, `EditorModel.ScrollRule`, `EditorModel.ScrollKeepsMargins`: in the source every moving arm ("a", "h", "l", "k", "j") ends in the buffer's `todo!("piece_under_cursor")` (src/buffer/mod.rs:186, 210) and panics. So today "a" never leaves NORMAL mode, the pending input is never reset after a move (src/editor.rs:110-113), and the scroll update (src/editor.rs:55-60) is never reached. The model continues past that panic: what these members state about the mode switch, the reset and the scroll offset describes code the source does not reach yet.
- `EditorModel.Editor.MoveCursorVertical`: requires `y_render_offset + window_height - 7` to be non-negative on a move down, since the `usize` subtraction panics otherwise. The `as usize` casts of `y` are exact for the ±1 moves the editor makes.
- `cursor_animation_instant`, `Instant::now` and `Duration`: clocks are left out, and a duration is a number of nanoseconds.
- `Modifiers` is abstract, since its structure plays no part in the modelled commands.
- The TokenStream conversions of `make_binding` (`to_string`, and formatting and parsing the result) are left out. `BindingMacro.MakeBinding` works on the specification string and returns the keys and masks.
- Debug-build overflow panics of `usize` arithmetic are not modelled beyond the cases named above.

## Findings

| source | as written | input that shows it | evidently intended | confidence | as-written member | corrected member |
|---|---|---|---|---|---|---|
| src/buffer/piece_list.rs:7-9, 33-42 | `NodeIndex::with(v)` stores `v` unchanged while `get` subtracts one, so `with(0)` is the empty index and `new` builds a list whose `head` and `tail` reach no node | `PieceList::new(p)`: iterating it yields nothing | `with(i)` stores `i + 1`, so the new list holds exactly `p` ("PieceList is never empty") | not executed | Arena.PieceList.constructor | Arena.PieceList.Single |
| src/buffer/mod.rs:43 | `Buffer::from` builds its pieces with `PieceList::new`, so it inherits the empty list | `Buffer::from("abc")`: `to_string` gives "" | the buffer's text is the source | not executed | PieceTable.Buffer.From | PieceTable.Buffer.FromSingle |
| src/buffer/piece_list.rs:103-140 | `insert_before` gives the new node the pivot's own `prev` and `next` and points the neighbours at it, so the pivot drops out of the list and its slot is lost | a list `[a]` and `insert_before(a, …)`: the list becomes `[new]` | the new node goes between the pivot's predecessor and the pivot | not executed | Arena.PieceList.InsertBefore | Arena.PieceList.SpliceBefore |
| src/buffer/piece_list.rs:241-246, src/buffer/mod.rs:140-148 | the cursor's `insert_before` passes the node after the cursor as the pivot, so each fragment of `remove` replaces that node; at the end of the list there is no pivot and `get` panics | pieces "abc" and "de" with `remove(1)`: the text becomes "c"; the single piece "abc" with `remove(1)` panics | the fragments take the removed piece's place, giving "acde" | not executed | PieceTable.RemoveAsWrittenOverwritesNext | PieceTable.Buffer.RemoveSpliced |
| src/buffer.rs:94-130 | inside a piece, the first cut gets the length of the part after `pos`, and the second cut starts at the end of the piece | `Buffer::from("abc")` then `insert("x", 1)`: the text keeps "ab" before "x" and then reads past the original store | the first cut is `pos - piece_pos_start` long, and the second starts at `piece.start + first.length` | not executed | CharTable.InsertInsidePieceOverruns | CharTable.SplitPushedSpellsInsert |
