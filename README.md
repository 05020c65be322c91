# libeditor core, modelled in Dafny

This project models the editor-side core of `libsyntax2`'s `libeditor` crate:

- **Edits** (`edit.dfy`): `AtomEdit` position and range mapping, and the
  `EditBuilder` that records replace/delete/insert atoms. Each new range is
  translated through the atoms recorded before it.
- **Editor queries** (`editor.dfy`): `matching_brace` with its `BRACES` table,
  `highlight`, `diagnostics` and `runnables`.
- **Code action** (`code_actions.dfy`): `flip_comma` and its sibling walks
  `siblings`, `siblings2` and `generate`, modelled as written. A corrected
  version sits beside it (see Findings).
- **Test helpers** (`test_support.dfy`): the `<|>` cursor marker
  (`extract_cursor`, `add_cursor`), `dbg_eq`, and the cursor fallback of
  the matching-brace test.

The syntax tree the queries run over is in `syntax.dfy`. It has a content
tree (kinds, children, token texts) and a located view (start offset,
parent link, index in the parent). The tree library's navigation
primitives are defined on that view. Text ranges are in `text_unit.dfy`;
`Option` and models of `filter_map`, `position` and `find` are in
`wrappers.dfy`.

Rust panics are modelled as failure values:

- "conflicting edits" in `translate` becomes `None`, and `Replace` returns
  `ok == false` with nothing recorded.
- `extract_cursor` on a text without a marker becomes `None`.

The builder's coordinates follow the code. `translate` maps a range forward
through every earlier atom, so atom `i`'s range is in the coordinates of the
text after atoms `0..i`, not in those of the original text.
`EditBuilder.Valid` states this, and `Replace` preserves it.

## Model

| member | source | states |
|---|---|---|
| Edits.ApplyToPosition | crates/libeditor/src/edit.rs:50-58 | `None` exactly when the position lies strictly inside the deletion. A position at or before the deletion start is unchanged, so a zero-length insert keeps its own offset. A position at or after the deletion end moves by the length change, and the subtraction cannot underflow. |
| Edits.ApplyToPositionMonotone | crates/libeditor/src/edit.rs:50-58 | Mapping keeps the order of positions, which is why `from_to` in `apply_to_range` never sees `start > end`. |
| Edits.ApplyToRange | crates/libeditor/src/edit.rs:60-65 | `None` iff either endpoint falls strictly inside the deletion; otherwise each endpoint is mapped on its own. |
| Edits.ApplyToRangeEnclosing | crates/libeditor/src/edit.rs:60-65 | A range that contains the whole deletion keeps its start and its end moves by the length change. |
| Edits.ApplyToPositionTracksText | crates/libeditor/src/edit.rs:50-58 | The mapped position points to the same text after the splice: before it, the same prefix when the position was at or before the deletion; after it, the same suffix when the position was after the deletion start. |
| Edits.TranslateThroughAppend | crates/libeditor/src/edit.rs:38-45 | Translating through `xs + ys` is translating through `xs`, then through `ys`. |
| Edits.TranslateFailsIff | crates/libeditor/src/edit.rs:38-45 | Translation fails ("conflicting edits") iff, for some atom, the range as translated through the atoms before it has an endpoint strictly inside that atom's deletion. |
| Edits.TranslateNoneExtends | crates/libeditor/src/edit.rs:40-43 | Once translation fails on a prefix of the atoms, it fails on the whole list. |
| Edits.EditBuilder.constructor | crates/libeditor/src/edit.rs:17-19 | `new` starts with no atoms, which satisfies the builder invariant. |
| Edits.EditBuilder.Translate | crates/libeditor/src/edit.rs:38-45 | The loop's result is the range translated through every recorded atom in order, or `None` at the first conflict. |
| Edits.EditBuilder.Replace | crates/libeditor/src/edit.rs:21-24 | On success, exactly one atom is appended: the translated range with the replacement. Earlier atoms are untouched and the invariant is preserved. On a conflict nothing changes. |
| Edits.EditBuilder.Delete | crates/libeditor/src/edit.rs:26-28 | The same as `replace(range, "")`: on success one atom with the translated range and empty text is appended and the range is recorded as requested; on a conflict nothing changes. |
| Edits.EditBuilder.Insert | crates/libeditor/src/edit.rs:30-32 | The same as `replace([offset, offset), text)`: on success one atom with the translated empty range is appended and that range is recorded as requested; on a conflict nothing changes. |
| Edits.EditBuilder.Finish | crates/libeditor/src/edit.rs:34-36 | The edit holds the recorded atoms, unchanged and in recording order. |
| Edits.SingleReplaceSplices | crates/libeditor/src/edit.rs:21-24 | With no earlier atoms a range translates to itself, and the single atom `([s, e), R)` turns text `T` into `T[..s] + R + T[e..]`. |
| Edits.SingleReplace | crates/libeditor/src/edit.rs:17-36 | `new`, one `replace([s, e), R)` and `finish` give an edit holding exactly that atom, which turns any text `T` containing the range into `T[..s] + R + T[e..]`. |
| Wrappers.FindIndex | crates/libeditor/src/lib.rs:67 | `position`: the index of the first element satisfying the predicate, or `None` when no element does. |
| Wrappers.Find | crates/libeditor/src/lib.rs:73-74 | `find`: `Some` iff some element satisfies the predicate; the element found satisfies it and sits at an index before which no element satisfies it. |
| Wrappers.FilterMapMembership | crates/libeditor/src/lib.rs:124-142 | An item is in the `filter_map` result iff some element maps to it. |
| Syntax.LeavesAt | crates/libeditor/src/lib.rs:65 | `find_leaf_at_offset` yields the non-empty leaves of the preorder walk whose range contains the offset or ends at it. This is an assumption about the tree library. |
| Editor.BraceTable | crates/libeditor/src/lib.rs:59-64 | The table pairs L_CURLY/R_CURLY, L_BRACK/R_BRACK, L_PAREN/R_PAREN and L_ANGLE/R_ANGLE at indices `2k`, `2k+1`, without repeats. |
| Editor.Xor1IsBitFlip | crates/libeditor/src/lib.rs:72 | On the table's indices, the arithmetic flip used here equals the bitwise `idx ^ 1`. |
| Editor.Xor1Pairs | crates/libeditor/src/lib.rs:72 | `idx ^ 1` stays in the table, changes the index, keeps the pair `idx / 2`, and undoes itself. |
| Editor.BracePositionOf | crates/libeditor/src/lib.rs:67 | The position of a table entry is its own index. |
| Editor.BracePositionFound | crates/libeditor/src/lib.rs:67 | A kind has a position iff it is a brace. |
| Editor.OppositeAt | crates/libeditor/src/lib.rs:72 | The matching kind of `BRACES[i]` is `BRACES[i ^ 1]`. |
| Editor.OppositeInvolution | crates/libeditor/src/lib.rs:59-72 | The matching kind is a brace, differs from the brace, and the matching kind of the matching kind is the brace itself. |
| Editor.OppositeTable | crates/libeditor/src/lib.rs:59-72 | Each opener matches its closer and back, for all four pairs. |
| Editor.BraceAt | crates/libeditor/src/lib.rs:65-70 | The brace found is a leaf at the offset with a brace kind, and no earlier leaf at the offset is a brace; `None` means no leaf there is a brace. |
| Editor.FirstBraceLeaf | crates/libeditor/src/lib.rs:65-70 | The `filter_map(..).next()` pipeline picks the same first brace leaf as a `find`, with that leaf's table index. |
| Editor.FirstIndexOfKind | crates/libeditor/src/lib.rs:73-74 | The index found is that of a child of the parent with the kind, and no earlier child has it. `None` means no child has it. |
| Editor.MatchingBrace | crates/libeditor/src/lib.rs:58-76 | `matching_brace`; its meaning is fixed by `MatchingBraceWithoutBrace`, `MatchingBraceWithoutParent` and `MatchingBraceFinds` (the first opposite-kind child of the brace's parent), bounded by `MatchingBraceInText`; `MatchingBraceSymmetric` and `MatchingBraceAdjacentPair` say when matching back leads to the start. |
| Editor.MatchingBraceWithoutBrace | crates/libeditor/src/lib.rs:65-70 | `None` when no leaf at the offset is a brace. |
| Editor.MatchingBraceWithoutParent | crates/libeditor/src/lib.rs:71 | `None` when the brace found has no parent. |
| Editor.MatchingBraceFinds | crates/libeditor/src/lib.rs:58-76 | From the brace found, the result is the start of the first direct child of its parent whose kind is the opposite brace, and `None` when there is no such child. No nesting depth is counted. |
| Editor.MatchingBraceInText | crates/libeditor/src/lib.rs:73-75 | The offset returned lies within the file's text. |
| Editor.SoleBraceAt | crates/libeditor/src/lib.rs:65-70 | A non-empty brace token that is the only brace leaf touching its own start is the brace found there. |
| Editor.MatchingBraceFromSole | crates/libeditor/src/lib.rs:58-76 | From such a brace's start, the result is the start of the first sibling of the opposite kind. |
| Editor.MatchingBraceSymmetric | crates/libeditor/src/lib.rs:58-76 | For two sibling brace tokens of opposite kinds, each the first child of its kind and the only brace leaf touching its own start, matching from either start gives the other's start. |
| Editor.CurlyPairStarts | crates/libeditor/src/lib.rs:58-76 | Under a root holding `{` then `}`, the opening brace starts at 0 and the closing one where the opening one ends. |
| Editor.CurlyPairPreorder | crates/libeditor/src/lib.rs:65 | The walk over such a root is the root, then the two braces. |
| Editor.CurlyPairLeaves | crates/libeditor/src/lib.rs:65 | At offset 0 only the opening brace is a leaf at the offset; at the closing brace's start both are, the opening one first. |
| Editor.CurlyPairBraceAt | crates/libeditor/src/lib.rs:65-70 | The opening brace is the brace found at both starts. |
| Editor.CurlyPairCloser | crates/libeditor/src/lib.rs:73-74 | The closing brace is the root's first `R_CURLY` child. |
| Editor.MatchingBraceAdjacentPair | crates/libeditor/src/lib.rs:58-76 | On `{}` (any opening brace token followed directly by a closing one), matching from either brace's start gives the closing brace's start: matching is not symmetric when a brace ends where the other starts. |
| Editor.TagOf | crates/libeditor/src/lib.rs:81-92 | `ERROR` is "error" before any other arm. "keyword" comes only for keyword kinds that no earlier arm matched. Kinds with no tag that are not keywords are skipped. |
| Editor.Highlight | crates/libeditor/src/lib.rs:78-99 | The loop emits, in preorder, one `(range, tag)` entry per node whose kind has a tag. |
| Editor.HighlightEntries | crates/libeditor/src/lib.rs:78-99 | An entry is in the highlight list iff some node of the walk has that range and that tag. |
| Editor.Diagnostics | crates/libeditor/src/lib.rs:101-117 | The count is the number of `ERROR` nodes plus the number of recorded errors. First come the `ERROR` nodes in preorder, then each recorded error with a one-unit range at its offset and its own message, with no deduplication. |
| Editor.ErrorNodeDiagnostics | crates/libeditor/src/lib.rs:104-111 | A tree-side diagnostic is exactly an `ERROR` node's range with the message "Syntax Error". |
| Editor.RunnableFor | crates/libeditor/src/lib.rs:126-141 | A function gives a runnable iff it has a name and the name is "main" or it has the `test` attribute. The kind is `Bin` iff the name is "main", whatever the attributes; a `Test` carries the name. The range is the whole function node. |
| Editor.Runnables | crates/libeditor/src/lib.rs:123-143 | `runnables`; `RunnablesFromFunctions`, `RunnableHasFunction` and `FunctionGivesRunnable` fix which runnables it lists, and `RunnableFor` what each one holds. |
| Editor.RunnablesFromFunctions | crates/libeditor/src/lib.rs:123-143 | A runnable is in the list iff some top-level `FN_DEF` child gives it. |
| Editor.RunnableHasFunction | crates/libeditor/src/lib.rs:123-143 | Every runnable in the list comes from a top-level `FN_DEF` child. |
| Editor.FunctionGivesRunnable | crates/libeditor/src/lib.rs:123-143 | Every top-level `FN_DEF` child that gives a runnable has that runnable in the list. |
| CodeActions.UnfoldNext | crates/libeditor/src/code_actions.rs:43-48 | The unfold over the `next_sibling` slot; `UnfoldNextFrom` and `UnfoldNextIndices` say it yields the later children in order. |
| CodeActions.UnfoldNextFrom | crates/libeditor/src/code_actions.rs:43-48 | The unfold from child `i` yields children `i`, `i+1`, … up to the parent's last child. |
| CodeActions.Siblings | crates/libeditor/src/code_actions.rs:42-49 | `siblings`; `SiblingsAreFollowing` says it yields the children after the node, nearest first, for either direction. |
| CodeActions.SiblingsAreFollowing | crates/libeditor/src/code_actions.rs:42-49 | `siblings` yields the parent's children after the node, nearest first, and the direction makes no difference. |
| CodeActions.RightWalkSides | crates/libeditor/src/code_actions.rs:42-49 | Every node of the walk is a later child of the node's parent, at its own index. |
| CodeActions.Generate | crates/libeditor/src/code_actions.rs:56-63 | `generate`; `GenerateChain` says it yields `first` and each successive step up to the first `None`. |
| CodeActions.GenerateChain | crates/libeditor/src/code_actions.rs:56-63 | `generate` yields `first`, then each step of the previous item, and stops at the first `None`; from `None` it yields nothing. |
| CodeActions.Siblings2 | crates/libeditor/src/code_actions.rs:51-53 | `siblings2`; `SiblingsTwoWays` says it equals `siblings`. |
| CodeActions.SiblingsTwoWays | crates/libeditor/src/code_actions.rs:51-53 | `siblings2`, written with `generate`, yields the same walk as `siblings`. |
| CodeActions.CommaAt | crates/libeditor/src/code_actions.rs:19 | The comma found is a leaf at the offset with kind `COMMA`, and no earlier leaf at the offset is a comma; `None` means no such leaf. |
| CodeActions.NonTriviaSibling | crates/libeditor/src/code_actions.rs:38-40 | As written: the first following sibling whose kind *is* trivia, with no trivia sibling before it on the walk, or `None` when no following sibling is trivia. |
| CodeActions.SiblingsIgnoreDirection | crates/libeditor/src/code_actions.rs:38-49 | As written, the left and right lookups give the same answer. |
| CodeActions.FlipComma | crates/libeditor/src/code_actions.rs:15-31 | `None` without a comma leaf, or when either lookup fails. With `apply == false` the result is `Applicable` and no edit is built. Otherwise the edit has two atoms: `left.range ← right.text`, then `right.range`, translated through the first atom, `← left.text`. |
| CodeActions.SameLengthKeepsRange | crates/libeditor/src/edit.rs:50-65 | Replacing a range with a text of the same length does not move the range. |
| CodeActions.SameNodeTranslatesToItself | crates/libeditor/src/code_actions.rs:20-28 | With `left == right`, the second range translates to itself, so it never causes "conflicting edits". |
| CodeActions.FlipCommaAsWrittenIsNoOp | crates/libeditor/src/code_actions.rs:20-30 | As written, whenever the action applies, left and right are one trivia node and the edit leaves the file's text unchanged. |
| CodeActions.FlipCommaOnPair | crates/libeditor/src/code_actions.rs:19-30 | On `(a, b)` with the cursor after the comma, the as-written lookups both give the space, while the intended ones give `a` and `b` and produce `(b, a)`. |
| CodeActions.NonTriviaSiblingIntended | crates/libeditor/src/code_actions.rs:38-40 | Corrected lookup: the nearest sibling on the given side whose kind is not trivia, after only trivia; `None` when every sibling on that side is trivia. |
| CodeActions.NonTriviaIntendedAt | crates/libeditor/src/code_actions.rs:38-40 | Conversely, a non-trivia sibling with only trivia before it on the walk is the one the corrected lookup returns. |
| CodeActions.SiblingsTowardSides | crates/libeditor/src/code_actions.rs:42-49 | The corrected walk to the left yields earlier children of the parent, the walk to the right later ones. |
| CodeActions.TranslateShift | crates/libeditor/src/code_actions.rs:27-28 | When the left element ends before the right one starts, the second range translates without conflict and moves by the first atom's length change. |
| CodeActions.BuildFlip | crates/libeditor/src/code_actions.rs:26-30 | The builder calls give the two atoms `left.range ← right.text` and `right.range`, translated through the first atom, `← left.text`; `None` exactly when that translation conflicts. |
| CodeActions.SwapOnText | crates/libeditor/src/code_actions.rs:26-30 | Replacing `l` by `x`, then the shifted `r` by `y`, exchanges the two slices and keeps the text between and around them. |
| CodeActions.SidesOfComma | crates/libeditor/src/code_actions.rs:19-21 | Any sibling on the corrected left walk ends at or before the comma's start, and any on the right walk starts at or after the comma's end. Both are in the comma's tree. |
| CodeActions.FlipCommaIntended | crates/libeditor/src/code_actions.rs:15-31 | The corrected action: the same failure cases and `Applicable` result as the original, and on `apply` the swap edit of the nearest non-trivia siblings. |
| CodeActions.FlipCommaIntendedSwaps | crates/libeditor/src/code_actions.rs:26-30 | The corrected edit exchanges the texts of the two elements and keeps everything else, including the comma and the trivia around it. |
| TestSupport.FindFrom | crates/libeditor/tests/test.rs:175 | `str::find`: the first index where the pattern occurs, or `None` when it occurs nowhere. |
| TestSupport.Extracted | crates/libeditor/tests/test.rs:173-184 | `None` (the panic) iff the text has no marker. Otherwise the index of the first marker and a text three characters shorter. |
| TestSupport.ExtractCursor | crates/libeditor/tests/test.rs:173-184 | The text built piece by piece is `t[..p] + t[p+3..]` for the first marker index `p`. |
| TestSupport.WithCursor | crates/libeditor/tests/test.rs:186-194 | The marker is at the offset, the text before and after it is kept, and the length grows by three. |
| TestSupport.AddCursor | crates/libeditor/tests/test.rs:186-194 | The text built piece by piece is `t[..o] + "<|>" + t[o..]`. |
| TestSupport.ExtractThenAdd | crates/libeditor/tests/test.rs:173-194 | Round trip: extracting the marker and adding it back at the same offset gives the original text. |
| TestSupport.AddThenExtract | crates/libeditor/tests/test.rs:173-194 | Round trip: adding a marker to a text without one and extracting it gives back the offset and the text. |
| TestSupport.TrimStart | crates/libeditor/tests/test.rs:152 | Drops exactly the leading whitespace. |
| TestSupport.TrimEnd | crates/libeditor/tests/test.rs:152 | Drops exactly the trailing whitespace. |
| TestSupport.TrimSlice | crates/libeditor/tests/test.rs:152 | `trim` gives a slice of the line with only whitespace cut on either side, and neither end of the result is whitespace. |
| TestSupport.Lines | crates/libeditor/tests/test.rs:152 | No line contains a line feed. |
| TestSupport.LinesSplit | crates/libeditor/tests/test.rs:152 | `lines` cuts at the first line feed: the text before it, without a trailing carriage return, followed by the lines of the rest. |
| TestSupport.LinesOfLine | crates/libeditor/tests/test.rs:152 | A non-empty text without a line feed is a single line, without a trailing carriage return. |
| Wrappers.Map | crates/libeditor/tests/test.rs:152 | `map`: the function applied to each element, in order, with the length kept. |
| Wrappers.MapCons | crates/libeditor/tests/test.rs:152 | Mapping `[x] + xs` gives `f(x)` followed by the mapped `xs`. |
| TestSupport.Normalized | crates/libeditor/tests/test.rs:152 | The expected text as `dbg_eq` normalises it; `NormalizedIsOneLine`, `NormalizedSplit` and `DbgEqOneLine` fix its value line by line. |
| TestSupport.DbgEq | crates/libeditor/tests/test.rs:150-154 | `dbg_eq`; `DbgEqOneLine` gives its meaning for a one-line text and `NormalizedSplit` for several lines. |
| TestSupport.NormalizedIsOneLine | crates/libeditor/tests/test.rs:150-154 | The normalized expected text (lines trimmed and joined by single spaces) is always a single line. |
| TestSupport.NormalizedSplit | crates/libeditor/tests/test.rs:150-154 | For a multi-line expected text `a + "\n" + b` with `b` non-empty, `dbg_eq` compares against the first line, carriage return dropped and trimmed, a single space, then the rest normalised. |
| TestSupport.DbgEqOneLine | crates/libeditor/tests/test.rs:150-154 | For any expected text without a line feed (empty, or ending in a carriage return, included), `dbg_eq` holds iff the actual text equals the trimmed expected text. |
| TestSupport.TrimStripCr | crates/libeditor/tests/test.rs:152 | Trimming a line gives the same text whether or not its trailing carriage return was stripped first. |
| TestSupport.TrimDropsLastWhitespace | crates/libeditor/tests/test.rs:152 | A trailing whitespace character makes no difference to `trim`. |
| TestSupport.TrimEndDropsWhitespace | crates/libeditor/tests/test.rs:152 | A trailing whitespace character makes no difference to `trim_end`. |
| TestSupport.CursorAfterMatch | crates/libeditor/tests/test.rs:132-135 | The cursor moves to the matching brace's offset, or stays where it was when `matching_brace` returns `None`. |
| TestSupport.CursorInText | crates/libeditor/tests/test.rs:132-136 | The moved cursor is still an offset of the text, so `add_cursor` does not panic. |
| TestSupport.MatchingBraceActual | crates/libeditor/tests/test.rs:129-138 | The check's actual text is `None` (the panic) iff `before` has no marker. |
| TestSupport.NoMatchKeepsText | crates/libeditor/tests/test.rs:132-137 | When no brace matches, the actual text is `before` itself. |
| TestSupport.MatchMovesCursor | crates/libeditor/tests/test.rs:129-138 | When a brace matches, the marker lands at that brace's offset in the marker-free text. |

## Left out

- `Edit::apply`, `Edit::apply_to_offset`, `ActionResult` and `CursorPosition` are not defined in `edit.rs` or `code_actions.rs` at this revision, so they are not part of this model. `Edits.SplicedAll` is a reference meaning of an edit, used only to state properties.
- `check_action` (crates/libeditor/tests/test.rs:156-171) is not modelled, because it goes through `Edit::apply`, `Edit::apply_to_offset` and `ActionResult`.
- `syntax_tree` is not modelled. It is a debug dump through `utils::dump_tree`, which is not part of this model.
- `extend_selection`, `file_structure`, `file_symbols`, `add_derive`, `find_node` and `LineIndex` are not part of this model; their source is not in the modelled files.
- `File::parse` and the parser are not part of this model. Files are given as trees. `TestSupport.MatchingBraceActual` takes the tree as a parameter and requires its text to equal the marker-free text, which is what a lossless parse gives.
- The tree primitives come from modules that are not part of this model: `find_leaf_at_offset`, `walk::preorder`, `parent`, `children`, `next_sibling`, `prev_sibling`, `range`, `text`, `File::functions` and `name()`. The first seven are defined on the minimal tree in `syntax.dfy`; `File::functions` and `name()` are `Editor.Functions` and `Editor.FnName` in `editor.dfy`. All these definitions are assumptions.
- `is_keyword`, `is_trivia` and `has_atom_attr` are parameters of the operations that use them.
- Text is a sequence of characters, each standing for one byte. UTF-8 widths, `TextUnit::of_str` and panics on slicing inside a character are not modelled.
- Edits.ApplyToPosition: does not model the 32-bit overflow of `TextUnit` (`u32`) arithmetic, because offsets are unbounded here.
- Editor.MatchingBrace: symmetry (matching from the closing brace's start gives the opening brace's start) holds only when each brace is the first child of its kind under the common parent and no other brace leaf touches either start (`MatchingBraceSymmetric`); `MatchingBraceAdjacentPair` shows it failing on `{}`, where the opening brace ends at the closing one's start and is found first.
- TestSupport.AddCursor: requires the offset to be within the text. The source panics when `&text[..offset]` runs past the end, or when the offset is not on a character boundary; the callers here always pass an offset of the text (`TestSupport.CursorInText`), so that panic path is not modelled.
- TestSupport.WithCursor: requires the offset to be within the text, for the same reason as `TestSupport.AddCursor`.
- TestSupport.Extracted: does not model the truncation in `cursor_pos as u32`, because offsets are unbounded here.
- Edits.EditBuilder.Replace: where the source panics with "conflicting edits", this returns `false` and records nothing.
- Iterators are modelled as finite sequences. `CodeActions.Generate` takes a `rank` that every step lowers, because the Rust iterator may be infinite and Dafny needs a termination measure.
- `dbg_eq` takes the already-formatted `{:?}` text as `actual`; Debug formatting is not modelled.
- `TestSupport.Lines` strips a trailing carriage return from every line, including a last line with no line feed, as `str::lines` did when this code was written.
- The server (`dispatch`, `req`) and the VS Code extension are out of scope: they are protocol plumbing and UI.
- The action's public wrapper is not modelled. `code_actions.rs` at this revision has only the private `flip_comma(file, offset, apply)`; the closure-returning wrapper the tests call as `flip_comma(file, off).map(|f| f())` is not defined there.

## Findings

| source | as written | input that shows it | evidently intended | confidence | as-written member | corrected member |
|---|---|---|---|---|---|---|
| crates/libeditor/src/code_actions.rs:38-40 | `non_trivia_sibling` returns the first *following* sibling whose kind *is* trivia, and `siblings` ignores the direction. So `left` and `right` are the same trivia node, and `flip_comma`'s edit rewrites that node with its own text. | `(a, b)` with the cursor right after the comma (offset 3): both lookups give the space, and the text stays `(a, b)`. | The nearest non-trivia sibling before the comma and the nearest one after it, whose texts the edit swaps, giving `(b, a)`. `test_swap_comma` at crates/libeditor/tests/test.rs:104-111 expects the swap. | not executed | CodeActions.FlipCommaAsWrittenIsNoOp | CodeActions.FlipCommaIntendedSwaps |
