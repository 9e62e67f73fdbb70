# Outline and splice engine of the emily-editor markdown editor

Emily is a markdown editor component that shows the text next to a preview and an
outline of its headings. This project models and proves properties of the engine
behind the outline, written in Dafny:

- **Text positions.**
  - `nthIndexOf` finds the n-th occurrence of a heading's source text.
  - `indexOfLine` measures the first k lines.
  - `findWordBounds` finds the word around a cursor.
  - `moveSubstring` cuts a section out of the text and pastes it elsewhere.
- **The heading list.**
  - `findHeaders` numbers repeated heading sources with `dupIndex` and drops matches the converter does not render as headings.
  - `findNextSibling` walks to the next heading that is not deeper.
- **The outline tree.** `generateOutline` folds the heading list into a forest. Its inner `insert` walks the rightmost spine of the last entry.
- **The editor** (src/components/Editor.js).
  - The per-line tagging of `generateHtml`.
  - The state that `updateStateValue` derives from the text, including `loc`.
  - The line that `handleOutlineClick` jumps to.
  - The `(cutStart, cutEnd, paste)` computation of `handleOutlineOrderChange`, which drags an outline section to another place.

The files:

- `wrappers.dfy` holds `Option`.
- `js_string.dfy` (module `JsString`) models the JavaScript built-ins the helpers are written in.
  - `split` with a string separator scans left to right without overlap. An empty separator gives single characters.
  - It also models `join`, `slice` (negative indices count from the end, and indices are clamped) and `reverse`.
- `text_helpers.dfy` (module `TextHelpers`) holds `nthIndexOf`, `indexOfLine`, `moveSubstring` and `findWordBounds`. Each is written as the expression pipeline of the source, with lemmas giving its closed form.
- `headings.dfy` (module `Headings`) holds `findHeaders` as a method with the source's two passes and its dictionary, proved equal to the function `HeadersOf`. It also holds `findNextSibling` as a loop, proved equal to the function `NextSibling`.
- `outline.dfy` (module `OutlineTree`) holds the tree as a value, `insert` and the reducer step.
- `editor.dfy` (module `EditorModel`) holds the editor component.
  - It is a class whose fields are the parts of the component state the core computes: `raw`, `html`, `loc` and the outline.
  - It also keeps the heading list. That list is not component state in the source: it is the `next`-linked array local to `generateOutline` (helpers.js:98-110), which the outline's nodes point into. The model stores it beside the outline so that the sibling walks of the drag handler can follow those links.
  - `Consistent()` says that `html`, `loc`, the heading list and the outline are all derived from one text, recorded in the ghost field `derivedFrom`. `Valid()` adds that this text is `raw`.
  - `handleChange` stores only `raw`, so between an edit and the end of typing the derived state describes the previous text. The outline handlers require only `Consistent()`: they read the current `raw` together with the outline and headings as they stand.

Some things the source reaches through callers or collaborators are parameters of the model:

- the language plug-in: `getToHtml()`, `lineSafeInsert`, the matches of `headerRegex`, and what the heading pattern at helpers.js:80 extracts from the rendered markup;
- the line markers `createNinja` and `ninjasToHtml`.

The model follows the code as written, also where it differs from what a helper's name suggests:

- **`indexOfLine("a\nb\nc", 2)`.** It is 3, the offset of the second newline, and not the offset 2 where the second line starts (`IndexOfLineExample`). In general `indexOfLine(s, k)` is the offset of the k-th newline, one before the start of the line after it (`IndexOfLineClosedForm`).
- **`moveSubstring("ABCDE", 1, 3, 4)`.** It is `"ADBCE"`: the paste index 4 is an index into the original text, so the section lands before the `"E"`, not at offset 4 of the text with the section removed (`MoveSubstringExample`).
- **Levels along a path need not grow.** After h1 and h4, an h3 is placed under the h4 (`ShallowerHeadingUnderDeeper`).
- **`path` values are those the code computes.** The second top-level entry gets `[0]` like the first (`TopLevelPaths`). No correctness of paths is claimed.

## Model

| member | source | states |
|---|---|---|
| JsString.IndexFrom | src/helpers/helpers.js:26 | the offset the separator search returns lies at or after the start and leaves room for the needle; that it is the first occurrence is `IndexFromSound` |
| JsString.PositionsFrom | src/helpers/helpers.js:26 | no contract of its own; the separators it lists are characterized by `PositionsSound` and `PositionsComplete` |
| JsString.Split | src/helpers/helpers.js:26 | no contract of its own; its properties are `JoinSplit`, `SplitJoinChar`, `SplitFromLength` and, for the empty separator, `NthIndexOfEmptyNeedle` |
| JsString.Join | src/helpers/helpers.js:27 | no contract of its own; it undoes `split` by `JoinSplit` |
| JsString.Take | src/helpers/helpers.js:26 | no contract of its own; the limit of `split` and `slice(0, n)`, identified with `Slice` in `IndexOfLineIsNthNewline` |
| JsString.IndexFromSound | src/helpers/helpers.js:25-28 | the separator search of `split` returns the first occurrence at or after the start; when it returns nothing there is no occurrence there |
| JsString.PositionsSound | src/helpers/helpers.js:25-28 | every separator `split` consumes is an occurrence at or after the start, each begins at or after the end of the one before, so they do not overlap |
| JsString.PositionsComplete | src/helpers/helpers.js:25-28 | the scan misses no occurrence: each one at or after the start is a consumed separator or begins inside one |
| JsString.SplitFrom | src/helpers/helpers.js:25-28 | `split` with a non-empty separator always yields at least one piece |
| JsString.JoinSplit | src/helpers/helpers.js:25-28 | rejoining the pieces of `split` with the same separator, empty or not, gives back the text |
| JsString.JoinChars | src/helpers/helpers.js:156 | `split('')` followed by `join('')` gives back the text |
| JsString.ReverseChars | src/helpers/helpers.js:156 | `t.split('').reverse().join('')` is the reversal of `t` |
| JsString.SplitJoinChar | src/components/Editor.js:213-216 | splitting a join on a one-character separator gives back the pieces when none of them contains that character |
| JsString.SplitFromLength | src/helpers/helpers.js:6 | `split` yields one piece more than the separators it consumes |
| JsString.CharPositions | src/helpers/helpers.js:6 | with a one-character separator the consumed separators are exactly the copies of that character, the k-th having k copies before it |
| JsString.Slice | src/helpers/helpers.js:6 | within bounds `slice` is the subsequence between its indices; with an end at or beyond the length it is the suffix from the (clamped) start |
| JsString.Reverse | src/helpers/helpers.js:156 | the reversal has the same length and holds element `len-1-k` at position `k` |
| TextHelpers.NthIndexOf | src/helpers/helpers.js:25-28 | the result never exceeds the haystack's length |
| TextHelpers.ScanLength | src/helpers/helpers.js:25-28 | the first n pieces rejoined reach exactly to where a left-to-right scan finds the n-th separator (or to the end) |
| TextHelpers.NthFromPositions | src/helpers/helpers.js:25-28 | that scan's n-th find is the n-th consumed separator, or the end of the text when there are fewer than n |
| TextHelpers.NthIndexOfFindsNth | src/helpers/helpers.js:25-28 | for a non-empty needle: 0 for n = 0, the start of the n-th non-overlapping occurrence when there are at least n, the haystack's length otherwise |
| TextHelpers.NthIndexOfOccurrence | src/helpers/helpers.js:25-28 | for n >= 1 the result is below the length iff there are at least n non-overlapping occurrences, and then the needle occurs there; for n = 1 no occurrence lies before it |
| TextHelpers.NthIndexOfEmptyNeedle | src/helpers/helpers.js:25-28 | with an empty needle the result is n, capped at the haystack's length |
| TextHelpers.NthIndexOfMonotone | src/helpers/helpers.js:25-28 | for any needle, empty or not, a later occurrence number never gives an earlier offset |
| TextHelpers.DuplicateHeadingOffsets | src/components/Editor.js:108 | the two copies of a repeated heading source are located at their own offsets (0 and 8) by occurrence numbers 1 and 2 |
| TextHelpers.IndexOfLine | src/helpers/helpers.js:6 | no contract of its own; closed form in `IndexOfLineClosedForm` |
| TextHelpers.IndexOfLineIsNthNewline | src/helpers/helpers.js:6 | for k >= 0 `indexOfLine(s, k)` equals `nthIndexOf(s, "\n", k)` |
| TextHelpers.IndexOfLineClosedForm | src/helpers/helpers.js:6 | `indexOfLine(s, k)` is 0 for k = 0, the offset of the k-th newline when there are at least k, and the text's length otherwise |
| TextHelpers.IndexOfLineExample | src/helpers/helpers.js:6 | `indexOfLine("a\nb\nc", 2)` is 3 |
| TextHelpers.IndexOfLineMonotone | src/helpers/helpers.js:6 | `indexOfLine` is monotone in the line count |
| TextHelpers.LineCount | src/components/Editor.js:164 | `raw.split('\n').length` is the number of newlines plus one |
| TextHelpers.LineOfOffset | src/components/Editor.js:109 | with c newlines before an offset, the offset lies between `indexOfLine(s, c)` and `indexOfLine(s, c + 1)` |
| TextHelpers.MoveSubstring | src/helpers/helpers.js:57-72 | no contract of its own; closed forms in `MoveSubstringUp` and `MoveSubstringDown`, inverse in `MoveSubstringUndo` |
| TextHelpers.MoveSubstringUp | src/helpers/helpers.js:57-72 | for p <= cs <= ce the result is `s[..p] + s[cs..ce] + s[p..cs] + s[ce..]` |
| TextHelpers.MoveSubstringDown | src/helpers/helpers.js:57-72 | for cs <= ce <= p the result is `s[..cs] + s[ce..p] + s[cs..ce] + s[p..]`, the paste point shifted by the cut's length |
| TextHelpers.MoveSubstringPermutes | src/helpers/helpers.js:57-72 | for cs <= ce, whatever the paste point, the result has the text's length and the same characters with the same multiplicities |
| TextHelpers.MoveSubstringInPlace | src/helpers/helpers.js:57-72 | pasting at the cut's start or at its end leaves the text unchanged |
| TextHelpers.MoveSubstringEmptyCut | src/helpers/helpers.js:57-72 | an empty cut leaves the text unchanged, wherever the cut and the paste point lie, inside the text or beyond it |
| TextHelpers.MoveSubstringUndo | src/helpers/helpers.js:57-72 | a move with the paste point outside the cut is undone by moving the section back from where it landed |
| TextHelpers.MoveSubstringExample | src/helpers/helpers.js:57-72 | `moveSubstring("ABCDE", 1, 3, 4)` is `"ADBCE"` |
| TextHelpers.FirstWord | src/helpers/helpers.js:157-158 | `split(/\W/)[0]` is the longest prefix made only of word characters |
| TextHelpers.FindWordBounds | src/helpers/helpers.js:154-159 | no contract of its own; written as the source's pipeline, with `split('').reverse().join('')` resolved by `ReverseChars`; the bounds are characterized by `FindWordBoundsMaximal` |
| TextHelpers.FindWordBoundsMaximal | src/helpers/helpers.js:154-159 | for an index inside the text the bounds satisfy a <= i <= b <= the length, enclose only word characters, and no word character lies just before a or at b |
| Headings.HeaderAt | src/helpers/helpers.js:78-91 | no contract of its own; the record it builds is characterized by `HeadersDescribed` |
| Headings.HeadersOf | src/helpers/helpers.js:75-95 | no contract of its own; `FindHeaders` computes it, and `HeadersDescribed`, `HeadersComplete`, `SourcesCounted` and `DupIndexAmongRecords` state its properties |
| Headings.HeadersUpTo | src/helpers/helpers.js:77-94 | the filtered list is never longer than the list of matches |
| Headings.HeadersDescribed | src/helpers/helpers.js:76-94 | every record carries its match's source, rendering, level, content, position among all matches and the count of identical matches up to it (false friends included); records keep the order of the matches |
| Headings.FindHeaders | src/helpers/helpers.js:75-95 | the map-with-dictionary-then-filter loops return exactly the records of the function `HeadersOf` |
| Headings.HeadersComplete | src/helpers/helpers.js:82-94 | every match the converter renders as a heading has a record |
| Headings.SourcesCounted | src/helpers/helpers.js:76-94 | a source rendered as a heading appears among the records as often as among the matches |
| Headings.DupIndexAmongRecords | src/helpers/helpers.js:78-90 | each `dupIndex` is at least 1 and equals the number of records up to and including it with the same source |
| Headings.SiblingFrom | src/helpers/helpers.js:36-40 | the scan from a position returns the first heading there of level at most the given one, all skipped headings being deeper; none when every later heading is deeper |
| Headings.NextSibling | src/helpers/helpers.js:30-41 | the next sibling is a later heading of the same or a shallower level, all headings in between being strictly deeper; none when every later heading is deeper |
| Headings.FindNextSibling | src/helpers/helpers.js:32-41 | the walk along `next` links returns nothing for a missing heading and the next sibling otherwise |
| OutlineTree.Insert | src/helpers/helpers.js:114-140 | the branch handing a heading to the parent is taken only at a childless node of equal level and keeps the heading; otherwise the node keeps its record, position and path |
| OutlineTree.InsertNesting | src/helpers/helpers.js:115-125 | offered to a childless node or one exactly one level shallower, a heading becomes the node's last child, unless the levels are equal, when it goes to the parent |
| OutlineTree.Step | src/helpers/helpers.js:141-148 | no contract of its own; the reducer step, characterized by `StepTopLevel` and `StepPreorder` |
| OutlineTree.ForestUpTo | src/helpers/helpers.js:111-149 | no contract of its own; the fold, with properties `OutlinePreorder`, `OutlineLabelled` and `TopLevelNonIncreasing` |
| OutlineTree.Outline | src/helpers/helpers.js:111-150 | no contract of its own; `GenerateOutline` computes it, and `OutlineEmpty` relates it to the heading list |
| OutlineTree.GenerateOutline | src/helpers/helpers.js:111-150 | the reduce loop returns the outline the function `Outline` defines, and it is empty exactly when there are no headings |
| OutlineTree.InsertPreorder | src/helpers/helpers.js:114-140 | inserting a fresh leaf adds exactly that heading, at the end of the node's pre-order |
| OutlineTree.StepPreorder | src/helpers/helpers.js:141-147 | each reducer step appends the new heading's position to the forest's pre-order |
| OutlineTree.OutlinePreorder | src/helpers/helpers.js:111-150 | a pre-order traversal of the outline lists every heading exactly once, in the order of the heading list |
| OutlineTree.OutlineEmpty | src/helpers/helpers.js:111-150 | the outline is empty exactly when the heading list is |
| OutlineTree.InsertLabelled | src/helpers/helpers.js:114-140 | `insert` keeps every node carrying the record of the heading at its position |
| OutlineTree.OutlineLabelled | src/helpers/helpers.js:111-150 | every node of the outline carries the record of the heading at its position |
| OutlineTree.StepTopLevel | src/helpers/helpers.js:141-147 | a step opens a new top-level entry iff there is none yet or the level is at most the last entry's; otherwise the other entries stay and the heading joins the last entry's subtree |
| OutlineTree.TopLevelNonIncreasing | src/helpers/helpers.js:141-147 | the levels of the top-level entries never go up from one entry to the next |
| OutlineTree.NonIncreasingPairs | src/helpers/helpers.js:143 | so no top-level entry is deeper than an earlier one |
| OutlineTree.OpenFirst | src/helpers/helpers.js:143-144 | the first heading opens the first entry with path `[0]` |
| OutlineTree.InsertIntoLeaf | src/helpers/helpers.js:115-124 | a childless node adopts a heading of another level as its only child |
| OutlineTree.StepIntoLeaf | src/helpers/helpers.js:145-146 | a deeper heading after a lone childless entry becomes its child with path `[0, 0]` |
| OutlineTree.DeeperHeadingIsChild | src/helpers/helpers.js:115-124 | h1 then h3 makes the h3 a direct child of the h1 |
| OutlineTree.ShallowerHeadingUnderDeeper | src/helpers/helpers.js:126-131 | h1, h4, h3 places the h3 under the h4 |
| OutlineTree.EqualLevelJoinsParent | src/helpers/helpers.js:116-117 | h1, h3, h3 makes both h3 children of the h1, the second with the same path as the first |
| OutlineTree.TopLevelPaths | src/helpers/helpers.js:144 | three headings of non-increasing level open three top-level entries, with the paths `[0]`, `[0]` and `[1]` |
| EditorModel.TaggedLines | src/components/Editor.js:214-215 | no contract of its own; the per-line `lineSafeInsert` calls, characterized by `TagLinesPerLine` |
| EditorModel.TagLines | src/components/Editor.js:213-216 | no contract of its own; characterized by `TagLinesPerLine` and `TagLinesDefault` |
| EditorModel.GenerateHtml | src/components/Editor.js:212-225 | no contract of its own; `generateHtml` without the branch for a present `document` |
| EditorModel.TagLinesPerLine | src/components/Editor.js:213-216 | when the plug-in keeps each line a single line, the tagged text has as many lines as the source and line i is line i passed to `lineSafeInsert` with marker i |
| EditorModel.TagLinesDefault | src/components/Editor.js:33 | with the default `lineSafeInsert` the tagged text is the source text |
| EditorModel.ItemAt | src/components/Editor.js:265 | no contract of its own; JavaScript's `container[i]`, `undefined` outside the array |
| EditorModel.OffsetOf | src/components/Editor.js:273-275 | the offset of a heading (or the text's length for none) is within the text |
| EditorModel.Container | src/components/Editor.js:263 | the container being reordered holds only nodes labelled with their headings when the outline and the given header are |
| EditorModel.SiblingOf | src/components/Editor.js:270-272 | no contract of its own; `findNextSibling` of a node as a record, found by `NextSibling`, whose contract characterizes it |
| EditorModel.HeaderOf | src/components/Editor.js:273-275 | no contract of its own; the record of an optional node |
| EditorModel.ReorderIndices | src/components/Editor.js:268-275 | cut start, cut end and paste point are offsets within the text |
| EditorModel.OrderChangeIndices | src/components/Editor.js:268-275 | the indices computed with the sibling walks are those `ReorderIndices` defines: the moving heading's offset, its next sibling's offset (or the length), and the target's offset when moving up or its next sibling's when moving down |
| EditorModel.Reordered | src/components/Editor.js:277-278 | no contract of its own; characterized by `ReorderedMissingItem` and `ReorderedRearranges` |
| EditorModel.ReorderedMissingItem | src/components/Editor.js:265-278 | dragging an entry the container does not have leaves the text as it was |
| EditorModel.ReorderedRearranges | src/components/Editor.js:277-278 | when the computed cut start is at or before the cut end, a drag keeps the text's length and characters, and with the paste point outside the section it moves the section whole |
| EditorModel.ReorderedDuplicatesText | src/components/Editor.js:268-278 | the source does not guarantee that order: in `"## b\n# a\n# b\n"`, dragging the top-level `# a` below `# b` locates `# b` inside `## b`, giving the indices (5, 1, 13), and the text grows from 13 to 17 characters |
| EditorModel.LineOfPosition | src/components/Editor.js:109 | the line count of the text before an offset is one more than its newlines, is a line of the text, and the offset lies on that line |
| EditorModel.Editor.constructor | src/components/Editor.js:53-73 | the initial state holds the content, with html, `loc`, headings and outline derived from it |
| EditorModel.Editor.UpdateStateValue | src/components/Editor.js:158-166 | the text is replaced and html, `loc` (newlines plus one), headings and outline are recomputed from it |
| EditorModel.Editor.HandleChange | src/components/Editor.js:168-176 | the text is replaced and nothing else changes, so the derived state stays consistent but describes the previous text |
| EditorModel.Editor.HandleStoppedTyping | src/components/Editor.js:177-180 | the derived state catches up with the text |
| EditorModel.Editor.HandleOutlineClick | src/components/Editor.js:105-113 | on consistent (possibly stale) state, the line is one more than the newlines before the heading's occurrence in the current text, is a line of that text, and the occurrence lies on it; it is at most `loc` when the state is up to date |
| EditorModel.Editor.HandleOutlineOrderChange | src/components/Editor.js:257-284 | on consistent (possibly stale) state, equal indices change nothing; otherwise the current text becomes the text with the section moved, the section and paste point located through the outline and headings held before the call, and the derived state is brought up to date |

## Left out

- DOM and layout: `getDocument`, `findHeadersFromNinjaHtml`, `findRelativeOffset`, `applyOnDom`, the scroll-sync handlers and the `document` branch of `generateHtml` that rewrites link targets. They parse or measure browser documents.
- The regular expressions: the heading pattern and `/<h([0-9])[^<>]*>(.*)<\/h[0-9]>/` are parameters (a list of matches and an optional level and content for each rendering). `toHtml`, `lineSafeInsert`, `createNinja` and `ninjasToHtml` are parameters too, because they belong to the language plug-in.
- `generateOutline` as written at helpers.js:97-98 builds its list from `findHeadersFromNinjaHtml`, whose records carry no `source` or `dupIndex`. Editor.js:286-290 also calls it with three arguments against four parameters. The model builds the outline from the records of `findHeaders`, the records the drag and click handlers read.
- The mutable tree: `parent`, `prev` and `next` links are not stored. A node records its position in the heading list, its `next` is the heading after it, and `insert` returns the updated node where the source pushes into arrays in place.
- The Ace widget calls (`gotoLine`, `scrollToLine`, `focus`, `setValue`): `HandleOutlineClick` returns the line instead.
- React: rendering, styles, columns, fullscreen, commands, autosave, and the asynchrony of `setState`. State updates take effect at once.
- Timers: the 300 ms timer of `handleChange` and the debounce of `handleCursorActivity`, and the timeout in scroll sync. `HandleChange` and `HandleStoppedTyping` are separate operations; when the second runs is not modelled, and `autosaveStore` is left out.
- `formatShortcut`, src/components/editor/ace.js and test/modes/markdown.test.js. They hold widget wiring and tests of a module that is not part of this model.
- TextHelpers.NthIndexOf: the limit of `split` goes through ToUint32 in JavaScript. The model takes the occurrence number as a natural number, so a negative, fractional or huge `dupIndex` is not modelled.
- Headings.FindHeaders: `dupIndexMap` is a plain object in the source, so a source such as `"__proto__"` would misbehave there. The model uses a map.
- Strings are sequences of Dafny `char`, which are Unicode scalar values, where JavaScript strings are sequences of UTF-16 code units; lone surrogates have no `char`. The model uses characters only through equality, `'\n'` and the ASCII class `\w`, so every result carries over under a one-to-one relabelling of code units as characters. `\W` is the ASCII class `[^A-Za-z0-9_]`.
- TextHelpers.FindWordBoundsMaximal: stated for an index inside the text (0 <= i <= |s|). The function accepts any natural number.
- TextHelpers.MoveSubstring: the indices are natural numbers, since the editor only passes offsets from `nthIndexOf` or the text's length. Negative indices of `slice` are not modelled here.
- EditorModel.ReorderedRearranges: stated only when the cut start is at or before the cut end. The source locates a heading by its source text, so it can find that text inside an earlier heading and produce a reversed cut that duplicates text (`ReorderedDuplicatesText`). The model promises nothing about the text in that case.
- TextHelpers.MoveSubstringUndo: stated only for paste points outside the cut. A paste point strictly inside the cut is unguarded in the source; `MoveSubstringPermutes` still covers it.
- OutlineTree.TopLevelNonIncreasing: stated for neighbouring entries; `NonIncreasingPairs` extends it to any two.
- No correctness of `path` values is claimed, nor growth of levels along a path, because the code guarantees neither.
