# FerrumNote core in Dafny

FerrumNote is a desktop Markdown editor: a CodeMirror-based writer with
live-preview decorations, a ProseMirror Markdown codec, search and replace,
document statistics, and a Rust back end that lists a workspace, saves files
with conflict detection and keeps an application configuration. This project
models the logic at the heart of those parts and proves what each one
promises:

- `CodeLanguage`: the normalisation of a fenced code block's language name
  (trim, lower-case, alias table, `plaintext` for blank names), both with the
  table's own keys and as written, where the lookup also finds the members
  every JavaScript object inherits.
- `MarkdownShortcuts`: the editor commands: bold, italic and inline-code
  wrapping, heading and quote line prefixes, code-fence wrapping, and the
  Enter key that closes an opened code fence. `EditorDoc` is the editor state
  they work on: a document string split into lines, a selection, and edits
  applied as change lists.
- `MarkdownCodec`: the ProseMirror-to-Markdown serializer rules (fence length,
  heading prefix, ordered-list markers, hard breaks, links, inline code spans)
  and the token attribute readers of the parser.
- `MarkerDecorations` and `PresentationDecorations`: the two decoration
  engines that walk the Lezer syntax tree (`SyntaxTree`, an input to the
  model) and compute which Markdown markers to hide and which lines get
  heading or code-block styling; each is also a view-plugin class that
  recomputes its decorations on update.
- `SearchOps`: counting, replacing the next and replacing all occurrences.
- `ViewModel`: word, character and line counts of a document.
- `FsPaths` and `FsWorkspace`: the workspace path rules of the `fn-fs` crate
  (normalising relative paths, refusing escapes from the root, the Markdown
  extension test), the directory listing with its ordering, and `save_file`'s
  conflict check. The filesystem is a parameter: the model receives what the
  operating system would answer.
- `AppConfig`: the `fn-config` crate's merge of a partial configuration with
  the defaults, loading, and setting the workspace root.
- `Sorting`, `Text`, `Wrappers`, `Ints`: a stable insertion sort with its
  ordering, permutation and stability lemmas (standing for JavaScript's
  `Array.prototype.sort` and Rust's `sort_by`), string helpers (ASCII
  trimming, lower-casing), `Option`/`Result`, and fixed-width integers.

An unknown code language name is not passed through untouched: the code trims
and lower-cases it first ("Rust" becomes "rust"), and the model follows the
code.

## Model

| member | source | states |
|---|---|---|
| AppConfig.MergeRoot | crates/fn-config/src/lib.rs:118-121 | the merged workspace root is absent or non-blank, and when present it is the one given |
| AppConfig.MergeWithDefault | crates/fn-config/src/lib.rs:107-123 | a merged configuration never holds a blank workspace root |
| AppConfig.Default | crates/fn-config/src/lib.rs:19-32 | the default configuration; MergeEmptyIsDefault states that it is what an empty partial merges to |
| AppConfig.MergeEmptyIsDefault | crates/fn-config/src/lib.rs:19-32 | merging a configuration with no fields set gives exactly the defaults |
| AppConfig.MergeFieldByField | crates/fn-config/src/lib.rs:107-123 | each field is the given value when present and the default otherwise; the root is kept exactly when it is present and non-blank |
| AppConfig.MergeSavedRoundTrip | crates/fn-config/src/lib.rs:107-123 | saving a configuration with a valid root and merging it back gives the same configuration |
| AppConfig.MergeIdempotent | crates/fn-config/src/lib.rs:107-123 | merging an already merged configuration changes nothing |
| AppConfig.LoadFromPath | crates/fn-config/src/lib.rs:65-79 | a loaded configuration has a valid root; a missing file loads the defaults |
| AppConfig.BlankLoadsDefault | crates/fn-config/src/lib.rs:68-75 | a missing or blank file loads exactly the defaults |
| AppConfig.LoadErrors | crates/fn-config/src/lib.rs:65-79 | a read error and a parse error of a non-blank file are returned as they are |
| AppConfig.SetWorkspaceRootAtPath | crates/fn-config/src/lib.rs:125-153 | a blank path is refused with "workspace root is empty"; success means the path canonicalised, the file loaded and the write succeeded, and the result is the loaded configuration with only the root replaced by the canonical path |
| AppConfig.SetRejectsMissing | crates/fn-config/src/lib.rs:134-145 | a path that does not exist or is not a directory is refused with an invalid-workspace-root error |
| AppConfig.SetThenReload | crates/fn-config/src/lib.rs:125-153 | reloading the written configuration gives back the configuration that was set, with the canonical root |
| CodeLanguage.NormalizeText | apps/desktop/src/editor/codeLanguage.ts:28-38 | the normalised name, looked up among the alias table's own keys, is never empty; the corrected half of the inherited-key finding, used by the rest of the model |
| CodeLanguage.Normalize | apps/desktop/src/editor/codeLanguage.ts:28-38 | the normalised name of an optional input, with the own-key lookup, is never empty |
| CodeLanguage.NormalizeTextAsWritten | apps/desktop/src/editor/codeLanguage.ts:28-38 | as written, the object-literal lookup also finds the inherited "constructor" and "__proto__", whose values come out as "function Object() { [native code] }" and "[object Object]"; on every other key it agrees with NormalizeText |
| CodeLanguage.KeyIsCanonical | apps/desktop/src/editor/codeLanguage.ts:29-31 | the lookup key is trimmed and lower-case |
| CodeLanguage.BlankIsPlaintext | apps/desktop/src/editor/codeLanguage.ts:33-35 | no name or a blank name normalises to "plaintext" |
| CodeLanguage.AliasMaps | apps/desktop/src/editor/codeLanguage.ts:37 | a name whose key is an alias normalises to the alias's target |
| CodeLanguage.AliasTable | apps/desktop/src/editor/codeLanguage.ts:1-26 | the alias keys are exactly py, python3, js, ts, c++, cxx, shell, sh, plain and text, and every target is a preset |
| CodeLanguage.PassThrough | apps/desktop/src/editor/codeLanguage.ts:37 | with the own-key lookup, a non-blank name that is not an alias normalises to its trimmed lower-case form |
| CodeLanguage.PassThroughAsWritten | apps/desktop/src/editor/codeLanguage.ts:37 | as written, a non-blank name that is neither an alias nor an inherited member normalises to its trimmed lower-case form |
| CodeLanguage.UpperCaseAlias | apps/desktop/src/editor/codeLanguage.ts:29-37 | "PY" normalises to "python" |
| CodeLanguage.PaddedAlias | apps/desktop/src/editor/codeLanguage.ts:29-37 | " py " normalises to "python" |
| CodeLanguage.UnknownNamePassesThrough | apps/desktop/src/editor/codeLanguage.ts:29-37 | "Rust" normalises to "rust" |
| CodeLanguage.CanonicalKey | apps/desktop/src/editor/codeLanguage.ts:29-31 | a trimmed lower-case name is its own key |
| CodeLanguage.TargetsAreCanonical | apps/desktop/src/editor/codeLanguage.ts:15-26 | every alias target is its own key and not itself an alias |
| CodeLanguage.TargetsAreKeys | apps/desktop/src/editor/codeLanguage.ts:15-26 | every alias target is trimmed and lower-case |
| CodeLanguage.TargetsAreNotAliases | apps/desktop/src/editor/codeLanguage.ts:15-26 | no alias target is an alias key |
| CodeLanguage.Idempotent | apps/desktop/src/editor/codeLanguage.ts:28-38 | with the own-key lookup, normalising a normalised name changes nothing |
| CodeLanguage.NormalizeIdempotent | apps/desktop/src/editor/codeLanguage.ts:28-38 | with the own-key lookup, normalising the normalised form of any optional input changes nothing |
| CodeLanguage.IdempotentAsWritten | apps/desktop/src/editor/codeLanguage.ts:28-38 | as written, normalising twice changes nothing for every name whose key is not an inherited member |
| CodeLanguage.IdempotentAsWrittenIff | apps/desktop/src/editor/codeLanguage.ts:28-38 | as written, normalising twice gives the same name exactly when the key is not "constructor" or "__proto__" |
| CodeLanguage.ConstructorAsWritten | apps/desktop/src/editor/codeLanguage.ts:37 | as written, "constructor" normalises to the text of the `Object` function |
| CodeLanguage.ProtoAsWritten | apps/desktop/src/editor/codeLanguage.ts:37 | as written, "__proto__" normalises to "[object Object]", the text of `Object.prototype` |
| CodeLanguage.ConstructorPassesThrough | apps/desktop/src/editor/codeLanguage.ts:28-38 | with the own-key lookup, "constructor" normalises to itself |
| CodeLanguage.ProtoPassesThrough | apps/desktop/src/editor/codeLanguage.ts:28-38 | with the own-key lookup, "__proto__" normalises to itself |
| SearchOps.IndexOf | apps/desktop/src/search/ops.ts:26 | a found index lies at or after the start and the match fits in the text |
| SearchOps.IndexOfLeftmost | apps/desktop/src/search/ops.ts:26 | a found index is an occurrence and no earlier position from the start is one; not found means no occurrence from the start |
| SearchOps.IndexOfIsLeftmost | apps/desktop/src/search/ops.ts:26 | the first occurrence from the start is the index found |
| SearchOps.ReplaceNext | apps/desktop/src/search/ops.ts:21-32 | replacing the next occurrence; ReplaceNextFirst, ReplaceNextAbsent, ReplaceNextSelf and ReplaceNextLength state its contract |
| SearchOps.CountMatches | apps/desktop/src/search/ops.ts:1-19 | the loop's count is the number of non-overlapping matches scanned left to right, zero for an empty query |
| SearchOps.CountStep | apps/desktop/src/search/ops.ts:9-16 | each match found advances the scan past the match and adds one |
| SearchOps.CountFromBound | apps/desktop/src/search/ops.ts:9-16 | the matches counted from a position fit, end to end, in the rest of the text |
| SearchOps.MatchesBound | apps/desktop/src/search/ops.ts:1-19 | the matches times the query length is at most the text length |
| SearchOps.MatchesZeroIffAbsent | apps/desktop/src/search/ops.ts:1-19 | for a non-empty query the count is zero exactly when the query occurs nowhere |
| SearchOps.ReplaceNextFirst | apps/desktop/src/search/ops.ts:21-32 | the first occurrence, and only it, is replaced |
| SearchOps.ReplaceNextAbsent | apps/desktop/src/search/ops.ts:22-29 | an empty or absent query leaves the text unchanged |
| SearchOps.ReplaceNextSelf | apps/desktop/src/search/ops.ts:21-32 | replacing the query by itself leaves the text unchanged |
| SearchOps.ReplaceNextLength | apps/desktop/src/search/ops.ts:21-32 | the length changes by the length difference exactly when there is a match |
| SearchOps.SplitFrom | apps/desktop/src/search/ops.ts:39 | splitting gives at least one piece |
| SearchOps.SplitCount | apps/desktop/src/search/ops.ts:39 | splitting on the query gives one piece more than there are matches |
| SearchOps.JoinSplitLength | apps/desktop/src/search/ops.ts:39 | splitting and joining with the replacement changes the length by the difference once per match |
| SearchOps.ReplaceAllLength | apps/desktop/src/search/ops.ts:34-40 | replacing all changes the length by the match count times the length difference |
| SearchOps.JoinSplitSelf | apps/desktop/src/search/ops.ts:39 | joining the pieces with the query gives the text back |
| SearchOps.ReplaceAll | apps/desktop/src/search/ops.ts:34-40 | replacing every occurrence; ReplaceAllLength, ReplaceAllSelf, ReplaceAllAbsent and SingleMatchAgrees state its contract |
| SearchOps.ReplaceAllSelf | apps/desktop/src/search/ops.ts:34-40 | replacing every occurrence by itself leaves the text unchanged |
| SearchOps.ReplaceAllAbsent | apps/desktop/src/search/ops.ts:35-39 | an empty or absent query leaves the text unchanged |
| SearchOps.SingleMatchAgrees | apps/desktop/src/search/ops.ts:21-40 | with exactly one match, replacing all and replacing the next agree |
| ViewModel.SplitSpaces | apps/desktop/src/workspace/viewModel.ts:8-9 | splitting on whitespace gives at least one piece |
| ViewModel.NonEmpty | apps/desktop/src/workspace/viewModel.ts:8-9 | dropping empty pieces never adds any |
| ViewModel.SplitLines | apps/desktop/src/workspace/viewModel.ts:11 | splitting into lines gives at least one line |
| ViewModel.CalculateDocumentStats | apps/desktop/src/workspace/viewModel.ts:7-18 | there is at least one line and the character count is the document's length |
| ViewModel.RunsBound | apps/desktop/src/workspace/viewModel.ts:8-9 | a text has no more runs of non-space characters than characters |
| ViewModel.RunsTrimStart | apps/desktop/src/workspace/viewModel.ts:8 | trimming leading whitespace keeps every run |
| ViewModel.RunsAppendSpaces | apps/desktop/src/workspace/viewModel.ts:8 | appending whitespace adds no run |
| ViewModel.RunsOfBlank | apps/desktop/src/workspace/viewModel.ts:8-9 | a blank text has no run |
| ViewModel.RunsTrimEnd | apps/desktop/src/workspace/viewModel.ts:8 | trimming trailing whitespace keeps every run |
| ViewModel.FirstPiece | apps/desktop/src/workspace/viewModel.ts:9 | the first piece of the split is empty exactly when the text is empty or starts with whitespace |
| ViewModel.PiecesAreRuns | apps/desktop/src/workspace/viewModel.ts:9 | the non-empty pieces of the whitespace split are exactly the runs |
| ViewModel.WordsAreRuns | apps/desktop/src/workspace/viewModel.ts:8-9 | the word count is the number of maximal runs of non-whitespace characters |
| ViewModel.BlankHasNoWords | apps/desktop/src/workspace/viewModel.ts:8-9 | a blank document has no words |
| ViewModel.WordsBound | apps/desktop/src/workspace/viewModel.ts:7-18 | a document never has more words than characters |
| ViewModel.SplitLinesCount | apps/desktop/src/workspace/viewModel.ts:11 | the lines are one more than the line feeds |
| ViewModel.LinesAreLineFeeds | apps/desktop/src/workspace/viewModel.ts:11 | the line count is the number of line feeds plus one, so "\r\n" and "\n" both end a line |
| ViewModel.CrLfCountsOnce | apps/desktop/src/workspace/viewModel.ts:11 | "a\r\nb" has two lines |
| ViewModel.RunsAppend | apps/desktop/src/workspace/viewModel.ts:8-9 | runs add up over a join that does not glue two runs together |
| ViewModel.LineFeedsAppend | apps/desktop/src/workspace/viewModel.ts:11 | line feeds add up over a join |
| ViewModel.WordIsOneRun | apps/desktop/src/workspace/viewModel.ts:8-9 | a non-empty text without whitespace is one word |
| ViewModel.NoLineFeeds | apps/desktop/src/workspace/viewModel.ts:11 | a text without line feeds has none |
| ViewModel.TwoWords | apps/desktop/src/workspace/viewModel.ts:8-9 | two words with whitespace between them are two runs |
| ViewModel.ParagraphRuns | apps/desktop/src/workspace/viewModel.ts:8-9 | two texts separated by whitespace have the sum of their runs |
| ViewModel.ParagraphLineFeeds | apps/desktop/src/workspace/viewModel.ts:11 | the line feeds of two texts and the gap between them add up |
| ViewModel.StatsExample | apps/desktop/src/workspace/viewModel.test.ts:5-12 | "# Title\n\nHello FerrumNote" has 4 words, 25 characters and 3 lines |
| MarkdownShortcuts.WordStart | apps/desktop/src/editor/markdownShortcuts.ts:248-250 | the backward scan ends at or before the position |
| MarkdownShortcuts.WordEnd | apps/desktop/src/editor/markdownShortcuts.ts:251-254 | the forward scan ends between the position and the line's end |
| MarkdownShortcuts.WordStartScan | apps/desktop/src/editor/markdownShortcuts.ts:248-250 | the backward scan stops at the line start or after a non-word character, and passes only word characters |
| MarkdownShortcuts.WordEndScan | apps/desktop/src/editor/markdownShortcuts.ts:251-254 | the forward scan stops at the line end or before a non-word character, and passes only word characters |
| MarkdownShortcuts.WordRange | apps/desktop/src/editor/markdownShortcuts.ts:240-264 | a word range contains the position, lies in the document and is not empty |
| MarkdownShortcuts.WordRangeMaximal | apps/desktop/src/editor/markdownShortcuts.ts:240-264 | there is no word exactly when neither neighbour of the position is a word character; a word found is a maximal run of word characters |
| MarkdownShortcuts.WordScanInDoc | apps/desktop/src/editor/markdownShortcuts.ts:240-254 | the line-local scans, moved to document offsets, bound a maximal run of word characters around the position |
| MarkdownShortcuts.WordRangeAt | apps/desktop/src/editor/markdownShortcuts.ts:240-264 | the two scanning loops compute the word range |
| MarkdownShortcuts.WrapRange | apps/desktop/src/editor/markdownShortcuts.ts:102-112 | the range to wrap lies in the document: the selection, or the word at an empty cursor |
| MarkdownShortcuts.ToggleWrap | apps/desktop/src/editor/markdownShortcuts.ts:102-157 | the wrap toggle; WrapInserts and WrapRemoves state its two branches, WrapRoundTrip that it undoes itself, WrapApplies that its edit is valid |
| MarkdownShortcuts.WrapEditInserts | apps/desktop/src/editor/markdownShortcuts.ts:146-156 | without a wrapper the markers are inserted around the range and the selection moves inside them |
| MarkdownShortcuts.WrapEditRemoves | apps/desktop/src/editor/markdownShortcuts.ts:124-136 | with a wrapper the markers around the range are removed and the selection follows the text |
| MarkdownShortcuts.WrapInserts | apps/desktop/src/editor/markdownShortcuts.ts:102-156 | toggling a range without a wrapper inserts the markers around it and selects the same text |
| MarkdownShortcuts.WrapRemoves | apps/desktop/src/editor/markdownShortcuts.ts:102-136 | toggling a wrapped range removes the markers and selects the same text |
| MarkdownShortcuts.NoWordBetweenMarkers | apps/desktop/src/editor/markdownShortcuts.ts:106-112 | after wrapping an empty cursor outside any word, the cursor between the markers is still outside any word |
| MarkdownShortcuts.UnwrapWrapped | apps/desktop/src/editor/markdownShortcuts.ts:124-136 | removing the markers just inserted gives the original document with the range selected |
| MarkdownShortcuts.WrapRoundTrip | apps/desktop/src/editor/markdownShortcuts.ts:102-157 | toggling a wrap twice restores the document and selects the wrapped range |
| MarkdownShortcuts.SecondToggle | apps/desktop/src/editor/markdownShortcuts.ts:102-157 | the second toggle on the wrapped text finds the wrapper and removes it |
| MarkdownShortcuts.WrapRoundTripRestores | apps/desktop/src/editor/markdownShortcuts.ts:102-157 | for a forward selection, or a cursor outside any word, toggling twice restores the state exactly |
| MarkdownShortcuts.HashRun | apps/desktop/src/editor/markdownShortcuts.ts:177-190 | the run of '#' ends at the line end or before a character other than '#' |
| MarkdownShortcuts.HashRunScan | apps/desktop/src/editor/markdownShortcuts.ts:177-190 | every character the run passes is '#' |
| MarkdownShortcuts.SpaceRun | apps/desktop/src/editor/markdownShortcuts.ts:177-190 | the whitespace run ends at the line end or before a non-space character |
| MarkdownShortcuts.SpaceRunScan | apps/desktop/src/editor/markdownShortcuts.ts:177-190 | every character that run passes is whitespace |
| MarkdownShortcuts.HeadingMarkLength | apps/desktop/src/editor/markdownShortcuts.ts:177-190 | the heading mark fits in the line |
| MarkdownShortcuts.HeadingMarkMatches | apps/desktop/src/editor/markdownShortcuts.ts:177-190 | a heading mark is found exactly when the line starts with one to six '#' and whitespace; it is the hashes followed by all the whitespace after them |
| MarkdownShortcuts.ToggleLinePrefix | apps/desktop/src/editor/markdownShortcuts.ts:159-203 | the prefix toggle with the corrected heading cursor; PrefixRemoved, PrefixInserted and HeadingReplaced state its branches, PrefixRoundTrip that it undoes itself, LinePrefixApplies that its edit is valid |
| MarkdownShortcuts.ToggleLinePrefixAsWritten | apps/desktop/src/editor/markdownShortcuts.ts:159-203 | the prefix toggle as written, with the cursor at `head + prefix.length` after a heading mark is replaced; HeadingCursorAsWrittenFails shows its edit refused |
| MarkdownShortcuts.PrefixRemoved | apps/desktop/src/editor/markdownShortcuts.ts:163-175 | a line already starting with the prefix loses it, and the cursor moves back by its length, or to the line start when it was inside the prefix |
| MarkdownShortcuts.PrefixInserted | apps/desktop/src/editor/markdownShortcuts.ts:192-202 | any prefix other than "## " is inserted at the line start and the cursor moves forward by its length |
| MarkdownShortcuts.HeadingReplaced | apps/desktop/src/editor/markdownShortcuts.ts:177-190 | "## " replaces an existing heading mark; the cursor stays inside the new line's text, behind the same text it stood before |
| MarkdownShortcuts.HeadingText | apps/desktop/src/editor/markdownShortcuts.ts:177-190 | the replaced line and the corrected cursor fit in the new document and keep the text after the cursor |
| MarkdownShortcuts.LineAfterPrefix | apps/desktop/src/editor/markdownShortcuts.ts:192-202 | after inserting a prefix the cursor's line starts where it did and its text is the prefix followed by the old text |
| MarkdownShortcuts.PrefixRoundTrip | apps/desktop/src/editor/markdownShortcuts.ts:159-203 | toggling a prefix twice on a line without it restores the document and the cursor |
| MarkdownShortcuts.PrefixDropped | apps/desktop/src/editor/markdownShortcuts.ts:163-175 | toggling the prefix on a line it was just added to removes it again |
| MarkdownShortcuts.PrefixAdded | apps/desktop/src/editor/markdownShortcuts.ts:192-202 | adding a prefix gives the document with the prefix at the line start and the cursor moved by its length |
| MarkdownShortcuts.InfoRun | apps/desktop/src/editor/markdownShortcuts.ts:210-224 | the info-string scan ends at the end or before a character that cannot be in an info string |
| MarkdownShortcuts.InfoRunScan | apps/desktop/src/editor/markdownShortcuts.ts:210-224 | every character the scan passes can be in an info string |
| MarkdownShortcuts.StripOpeningFence | apps/desktop/src/editor/markdownShortcuts.ts:210-224 | stripping the opening fence removes a prefix of the text |
| MarkdownShortcuts.StripClosingFence | apps/desktop/src/editor/markdownShortcuts.ts:210-224 | stripping the closing fence removes a suffix of the text |
| MarkdownShortcuts.ToggleCodeFence | apps/desktop/src/editor/markdownShortcuts.ts:205-238 | the fence toggle; FenceWraps and FenceUnwraps state its branches, FenceRoundTrip that it undoes itself, FenceApplies that its edit is valid |
| MarkdownShortcuts.FenceWraps | apps/desktop/src/editor/markdownShortcuts.ts:226-237 | a selection that is not a fenced block is wrapped in fences on their own lines and stays selected |
| MarkdownShortcuts.FencedSlice | apps/desktop/src/editor/markdownShortcuts.ts:226-237 | the wrapped document holds the old text between the fences and the old document around them |
| MarkdownShortcuts.FenceUnwraps | apps/desktop/src/editor/markdownShortcuts.ts:210-224 | a selected fenced block is replaced by its stripped body, which becomes the selection |
| MarkdownShortcuts.StripFencedText | apps/desktop/src/editor/markdownShortcuts.ts:210-237 | stripping the fences the wrapping adds gives the text back |
| MarkdownShortcuts.FenceRoundTrip | apps/desktop/src/editor/markdownShortcuts.ts:205-238 | wrapping a selection in a fence and toggling the selected block again restores the document |
| MarkdownShortcuts.FenceUnwrapsBlock | apps/desktop/src/editor/markdownShortcuts.ts:210-224 | toggling a selected block that wrapping produced removes the fences |
| MarkdownShortcuts.FenceBlockEnds | apps/desktop/src/editor/markdownShortcuts.ts:210 | a wrapped block starts and ends with three backticks |
| MarkdownShortcuts.FenceOpening | apps/desktop/src/editor/markdownShortcuts.ts:60 | a bare fence has no info string, and an info string is all that follows the backticks |
| MarkdownShortcuts.FenceOpeningMatches | apps/desktop/src/editor/markdownShortcuts.ts:60 | a line opens a fence exactly when it starts with three backticks followed only by info-string characters |
| MarkdownShortcuts.InheritedNameOpensFence | apps/desktop/src/editor/markdownShortcuts.ts:59-63 | "```constructor" and "```__proto__" are fence openings, so the Enter rewrite looks the inherited names up |
| MarkdownShortcuts.HasClosingFenceBelow | apps/desktop/src/editor/markdownShortcuts.ts:87-100 | the loop finds a closing fence exactly when some later line, trimmed, is three backticks |
| MarkdownShortcuts.ClosingFenceBelowAt | apps/desktop/src/editor/markdownShortcuts.ts:87-100 | a closing fence below the cursor's line is the same as a later offset whose trimmed line is three backticks |
| MarkdownShortcuts.ClosingFenceAt | apps/desktop/src/editor/markdownShortcuts.ts:87-100 | a later offset on a closing-fence line means a closing fence below |
| MarkdownShortcuts.LaterLineStart | apps/desktop/src/editor/markdownShortcuts.ts:92-97 | every later line number has an offset after the line's end |
| MarkdownShortcuts.LaterLineNumber | apps/desktop/src/editor/markdownShortcuts.ts:92-97 | every offset after the line's end lies on a later line number |
| MarkdownShortcuts.FenceLanguage | apps/desktop/src/editor/markdownShortcuts.ts:62-64 | with the own-key language lookup, the language written is empty exactly when no language or plaintext was given, and otherwise it is the normalised language |
| MarkdownShortcuts.ApplyEnterBehavior | apps/desktop/src/editor/markdownShortcuts.ts:40-85 | the Enter rewrite, with the own-key language lookup; EnterCondition states when it applies, EnterEdit what it writes, EnterApplies that its edit is valid |
| MarkdownShortcuts.FenceOpeningExcludesOtherForms | apps/desktop/src/editor/markdownShortcuts.ts:51-60 | a fence opening is neither an inline code span nor four backticks |
| MarkdownShortcuts.FenceOpeningShape | apps/desktop/src/editor/markdownShortcuts.ts:60 | a fence opening starts with three backticks, and a non-empty info string starts and ends with letters, digits or `_+.#-`, never with whitespace |
| MarkdownShortcuts.EnterCondition | apps/desktop/src/editor/markdownShortcuts.ts:40-85 | Enter is handled exactly when the cursor is empty at the end of a line that opens a fence and no closing fence lies below |
| MarkdownShortcuts.EnterEdit | apps/desktop/src/editor/markdownShortcuts.ts:60-81 | with the own-key language lookup, the handled Enter replaces the line with the normalised opening, an empty line and a closing fence, and puts the cursor on the empty line |
| MarkdownShortcuts.EnterRewrite | apps/desktop/src/editor/markdownShortcuts.ts:71-81 | the rewritten document has the new block in place of the line and the cursor between two line feeds |
| MarkdownShortcuts.EnterUpdate | apps/desktop/src/editor/markdownShortcuts.ts:71-81 | the one-change edit applies and gives the spliced document |
| MarkdownShortcuts.RewriteSlices | apps/desktop/src/editor/markdownShortcuts.ts:71-81 | the new block follows the opening with two line feeds and three backticks, and the rest of the document after it |
| MarkdownShortcuts.ClosingFenceAfterRewrite | apps/desktop/src/editor/markdownShortcuts.ts:71-81 | after the rewrite a closing fence lies below the opening line |
| MarkdownShortcuts.SecondEnterIsNull | apps/desktop/src/editor/markdownShortcuts.ts:65-81 | pressing Enter again at the end of the rewritten opening line is not handled |
| MarkdownShortcuts.EnterOnRewritten | apps/desktop/src/editor/markdownShortcuts.ts:65-81 | any rewritten block has its closing fence, so Enter on the opening is not handled |
| MarkdownShortcuts.EnterNullWhenClosed | apps/desktop/src/editor/markdownShortcuts.ts:65-69 | a closing fence below the cursor's line leaves Enter unhandled |
| MarkdownShortcuts.WrapApplies | apps/desktop/src/editor/markdownShortcuts.ts:102-157 | a wrap toggle is always a valid edit of the document |
| MarkdownShortcuts.LinePrefixApplies | apps/desktop/src/editor/markdownShortcuts.ts:159-203 | with the corrected heading cursor, a prefix toggle is always a valid edit of the document; as written, heading 2 on "# T" at 3 is refused (HeadingCursorAsWrittenFails) |
| MarkdownShortcuts.FenceApplies | apps/desktop/src/editor/markdownShortcuts.ts:205-238 | a fence toggle is always a valid edit of the document |
| MarkdownShortcuts.ShortcutApplies | apps/desktop/src/editor/markdownShortcuts.ts:14-38 | with the corrected heading cursor, every shortcut command gives a valid edit whose result is a valid state; as written, heading 2 on "# T" at 3 is refused (HeadingCursorAsWrittenFails) |
| MarkdownShortcuts.ApplyMarkdownShortcut | apps/desktop/src/editor/markdownShortcuts.ts:14-38 | the dispatch of the eight commands to the wrap, prefix and fence toggles, with the corrected heading cursor for heading 2; its contract is ShortcutApplies and ShortcutWrapRoundTrip |
| MarkdownShortcuts.ShortcutWrapRoundTrip | apps/desktop/src/editor/markdownShortcuts.ts:14-38 | the bold, italic and inline-code commands undo themselves on a second use |
| MarkdownShortcuts.EnterApplies | apps/desktop/src/editor/markdownShortcuts.ts:40-85 | a handled Enter is always a valid edit |
| MarkdownShortcuts.HeadingCursorAsWrittenFails | apps/desktop/src/editor/markdownShortcuts.ts:177-190 | as written, toggling "## " on "# T" with the cursor at 3 asks for an anchor past the end of the new document, which the editor refuses |
| MarkdownShortcuts.HeadingCursorCorrected | apps/desktop/src/editor/markdownShortcuts.ts:177-190 | with the corrected cursor, the same toggle gives "## T" with the cursor at 4 |
| MarkdownShortcuts.BoldExample | apps/desktop/src/editor/markdownShortcuts.test.ts:6-15 | bold on the selected "world" of "hello world" gives "hello **world**" with "world" selected |
| MarkdownShortcuts.EmptyBoldExample | apps/desktop/src/editor/markdownShortcuts.ts:138-144 | bold on an empty document gives "****" with the cursor between the markers |
| MarkdownShortcuts.HeadingExample | apps/desktop/src/editor/markdownShortcuts.test.ts:17-25 | heading 2 on "Title" gives "## Title" |
| MarkdownShortcuts.EnterPythonExample | apps/desktop/src/editor/markdownShortcuts.test.ts:27-37 | Enter at the end of a "py" fence opening gives a python block with the cursor on its empty line |
| MarkdownShortcuts.EnterInlineCodeExample | apps/desktop/src/editor/markdownShortcuts.test.ts:39-47 | Enter after an inline code span is not handled |
| MarkdownShortcuts.EnterClosedFenceExample | apps/desktop/src/editor/markdownShortcuts.test.ts:49-57 | Enter on an opening whose block is already closed is not handled |
| MarkdownShortcuts.EnterNestedFenceExample | apps/desktop/src/editor/markdownShortcuts.test.ts:59-67 | Enter on an opening followed by another opening and a closing fence is not handled |
| MarkdownCodec.LeadingTicks | apps/desktop/src/editor/markdownCodec.ts:58 | the leading backtick run is all backticks, maximal, and non-empty when the text starts with a backtick |
| MarkdownCodec.MaxOfBounds | apps/desktop/src/editor/markdownCodec.ts:58-59 | the maximum bounds every run and is itself one of the runs |
| MarkdownCodec.TicksShift | apps/desktop/src/editor/markdownCodec.ts:58 | a backtick run stays a run when the text is cut before it |
| MarkdownCodec.RunsBoundTicks | apps/desktop/src/editor/markdownCodec.ts:58 | no backtick run is longer than the longest maximal run |
| MarkdownCodec.NoLongerRun | apps/desktop/src/editor/markdownCodec.ts:58 | the content holds no backtick run longer than its longest |
| MarkdownCodec.TickLexLe | apps/desktop/src/editor/markdownCodec.ts:59 | on backtick strings the default string order is the order of lengths |
| MarkdownCodec.LexOrder | apps/desktop/src/editor/markdownCodec.ts:59 | the default string order is total and transitive |
| MarkdownCodec.FenceMatches | apps/desktop/src/editor/markdownCodec.ts:58 | the matches are no more than the runs |
| MarkdownCodec.FenceMatchesSpec | apps/desktop/src/editor/markdownCodec.ts:58 | the matches are exactly the backtick runs of length three or more |
| MarkdownCodec.NoFenceMatches | apps/desktop/src/editor/markdownCodec.ts:58-59 | content without a run of three backticks has no match |
| MarkdownCodec.SortedLastIsLongest | apps/desktop/src/editor/markdownCodec.ts:59 | the last of the sorted matches is the longest match |
| MarkdownCodec.Fence | apps/desktop/src/editor/markdownCodec.ts:58-59 | the code block fence; FenceLength and FenceOutrunsContent state its length |
| MarkdownCodec.FenceLength | apps/desktop/src/editor/markdownCodec.ts:58-59 | the fence is three backticks unless the content holds a run of three or more, and then one backtick longer than the longest run |
| MarkdownCodec.FenceOutrunsContent | apps/desktop/src/editor/markdownCodec.ts:57-66 | the fence is at least three backticks and longer than every backtick run in the content, so the content cannot close it |
| MarkdownCodec.CodeBlock | apps/desktop/src/editor/markdownCodec.ts:57-66 | the code block rule; CodeBlockLayout states the text it writes, CodeBlockLanguageRoundTrip that its language reads back |
| MarkdownCodec.CodeBlockLayout | apps/desktop/src/editor/markdownCodec.ts:57-66 | a code block is the fence with the trimmed language and a line feed, the content unchanged, a line feed and the fence |
| MarkdownCodec.InfoLanguage | apps/desktop/src/editor/markdownCodec.ts:34 | the language read from an info string is absent or a non-empty word without whitespace |
| MarkdownCodec.FirstWord | apps/desktop/src/editor/markdownCodec.ts:34 | the first word of a text holds no whitespace |
| MarkdownCodec.FirstWordOfWord | apps/desktop/src/editor/markdownCodec.ts:34 | a text without whitespace is its own first word |
| MarkdownCodec.CodeBlockLanguageRoundTrip | apps/desktop/src/editor/markdownCodec.ts:34-60 | a language without whitespace is written and read back as itself, and an empty or missing one reads back as none |
| MarkdownCodec.NoTicksFence | apps/desktop/src/editor/markdownCodec.ts:58-59 | content without backticks gets the three-backtick fence |
| MarkdownCodec.NoTickRuns | apps/desktop/src/editor/markdownCodec.ts:58 | text without backticks has no backtick run |
| MarkdownCodec.LanguageWritten | apps/desktop/src/editor/markdownCodec.ts:57-61 | a trimmed language is written right after the fence |
| MarkdownCodec.PlaintextIsWritten | apps/desktop/src/editor/markdownCodec.ts:60-61 | the language "plaintext" is written out like any other |
| MarkdownCodec.HeadingPrefix | apps/desktop/src/editor/markdownCodec.ts:67-68 | a level-n heading prefix is n + 1 characters long |
| MarkdownCodec.LeadingHashesOfPrefix | apps/desktop/src/editor/markdownCodec.ts:68 | n hashes and a space start with exactly n hashes |
| MarkdownCodec.HeadingLevel | apps/desktop/src/editor/markdownCodec.ts:24-29 | the heading `getAttrs`, `Number(tag.slice(1))`; HeadingRoundTrip states that it reads back the level of every "hN" tag |
| MarkdownCodec.HeadingRoundTrip | apps/desktop/src/editor/markdownCodec.ts:24-29 | the prefix written for a level has that many hashes then a space, and the token tag of the level reads back as the level |
| MarkdownCodec.StartOrOne | apps/desktop/src/editor/markdownCodec.ts:21 | the list start is at least one, and a given positive start is kept |
| MarkdownCodec.ItemMarker | apps/desktop/src/editor/markdownCodec.ts:79-87 | the ordered-list item marker; ItemMarkerShape states its width and number, StartRoundTrip that the start reads back |
| MarkdownCodec.ItemMarkerShape | apps/desktop/src/editor/markdownCodec.ts:79-87 | every item marker is as wide as the spacer, and, leading spaces aside, is the decimal number of its item followed by ". " |
| MarkdownCodec.MarkerTrim | apps/desktop/src/editor/markdownCodec.ts:85 | trimming the padding of a marker leaves the number and ". " |
| MarkdownCodec.TrimPad | apps/desktop/src/editor/markdownCodec.ts:85 | left-trimming spaces stops at the first digit |
| MarkdownCodec.StartRoundTrip | apps/desktop/src/editor/markdownCodec.ts:18-23 | reading back the start the serializer uses gives the same start; a missing or zero start reads as one |
| MarkdownCodec.HardBreak | apps/desktop/src/editor/markdownCodec.ts:95-102 | the loop writes a backslash and a line feed exactly when some later sibling is not a hard break, and nothing otherwise |
| MarkdownCodec.LeadingWord | apps/desktop/src/editor/markdownCodec.ts:161 | the leading word is a maximal run of word characters |
| MarkdownCodec.LeadingWordAtLeast | apps/desktop/src/editor/markdownCodec.ts:161 | the leading word covers any prefix of word characters |
| MarkdownCodec.HasSchemeIff | apps/desktop/src/editor/markdownCodec.ts:161 | an href has a scheme exactly when it starts with one or more word characters followed by a colon |
| MarkdownCodec.IsPlainLink | apps/desktop/src/editor/markdownCodec.ts:160-166 | `isPlainLink`: no title, an href with a scheme, and a text node equal to the href; HasSchemeIff states the scheme test |
| MarkdownCodec.EscapeHref | apps/desktop/src/editor/markdownCodec.ts:119 | escaping never shortens the href |
| MarkdownCodec.EscapeQuotes | apps/desktop/src/editor/markdownCodec.ts:120 | escaping never shortens the title |
| MarkdownCodec.HrefEscaped | apps/desktop/src/editor/markdownCodec.ts:119 | every parenthesis and double quote of the escaped href is preceded by a backslash |
| MarkdownCodec.EscapeHrefHead | apps/desktop/src/editor/markdownCodec.ts:119 | an escaped href never starts with a parenthesis or a quote |
| MarkdownCodec.HrefRoundTrip | apps/desktop/src/editor/markdownCodec.ts:119 | CommonMark backslash unescaping gives the href back |
| MarkdownCodec.TitleRoundTrip | apps/desktop/src/editor/markdownCodec.ts:120 | CommonMark backslash unescaping gives the title back |
| MarkdownCodec.LinkOpen | apps/desktop/src/editor/markdownCodec.ts:111-113 | the open delimiter, "<" exactly for a plain link; LinkDelimitersAgree relates it to the close |
| MarkdownCodec.LinkClose | apps/desktop/src/editor/markdownCodec.ts:114-122 | the close delimiter, ">" for a plain link and LinkDestination otherwise; LinkDelimitersAgree relates it to the open |
| MarkdownCodec.LinkDestination | apps/desktop/src/editor/markdownCodec.ts:119-121 | the inline-link close starts with "](" and ends with ")" |
| MarkdownCodec.LinkDelimitersAgree | apps/desktop/src/editor/markdownCodec.ts:110-122 | the open delimiter, decided on the first linked node, and the close delimiter, decided on the last, agree exactly when the two nodes are alike plain or not, and always over a single node; a close decided on a non-plain node starts with "](" |
| MarkdownCodec.EscapeHrefPlain | apps/desktop/src/editor/markdownCodec.ts:119 | an href without ( ) or " is written unescaped |
| MarkdownCodec.MixedLinkAsWritten | apps/desktop/src/editor/markdownCodec.ts:110-122 | as written, a link whose first node is its own schemed href and whose last node is other text opens with "<" and closes with "](href)" |
| MarkdownCodec.MixedLinkExample | apps/desktop/src/editor/markdownCodec.ts:110-122 | as written, a link over "a:b" and an italic "b" opens with "<" and closes with "](a:b)" |
| MarkdownCodec.IsAutolink | apps/desktop/src/editor/markdownCodec.ts:160-166 | the corrected autolink test over all linked nodes: exactly one text node equal to the href, which LinkOverAgree relates to IsPlainLink |
| MarkdownCodec.LinkOpenOver | apps/desktop/src/editor/markdownCodec.ts:111-113 | the corrected open delimiter, decided once for the whole link; LinkOverAgree states its contract |
| MarkdownCodec.LinkCloseOver | apps/desktop/src/editor/markdownCodec.ts:114-122 | the corrected close delimiter, with the same decision; LinkOverAgree states its contract |
| MarkdownCodec.LinkOverAgree | apps/desktop/src/editor/markdownCodec.ts:110-122 | with the decision made for the whole link, it opens with "<" exactly when it closes with ">", and with "[" exactly when the close starts with "]("; over one node both delimiters are the serializer's |
| MarkdownCodec.MixedLinkCorrected | apps/desktop/src/editor/markdownCodec.ts:110-122 | with the corrected decision, the as-written example is an inline link on both sides |
| MarkdownCodec.LinkAttrs | apps/desktop/src/editor/markdownCodec.ts:42-48 | the href is kept, and the given title is kept exactly when it is non-empty |
| MarkdownCodec.EmptyTitleIgnored | apps/desktop/src/editor/markdownCodec.ts:46-47 | a link parsed with an empty title is written like one without a title |
| MarkdownCodec.InlineTicks | apps/desktop/src/editor/markdownCodec.ts:143-158 | a non-text node gets one backtick; a text gets one backtick more than its longest run, with a space inside when the text holds backticks |
| MarkdownCodec.CodeSpanAsWritten | apps/desktop/src/editor/markdownCodec.ts:143-158 | a code span as written, padded only by InlineTicks; CodeSpanLosesSpaces shows " a " read back as "a" |
| MarkdownCodec.CorrectedPad | apps/desktop/src/editor/markdownCodec.ts:143-158 | the corrected padding, also given to a text that begins and ends with a space; CodeSpanRoundTrip states that, under the CommonMark 6.1 reading, every code text reads back |
| MarkdownCodec.CodeSpanLosesSpaces | apps/desktop/src/editor/markdownCodec.ts:143-158 | as written, the code text " a " is written as a span that reads back as "a" |
| MarkdownCodec.CodeSpanRoundTrip | apps/desktop/src/editor/markdownCodec.ts:143-158 | with the corrected padding, every code text reads back from its span as itself under the CommonMark 6.1 reading |
| MarkdownCodec.TickAt | apps/desktop/src/editor/markdownCodec.ts:148 | a text with a backtick run holds a backtick |
| MarkdownCodec.SerializeMarkdown | apps/desktop/src/editor/markdownCodec.ts:137-139 | the serialized Markdown never ends with whitespace |
| MarkdownCodec.SerializeTrims | apps/desktop/src/editor/markdownCodec.ts:137-139 | the result is the serializer output with only trailing whitespace removed, and trimming again changes nothing |
| MarkerDecorations.MarkerHideRange | apps/desktop/src/editor/markerDecorations.ts:93-105 | the hidden range starts at the marker, and reaches one past its end exactly when the marker is a heading, list or quote mark followed by a space |
| MarkerDecorations.HideRangeOverSpace | apps/desktop/src/editor/markerDecorations.ts:97-101 | a range that reaches past the marker covers a space of the document |
| MarkerDecorations.IsSelectionInside | apps/desktop/src/editor/markerDecorations.ts:89-91 | the closed-interval test of the cursor against the parent; BoundaryKeepsVisible states both ends count as inside |
| MarkerDecorations.OwnDecorations | apps/desktop/src/editor/markerDecorations.ts:42-60 | a node contributes at most a hidden marker and a code-info mark |
| MarkerDecorations.HiddenIff | apps/desktop/src/editor/markerDecorations.ts:37-56 | a node's marker is hidden exactly when the node has a parent, its name is a marker name, the cursor is outside the parent, it is not a kept fence code mark, and its hide range is not empty |
| MarkerDecorations.CodeInfoIff | apps/desktop/src/editor/markerDecorations.ts:58-60 | a code-info mark is added exactly for a CodeInfo node inside a FencedCode parent that the cursor is outside, over the node's range |
| MarkerDecorations.Visit | apps/desktop/src/editor/markerDecorations.ts:24-62 | the recursive walk over siblings and children; VisitDecorates states what it collects, VisitSiblings that the loop computes it |
| MarkerDecorations.MarkerDecorationsOf | apps/desktop/src/editor/markerDecorations.ts:15-66 | the decorations of a state; DecorationsOfTree states their shape, AnchorIrrelevant that only the head matters, BuildMarkerDecorations that the builder computes them |
| MarkerDecorations.BoundaryKeepsVisible | apps/desktop/src/editor/markerDecorations.ts:89-91 | a cursor on either end of the parent counts as inside, so its children stay visible |
| MarkerDecorations.VisitDecorates | apps/desktop/src/editor/markerDecorations.ts:24-62 | the walk's decorations are exactly those contributed by the (parent, node) pairs of the siblings and their descendants |
| MarkerDecorations.DecorationsOfTree | apps/desktop/src/editor/markerDecorations.ts:15-66 | every hidden range is non-empty, and every decoration comes from a node with a parent: the root contributes nothing |
| MarkerDecorations.AnchorIrrelevant | apps/desktop/src/editor/markerDecorations.ts:42-46 | only the selection head decides the decorations |
| MarkerDecorations.VisitSiblings | apps/desktop/src/editor/markerDecorations.ts:24-62 | the recursive sibling loop computes the walk's decorations |
| MarkerDecorations.BuildMarkerDecorations | apps/desktop/src/editor/markerDecorations.ts:15-66 | the builder collects the walk's decorations from the root |
| MarkerDecorations.MarkerPlugin.constructor | apps/desktop/src/editor/markerDecorations.ts:73-75 | a new plugin holds the decorations of the initial state |
| MarkerDecorations.MarkerPlugin.Update | apps/desktop/src/editor/markerDecorations.ts:77-81 | a document or selection change recomputes the decorations from the new state; any other update keeps them |
| MarkerDecorations.HeadingExample | apps/desktop/src/editor/markerDecorations.test.ts:25-37 | in "# Title\n\nParagraph" the heading mark and its space are hidden when the cursor is at the end, and nothing is hidden with the cursor inside the heading |
| MarkerDecorations.InsideEverywhere | apps/desktop/src/editor/markerDecorations.ts:42-60 | when the cursor lies inside every node that has children, nothing is decorated |
| MarkerDecorations.BoldExample | apps/desktop/src/editor/markerDecorations.test.ts:39-46 | in "Text **bold** end" the opening "**" is hidden with the cursor at the start and nothing is hidden with the cursor inside the bold text |
| PresentationDecorations.HeadingLevel | apps/desktop/src/editor/writerPresentationDecorations.ts:19-28 | a heading node's level lies between one and six |
| PresentationDecorations.InclusiveEnd | apps/desktop/src/editor/writerPresentationDecorations.ts:124 | the inclusive end is the last character of a non-empty range and the start of an empty one |
| PresentationDecorations.FencedEntries | apps/desktop/src/editor/writerPresentationDecorations.ts:117-155 | one entry per line of a fenced block; FencedShape and FencedLinesRoles state its roles, FencedLinesMatch that the loop pushes it |
| PresentationDecorations.FencedLinesShape | apps/desktop/src/editor/writerPresentationDecorations.ts:127-155 | the loop gives one entry per line number, in order |
| PresentationDecorations.FencedBounds | apps/desktop/src/editor/writerPresentationDecorations.ts:123-125 | the block's first line number is at most its last, and both are lines of the document |
| PresentationDecorations.FencedEnds | apps/desktop/src/editor/writerPresentationDecorations.ts:123-128 | the first and last lines found by offset start where the lines fetched by number start |
| PresentationDecorations.LineFromStart | apps/desktop/src/editor/writerPresentationDecorations.ts:128 | every line fetched by number starts at a line start of the document |
| PresentationDecorations.DocLineFrom | apps/desktop/src/editor/writerPresentationDecorations.ts:128 | a line fetched by number starts where the line table says |
| PresentationDecorations.LineStartsIncrease | apps/desktop/src/editor/writerPresentationDecorations.ts:127-128 | later line numbers start strictly later |
| PresentationDecorations.LineStartsPlaceLines | apps/desktop/src/editor/writerPresentationDecorations.ts:127-128 | the line table places every line of a range at an increasing line start |
| PresentationDecorations.FencedLinesRoles | apps/desktop/src/editor/writerPresentationDecorations.ts:127-155 | the first line is marked open, a different last line closed, all lines between body, each entry empty at a line start and in increasing order |
| PresentationDecorations.FencedShape | apps/desktop/src/editor/writerPresentationDecorations.ts:117-156 | a fenced block gets one entry per line from its first to its last line: open first, close last when there are two or more lines, body between, each an empty range at a line start in increasing order |
| PresentationDecorations.FencedSingleLine | apps/desktop/src/editor/writerPresentationDecorations.ts:127-139 | a block on one line gets only the open entry |
| PresentationDecorations.FencedLinesMatch | apps/desktop/src/editor/writerPresentationDecorations.ts:127-155 | entries pushed line by line with their roles are the block's entries |
| PresentationDecorations.PushLine | apps/desktop/src/editor/writerPresentationDecorations.ts:128-154 | each pass of the loop pushes the entry of the current line and keeps the loop invariant |
| PresentationDecorations.FencedPushed | apps/desktop/src/editor/writerPresentationDecorations.ts:127-155 | when the loop ends the entries are the old ones followed by the block's |
| PresentationDecorations.AddFencedLineDecorations | apps/desktop/src/editor/writerPresentationDecorations.ts:117-156 | the loop appends exactly the block's line entries to the entries already there |
| PresentationDecorations.AddNodeDecorations | apps/desktop/src/editor/writerPresentationDecorations.ts:44-64 | one pass of the walk appends what the node contributes: a heading line, fenced lines, or a code-info badge |
| PresentationDecorations.BuildPresentationDecorations | apps/desktop/src/editor/writerPresentationDecorations.ts:30-85 | the walk and the sort compute the decorations of the state |
| PresentationDecorations.PresentationDecorationsOf | apps/desktop/src/editor/writerPresentationDecorations.ts:30-85 | the sorted decorations of a state; PresentationOrdered, PresentationMember and PresentationShape state their order, membership and shape |
| PresentationDecorations.EntryOrder | apps/desktop/src/editor/writerPresentationDecorations.ts:67-77 | the comparison by start then end is total and transitive |
| PresentationDecorations.PreOrderInDocument | apps/desktop/src/editor/writerPresentationDecorations.ts:35-65 | every node the cursor walk visits lies in the document |
| PresentationDecorations.CollectedStep | apps/desktop/src/editor/writerPresentationDecorations.ts:37-65 | each pass of the walk adds the contribution of the next node in walk order |
| PresentationDecorations.CollectedNext | apps/desktop/src/editor/writerPresentationDecorations.ts:37-65 | the next node's contribution is its node entries |
| PresentationDecorations.NodeEntries | apps/desktop/src/editor/writerPresentationDecorations.ts:44-64 | the heading, fenced-line and badge entries of one node; NodeEntriesShape, HeadingContribution, BlockContribution and InfoContribution state them |
| PresentationDecorations.Contribution | apps/desktop/src/editor/writerPresentationDecorations.ts:44-64 | the entries each visited node contributes; ContributionOf and PlainContribution state them |
| PresentationDecorations.ContributionOf | apps/desktop/src/editor/writerPresentationDecorations.ts:44-64 | a node in the document contributes its node entries |
| PresentationDecorations.PlainContribution | apps/desktop/src/editor/writerPresentationDecorations.ts:44-64 | a node that is no heading, fenced block or code info contributes nothing |
| PresentationDecorations.HeadingContribution | apps/desktop/src/editor/writerPresentationDecorations.ts:44-52 | a heading contributes one line decoration at the start of its line, with its level and the policy's scale |
| PresentationDecorations.BlockContribution | apps/desktop/src/editor/writerPresentationDecorations.ts:54-56 | a fenced block contributes its line entries when code-block styling is on |
| PresentationDecorations.InfoContribution | apps/desktop/src/editor/writerPresentationDecorations.ts:58-64 | a code-info node contributes a badge over its range when the badge is on |
| PresentationDecorations.CollectedMember | apps/desktop/src/editor/writerPresentationDecorations.ts:37-65 | an entry is collected exactly when some visited node contributes it |
| PresentationDecorations.CollectedAppend | apps/desktop/src/editor/writerPresentationDecorations.ts:37-65 | collecting over two node lists is collecting over each in turn |
| PresentationDecorations.CollectedCons | apps/desktop/src/editor/writerPresentationDecorations.ts:37-65 | the first node's contribution comes first |
| PresentationDecorations.PresentationOrdered | apps/desktop/src/editor/writerPresentationDecorations.ts:67-77 | the decorations are sorted by start then end, a permutation of the collected entries, and entries with equal ranges keep their walk order |
| PresentationDecorations.PresentationMember | apps/desktop/src/editor/writerPresentationDecorations.ts:30-85 | an entry is a decoration exactly when some node of the tree contributes it |
| PresentationDecorations.HeadingEntryIff | apps/desktop/src/editor/writerPresentationDecorations.ts:44-52 | a heading entry is produced exactly for a heading node, with its level and scale, at the start of the node's line |
| PresentationDecorations.NodeEntriesShape | apps/desktop/src/editor/writerPresentationDecorations.ts:44-64 | line entries are empty ranges at line starts, badges cover a CodeInfo node, and a switched-off option produces none of its entries |
| PresentationDecorations.PresentationShape | apps/desktop/src/editor/writerPresentationDecorations.ts:30-85 | every line decoration is an empty range at a line start, and switched-off options produce none of their decorations |
| PresentationDecorations.SelectionIrrelevant | apps/desktop/src/editor/writerPresentationDecorations.ts:30-85 | the decorations do not depend on the selection |
| PresentationDecorations.PresentationPlugin.constructor | apps/desktop/src/editor/writerPresentationDecorations.ts:101-103 | a new plugin holds the decorations of the initial state |
| PresentationDecorations.PresentationPlugin.Update | apps/desktop/src/editor/writerPresentationDecorations.ts:105-109 | a document, selection or viewport change recomputes the decorations; any other update keeps them |
| PresentationDecorations.HeadingsExample | apps/desktop/src/editor/writerPresentationDecorations.test.ts:41-47 | "# Title\n\n## Subtitle" gets a level-1 decoration at 0 and a level-2 decoration at 9 |
| PresentationDecorations.FencedExampleLines | apps/desktop/src/editor/writerPresentationDecorations.test.ts:49-56 | the three lines of "```python\nprint(1)\n```" are marked open, body and close |
| PresentationDecorations.FencedCollected | apps/desktop/src/editor/writerPresentationDecorations.ts:37-65 | that block's walk collects its three line entries, then the badge over "python" |
| PresentationDecorations.FencedExample | apps/desktop/src/editor/writerPresentationDecorations.test.ts:49-63 | sorted, the block's decorations are open, the badge over "python", body and close |
| FsPaths.Segments | crates/fn-fs/src/lib.rs:392 | splitting a path at its slashes gives at least one segment |
| FsPaths.Prepend | crates/fn-fs/src/lib.rs:392 | putting a character back on the first segment keeps the number of segments |
| FsPaths.Part | crates/fn-fs/src/lib.rs:392 | a segment yields at most one component |
| FsPaths.Parts | crates/fn-fs/src/lib.rs:392 | the segments yield no more components than there are segments |
| FsPaths.NormalizeFrom | crates/fn-fs/src/lib.rs:389-408 | the component fold of normalize_relative_path; NormalizeRelativePath computes it by the loop, and NormalizeFromValid, NoParentNoEscapeFrom and NormalizeNormals state its contract |
| FsPaths.NormalizeRelativePath | crates/fn-fs/src/lib.rs:389-408 | the component loop computes the normalised relative path or its error |
| FsPaths.SegmentsHaveNoSlash | crates/fn-fs/src/lib.rs:392 | no segment holds a slash |
| FsPaths.PartsAreValid | crates/fn-fs/src/lib.rs:392 | every name component of slash-free segments is a valid name |
| FsPaths.ComponentsAreValid | crates/fn-fs/src/lib.rs:392 | every name component of a path is non-empty, holds no slash and is neither "." nor ".." |
| FsPaths.NormalizeFromValid | crates/fn-fs/src/lib.rs:392-405 | the loop only ever pushes valid names |
| FsPaths.NormalizedNamesAreValid | crates/fn-fs/src/lib.rs:389-408 | a normalised path is a list of valid names |
| FsPaths.EscapeRejected | crates/fn-fs/src/lib.rs:396-399 | a path whose first component is ".." is refused as outside the workspace |
| FsPaths.UpThenName | crates/fn-fs/src/lib.rs:392 | "../n" has the components "..", then n |
| FsPaths.OutsideRejected | crates/fn-fs/tests/fs_tests.rs:86-99 | "../outside" is refused as outside the workspace |
| FsPaths.RootedRejected | crates/fn-fs/src/lib.rs:401-403 | an absolute path is refused as an invalid relative path |
| FsPaths.SegmentsOfJoin | crates/fn-fs/src/lib.rs:392 | splitting names joined with slashes gives the names back |
| FsPaths.ComponentsOfJoin | crates/fn-fs/src/lib.rs:392 | valid names joined with slashes have exactly those names as components |
| FsPaths.NormalizeNormals | crates/fn-fs/src/lib.rs:394-395 | name components are pushed in order |
| FsPaths.NormalizeJoin | crates/fn-fs/src/lib.rs:389-408 | valid names joined with slashes normalise to those names |
| FsPaths.NormalizeIdempotent | crates/fn-fs/src/lib.rs:389-408 | normalising a normalised path gives it back |
| FsPaths.NoParentNoEscapeFrom | crates/fn-fs/src/lib.rs:396-399 | without a ".." component the loop never reports an escape |
| FsPaths.NoParentNoEscape | crates/fn-fs/src/lib.rs:389-408 | a path without a ".." component is never refused as outside the workspace |
| FsPaths.FileName | crates/fn-fs/src/lib.rs:239 | a file name is a valid name |
| FsPaths.NormalizePath | crates/fn-fs/src/lib.rs:232-244 | a path is accepted, unchanged, exactly when it is not blank and has a file name; a blank one is refused as empty, one without a file name as invalid |
| FsPaths.NoFileNameRefused | crates/fn-fs/src/lib.rs:239-241 | a path ending in ".." is refused as invalid |
| FsPaths.RootRefused | crates/fn-fs/src/lib.rs:239-241 | "/" is refused as invalid |
| FsPaths.EmptyRefused | crates/fn-fs/tests/fs_tests.rs:49-53 | the empty path is refused as empty |
| FsPaths.ComponentsOfJoinPath | crates/fn-fs/src/lib.rs:347 | joining valid names onto the root appends them to the root's components |
| FsPaths.JoinPath | crates/fn-fs/src/lib.rs:347 | `PathBuf::join`; ComponentsOfJoinPath states that it appends the components |
| FsPaths.ResolveWorkspaceRelativePath | crates/fn-fs/src/lib.rs:328-358 | a blank relative path resolves to the root and an absolute one is refused as an invalid relative path |
| FsPaths.ResolvedUnderRoot | crates/fn-fs/src/lib.rs:328-358 | a resolved path is the root or lies under it, every component past the root being a valid name |
| FsPaths.ResolveEscapeRejected | crates/fn-fs/src/lib.rs:342 | a relative path starting with ".." is refused as outside the workspace, whatever the filesystem says |
| FsPaths.ResolveOutsideRejected | crates/fn-fs/tests/fs_tests.rs:86-99 | resolving "../outside" is refused as outside the workspace |
| FsPaths.RelativePathString | crates/fn-fs/src/lib.rs:360-370 | the relative string fails, with an outside-the-workspace error, exactly when the path is not under the root |
| FsPaths.TextsOfNormals | crates/fn-fs/src/lib.rs:364-367 | the text of name components is the names |
| FsPaths.RelativeOfRoot | crates/fn-fs/src/lib.rs:360-370 | the root relative to itself is the empty string |
| FsPaths.RelativeOfJoinPath | crates/fn-fs/src/lib.rs:347-370 | names joined onto the root read back, relative to the root, as the names joined with slashes |
| FsPaths.LastDot | crates/fn-fs/src/lib.rs:373 | the last dot of a name is a dot with none after it, and none is found only when the name has no dot |
| FsPaths.IsMarkdownFile | crates/fn-fs/src/lib.rs:372-380 | the Markdown extension test; MarkdownIff, NoDotNotMarkdown and HiddenNotMarkdown state its contract |
| FsPaths.MarkdownIff | crates/fn-fs/src/lib.rs:372-380 | a file with a stem and an extension is Markdown exactly when the extension is "md" or "markdown" in any case |
| FsPaths.LastDotAt | crates/fn-fs/src/lib.rs:373 | a dot with no dot after it is the last dot |
| FsPaths.NoDotNotMarkdown | crates/fn-fs/src/lib.rs:373-379 | a file name without a dot has no extension and is not Markdown |
| FsPaths.HiddenNotMarkdown | crates/fn-fs/src/lib.rs:373-379 | a dot file such as ".md" has no extension and is not Markdown |
| FsWorkspace.EntryKindRank | crates/fn-fs/src/lib.rs:382-387 | directories rank 0 and Markdown files 1 |
| FsWorkspace.EntryLeTotal | crates/fn-fs/src/lib.rs:182-190 | any two entries compare |
| FsWorkspace.EntryLeTransitive | crates/fn-fs/src/lib.rs:182-190 | the listing order is transitive |
| FsWorkspace.EntryOrder | crates/fn-fs/src/lib.rs:182-190 | the listing order is a total preorder, as the sort requires |
| FsWorkspace.EntryLeTies | crates/fn-fs/src/lib.rs:182-190 | entries tie only when they have the same kind and the same name |
| FsWorkspace.SortedGroups | crates/fn-fs/src/lib.rs:182-190 | in a sorted listing every directory comes before every file, and entries of a kind follow their lower-cased names |
| FsWorkspace.SortEntries | crates/fn-fs/src/lib.rs:182-190 | sorting keeps the number of entries |
| FsWorkspace.Admit | crates/fn-fs/src/lib.rs:149-179 | the test of one directory item; AdmitIff states when an item is listed |
| FsWorkspace.Collect | crates/fn-fs/src/lib.rs:144-180 | the entries of the directory items; CollectEntries computes it by the loop, PrefixError and CollectedEntries state its contract |
| FsWorkspace.CollectEntries | crates/fn-fs/src/lib.rs:144-180 | the loop over directory items computes the collected entries, or the first error |
| FsWorkspace.PrefixError | crates/fn-fs/src/lib.rs:144-148 | the first failing directory item ends the listing with its error |
| FsWorkspace.CollectedEntries | crates/fn-fs/src/lib.rs:144-180 | every collected entry lies in the current directory, a Markdown entry has a Markdown name, and its relative path is its path relative to the root |
| FsWorkspace.AdmitIff | crates/fn-fs/src/lib.rs:149-179 | an item is listed exactly when its canonical path lies under the root and it is a directory or a Markdown file |
| FsWorkspace.NormalizeWorkspaceRoot | crates/fn-fs/src/lib.rs:309-326 | a blank root is refused as an empty path |
| FsWorkspace.Listing | crates/fn-fs/src/lib.rs:127-197 | the listing of a workspace directory; ListWorkspaceEntries computes it, ListingOrder and ListingPermutes state its order and contents |
| FsWorkspace.ListWorkspaceEntries | crates/fn-fs/src/lib.rs:127-197 | the method computes the listing of the directory or its error |
| FsWorkspace.ListingOrder | crates/fn-fs/src/lib.rs:182-190 | a listing is sorted: directories first, then files, each group by lower-cased name |
| FsWorkspace.ListingPermutes | crates/fn-fs/src/lib.rs:144-190 | the listing holds exactly the collected entries |
| FsWorkspace.ListingRootIsEmptyRelative | crates/fn-fs/src/lib.rs:192-196 | listing the root reports the empty relative path |
| FsWorkspace.ListingOutsideRejected | crates/fn-fs/tests/fs_tests.rs:86-99 | listing "../outside" is refused as outside the workspace |
| FsWorkspace.FirstLetterOrder | crates/fn-fs/src/lib.rs:182-190 | names whose lower-case first letters differ are ordered by them |
| FsWorkspace.ListingExample | crates/fn-fs/tests/fs_tests.rs:66-84 | alpha-dir, zeta-dir, guide.markdown and note.md, in any order, sort to that order |
| FsWorkspace.NormalizeWriteTarget | crates/fn-fs/src/lib.rs:213-230 | an accepted write target is the accepted path |
| FsWorkspace.SaveFile | crates/fn-fs/src/lib.rs:60-96 | save_file; SaveConflict, SaveWrites and SaveEmptyPath state its contract |
| FsWorkspace.SaveConflict | crates/fn-fs/src/lib.rs:60-96 | when the file's version differs from the expected one, nothing is written and the conflict is reported with the current version, whatever the write would have done |
| FsWorkspace.SaveWrites | crates/fn-fs/src/lib.rs:60-96 | a save succeeds on the given path; it conflicts exactly when the versions differ, and otherwise reports the bytes of the content and the new version |
| FsWorkspace.SaveEmptyPath | crates/fn-fs/src/lib.rs:232-235 | saving or saving-as to the empty path is refused as empty, before anything is probed |
| FsWorkspace.SaveAsFile | crates/fn-fs/src/lib.rs:98-110 | save_as_file; SaveAsWrites and SaveMatchesSaveAs state its contract |
| FsWorkspace.SaveAsWrites | crates/fn-fs/src/lib.rs:98-110 | save-as writes the content and reports its bytes and the new version without conflict; a missing parent directory is refused as an invalid path |
| FsWorkspace.SaveMatchesSaveAs | crates/fn-fs/src/lib.rs:60-110 | saving an existing file at the expected version does what save-as does |
| FsWorkspace.Utf8Bounds | crates/fn-fs/src/lib.rs:85-95 | the bytes written are between one and four per character |
| Sorting.SortPermutes | apps/desktop/src/editor/writerPresentationDecorations.ts:67-77 | the sort returns a rearrangement of its input |
| Sorting.SortSorted | apps/desktop/src/editor/writerPresentationDecorations.ts:67-77 | given a total preorder the sort returns an ordered sequence |
| Sorting.SortStable | apps/desktop/src/editor/writerPresentationDecorations.ts:67-77 | elements that compare equal keep their input order, as `Array.prototype.sort` guarantees |
| Sorting.SortIsUnique | crates/fn-fs/src/lib.rs:182-190 | without ties, any ordered rearrangement of the input is the sort's result |
| Text.DigitsRoundTrip | apps/desktop/src/editor/markdownCodec.ts:84 | the decimal digits of a number read back as the number |
| Text.DigitsLengthMonotone | apps/desktop/src/editor/markdownCodec.ts:81-85 | a larger number never has fewer digits, so the widest marker is the last |
| EditorDoc.UpdateOne | apps/desktop/src/editor/markdownShortcuts.ts:71-81 | a one-change edit gives the spliced document, and is refused when the new selection points outside it |
| SyntaxTree.PreOrderWellFormed | apps/desktop/src/editor/writerPresentationDecorations.ts:35-65 | every node the cursor walk of a well-formed tree visits lies in the document |

## Left out

- Reading and watching files: `open_file`, `watch_file` and `normalize_existing_file` are not part of this model, because they only read the disk or register a watcher.
- `atomic_write` is a parameter of the save operations: it can fail, and on success its byte count is the UTF-8 length of the content. Its temporary file and rename fallback are not modelled.
- File versions (`hash_version`, `last_modified_epoch_ms`) are opaque 64-bit numbers supplied by the caller, since they hash file contents and read the clock. `make_watch_id` and `map_permission_err` are left out with the watcher and the I/O errors.
- The filesystem is a parameter of every crate operation: existence, directory tests, canonical paths, directory items and metadata are the answers the operating system would give. Symbolic links appear only through the canonical path of each item.
- `AppConfig`: `load`, `write_default_if_missing`, `set_workspace_root`, `default_config_path` (which reads `HOME`) and `write_to_path` only locate, read or write the configuration file, so they are not modelled. The TOML parser is a function parameter; a write is its possible error.
- Paths are Unix paths. `Prefix` components never occur, since they appear only on Windows.
- Whitespace, trimming and case are ASCII: JavaScript's `trim` and `\s`, and Rust's `trim` and `to_lowercase`, also treat other Unicode characters. Lengths count characters, not UTF-16 code units.
- The library sorts are modelled by an insertion sort with the same guarantees: sorted, a permutation, and stable.
- The ProseMirror serializer's block layout (`closeBlock`, `renderList` indentation, `wrapBlock`), mark nesting and text escaping are not modelled; each node and mark rule is modelled on its own. The markdown-it tokenizer is not modelled either: the token attributes it produces are inputs.
- CommonMark line endings inside code spans are not modelled.
- CodeLanguage.NormalizeText: looks names up among the alias table's own keys. The source's object-literal lookup also finds the inherited "constructor" and "__proto__"; that lookup is CodeLanguage.NormalizeTextAsWritten (see Findings).
- CodeLanguage.Normalize: uses the own-key lookup of NormalizeText, for the same reason.
- CodeLanguage.PassThrough: holds of the own-key lookup; as written it also needs the key not to be an inherited member (CodeLanguage.PassThroughAsWritten).
- CodeLanguage.Idempotent: holds of the own-key lookup; as written it fails on the inherited names (CodeLanguage.IdempotentAsWrittenIff).
- CodeLanguage.NormalizeIdempotent: the same as CodeLanguage.Idempotent, for the nullable entry point.
- CodeLanguage.NormalizeTextAsWritten: gives an inherited member's value as the text a template literal makes of it, which is the only way the editor uses the result. The values themselves are a function and an object, not strings.
- MarkdownShortcuts.ShortcutApplies: proved of the dispatcher with the corrected heading cursor. As written, heading 2 can ask for a selection past the end of the document, and the edit is refused (see Findings).
- MarkdownShortcuts.LinePrefixApplies: proved of the toggle with the corrected heading cursor. As written, every replacement of a heading mark by "## " moves the cursor differently: on "# Title" with the cursor at 4 the source puts it at 7 and the model at 5. Some of these edits are refused (see Findings).
- MarkdownShortcuts.ApplyMarkdownShortcut: dispatches heading 2 to the toggle with the corrected heading cursor, so it places the cursor differently from the source after every heading-mark replacement.
- MarkdownShortcuts.FenceLanguage: uses the own-key lookup of CodeLanguage.Normalize. As written, "constructor" and "__proto__" give the text of the inherited value (see Findings).
- MarkdownShortcuts.ApplyEnterBehavior: on "```constructor" the source writes "```function Object() { [native code] }\n\n```", and the model writes "```constructor\n\n```", because it uses the own-key lookup. The same holds for "```__proto__".
- MarkdownShortcuts.EnterEdit: states the rewrite with the own-key lookup, for the same reason.
- MarkdownCodec.CodeSpanRoundTrip: proved under the space-stripping rule of section 6.1 of CommonMark. The markdown-it parser the codec uses is not modelled; it also strips one space from each end of an all-space span, so "   " would read back as " ".
- MarkdownCodec.CorrectedPad: its round trip is proved under the same CommonMark rule, for the same reason.
- `parseMarkdown` hands `markdown || ""` to the markdown-it parser, which is not modelled; only the token attribute readers are.
- MarkdownCodec.HrefRoundTrip: proved only for hrefs without a backslash, because the serializer does not escape backslashes.
- MarkdownCodec.TitleRoundTrip: proved only for titles without a backslash, for the same reason.
- CodeMirror's `RangeSetBuilder` is not modelled, and neither is its check that ranges are added in order. The decorations are the ordered list of ranges given to it.
- The Lezer parser is not modelled: the syntax tree is an input, and the cursor walk is its pre-order.
- `EditorDoc.Update` stands in for CodeMirror's transaction. It applies ordered, non-overlapping changes and refuses a selection outside the new document.
- The heading scale of the presentation policy is an optional real number. The CSS class and style strings are not modelled.
- PresentationDecorations.Contribution: a node whose range lies outside the document contributes nothing. No well-formed tree has such a node, so this guard only makes the function total.
- The `side` argument of `inlineTicks` is an integer, -1 or 1.
- MarkdownCodec.SerializeMarkdown works on the serializer's output string, which is an input.

## Findings

| source | as written | input that shows it | evidently intended | confidence | as-written member | corrected member |
|---|---|---|---|---|---|---|
| apps/desktop/src/editor/markdownShortcuts.ts:177-190 | after replacing an existing heading mark with "## ", the cursor is put at `head + prefix.length` (line 186), which does not account for the length of the removed mark | the document "# T" with the cursor at 3 (end of line): the new document "## T" has length 4, but the anchor asked for is 6, and the editor refuses the transaction | the cursor stays at the same place in the heading text, shifted by the change in mark length; the as-written cursor is off on every heading-mark replacement ("# Title" at 4 gives 7, not 5), and is refused when it lands past the end | not executed | MarkdownShortcuts.HeadingCursorAsWrittenFails (on MarkdownShortcuts.ToggleLinePrefixAsWritten) | MarkdownShortcuts.HeadingCursorCorrected, MarkdownShortcuts.HeadingReplaced (on MarkdownShortcuts.ToggleLinePrefix, which ApplyMarkdownShortcut uses) |
| apps/desktop/src/editor/markdownCodec.ts:143-158 | the inline code markers are padded with a space only when the text holds a backtick | the code text " a ", written as "` a `": section 6.1 of CommonMark strips one leading and one trailing space, so it reads back as "a" | a code text that begins and ends with a space, and is not all spaces, is padded too, so it reads back unchanged under the CommonMark 6.1 reading | not executed | MarkdownCodec.CodeSpanLosesSpaces (on MarkdownCodec.CodeSpanAsWritten) | MarkdownCodec.CodeSpanRoundTrip (on MarkdownCodec.CorrectedPad) |
| apps/desktop/src/editor/codeLanguage.ts:37 | the alias lookup `LANGUAGE_ALIAS_MAP[normalized]` is on a plain object literal, so it also finds members inherited from `Object.prototype`; after lower-casing, "constructor" and "__proto__" can be reached, and both values are truthy | the fence line "```constructor" followed by Enter: the name normalises to the `Object` function, written as "function Object() { [native code] }", and normalising that text again gives "function object() { [native code] }" | only the table's own keys are aliases, and every other name passes through trimmed and lower-cased | not executed | CodeLanguage.IdempotentAsWrittenIff, CodeLanguage.ConstructorAsWritten (on CodeLanguage.NormalizeTextAsWritten) | CodeLanguage.Idempotent, CodeLanguage.ConstructorPassesThrough (on CodeLanguage.NormalizeText, which MarkdownShortcuts uses) |
| apps/desktop/src/editor/markdownCodec.ts:110-122 | the link's open delimiter tests `isPlainLink` on its first node (`parent.child(index)`), the close delimiter on its last (`parent.child(index - 1)`) | a link with href "a:b" over the text "a:b" followed by an italic "b": it opens with "<" and closes with "](a:b)", giving "<a:b*b*](a:b)" | one decision for the whole link, an autolink only when it covers a single text node equal to the href | not executed | MarkdownCodec.MixedLinkExample, MarkdownCodec.MixedLinkAsWritten (on MarkdownCodec.LinkOpen and MarkdownCodec.LinkClose) | MarkdownCodec.LinkOverAgree, MarkdownCodec.MixedLinkCorrected (on MarkdownCodec.IsAutolink) |
