# ActionScribe note pipeline in Dafny

ActionScribe is a note-taking page. When the user presses "Save & Extract", the page does three things:

1. It works out which lines of the note are new since the last save (the *delta*).
2. If the delta is not blank, it sends the delta to an extraction service. The service replies with one action item per line, or with the sentinel `NO_ACTIONS`.
3. It appends the items whose lower-cased text is not already the lower-cased text of an existing item, then moves the snapshot to the current note.

This project models that pipeline from `src/app/page.tsx` and proves its properties. It has five modules:

- `Wrappers` (`wrappers.dfy`): `Option`, for a reply field that may be missing.
- `Text` (`text.dfy`): the JavaScript string operations the page relies on. These are `split('\n')`, `join('\n')`, `trim()` (with the ECMAScript whitespace and line-terminator set) and `toLowerCase()` (ASCII letters only). It also defines a subsequence relation, used to state that a filter keeps order.
- `Delta` (`delta.dfy`): `extractNewContent`. It is a line-set difference, so membership counts and position does not.
- `Actions` (`actions.dfy`):
  - the `Action` record;
  - parsing of the service's reply into items;
  - the deduplicating `prev => [...prev, ...unique]` merge.
- `Page` (`page.dfy`): the component state. `PageState` and the functions `Extracted` and `Saved` specify the transitions. The class `NotePage` holds the four state fields (`noteContent`, `actions`, `previousContent`, `isProcessing`). It has one method per transition. The two save-and-extract methods are proved against those functions: `ExtractActionsWithAI` against `Extracted` and `HandleSaveAndExtract` against `Saved`. The constructor and `EditNote` state the whole new state directly.

Inputs that the page gets from outside are parameters:

- The service's answer is an `Outcome`: a failure (a thrown error or a non-OK response), or a reply whose `actions` field may be missing.
- `Math.random` ids are a function `ids: nat -> string` of the item's position in the batch.
- `Date.now()` times are a function `clock: nat -> int` of the item's position.

Points where the behaviour of the code is easy to mistake:

- **Duplicates within one batch.** The filter at src/app/page.tsx:75-78 compares new items only with `prevActions`. Items of one batch are never compared with each other, so two items with the same new text are both appended. `Actions.BatchDuplicatesSurvive` and `Actions.MergeCounts` prove this. The merged list can therefore hold two entries whose texts are equal ignoring case.
- **Action fields.** The `Action` interface at src/app/page.tsx:10-15 has exactly `id`, `text`, `timestamp` and `source`. There is no completion flag and no owner, and the model has neither.
- **Skipped replies.** The test at src/app/page.tsx:62 skips a missing reply and an empty one as well as the exact string `NO_ACTIONS`, because `data.actions &&` fails first.
- **Order.** The page keeps the list in insertion order: the existing items first, then the appended ones in reply order. No sorting happens in `page.tsx`. The `orderBy` of `src/app/api/actions/route.ts` is done by the database and is not part of this model.

## Model

| member | source | states |
|---|---|---|
| Text.Split | src/app/page.tsx:38-39 | `split('\n')` gives at least one piece and no piece contains a newline |
| Text.SplitCount | src/app/page.tsx:38-39 | there is exactly one more piece than there are newlines in the text |
| Text.JoinSplit | src/app/page.tsx:38-41 | joining the pieces of a split with newlines gives back the original text |
| Text.SplitJoin | src/app/page.tsx:38-41 | splitting a join of at least one newline-free piece gives back the pieces |
| Text.SplitTrailing | src/app/page.tsx:38-39 | a trailing newline adds exactly one empty last piece |
| Text.SplitTwo | src/app/page.tsx:38-39 | two newline-free pieces joined by a newline split into exactly those two |
| Text.SplitThree | src/app/page.tsx:38-39 | three newline-free pieces joined by newlines split into exactly those three |
| Text.TrimStart | src/app/page.tsx:65-68 | the result is a suffix of the text, everything cut off is whitespace, and it does not start with whitespace |
| Text.TrimEnd | src/app/page.tsx:65-68 | the result is a prefix of the text, everything cut off is whitespace, and it does not end with whitespace |
| Text.TrimShape | src/app/page.tsx:65-68 | `trim()` is the slice between a whitespace prefix and a whitespace suffix, and it neither starts nor ends with whitespace |
| Text.TrimBlank | src/app/page.tsx:65 | a line trims to the empty string exactly when every character is whitespace; this is the falsy test of the filter |
| Text.TrimUnchanged | src/app/page.tsx:68 | a text that starts and ends with non-whitespace is its own trim |
| Text.TrimIdempotent | src/app/page.tsx:68 | trimming twice is trimming once |
| Text.Join | src/app/page.tsx:41 | `join('\n')`; `Text.JoinSplit` and `Text.SplitJoin` state that it undoes `Split` and is undone by it |
| Text.Trim | src/app/page.tsx:65-68 | `trim()`; `Text.TrimShape`, `Text.TrimBlank` and `Text.TrimIdempotent` state what it removes and keeps |
| Text.Lower | src/app/page.tsx:75-77 | `toLowerCase()` keeps the length, leaves no upper-case ASCII letter, and keeps every other character |
| Text.LowerAt | src/app/page.tsx:75-77 | lower-casing works character by character |
| Text.LowerIdempotent | src/app/page.tsx:75-77 | lower-casing twice is lower-casing once |
| Delta.KeepAbsent | src/app/page.tsx:40 | the `filter(line => !oldLines.includes(line))` step; its lemmas below state which lines survive, how often, and in what order |
| Delta.KeepAbsentCounts | src/app/page.tsx:40 | every copy of a surviving line is kept: a line occurs in the result as often as among the new lines when it is not an old line, and never otherwise |
| Delta.ExtractNewContent | src/app/page.tsx:37-42 | `extractNewContent`; `Delta.DeltaLines`, `Delta.DeltaSound`, `Delta.DeltaComplete`, `Delta.DeltaCounts` and `Delta.DeltaKeepsOrder` state its result |
| Delta.DeltaCounts | src/app/page.tsx:37-42 | every line of the new text that is not an old line occurs in a non-empty delta as often as in the new text |
| Delta.DeltaKeepsRepeatedLine | src/app/page.tsx:37-42 | a new line given twice appears twice: against `"a"`, `"x\nx"` gives `"x\nx"` |
| Delta.KeepAbsentMembers | src/app/page.tsx:40 | a line survives the filter exactly when it is a new line and not an old line |
| Delta.KeepAbsentSubseq | src/app/page.tsx:40 | the filter keeps the surviving lines in their order |
| Delta.KeepAbsentCovered | src/app/page.tsx:40 | when every new line is an old line, nothing survives |
| Delta.DeltaLines | src/app/page.tsx:37-42 | a non-empty set of added lines is exactly the set of lines of the delta; with no added lines the delta is `""` |
| Delta.DeltaSound | src/app/page.tsx:37-42 | every line of a non-empty delta is a line of the new text and not a line of the old text |
| Delta.DeltaComplete | src/app/page.tsx:37-42 | every line of the new text that is not a line of the old text is a line of the delta |
| Delta.DeltaKeepsOrder | src/app/page.tsx:37-42 | the lines of a non-empty delta are a subsequence of the new text's lines |
| Delta.DeltaOfSelf | src/app/page.tsx:37-42 | the delta of a text against itself is empty |
| Delta.DeltaOfAppend | src/app/page.tsx:37-42 | the delta of `"a\nb"` to `"a\nb\nc"` is `"c"` |
| Delta.DeltaIgnoresPosition | src/app/page.tsx:37-42 | the delta of `"a\nb"` to `"b\na"` is empty, because membership and not position counts |
| Delta.DeltaFromEmptyDropsEmptyLines | src/app/page.tsx:37-42 | against an empty snapshot, whose lines are `[""]`, empty lines are dropped: `"x\n\ny"` gives `"x\ny"` |
| Delta.DeltaFromEmptyKeepsSpaceLine | src/app/page.tsx:37-42 | against an empty snapshot a line of spaces is not empty and is kept: `"x\n \ny"` comes back whole |
| Actions.IsNoActions | src/app/page.tsx:62 | the reply has no items when `data.actions` is missing, empty or exactly `NO_ACTIONS`; `Page.NothingExtracted` states that the list is then unchanged |
| Actions.ActionTexts | src/app/page.tsx:63-68 | the `filter(line => line.trim())` and `text.trim()` steps; the lemmas below state which texts survive, how often, and in what order |
| Actions.ActionTextsCounts | src/app/page.tsx:63-68 | every copy is kept: a non-empty trimmed line occurs among the texts as often as among the trimmed lines, and `""` never |
| Actions.ActionTextsLength | src/app/page.tsx:63-68 | there is exactly one text per line that does not trim to `""` |
| Actions.ParseActions | src/app/page.tsx:63-71 | the `split`/`filter`/`map` chain that builds the items; `Actions.ParsedItemFields`, `Actions.ParsedItemOrder`, `Actions.ParsedItemCounts` and `Actions.ParsedItemMembers` state its result |
| Actions.ParsedItemCounts | src/app/page.tsx:63-71 | there is one item per non-blank reply line, and each non-empty trimmed line occurs among the item texts as often as in the reply |
| Actions.ParseRepeatedLine | src/app/page.tsx:63-71 | a reply giving the same line twice yields two items with that text |
| Actions.ActionTextsRepeated | src/app/page.tsx:63-68 | both copies of a repeated trimmed line survive the filter |
| Actions.ActionTextsTrimmed | src/app/page.tsx:63-68 | every text that survives the filter is non-empty and already trimmed |
| Actions.ActionTextsSubseq | src/app/page.tsx:63-68 | the surviving texts are a subsequence of the trimmed lines |
| Actions.ActionTextsComplete | src/app/page.tsx:63-68 | every non-blank line contributes its trimmed text |
| Actions.ParsedItemFields | src/app/page.tsx:63-71 | the k-th item has a non-empty trimmed text, id `ids(k)`, time `clock(k)` and source `"ai"` |
| Actions.ParsedItemOrder | src/app/page.tsx:63-71 | item texts are a subsequence of the trimmed reply lines, so there are no more items than lines |
| Actions.ParsedItemsComplete | src/app/page.tsx:63-71 | every non-blank reply line becomes an item with its trimmed text |
| Actions.ParsedItemMembers | src/app/page.tsx:63-71 | every item is tagged `"ai"` and its text is a non-empty trimmed line of the reply |
| Actions.ParsedTexts | src/app/page.tsx:63-71 | the item texts depend only on the reply, not on the ids and times |
| Actions.ParseAroundBlankLine | src/app/page.tsx:63-71 | two trimmed lines around a blank line give exactly those two items |
| Actions.ActionTextsAroundBlank | src/app/page.tsx:63-68 | a blank middle line contributes no item |
| Actions.ParseBuyMilkCallBob | src/app/page.tsx:63-71 | `"Buy milk\n\nCall Bob"` gives exactly the items `"Buy milk"` and `"Call Bob"` |
| Actions.ParseTrailingNewline | src/app/page.tsx:63-71 | for any reply, a trailing newline adds no item: the item texts of `reply + "\n"` are those of `reply` |
| Actions.ActionTextsAppendEmpty | src/app/page.tsx:63-68 | an empty last line contributes no text |
| Actions.ActionTextsConcat | src/app/page.tsx:63-68 | the filter works line by line: the texts of two line lists joined are the texts of each, joined |
| Actions.ParseOneLineWithNewline | src/app/page.tsx:63-71 | a single trimmed line followed by a newline gives exactly that one item |
| Actions.SentinelIsExact | src/app/page.tsx:62-71 | only the exact sentinel is recognised: `"NO_ACTIONS\n"` is parsed as one item with text `"NO_ACTIONS"` |
| Actions.LowerTexts | src/app/page.tsx:75 | `existingTexts`, the set of lower-cased texts of the existing items |
| Actions.Unseen | src/app/page.tsx:76-78 | `uniqueNewActions`; `Actions.UnseenMembers`, `Actions.UnseenCounts` and `Actions.UnseenSubseq` state which items survive, how often, and in what order |
| Actions.UnseenCounts | src/app/page.tsx:76-78 | every copy is kept: an item occurs among the survivors as often as in the batch when its lower-cased text is unseen, and never otherwise |
| Actions.Merge | src/app/page.tsx:74-80 | the `prev => [...prev, ...uniqueNewActions]` updater; `Actions.MergeAppends`, `Actions.MergeCounts` and `Actions.MergeAgain` state its result |
| Actions.MergeCounts | src/app/page.tsx:74-80 | the appended part holds each batch item with a new lower-cased text as often as the batch does, and no other item |
| Actions.UnseenMembers | src/app/page.tsx:75-78 | an item survives exactly when it is in the batch and its lower-cased text is not among the existing ones |
| Actions.UnseenSubseq | src/app/page.tsx:76-78 | the survivors keep their batch order |
| Actions.UnseenCovered | src/app/page.tsx:76-78 | when every lower-cased text is already present, nothing survives |
| Actions.UnseenByTexts | src/app/page.tsx:76-78 | whether anything survives depends only on the items' texts |
| Actions.MergeAppends | src/app/page.tsx:74-80 | the old list is an unchanged prefix; the appended items are an in-order subsequence of the batch, namely those whose lower-cased text differs from every existing item's |
| Actions.MergeAgain | src/app/page.tsx:74-80 | merging a batch with the same texts into the result of a merge appends nothing |
| Actions.MergeIgnoresCase | src/app/page.tsx:74-80 | an existing `"Buy milk"` with the batch `["buy milk", "Call Bob"]` appends only `"Call Bob"` |
| Actions.BatchDuplicatesSurvive | src/app/page.tsx:74-80 | two items of one batch whose lower-cased texts are absent from the existing list are both appended, even when their texts are equal |
| Page.Extracted | src/app/page.tsx:56-81 | the list after `extractActionsWithAI`: unchanged on failure or when the reply has no items, otherwise merged with the parsed items; `Page.ExtractedAppends`, `Page.ExtractedItemsFromReply`, `Page.NothingExtracted` and `Page.ExtractedAgain` state its properties |
| Page.ExtractionRuns | src/app/page.tsx:90-91 | extraction runs when the delta against the snapshot does not trim to `""` |
| Page.Saved | src/app/page.tsx:89-95 | the state after `handleSaveAndExtract`; the `Page.Save*` lemmas state its properties and `Page.NotePage.HandleSaveAndExtract` is proved against it |
| Page.ExtractedAppends | src/app/page.tsx:62-80 | extraction keeps the old list as a prefix and appends only items whose lower-cased text is new |
| Page.ExtractedItemsFromReply | src/app/page.tsx:62-80 | every appended item comes from the reply: a non-empty trimmed line of it, tagged `"ai"` |
| Page.NothingExtracted | src/app/page.tsx:56-62 | a failure, or a reply that is missing, empty or exactly `NO_ACTIONS`, leaves the list unchanged |
| Page.ExtractedAgain | src/app/page.tsx:62-80 | extracting the same reply again, with any ids and times, appends nothing |
| Page.SaveMovesSnapshot | src/app/page.tsx:89-95 | after saving, the snapshot is the note text whether extraction was skipped, succeeded or failed; after an extraction `isProcessing` is false |
| Page.SaveWithBlankDelta | src/app/page.tsx:89-95 | when the delta trims to empty, the list and `isProcessing` are unchanged |
| Page.SaveKeepsActions | src/app/page.tsx:89-95 | saving never removes, reorders or changes an existing item |
| Page.SaveTwiceIsSaveOnce | src/app/page.tsx:89-95 | a second save without an edit runs no extraction and changes nothing |
| Page.NotePage.constructor | src/app/page.tsx:19-22 | the initial state is an empty note, no items, an empty snapshot and not processing |
| Page.NotePage.EditNote | src/app/page.tsx:152 | an edit changes the note text only |
| Page.NotePage.ExtractActionsWithAI | src/app/page.tsx:44-87 | the list becomes the extracted list for the outcome, `isProcessing` is false at the end on success and failure alike, and the note and snapshot are untouched |
| Page.NotePage.HandleSaveAndExtract | src/app/page.tsx:89-95 | the new state is `Saved` of the old state: extraction only for a non-blank delta, then the snapshot moves to the note |
| Page.SaveTwiceWithoutEditing | src/app/page.tsx:89-95 | on a new page, one edit and a save leave the snapshot at the note and nothing processing; a second save, whatever the service would answer, leaves the state as it was |

## Left out

- The `localStorage` load and save effects (src/app/page.tsx:25-35) are browser storage and JSON serialisation.
- The `fetch` to the extraction route, and that route's call to the language model, are network and foreign code. Only their outcome is modelled, as a parameter.
- The database-backed action routes in `src/app/api/actions/route.ts` only pass calls on to the database and check the session.
- `formatTimestamp` is `Intl` date formatting.
- The rendering, the note-format selector and `src/app/layout.tsx` are UI.
- React's asynchronous state updates are not modelled. Each setter is applied at once, in program order. A second save that starts while one is in flight is not modelled either.
- An edit made while a request is pending is not modelled. The text area stays enabled while `isProcessing` is true, and `setPreviousContent(noteContent)` at src/app/page.tsx:94 uses the note text captured when Save was pressed. After such an edit the page's snapshot lags behind the note, while `Page.NotePage.HandleSaveAndExtract` always sets it to the current note.
- `isProcessing` disabling the button is a UI guard and is not modelled.
- Text.Lower: folds only the ASCII letters `A`-`Z`, while `toLowerCase()` also folds non-ASCII letters and can change a text's length.
- Text.Split: strings are sequences of Unicode scalar values, not UTF-16 code units. This makes no difference to splitting on `'\n'` or to `trim()`.
- Page.NotePage.ExtractActionsWithAI: its contract states the state at the end of the call, so the intermediate `isProcessing == true` while the request is pending is not observable in it.
- Item ids are whatever `ids` gives, so they are not shown to be unique. `Math.random` gives no such guarantee either.
- A reply whose `actions` field is a non-string truthy value is not modelled. In the page such a value makes `split` throw, and the error is logged. In the model the field is either a string or missing.
- The `console.error` logging in the catch block is output only.
