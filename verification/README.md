# medhints prescription core in Dafny

medhints is a web application in which a physician puts a prescription
together. Medicines are picked from a catalogue into one of seven
administration categories (oral, injectable, topical, ophthalmic, otologic,
nasal, inhalational). Each medicine becomes a *dose* whose title and
description can then be edited. The prescription can be reordered by
drag and drop, saved to and reloaded from the database, and copied to the
clipboard as plain text.

This project models the application's pure logic as Dafny datatypes and
functions, and proves what that logic promises. The modules follow the
source files:

- `Text` (`text.dfy`): the JavaScript string built-ins the code relies on.
  This covers ASCII `toUpperCase`/`toLowerCase`, `includes`, `replace` with
  a string pattern (first occurrence only), `replaceAll` (a left-to-right,
  non-overlapping scan), `repeat` and `trim`.
- `Types` (`types.dfy`): `Medicine`, `MedicineDosage`, the seven-list
  `Prescription`, `SavedPrescription`, `Model` and their empty values.
- `Collector` (`collector.dfy`): `collectText`, the recursive walk that turns
  the rendered prescription into the clipboard transcript, and the `trim`
  applied before copying.
- `DosageTokens` (`dosage_tokens.dfy`): the global regular expression
  `(\d+|Y)\/(\d+|Y)` as a reference predicate and as a leftmost, greedy,
  non-overlapping scanner. Also the Backspace/Delete handler that removes a
  whole dosage token such as `1/1` at once.
- `PrescriptionDisplay` (`prescription_display.dfy`): editing one field of
  one dose, the token deletion applied to a prescription, drag-and-drop, and
  flattening a prescription into dose rows for saving.
- `Dashboard` (`dashboard.dfy`): `formatTitle`, `isInPrescription` and
  `toggleMedicine`. Also regrouping stored dose rows into a prescription,
  the save/load round trip, and the medicine search.
- `NewMedicine` (`new_medicine.dfy`): validation and submission in the
  new-medicine form.
- `Translate` (`translate.dfy`): the authentication error translations and
  the category labels.
- `Seqs` (`seqs.dfy`): `Array.prototype.filter` and its laws.
- `Wrappers` (`wrappers.dfy`): `Option`.

The model follows the code exactly in several places where a reader might
expect otherwise:

- `collectText` upper-cases and runs `replaceAll("  ", " ")` at every level
  of the recursion, not once at the root. Upper-casing at every level gives
  the same result as doing it once (`Collector.UppercaseOnceSuffices`). The
  space clean-up does not. A text node whose text ends in two spaces gets a
  third space appended. Its own pass leaves two of the three, and the pass of
  an enclosing `DIV` leaves one (`Collector.CollapseRunsPerLevel`).
- `formatTitle` replaces only the first `-` with `max(1, 70 - length)`
  dashes and appends nothing, so a title without a dash is returned
  unchanged. Its first step, meant to merge runs of dashes, passes the
  seven-character string `"/(-*)/g"` to `replace` rather than a regular
  expression. It therefore only rewrites that literal text, and a run of
  dashes survives (`Dashboard.DashRunKept`). The model keeps this behaviour
  because it is what the application stores as a dose title.
- In `"Take 1/1 tablet"` the token `1/1` occupies offsets 5 to 8. Backspace
  removes it when the cursor is at offset 8, not 9
  (`DosageTokens.BackspaceAfterToken`).

## Model

| member | source | states |
|---|---|---|
| Text.ToUpperIdempotent | src/app/dashboard/utils.ts:50 | Upper-casing twice is upper-casing once, and an upper-cased text has no lower-case ASCII letter left. |
| Text.FirstIndex | src/app/dashboard/page.tsx:194 | The result is an occurrence at or after the start position with none before it; no result means there is no occurrence from there on. |
| Text.ReplaceFirst | src/app/dashboard/page.tsx:192-194 | `replace` with a string pattern: without an occurrence the text is unchanged; otherwise only the first occurrence is replaced and the text around it is kept. |
| Text.ReplaceAll | src/app/dashboard/utils.ts:52 | `replaceAll` as a left-to-right scan; what its result holds is stated by `ReplaceAllAtFirst` and `ReplaceAllFacts`. |
| Text.ReplaceAllFacts | src/app/dashboard/utils.ts:52 | `replaceAll`: a text without the pattern is unchanged; a replacement no longer than the pattern never lengthens the text, and a shorter one strictly shortens it when the pattern occurs. |
| Text.ReplaceAllAtFirst | src/app/dashboard/utils.ts:52 | The text before the first occurrence is kept, that occurrence becomes the replacement, and the scan resumes right after it. With `ReplaceAllFacts` this fixes every character of the result. |
| Text.CollapseFixedIff | src/app/dashboard/utils.ts:52 | The clean-up pass never lengthens the text and leaves it unchanged exactly when it has no double space. |
| Text.CollapseRun | src/app/dashboard/utils.ts:52 | A run of `n` spaces before a non-space or the end becomes `(n + 1) / 2` spaces, and the rest of the text is cleaned up on its own. |
| Text.CollapseThreeSpaces | src/app/dashboard/utils.ts:52 | The pass is single, not iterated: three spaces become two. |
| Text.CollapseKeepsPrefix | src/app/dashboard/utils.ts:52 | A prefix with no double space of its own survives the pass whatever follows it. |
| Text.CollapseSnoc | src/app/dashboard/utils.ts:52 | A final character other than a space passes through the clean-up pass untouched. |
| Text.UpperCollapseCommute | src/app/dashboard/utils.ts:50-52 | Upper-casing and the clean-up pass commute. |
| Text.Trim | src/app/dashboard/prescriptionDisplay.tsx:121 | `trim`: the result is a slice of the input with only white space removed at both ends, and it neither starts nor ends with white space. |
| Types.Position | src/app/dashboard/types.tsx:34-42 | Every category has a place in the record's declaration order. |
| Types.ParseCategory | src/app/dashboard/types.tsx:7 | A found category has exactly the given property name; no category has the name of one not found. |
| Types.CategoriesAreSeven | src/app/dashboard/types.tsx:34-42 | There are exactly seven categories, each listed once, with non-empty property names that identify them. |
| Types.KeyInjective | src/app/dashboard/types.tsx:34-42 | Distinct categories have distinct property names. |
| Types.Set | src/app/dashboard/prescriptionDisplay.tsx:54 | `{ ...p, [c]: list }` gives category `c` the new list and keeps every other category's list. |
| Types.Extensionality | src/app/dashboard/types.tsx:34-42 | A prescription is determined by its seven lists. |
| Types.SetGet | src/app/dashboard/prescriptionDisplay.tsx:54 | Writing back a category's own list changes nothing. |
| Types.EmptyPrescriptionFacts | src/app/dashboard/types.tsx:44-52 | The empty prescription has seven empty lists, no dose, and every dose sits in its own category. |
| Types.EmptyMedicineFacts | src/app/dashboard/types.tsx:12-18 | The empty medicine has id -1, empty name, title and description, and type "oral". |
| Types.EmptyModelFacts | src/app/dashboard/types.tsx:75-80 | The empty model has id -1 and empty owner, content and name. |
| Translate.Translate | src/app/utils/translateSupabaseErrors.ts:5-17 | Each of the three known messages gets its fixed Portuguese text; the generic fallback is returned exactly for every other message. |
| Translate.TranslateType | src/app/utils/translateSupabaseErrors.ts:19-38 | A category key gets that category's label; a string that is no category key is returned unchanged. |
| Translate.LabelsDistinct | src/app/utils/translateSupabaseErrors.ts:19-38 | Distinct categories get distinct labels, and "oral" is the only key that is its own label. |
| Translate.LabelInjective | src/app/utils/translateSupabaseErrors.ts:21-34 | No two categories share a label. |
| Collector.Collect | src/app/dashboard/utils.ts:11-53 | The transcript of one node at its place. Its content is stated by `FieldEmitsValue`, `ButtonIsSkipped`, `TextNodes`, `ChildlessElements`, `TrailingLineBreaks`, `NumberedListItem` and `UppercaseOnceSuffices`. |
| Collector.CollectChildren | src/app/dashboard/utils.ts:35-37 | The children's transcripts from the `i`-th child on; `ChildrenInDocumentOrder` states they are concatenated in document order. |
| Collector.CollectText | src/app/dashboard/prescriptionDisplay.tsx:117 | `collectText` on the root of the rendered prescription with the page's upper-case flag; `CopyText` states what is copied from it. |
| Collector.CopyText | src/app/dashboard/prescriptionDisplay.tsx:117-121 | The copied text is a slice of the transcript with only white space cut at both ends, and it neither starts nor ends with white space. |
| Collector.ChildrenInDocumentOrder | src/app/dashboard/utils.ts:35-37 | The children's transcripts are concatenated in document order, each child at its own place. |
| Collector.FieldEmitsValue | src/app/dashboard/utils.ts:17-22 | A form field contributes its value and a line break whatever its children and place; without a double space and without upper-casing, exactly that. |
| Collector.ButtonIsSkipped | src/app/dashboard/utils.ts:23 | A button and everything inside it contribute nothing. |
| Collector.TextNodes | src/app/dashboard/utils.ts:43-48 | A non-empty text node contributes its text and a space; an empty one and a node that is neither element nor text contribute nothing. |
| Collector.ChildlessElements | src/app/dashboard/utils.ts:39-40 | A childless `DIV` or `OL` yields nothing, an `H2` two line breaks, any other non-button element one. This includes an `LI` outside an `OL`; an `LI` inside an `OL` also gets its number (`NumberedListItem`). |
| Collector.TrailingLineBreaks | src/app/dashboard/utils.ts:39-40 | Every element other than a button, `DIV` or `OL` ends its transcript with a line break, an `H2` with two, after case mapping and clean-up. |
| Collector.ElementChildrenNumbered | src/app/dashboard/utils.ts:30-31 | When all children are elements, the `i`-th child gets number `i + 1`. |
| Collector.NonElementsNotNumbered | src/app/dashboard/utils.ts:31 | Text and other non-element nodes never take a number. |
| Collector.NumberedListItem | src/app/dashboard/utils.ts:25-33 | The `k`-th element child of an `OL`, when an `LI`, starts its transcript with `"k. "`. |
| Collector.UppercaseOnceSuffices | src/app/dashboard/utils.ts:50 | Upper-casing at every level equals upper-casing the plain transcript once, so an upper-case transcript has no lower-case letter. |
| Collector.CollapseRunsPerLevel | src/app/dashboard/utils.ts:52 | The clean-up pass runs at every level: a text ending in two spaces keeps both on its own but keeps one inside a `DIV`. |
| DosageTokens.MatchAt | src/app/dashboard/prescriptionDisplay.tsx:73 | A match starting at a position is non-empty and ends within the value; `MatchIsLongestToken` states that it is the longest token text starting there. |
| DosageTokens.Scan | src/app/dashboard/prescriptionDisplay.tsx:76-79 | The matches `exec` returns one after the other; `ScanFacts` and `ScanCoversEveryMatch` state their order and that none is skipped. |
| DosageTokens.Tokens | src/app/dashboard/prescriptionDisplay.tsx:73-79 | The matches of the whole value from offset 0; `TokensOrdered` and `TokensAreTokenTexts` state their order and shape. |
| DosageTokens.DigitRun | src/app/dashboard/prescriptionDisplay.tsx:73 | `\d+` is greedy: the run covers only digits and stops before a non-digit or the end. |
| DosageTokens.MatchIsLongestToken | src/app/dashboard/prescriptionDisplay.tsx:73 | The matcher returns a text of the form operand `/` operand, and every such text starting there ends no later than the match. |
| DosageTokens.ScanFacts | src/app/dashboard/prescriptionDisplay.tsx:76-79 | Every scanned token is a match of the expression at its start, and the tokens are in increasing order without overlap. |
| DosageTokens.TokensOrdered | src/app/dashboard/prescriptionDisplay.tsx:76-79 | Of two tokens of a description, the earlier one both starts and ends before the later one. |
| DosageTokens.ScanCoversEveryMatch | src/app/dashboard/prescriptionDisplay.tsx:76-79 | Every position where the expression matches lies inside some scanned token, so no match is skipped. |
| DosageTokens.TokensAreTokenTexts | src/app/dashboard/prescriptionDisplay.tsx:73-79 | Each token of a description is a non-empty, longest-possible token text. |
| DosageTokens.FirstAtBoundary | src/app/dashboard/prescriptionDisplay.tsx:77-85 | The result is a token at whose boundary the cursor sits; none means no token has the cursor at that boundary. |
| DosageTokens.HandleDeletionKey | src/app/dashboard/prescriptionDisplay.tsx:62-107 | Other keys, and a cursor at no token boundary, leave the key to its ordinary effect; otherwise exactly one boundary token is cut out and the cursor moves to its start. |
| DosageTokens.BoundaryTokenUnique | src/app/dashboard/prescriptionDisplay.tsx:82-85 | At most one token has its end (Backspace) or start (Delete) at the cursor. |
| DosageTokens.DeletionRemovesWholeToken | src/app/dashboard/prescriptionDisplay.tsx:86-87 | The old value is the new value with one whole token text put back at the new cursor. |
| DosageTokens.NoTokenWithoutOperands | src/app/dashboard/prescriptionDisplay.tsx:73-79 | A text with neither digits nor `Y` has no token. |
| DosageTokens.BackspaceAfterToken | src/app/dashboard/prescriptionDisplay.tsx:82-87 | In "Take 1/1 tablet", Backspace at offset 8 gives "Take  tablet" with the cursor at 5; at offset 9 the key is left alone. |
| PrescriptionDisplay.WithField | src/app/dashboard/prescriptionDisplay.tsx:52 | `{ ...dose, [key]: value }` sets the named field and keeps the medicine and the other field. |
| PrescriptionDisplay.UpdateDosageField | src/app/dashboard/prescriptionDisplay.tsx:42-56 | Only the named field of one entry of one category changes, to the typed value; lengths, other entries and categories are kept, and so is well-formedness. |
| PrescriptionDisplay.UpdateDosageFieldFacts | src/app/dashboard/prescriptionDisplay.tsx:42-56 | Typing a field's current value changes nothing, and of two edits of one field the later wins. |
| PrescriptionDisplay.ApplyDescriptionKey | src/app/dashboard/prescriptionDisplay.tsx:62-107 | No change exactly for other keys or a cursor at no token boundary; otherwise only that dose's description changes, losing one whole boundary token, and the cursor moves to the token's start. |
| PrescriptionDisplay.Swap | src/app/dashboard/prescriptionDisplay.tsx:205-210 | The two entries change places, all others stay, and the list is a permutation of the original. |
| PrescriptionDisplay.DragDrop | src/app/dashboard/prescriptionDisplay.tsx:199-216 | A drop on another category's list is ignored; otherwise the two entries are swapped and every other list is kept. All doses are preserved as a multiset, and well-formedness is kept. |
| PrescriptionDisplay.DragDropKeepsDoses | src/app/dashboard/prescriptionDisplay.tsx:205-215 | Replacing one list by a permutation of itself permutes the prescription's doses. |
| PrescriptionDisplay.SwapUndo | src/app/dashboard/prescriptionDisplay.tsx:208-210 | Swapping the same two entries twice restores the list, and swapping an entry with itself changes nothing. |
| PrescriptionDisplay.DragDropUndo | src/app/dashboard/prescriptionDisplay.tsx:199-216 | Dropping an entry on itself changes nothing, and repeating the same drop undoes it. |
| PrescriptionDisplay.Values | src/app/dashboard/prescriptionDisplay.tsx:156 | `Object.values` yields the seven category lists in declaration order. |
| PrescriptionDisplay.FlatRows | src/app/dashboard/prescriptionDisplay.tsx:156-167 | Each list mapped to rows, then flattened; `FlatRowsFollowDoses` states it gives one row per dose in order. |
| PrescriptionDisplay.FlatRowsFollowDoses | src/app/dashboard/prescriptionDisplay.tsx:156-167 | Mapping each list to rows and then flattening gives one row per flattened dose, in the same order. |
| PrescriptionDisplay.ValuesFlattenToAllDoses | src/app/dashboard/prescriptionDisplay.tsx:156-167 | Flattening `Object.values` gives all doses in category order. |
| PrescriptionDisplay.SavePrescription | src/app/dashboard/prescriptionDisplay.tsx:139-168 | A failed header insert writes no rows; otherwise exactly one row per dose, in order, each with the new prescription id and the dose's medicine id, title and description. |
| Dashboard.ReplaceDashPattern | src/app/dashboard/page.tsx:192 | Only the literal text `/(-*)/g` is rewritten, to one dash; a title without it is unchanged. |
| Dashboard.NoSlashNoPattern | src/app/dashboard/page.tsx:192 | A title without `/` passes the first step unchanged. |
| Dashboard.FormatTitle | src/app/dashboard/page.tsx:191-196 | A title without a dash is returned as it is; otherwise only its first dash is widened to `max(1, 70 - length)` dashes, with the text on both sides kept and length `max(69, length)`. |
| Dashboard.FirstDashFacts | src/app/dashboard/page.tsx:193-194 | Replacing the first dash by the padding keeps a dashless title and otherwise gives length `max(69, length)` with the first dash widened. |
| Dashboard.FormatTitleIdempotent | src/app/dashboard/page.tsx:191-196 | Aligning an aligned title changes nothing, for every title without the literal text `/(-*)/g`. |
| Dashboard.NoPatternAfterWidening | src/app/dashboard/page.tsx:192-194 | Widening the first dash never creates the literal text `/(-*)/g`, so an aligned title passes the first step unchanged. |
| Dashboard.DashRunKept | src/app/dashboard/page.tsx:192-194 | A run of two dashes is not merged: the first dash is widened and the second kept. |
| Dashboard.IsInPrescription | src/app/dashboard/page.tsx:148-152 | Some dose in the medicine's own category list has its id; `ToggleMedicine` states that toggling flips it. |
| Dashboard.NewDose | src/app/dashboard/page.tsx:173-177 | The dose an added medicine gets; `ToggleMedicine` states it is appended with the medicine's description and aligned title. |
| Dashboard.WithoutMedicine | src/app/dashboard/page.tsx:167-169 | Every dose of the medicine is removed, and every other dose is kept as often as it occurred. |
| Dashboard.ToggleMedicine | src/app/dashboard/page.tsx:148-184 | A present medicine loses all its doses; an absent one gets one new dose at the end, with its description and aligned title. Other categories are kept, membership flips, and well-formedness is kept. |
| Dashboard.ToggleTwiceRestores | src/app/dashboard/page.tsx:158-184 | Adding a medicine and toggling it again gives back the prescription. |
| Dashboard.AddDose | src/app/dashboard/page.tsx:101-108 | One step of the loader, appending a dose to its category's list; `Regroup` states what the steps build together. |
| Dashboard.Regroup | src/app/dashboard/page.tsx:90-109 | Each category's list is the loaded doses of that category, in row order. |
| Dashboard.RegroupKeepsEveryDose | src/app/dashboard/page.tsx:90-109 | Regrouping puts every dose in its own category and loses or adds none: same multiset and same count as the rows. |
| Dashboard.RegroupAllDoses | src/app/dashboard/page.tsx:90-109 | Regrouping the doses of a well-formed prescription, in category order, rebuilds it. |
| Dashboard.Rejoin | src/app/dashboard/page.tsx:93-99 | Each row becomes one dose with the catalogue medicine of its id and the row's own title and description. |
| Dashboard.LoadPrescription | src/app/dashboard/page.tsx:88-120 | A loaded saved prescription keeps its id and name, is well-formed, and holds one dose per row. |
| Dashboard.SaveLoadRoundTrip | src/app/dashboard/page.tsx:88-120 | Saving a well-formed prescription and loading its rows back gives the same prescription. |
| Dashboard.SearchMedicines | src/app/dashboard/page.tsx:357-362 | Exactly the medicines whose lower-cased name contains the lower-cased query are listed, each as often as in the catalogue. |
| Dashboard.EmptyQueryKeepsAll | src/app/dashboard/page.tsx:357-362 | The empty query lists the whole catalogue in order. |
| Dashboard.SearchKeepsOrder | src/app/dashboard/page.tsx:357-362 | The search keeps catalogue order. |
| Dashboard.SearchIgnoresCase | src/app/dashboard/page.tsx:357-362 | The case of the query does not matter. |
| NewMedicine.Entries | src/app/medicine/new/page.tsx:52 | The form's five properties in key order, the id first; `FindEmptyField` and `BlockedIffIncomplete` state which of them block. |
| NewMedicine.FindEmptyField | src/app/medicine/new/page.tsx:52-60 | The loop reports an empty field exactly when some non-id text entry is empty. |
| NewMedicine.BlockedIffIncomplete | src/app/medicine/new/page.tsx:52-60 | The form is turned away exactly when name, title, description or type is empty; the id never blocks. |
| NewMedicine.RowOf | src/app/medicine/new/page.tsx:62-64 | The inserted record is the form without its id; `RowIgnoresId` states the id does not reach it. |
| NewMedicine.RowIgnoresId | src/app/medicine/new/page.tsx:62-65 | The inserted record does not depend on the id: two forms give the same record exactly when they differ at most in their id. |
| NewMedicine.AddMedicine | src/app/medicine/new/page.tsx:48-75 | An incomplete form sends nothing, shows the fill-all-fields alert and stays loading; a complete one sends the form without its id, then shows the translated error or the success message and clears loading. |
| NewMedicine.InitialFormIncomplete | src/app/medicine/new/page.tsx:13-19 | The initial form has id 0, empty texts and type "oral", so submitting it untouched is always turned away. |
| Seqs.Filter | src/app/dashboard/page.tsx:167 | `filter` keeps only passing elements and never lengthens the list. |
| Seqs.FilterCounts | src/app/dashboard/page.tsx:167 | A passing element is kept as often as it occurs and no failing one is kept. |
| Seqs.FilterConcat | src/app/dashboard/page.tsx:357-362 | Filtering a concatenation filters each part, in order. |
| Seqs.FilterIdempotent | src/app/dashboard/page.tsx:167 | Filtering twice with the same test is filtering once. |

## Left out

- Supabase I/O is left out: authentication, selects, inserts and deletes, including `deletePrescription`, `deleteModel` and the model editor. Where a result matters it becomes a parameter: the header insert in `SavePrescription`, the medicine insert error in `AddMedicine`, and the catalogue join in `LoadPrescription`.
- React state, rendering, alerts, `window.scrollTo`, router navigation and the clipboard write are left out. The model returns the new state instead.
- `printPDF`, `modelDisplay.tsx` and the API routes are left out. They are DOM, PDF or database plumbing.
- The `localeCompare` sort of the medicine list (src/app/dashboard/page.tsx:63) is left out because it is locale-dependent.
- Case mapping is modelled on ASCII letters only.
- One character per UTF-16 code unit is assumed. Text outside the Basic Multilingual Plane (surrogate pairs) is not modelled, so its lengths and offsets would differ from JavaScript's `length` and `selectionStart`.
- PrescriptionDisplay.UpdateDosageField: requires the index to be in range. The handler is only attached to rendered entries; an out-of-range index in JavaScript would create a hole in the array.
- PrescriptionDisplay.ApplyDescriptionKey: requires the index to be in range, for the same reason.
- PrescriptionDisplay.DragDrop: requires both indexes to be in range when the categories match. Drag and drop only happens between rendered entries. The `parseInt` of the stored index is taken to succeed.
- DosageTokens.HandleDeletionKey: the cursor is `selectionStart`. A selection range is not modelled. The deferred `setSelectionRange` is the returned cursor.
- Dashboard.Rejoin: requires every row's medicine id to be in the catalogue. The database join follows a foreign key.
- Dashboard.SaveLoadRoundTrip: assumes the dose rows come back in the order they were inserted. The query has no `order by`.
- Dashboard.FormatTitleIdempotent: requires the title not to hold the literal text `/(-*)/g`. The first step shortens such a title, so it is not yet aligned when it is first measured.
- PrescriptionDisplay.SavePrescription: the second insert's error, the reload after saving and the loading flag are not modelled.
- Collector.CollectText: the root of the walk is taken to have no `OL` parent. Its real parent is outside the rendered prescription.
- Types.Medicine: the `type` of a medicine is always one of the seven categories. A value outside them from the database is not modelled.
