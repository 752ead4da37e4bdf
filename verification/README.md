# obsidian-ranger navigator, in Dafny

obsidian-ranger is an Obsidian plugin that browses the vault with a
keyboard-driven, ranger-like list: `j`/`k` move the selection, `h` goes up
to the parent folder, `l`/Enter opens the selected folder or file, `/` starts
a quick-select search with `n`/`N` cycling through the matches, `gg` jumps to
the top, `zp` toggles the preview pane, and (in `main.js`) `yy`, `dd` and `p`
copy, cut and paste entries. The preview pane shows the selected file's text,
at most 50000 characters, and guards its awaited read with a token so that a
read overtaken by a later selection is not shown.

The project models the two controllers the repository ships:

- `FmView` of `main.js` (module `FmViews`, class `FmView`). This is the full
  navigator, with the hidden-entry policy, folders-first sorting,
  per-folder selection memory (`folderHistory`), the clipboard engine and the
  image branch of the preview.
- `RangerView` of `src/main.ts` (module `RangerViews`, class `RangerView`).
  This is the earlier navigator, with no hidden entries, always folders
  first, no selection memory, no clipboard and only the `gg` and `zp` chords.

Each controller is a class whose fields are the ones its methods update
(selection, listing, search fields, chord timers, preview token, clipboard).
Each method is proved against specification functions in the pure modules
that both views share:

| module | what it holds |
|---|---|
| `Js` | the JavaScript primitives: truncating `%`, `toLowerCase`, `indexOf`/`includes`, `trim`, `String(n)` |
| `Vaults` | entries as value snapshots keyed by path, path arithmetic, and the host vault (`read`, `create`, `createFolder`, `rename`) as a class whose calls may fail |
| `Listing` | `getFolderEntries`: the partition, the hidden-entry policy, the name sort, the labels |
| `Selection` | the move formula, the clamp, the restore priority of `render`, the folder history, the index `up` picks |
| `Search` | quick-select matching, auto-jump, `n`/`N` cycling |
| `Highlight` | `escapeHtml` and `renderNameWithHighlight` |
| `Icons` | `iconForFileName` |
| `Preview` | truncation, the target of the preview, the token protocol with reads in flight |
| `Chords` | the `gg`/`yy`/`dd` timers and the `z` chord with its capture listeners |
| `FileOps` | the paste decision, the copy names `copyFileWithNewName` probes, and the vault after a copy or move |

The host is a parameter. The vault's state is a map from path to entry. A
set of `faulty` paths stands for host failures the navigator cannot see.
Each awaited call settles in the order the code awaits it. Timers are
events (`ChordTimeout`, `ZChordTimeout`, `GTimeout`). A preview read that is
still awaited is a request in flight, and `PreviewSettles` completes it at
any later point.

## Model

| member | source | states |
|---|---|---|
| Js.Rem | main.js:395 | JavaScript's `%` for a positive divisor: it agrees with the mathematical remainder on non-negative dividends, lies in `(-n, 0]` for negative ones, and leaves a dividend in `(-n, 0)` unchanged |
| Js.Lower | main.js:484 | `toLowerCase` keeps the length and maps each character on its own |
| Js.LowerAppend | main.js:547 | lower-casing distributes over concatenation |
| Js.LowerIdempotent | main.js:486 | lower-casing an already lower-cased name changes nothing |
| Js.IndexOf | main.js:551 | `indexOf(q, from)` is -1 or a position at or after `from` where `q` fits |
| Js.IndexOfFinds | main.js:551 | `indexOf` returns the first occurrence at or after `from`, and -1 exactly when there is none |
| Js.IncludesMeansOccurs | main.js:486 | `includes` holds exactly when the query occurs at some position |
| Js.TrimStartShape | main.js:480 | what `trimStart` keeps is a suffix of the input that does not start with white space |
| Js.TrimEndShape | main.js:480 | what `trimEnd` keeps is a prefix of the input that does not end with white space |
| Js.TrimShape | main.js:480 | the trimmed query is no longer than the input and neither starts nor ends with white space |
| Js.Trim | main.js:480 | defines `trim`: `trimEnd` of `trimStart`, whose shapes `TrimShape` states |
| Js.DigitChar | main.js:695 | a digit is written as a character from `0` to `9` |
| Js.NatToString | main.js:695 | `String(counter)` is a non-empty run of decimal digits without a leading zero |
| Vaults.LastIndexOf | main.js:685-686 | the last `c` of a string: it holds `c`, with none after it (the last `/` of a path, the last `.` of a name) |
| Vaults.SplitName | main.js:685-688 | `basename` and `extension` rebuild the name around the last dot; without an extension the basename is the name (or the name without a final dot) |
| Vaults.ChildPathParts | main.js:714 | the path built for `name` inside `folder` has that folder as its parent and that name as its last segment |
| Vaults.LastIndexOfAfter | main.js:714 | a suffix without `c` does not move the last `c`, so a child path splits back at its last slash |
| Vaults.RebaseLandsUnder | main.js:762 | a rename moves every path under the source to a path under the destination |
| Vaults.AddedKeys | main.js:706 | creating an entry adds exactly its path, stores it there, and leaves every other file as it was |
| Vaults.Without | main.js:762 | removing a child path from a folder's list keeps exactly the other paths |
| Vaults.RebaseAll | main.js:762 | a rename rebases every child path of a folder, position by position |
| Vaults.RebaseInjective | main.js:762 | a rename that the host accepts never maps two paths onto one |
| Vaults.RenamedKeys | main.js:762 | after a rename the source path is gone, the destination exists, and every path outside the source subtree stays |
| Vaults.ReadResult | main.js:950 | `vault.read` settles with a text exactly when the path holds a readable file |
| Vaults.Vault.Lookup | main.js:717 | `getAbstractFileByPath` finds an entry exactly when the path is in the vault, and returns that entry |
| Vaults.Vault.Read | main.js:950 | `read` returns the file's text when it is readable, and fails otherwise |
| Vaults.Vault.Create | main.js:706 | `create` succeeds exactly when the path is free inside an existing folder; it adds the file then, and changes nothing otherwise |
| Vaults.Vault.CreateFolder | main.js:738 | `createFolder` succeeds under the same condition as `create`; it adds the folder then, and changes nothing otherwise |
| Vaults.Vault.Rename | main.js:762 | `rename` succeeds exactly when the host accepts the move; it moves the whole subtree then, and changes nothing otherwise |
| Listing.LexTotal | main.js:288-292 | the name order compares any two names |
| Listing.LexTrans | main.js:288-292 | the name order is transitive |
| Listing.NameTotal | main.js:288-292 | the comparator passed to `sort` compares any two entries |
| Listing.NameTrans | main.js:288-292 | the comparator passed to `sort` is transitive |
| Listing.InsertPermutes | main.js:288-292 | one insertion step of the sort adds exactly the inserted entry |
| Listing.InsertSorted | main.js:288-292 | inserting into a sorted list keeps it sorted |
| Listing.SortByNameSorts | main.js:288-292 | the sort returns a sorted permutation of its input |
| Listing.PartitionStep | main.js:276-286 | the partition over the first `i + 1` children is the partition over the first `i`, then child `i` |
| Listing.FilterShownMembers | main.js:280-283 | the hidden-entry policy keeps exactly the entries it shows |
| Listing.PartitionSplits | main.js:276-286 | the partition puts only shown folders in `dirs` and only shown files in `files`, and together they are the shown entries |
| Listing.ListingIsShownChildren | main.js:273-293 | the listing is a permutation of the folder's children that the hidden-entry policy keeps: an entry is listed if and only if it is such a child |
| Listing.FolderEntries | main.js:273-293 | defines `getFolderEntries`: the shown children partitioned into folders and files and sorted, whose properties the lemmas around it state |
| Listing.FoldersFirstOrder | main.js:287-290 | with `sortFoldersFirst`, every folder is listed before every file, and each group is sorted by name |
| Listing.GroupedOrder | main.js:290 | two sorted groups, folders then files, give a list with folders first and each group sorted |
| Listing.MixedOrder | main.js:292 | without `sortFoldersFirst`, the whole listing is sorted by name |
| Listing.ShowAllKeepsEverything | src/main.ts:234-246 | with hidden entries shown, the policy drops nothing |
| Listing.LabelDropsExtension | main.js:295-300 | with extensions hidden, a file's label is its name without the last `.extension`; otherwise the label is the name |
| Listing.Label | main.js:295-300 | defines `getEntryLabel`, whose effect `LabelDropsExtension` states |
| Selection.EntryAt | main.js:906 | `entries[selectedIndex]` is an entry exactly when the index is in range, and then it is the entry at that index |
| Selection.IndexOfPath | main.js:312 | `findIndex` by path returns the first index holding the path, or -1 when none does |
| Selection.IndexOfOwnPath | main.js:312 | on a listing without duplicate paths, looking up an entry's path gives back its index |
| Selection.MoveInRange | main.js:393-403 | on a non-empty list with the selection in range, every move of at least `-len` lands in range, circularly |
| Selection.MoveIndex | main.js:395 | defines the move formula with JavaScript's `%`, which the lemmas below characterise |
| Selection.MoveThereAndBack | main.js:393-403 | moving down by `d` and back up by `d` (with `0 <= d <= len`) restores the selection, so `j` followed by `k` returns to the same entry |
| Selection.MoveWraps | main.js:395 | `j` on the last entry wraps to the first, and `k` on the first wraps to the last |
| Selection.CtrlUpOnShortList | src/main.ts:317 | Ctrl+u on the first of three entries leaves the selection at -1, where no entry is selected |
| Selection.MoveLeavesListWhenFarUp | main.js:395 | whenever `sel + delta + len` is negative, the move formula leaves the list |
| Selection.WrapIndex | main.js:395 | the intended circular move always lands in range |
| Selection.WrapAgreesWhenNonNegative | main.js:395 | wherever the formula as written stays in the list, it agrees with the intended move |
| Selection.WrapThereAndBack | main.js:395 | with the intended move, moving by any `d` and back by `d` restores the selection |
| Selection.Clamp | main.js:324-325 | the clamp at the end of `render` lands in range (0 on an empty list), keeps an index already in range, and sends an index past the end to the last entry |
| Selection.RenderedInRange | main.js:306-325 | the index `render` leaves is a valid selection, or 0 on an empty list |
| Selection.RenderedIndex | main.js:311-325 | defines the selection `render` restores, whose range and priority the next two lemmas state |
| Selection.RenderedPriority | main.js:311-325 | `render` selects a listed preselection first, then (only when no preselection was pending) a listed remembered path, and otherwise the clamped old index |
| Selection.Saved | main.js:405-412 | `saveCurrentSelection` records the selected path for the folder when the selection is in range, and leaves the history alone otherwise |
| Selection.HistoryRoundTrip | main.js:316-322 | coming back to a folder whose listing has not changed restores the selection saved there |
| Selection.UpIndex | main.js:419-421 | `up` selects the folder just left when the parent lists it, and the top otherwise |
| Search.Names | src/main.ts:395-397 | search in `src/main.ts` compares each entry's name |
| Search.Labels | main.js:302-304 | `applySearchFilter` in `main.js` compares each entry's label |
| Search.FirstMatch | main.js:488 | the first matching position, with no match before it, or -1 when nothing matches |
| Search.AutoJump | main.js:483-491 | the filter keeps the selection for an empty query, keeps it when the selected entry matches, jumps to the first match otherwise, and stays put when nothing matches |
| Search.EffectiveQuery | main.js:853 | `n`/`N` use the trimmed typed text, else the applied query, else the last query |
| Search.CycleAfterEscape | main.js:463-466 | after Escape, `n`/`N` cycle with the query that was typed |
| Search.MatchIndices | main.js:855-858 | the match list holds exactly the matching positions, in increasing order |
| Search.PositionOf | main.js:862 | the position of the current entry in the match list, or -1 when it is no match |
| Search.CyclePos | main.js:863-864 | the next position circularly, or the first one (the last one backwards) when the current entry is no match |
| Search.CycleMatch | main.js:862-865 | the target of a cycle is always one of the matches |
| Search.CycleMatchForward | main.js:862-865 | forward from a match with a later one, the least later match; from anywhere else, the first match |
| Search.CycleMatchBackward | main.js:862-865 | backward from a match with an earlier one, the greatest earlier match; from anywhere else, the last match |
| Search.CycleNoOp | main.js:854-857 | `n`/`N` do nothing without a query or without a match |
| Search.InMatches | main.js:855-858 | a position is in the match list if and only if its entry matches |
| Search.CycleOnListing | main.js:861-866 | on the rendered listing, the cycle aims from the selected position itself |
| Search.LaterIff | main.js:862-865 | "the selected entry is a match with a later one" in terms of the match list, both ways |
| Search.EarlierIff | main.js:862-865 | "the selected entry is a match with an earlier one" in terms of the match list, both ways |
| Search.CycleNext | main.js:852-874 | `n` moves to the next match after the selected entry when there is one, and to the first match otherwise |
| Search.CycleTarget | main.js:852-874 | defines the index `cycleSearch` selects, or none, which the cycle lemmas characterise |
| Search.ForwardTarget | main.js:864-866 | the target of `n` is a match, and it is the least match after the selection or else the first |
| Search.CyclePrevious | main.js:852-874 | `N` moves to the previous match before the selected entry when there is one, and to the last match otherwise |
| Search.BackwardTarget | main.js:864-866 | the target of `N` is a match, and it is the greatest match before the selection or else the last |
| Highlight.ReplaceAllAppend | main.js:565-569 | a global one-character replacement distributes over concatenation |
| Highlight.ReplaceAllAbsent | main.js:565-569 | a replacement of a character the text lacks changes nothing |
| Highlight.ReplaceOne | main.js:565-569 | a replacement on one character gives the entity or the character itself |
| Highlight.RestAbsent | main.js:566-569 | the replacements after the first leave a text without their characters alone |
| Highlight.LastAbsent | main.js:567-569 | the last three replacements leave a text without `>`, `"` and `'` alone |
| Highlight.EscapeAmp | main.js:565 | `&` becomes `&amp;` |
| Highlight.EscapeLt | main.js:566 | `<` becomes `&lt;` |
| Highlight.EscapeGt | main.js:567 | `>` becomes `&gt;` |
| Highlight.EscapeQuot | main.js:568 | `"` becomes `&quot;` |
| Highlight.EscapeApos | main.js:569 | `'` becomes `&#039;` |
| Highlight.EscapeOther | main.js:563-570 | every other character is kept |
| Highlight.EscapeHtmlChar | main.js:563-570 | the chain escapes one character into its entity |
| Highlight.EscapeHtmlAppend | main.js:563-570 | escaping distributes over concatenation |
| Highlight.EscapeHtmlIsPerChar | main.js:563-570 | the chain of global replacements escapes character by character: an entity produced by one step is never escaped again by a later step |
| Highlight.EscapeHtml | main.js:563-570 | defines `escapeHtml` as its chain of five global replacements |
| Highlight.EscapeAllSafe | main.js:563-570 | the escaped text has no raw `<`, `>`, `"` or `'` |
| Highlight.EscapeHtmlSafe | main.js:563-570 | `escapeHtml` leaves no raw `<`, `>`, `"` or `'` |
| Highlight.UnescapeEntity | main.js:563-570 | decoding an entity followed by more text gives its character followed by the decoded rest |
| Highlight.UnescapeChar | main.js:563-570 | decoding the escape of any character followed by more text gives the character back |
| Highlight.UnescapeEscape | main.js:563-570 | escaping loses nothing: decoding gives the text back |
| Highlight.UnescapeEscapeAll | main.js:563-570 | decoding the per-character escape gives the text back |
| Highlight.TextPiece | main.js:556-558 | one round of the scan emits exactly the text from the scan position to the end of the occurrence |
| Highlight.HtmlPiece | main.js:556-557 | one round renders the escaped text before the occurrence and then the escaped occurrence in its span |
| Highlight.HtmlAppend | main.js:543-561 | the markup of concatenated segments is the concatenated markup |
| Highlight.TextAppend | main.js:543-561 | the text of concatenated segments is the concatenated text |
| Highlight.MarkupUnfold | main.js:550-558 | the markup from the scan position is this round's output followed by the markup after the occurrence |
| Highlight.MarkupRest | main.js:552-554 | with no occurrence left, the markup is the escaped rest of the name |
| Highlight.MarkupStep | main.js:550-558 | each round of the scan keeps "markup so far followed by markup to come" equal to the whole |
| Highlight.MarkupLast | main.js:552-554 | the last round completes the markup |
| Highlight.RenderNameWithHighlight | main.js:543-561 | `renderNameWithHighlight` builds the highlighted markup of the name, and for an empty query just the escaped name |
| Highlight.ScanMatches | main.js:548-559 | the `while (true)` scan builds the markup of all leftmost non-overlapping occurrences of the query |
| Highlight.SegmentsSpellName | main.js:550-559 | the segments spell the rest of the name: nothing is lost, repeated or reordered |
| Highlight.LowerSlice | main.js:547 | lower-casing a slice equals slicing the lower-cased name |
| Highlight.SegmentsAreOccurrences | main.js:550-559 | every marked segment is the query up to case, and no plain segment contains the query |
| Highlight.PieceClassified | main.js:551-557 | the plain and marked segments of one round are classified correctly |
| Highlight.NoOccurrenceIn | main.js:551-556 | a slice holds no occurrence when none starts in it |
| Highlight.StripSafePrefix | main.js:556-557 | removing the tags leaves escaped text alone |
| Highlight.StripOpen | main.js:557 | removing the tags drops the opening span |
| Highlight.StripClose | main.js:557 | removing the tags drops the closing span |
| Highlight.StripHtml | main.js:543-561 | with the tags removed, the highlight is the escaped text of the segments |
| Highlight.HighlightRoundTrip | main.js:543-561 | removing the spans and decoding the entities gives the name back, whatever the query |
| Highlight.Highlighted | main.js:543-561 | defines the `innerHTML` `renderNameWithHighlight` builds: the escaped name for an empty query, otherwise the escaped segments with each match wrapped in a span |
| Icons.ExtensionOf | main.js:35 | the extension the icon is chosen by is no longer than the name and has no dot |
| Icons.IconForExtension | main.js:36-52 | the icon is one of the table's names, and it is `file` exactly when no group lists the extension |
| Icons.IconForFileName | main.js:34-53 | defines `iconForFileName`: the icon of the lower-cased text after the last dot |
| Icons.LastDotLower | main.js:35 | lower-casing never moves the last dot |
| Icons.IconIgnoresCase | src/main.ts:19 | the icon does not depend on the case of the name |
| Icons.IconOfLastSegment | src/main.ts:19 | only the text after the last dot matters |
| Icons.DotlessNameIsItsOwnExtension | main.js:35 | a name without a dot is its own extension, so a file called `R` gets the code icon |
| Preview.Truncate | main.js:951-953 | a short text is shown whole; a longer one keeps exactly its first 50000 characters, followed by the marker |
| Preview.TruncateBounded | main.js:951-953 | the preview is never longer than 50000 characters plus the marker |
| Preview.TruncateIdempotent | main.js:951-953 | cutting a cut text changes nothing |
| Preview.TargetOf | main.js:902-946 | nothing is previewed without a selected entry or for a folder; an image extension (`main.js`) shows the image; every other file is read |
| Preview.Start | main.js:947-948 | only a text target advances the token, only a shown preview starts a read, and the pane is emptied except for an image |
| Preview.Finish | main.js:949-959 | a settled read leaves the flight, and changes the pane only when its token is still current |
| Preview.LaterRequestWins | src/main.ts:621-635 | of two overlapping reads, whichever settles first, the pane ends up showing the later one and never the earlier one |
| Preview.HiddenPreviewCancels | main.js:947-948 | selecting a file with the preview hidden still advances the token, so every read in flight becomes stale |
| Preview.StaleTextAfterFolder | main.js:915-921 | as written, selecting a folder after a text file leaves the file's read current, so its text appears while the folder is selected |
| Preview.StartFixed | main.js:947 | the intended start: every call advances the token first |
| Preview.FixedStartConsistent | main.js:947 | with the fix, starting a preview makes the pane consistent with the new selection, whatever came before |
| Preview.FinishConsistent | main.js:954-958 | any read settling keeps the pane consistent with the latest selection |
| Chords.Timers.Set | main.js:573-581 | setting one timer leaves the others alone |
| Chords.Press | main.js:573-581 | a chord key fires exactly when its timer runs, toggles that timer, and leaves the others alone |
| Chords.Expire | main.js:580 | a timeout clears its own timer only |
| Chords.RunCons | main.js:573-626 | a run of events is the first event followed by the rest |
| Chords.SetBack | main.js:573-581 | starting and clearing a timer gives back the same state |
| Chords.ArmThenFire | main.js:573-581 | two presses in a row fire the chord once and leave it idle |
| Chords.TimeoutIsSilent | main.js:580 | a timeout between the presses swallows the chord, and the second press arms it again |
| Chords.CountAppend | main.js:573-626 | fired chords count additively over concatenation |
| Chords.PrefixesIndependent | main.js:573-626 | what happens to one chord depends only on its own presses and timeouts, whatever the other chords do in between |
| Chords.PressesPairUp | main.js:573-581 | `n` presses without a timeout fire `n / 2` times, and leave the chord pending exactly when `n` is odd |
| Chords.HandleZ | main.js:583-604 | `handleZ` clears a running timer; otherwise it starts the timer and registers one more listener |
| Chords.ZCapture | main.js:591-602 | on a keydown the first listener to find the timer running ends the chord, toggles the preview and stops the key exactly for `p`/`P` |
| Chords.ZKeyDown | main.js:583-604 | defines one keydown for the `z` chord: the capture listeners, then `handleZ` for an unstopped `z` |
| Chords.ZValidKept | main.js:583-604 | a running `z` timer always has a listener registered, after every event |
| Chords.ZThenP | main.js:583-604 | `z` then `p` toggles the preview exactly once, on the `p`, and stops that key |
| Chords.ZThenOther | main.js:583-604 | `z` then any other key ends the chord without toggling, and the key reaches its own handler |
| Chords.HandleZSeesNoTimer | main.js:584-588 | as written, the "second key in chord" branch of `handleZ` is never taken for a keydown |
| Chords.SecondZRearms | main.js:583-604 | as written, a second `z` starts a new chord, so `z z p` still toggles the preview |
| Chords.ExpiredListenerStays | main.js:592 | a chord that times out leaves its listener registered, so listeners accumulate |
| Chords.ZCaptureFixed | main.js:591-602 | the intended listener toggles exactly for `p`/`P` after `z` |
| Chords.FixedZZCancels | main.js:583-604 | with the fix, `z z` cancels the chord and a following `p` is an ordinary key, while `z p` still toggles |
| FileOps.FirstFreeIsLeast | main.js:687-702 | the probe stops at the least free name below attempt 1000, or at 1000; every earlier attempt was taken |
| FileOps.DraftExample | main.js:687-697 | with `draft copy.md` taken and `draft copy 2.md` free, the copy is `draft copy 2.md` |
| FileOps.NatToStringInjective | main.js:695 | different counters are written differently |
| FileOps.DigitInjective | main.js:695 | different digits are written differently |
| FileOps.CopyNamesDistinct | main.js:687-697 | every attempt probes a different name |
| FileOps.PasteDecision | main.js:651-676 | each branch of `pasteEntry` is taken exactly under its condition: empty clipboard, same-folder copy, folder onto itself, copy, cut |
| FileOps.FolderOntoItselfRefused | main.js:663-665 | a folder pasted onto itself is refused, for a copy and a cut alike |
| FileOps.OwnFolderDestination | main.js:714 | an entry's own folder is where a copy or move into that folder would land it |
| FileOps.CutIntoOwnFolderCollides | main.js:752-767 | cutting an entry and pasting it back into its own folder always collides with itself |
| FileOps.NewNameCopyIsFresh | main.js:684-711 | a copy with a new name lands on a free path below attempt 1000, after every earlier name was found taken, and holds the source's text |
| FileOps.AllNamesTakenNoCopy | main.js:699-702 | when the first 999 names are taken nothing is created, even if the 1000th name is free |
| FileOps.GrowsTrans | main.js:736-750 | a copy that grows the vault twice grows it |
| FileOps.AddedGrows | main.js:738 | creating an entry grows the vault |
| FileOps.FolderCopiedGrows | main.js:736-750 | a recursive folder copy only adds to the vault, whether it completes or a host call throws |
| FileOps.FolderStepGrows | main.js:738-749 | after `createFolder(dst)`, the loop over the children only adds to the vault |
| FileOps.KidsCopiedGrows | main.js:741-749 | the loop over the children only adds to the vault |
| FileOps.KidCopiedGrows | main.js:742-748 | copying one child only adds to the vault |
| FileOps.CopiedToGrows | main.js:713-734 | `copyToFolder` never overwrites or removes an entry |
| FileOps.TreeCopiedKept | main.js:741-749 | a complete copy of a folder stays complete while later creations grow the vault |
| FileOps.KidTreeCopiedKept | main.js:742-748 | the copy of one child stays in place while the vault grows |
| FileOps.TreeCopiedFrom | main.js:741-749 | a complete copy of the tree as listed later is a complete copy of the tree as listed earlier, since lists only grow |
| FileOps.KidTreeCopiedFrom | main.js:742-748 | the same for the copy of one child |
| FileOps.FolderCopiedComplete | main.js:736-750 | a folder copy that completes reproduces the source tree as it stood when the copy began: every folder at the mirrored path, and every file with its text |
| FileOps.FolderStepComplete | main.js:738-749 | after `createFolder(dst)`, a completed loop over the children makes `dst` a complete copy |
| FileOps.TreeFromKids | main.js:741-749 | a folder at `dst` with a copy of each listed child is a complete copy |
| FileOps.KidsCopiedComplete | main.js:741-749 | a loop over the children that completes copies each of them completely |
| FileOps.KidCopiedComplete | main.js:742-748 | a child copy that completes is a file with the same text, or a complete folder copy |
| FileOps.CopyName | main.js:688-695 | defines the probed name: `basename copy.ext` for the first attempt, `basename copy N.ext` after |
| FileOps.FirstFree | main.js:687-697 | defines where the probe stops: the first free name, or attempt 1000 |
| FileOps.IsSameFolderCopy | main.js:678-682 | defines a same-folder copy: a file copied into the folder that holds it |
| FileOps.FileCopied | main.js:723-726 | defines a file copy: `read` then `create`, with the vault unchanged when either throws |
| FileOps.CopiedWithNewName | main.js:684-711 | defines `copyFileWithNewName`: nothing when the probe reached 1000, otherwise a file copy to the probed name |
| FileOps.FolderCopied | main.js:736-750 | defines `copyFolderRecursive`: `createFolder`, then the children as listed at that point, up to the first throw |
| FileOps.KidsCopied | main.js:741-749 | defines the loop over the children, in order, stopping at the first throw |
| FileOps.KidCopied | main.js:742-748 | defines one pass of the loop: a file read and created, a folder copied recursively |
| FileOps.CopiedTo | main.js:713-734 | defines `copyToFolder`: nothing when the destination exists, a file copy or a recursive folder copy otherwise, and what was created before a throw stays |
| FileOps.Moved | main.js:752-767 | defines `moveToFolder`: nothing when the destination exists or the rename throws |
| FmViews.FmView.constructor | main.js:71-101 | the view starts at the root with an empty listing, no search, no clipboard, no chord, all settings on, and token 0 |
| FmViews.FmView.GetFolderEntries | main.js:273-293 | the partition loop and the sorts compute exactly the listing `FolderEntries` specifies, whose properties are the `Listing` lemmas |
| FmViews.FmView.RenderSelection | main.js:311-325 | the selection `render` picks follows the restore priority, and a truthy preselection is consumed |
| FmViews.FmView.Render | main.js:306-336 | `render` shows the folder's fresh listing with the restored selection and restarts the preview |
| FmViews.FmView.Move | main.js:393-403 | on an empty list nothing changes; otherwise the selection moves by the formula, the preview restarts, and the folder remembers the new selection |
| FmViews.FmView.SaveCurrentSelection | main.js:405-412 | the folder history records the selected path |
| FmViews.FmView.Up | main.js:414-424 | at the root (or below a parent that is not a folder) nothing changes; otherwise the parent is shown, with the folder just left selected unless a preselection or the parent's remembered path wins |
| FmViews.FmView.Activate | main.js:426-441 | with no entry selected nothing changes; a file is opened and the view kept; a folder is entered with the selection remembered and the search left |
| FmViews.FmView.EnterFolder | main.js:430-436 | entering a folder saves the selection, leaves the search and renders the new folder from index 0 |
| FmViews.FmView.LeaveFolder | main.js:430-435 | the part before the render saves, switches folder, selects the top and leaves the search |
| FmViews.FmView.EnterSearchMode | main.js:455-461 | search mode starts with the applied query in the input, and the filter runs on it |
| FmViews.FmView.ExitSearchMode | main.js:463-476 | leaving the search keeps the typed query for `n`/`N`, clears or applies it, and renders only when asked |
| FmViews.FmView.LeaveSearch | main.js:464-473 | the search fields after leaving the search, for both values of `clear` |
| FmViews.FmView.SearchSelection | main.js:483-491 | the selection the filter leaves is the auto-jump over the labels |
| FmViews.FmView.ApplySearchFilter | main.js:478-528 | the trimmed input becomes the query, and the selection jumps to the first matching label unless the selected one matches |
| FmViews.FmView.SetSearchInput | main.js:149 | typing sets the input and runs the filter on it |
| FmViews.FmView.CycleSearch | main.js:852-874 | `n`/`N` select the cycle target when there is one, and change nothing otherwise |
| FmViews.FmView.JumpTop | main.js:834-841 | `gg` selects the first entry on a non-empty list |
| FmViews.FmView.JumpBottom | main.js:843-850 | `G` selects the last entry on a non-empty list |
| FmViews.FmView.HandleG | main.js:573-581 | the `g` timer follows the chord machine, and the second `g` jumps to the top |
| FmViews.FmView.HandleY | main.js:606-615 | the `y` timer follows the chord machine, and the second `y` copies the selected entry |
| FmViews.FmView.HandleD | main.js:617-626 | the `d` timer follows the chord machine, and the second `d` cuts the selected entry |
| FmViews.FmView.ChordTimeout | main.js:580 | a chord timeout clears that timer only |
| FmViews.FmView.HandleZ | main.js:583-604 | the `z` chord state follows `Chords.HandleZ` |
| FmViews.FmView.ZChordTimeout | main.js:589 | the `z` timeout ends the chord and keeps the listeners |
| FmViews.FmView.CaptureKey | main.js:591-602 | the capture listeners follow `Chords.ZCapture`, and a toggle flips the preview and restarts it |
| FmViews.FmView.TogglePreviewPane | main.js:769-780 | the preview pane flips and the preview restarts |
| FmViews.FmView.CopyEntry | main.js:633-640 | on a non-empty list the selected entry goes on the clipboard as a copy |
| FmViews.FmView.CutEntry | main.js:642-649 | on a non-empty list the selected entry goes on the clipboard as a cut |
| FmViews.FmView.PasteEntry | main.js:651-676 | the vault and clipboard change as the paste decision says, and the view renders unless the paste was refused or had nothing to paste |
| FmViews.FmView.ApplyPaste | main.js:651-674 | the branches of `pasteEntry` before its render: the vault becomes exactly `CopiedWithNewName`, `CopiedTo` or `Moved` as the branch says, and it returns early exactly when there is nothing to paste or a folder is pasted onto itself |
| FmViews.FmView.ProbeCounter | main.js:687-697 | the probing loop stops at `FirstFree`, the least free attempt |
| FmViews.FmView.CopyFileWithNewName | main.js:684-711 | the vault after the copy is `CopiedWithNewName`, whose freshness `NewNameCopyIsFresh` states |
| FmViews.FmView.CopyToFolder | main.js:713-734 | the vault after the copy is exactly `CopiedTo`, which `CopiedToGrows` and `FolderCopiedComplete` characterise |
| FmViews.FmView.CopyFolderRecursive | main.js:736-750 | the success flag and the vault are exactly those of `FolderCopied` |
| FmViews.FmView.CopyChildren | main.js:741-749 | the success flag and the vault are exactly those of `KidsCopied` |
| FmViews.FmView.CopyChild | main.js:742-748 | the success flag and the vault are exactly those of `KidCopied`: for a file, success exactly when it reads and its copy can be created, and the vault is then `FileCopied` |
| FmViews.FmView.MoveToFolder | main.js:752-767 | the vault after the move is `Moved`: unchanged when the destination exists or the rename fails |
| FmViews.FmView.RenderPreview | main.js:902-972 | the synchronous part of the preview follows `Preview.Start` for the selected entry |
| FmViews.FmView.PreviewSettles | main.js:949-959 | a settled read follows `Preview.Finish` with what the vault reads at that point |
| RangerViews.RangerView.constructor | src/main.ts:52-71 | the view starts at the root with an empty listing, no search, no chord, the preview shown, and token 0 |
| RangerViews.RangerView.GetFolderEntries | src/main.ts:234-246 | the partition loop and the sorts compute exactly the folders-first listing of all children |
| RangerViews.RangerView.RenderSelection | src/main.ts:248-259 | a truthy preselection that is listed wins and is consumed; otherwise the old index is clamped |
| RangerViews.RangerView.Render | src/main.ts:248-304 | `render` shows the fresh listing with the restored selection and restarts the preview |
| RangerViews.RangerView.Move | src/main.ts:315-323 | on an empty list nothing changes; otherwise the selection moves by the formula and the preview restarts |
| RangerViews.RangerView.Up | src/main.ts:325-335 | at the root nothing changes; otherwise the parent is shown with the folder just left selected, unless a preselection wins |
| RangerViews.RangerView.Activate | src/main.ts:337-350 | with no entry selected nothing changes; a file is opened; a folder is entered at the top with the search left |
| RangerViews.RangerView.EnterFolder | src/main.ts:341-346 | entering a folder leaves the search and renders the folder from index 0 |
| RangerViews.RangerView.LeaveFolder | src/main.ts:341-345 | the part before the render switches folder, selects the top and leaves the search |
| RangerViews.RangerView.EnterSearchMode | src/main.ts:364-370 | search mode starts with the applied query in the input, and the filter runs on it |
| RangerViews.RangerView.ExitSearchMode | src/main.ts:372-385 | leaving the search keeps the typed query for `n`/`N`, clears or applies it, and renders only when asked |
| RangerViews.RangerView.LeaveSearch | src/main.ts:373-382 | the search fields after leaving the search, for both values of `clear` |
| RangerViews.RangerView.SearchSelection | src/main.ts:392-400 | the selection the filter leaves is the auto-jump over the names |
| RangerViews.RangerView.ApplySearchFilter | src/main.ts:387-436 | the trimmed input becomes the query, and the selection jumps to the first matching name unless the selected one matches |
| RangerViews.RangerView.SetSearchInput | src/main.ts:117 | typing sets the input and runs the filter on it |
| RangerViews.RangerView.CycleSearch | src/main.ts:567-589 | `n`/`N` select the cycle target when there is one, and change nothing otherwise |
| RangerViews.RangerView.JumpTop | src/main.ts:549-556 | `gg` selects the first entry on a non-empty list |
| RangerViews.RangerView.JumpBottom | src/main.ts:558-565 | `G` selects the last entry on a non-empty list |
| RangerViews.RangerView.HandleG | src/main.ts:474-482 | a `g` toggles the pending chord, and the second `g` jumps to the top |
| RangerViews.RangerView.GTimeout | src/main.ts:481 | the `g` timeout ends the pending chord |
| RangerViews.RangerView.HandleZ | src/main.ts:484-505 | the `z` chord state follows `Chords.HandleZ` |
| RangerViews.RangerView.ZChordTimeout | src/main.ts:490 | the `z` timeout ends the chord and keeps the listeners |
| RangerViews.RangerView.CaptureKey | src/main.ts:492-503 | the capture listeners follow `Chords.ZCapture`, and a toggle flips the preview and restarts it |
| RangerViews.RangerView.TogglePreviewPane | src/main.ts:507-518 | the preview pane flips and the preview restarts |
| RangerViews.RangerView.RenderPreview | src/main.ts:591-635 | the synchronous part of the preview follows `Preview.Start` for the selected entry, with no image branch |
| RangerViews.RangerView.PreviewSettles | src/main.ts:624-634 | a settled read follows `Preview.Finish` with what the vault reads at that point |
| RangerViews.ListingIsChildren | src/main.ts:234-246 | the listing holds exactly the folder's children as a multiset, every folder before every file, and each group sorted by name |
| RangerViews.UpSelectsFolderLeft | src/main.ts:325-335 | without a pending preselection, `up` selects the folder just left when the parent lists it, and the top otherwise |

## Left out

- Rendering: the DOM, CSS classes, icons set on elements, the details line and scrolling are not modelled. Only the fields the methods update are modelled.
- Host wiring: `onOpen`'s key dispatch, `onClose`, `onload`, the settings tab, `loadSettings` and `saveSettings` are left out. Each key handler is a method called directly.
- `setStartFolder`, `setStartLocation`, `setState`, `getState` and `closeView` are left out. They restore or hand back view state through the host workspace, which is not part of this model.
- The Enter suppression window of `onOpen` is left out, because it reads the clock (`Date.now`).
- Timers are events, not durations. The 400 ms chord windows become timeout methods that may be called at any point.
- Entries are value snapshots keyed by path, not live `TAbstractFile` objects. Two listings of the same folder therefore compare equal, and aliasing of host objects is not captured.
- `localeCompare` is modelled as code-unit order of the ASCII-lower-cased names, a total preorder. Locale collation is not modelled.
- `toLowerCase` is modelled on ASCII letters only. Strings are sequences of UTF-16 code units, with no normalisation.
- `MarkdownRenderer.renderMarkdown` and `getResourcePath` are host calls. The pane records which text or image it would show.
- `Notice` messages are left out. They are user-visible only and do not change state.
- `filterEntries` is left out: it is defined in both views but never called.
- `openContextMenu` and its menu actions are left out. They are host UI and repeat the handlers that are modelled.
- The keys handled inside the search input (Enter, Escape, arrows) are left out. They only call the modelled `exitSearchMode`, `move` and `activate`.
- Every `await` settles before the next statement, except the preview read. Interleavings of two pastes are not modelled.
- FmViews.FmView.RenderPreview: the details text of a folder (child counts, size, mtime) is left out, because it is presentation only.
- FmViews.FmView.CopyFolderRecursive: the recursion carries a depth bound (`fuel`), and the loop copies the children as listed when it starts. `copyToFolder` passes the vault's size as the bound. A folder pasted into its own subtree would recurse without end in the source; the model stops at the bound and reports a failed copy.
- Js.TrimShape: it states the shape of the result (no surrounding white space, no longer than the input), not that the result is a slice of the input.
- The corrected definitions (`WrapIndex`, `StartFixed`, `ZCaptureFixed`) stand beside the model. Both view classes keep the behaviour as written, so that every method states what the code does.

## Findings

| source | as written | input that shows it | evidently intended | confidence | as-written member | corrected member |
|---|---|---|---|---|---|---|
| main.js:395 | `(selectedIndex + delta + length) % length` with JavaScript's truncating `%` | three entries, first selected, Ctrl+u (`move(-10)`): the index becomes -1 and no entry is selected (the same formula is at src/main.ts:317) | a circular move that always lands in the list | not executed | Selection.CtrlUpOnShortList | Selection.WrapThereAndBack |
| main.js:947 | `++this.previewToken` only after the folder and image returns | select `a.md` (its read starts), then move to a folder before the read settles: `a.md`'s text is shown with the folder selected (same at src/main.ts:622) | every selection invalidates the reads before it | not executed | Preview.StaleTextAfterFolder | Preview.FixedStartConsistent |
| main.js:591-602 | the capture listener of `z` clears the timer on any key, so `handleZ` never sees a running timer and its "second key" branch is dead | press `z`, `z`, `p`: the second `z` starts a new chord and `p` toggles the preview (same at src/main.ts:492-503) | a second `z` cancels the chord | not executed | Chords.SecondZRearms | Chords.FixedZZCancels |
