# EOSC Data Commons search front end: verified model of its helpers

This project models the self-contained logic of the EOSC Data Commons search
front end (a React/TypeScript single-page app) and proves properties of it in Dafny.
The event-stream search client that the search page expects does not exist in the
repository's source (`src/lib/api.ts` is a single JSON `POST`), so there is no frame
parser or session controller to model. What is modelled:

- **Search history** (`src/lib/history.ts`): move-to-front de-duplication capped at
  five entries, over a store object whose field stands for browser storage.
- **File-to-parameter mapping editor** (`handleParameterChange` in
  `src/pages/DispatcherRunPage.tsx`): an update that keeps every parameter on at most one file.
- **Dispatcher metadata** (`src/lib/dispatcherUtils.ts`): the analysis table, copying the
  four `onedata` fields onto matching RO-Crate graph entities, preparing the metadata of a
  run, and checking that every parameter is mapped.
- **Task-status polling** (`pollTaskStatus` in `src/lib/dispatcherApi.ts`): the bounded
  retry state machine. Each poll's response or thrown error is an input.
- **Filter toggle** (`handleFilter` in `src/components/FilterPanel.tsx`) over a query
  string held as a list of `(key, value)` pairs.
- **Search-result card** (`src/components/SearchResultItem.tsx`): the publication-date
  priority chain, description truncation, and author and subject elision.
- **Citation builders** (`src/lib/citation.ts`): brace sanitising, the first-author key,
  the BibTeX field layout, and the RIS, EndNote and RefWorks line structure.
- **Download file name** (`src/components/CitationExport.tsx`) and the table of formats.
- **Pagination bounds** (`src/components/Pagination.tsx`).
- **Model short names** (`src/components/ModelSelector.tsx`).

Layout: one module per source file, plus three shared modules.
- `Wrappers` holds `Option` and `Result`.
- `Lists` holds `Without`, which is `filter(x => x !== v)`, and two facts about concatenation that the other modules use in their proofs.
- `Text` models the JavaScript string operations the helpers use: `trim`,
  `replace(/…+/g, …)`, `split` followed by taking the first or last part, `join` and `includes`.

The code that works step by step is modelled as methods, each proved equal to a
specification function whose properties are lemmas:
- the history store (`getSearchHistory`, `addToSearchHistory`), a class over storage;
- `handleParameterChange`, the loop that clears the other files mapped to a parameter;
- `handleFilter`, the loop that appends the remaining values of a filter;
- `updateOnedataForTarget`, the loop over the cloned graph and the loop over the four
  fields it copies (`CopyOnedataFields`);
- `prepareDispatcherMetadata`, the loop over the file mappings;
- `pollTaskStatus`, the loop of polls, and `Poll`, the body of one poll;
- `generateRIS`, `generateEndNote` and `generateRefWorks`, the pushes onto the line arrays.

Pure code is modelled as functions.

Where the declared types and the code disagree, the model follows the code.
- The card reads `hit.publicationDate`, while the type names the field `publication_date`.
- `areAllParametersMapped` checks that each parameter is mapped at least once, whatever its comment says.

## Model

| member | source | states |
|---|---|---|
| Lists.Without | src/lib/history.ts:17 | `filter(item => item !== x)` removes every occurrence of `x` and keeps every other element with its multiplicity; with `x` absent the list is unchanged |
| Lists.WithoutAppend | src/lib/history.ts:17 | filtering distributes over concatenation |
| Lists.WithoutKeepsDistinct | src/lib/history.ts:17 | filtering a list without repeats leaves a list without repeats |
| History.Updated | src/lib/history.ts:17 | the new history has 1 to 5 entries, starts with the query, holds it exactly once, and continues with the longest prefix that fits of the old history with the query removed, so the other entries keep their order |
| History.Load | src/lib/history.ts:5-10 | the stored list, or [] for nothing stored or text that does not parse; the store method `GetSearchHistory` returns it |
| History.UpdatedIdempotent | src/lib/history.ts:17 | adding the same query twice in a row gives the same history as adding it once |
| History.UpdatedKeepsDistinct | src/lib/history.ts:17 | a history without duplicates stays without duplicates |
| History.SearchHistoryStore.GetSearchHistory | src/lib/history.ts:3-11 | returns the stored list, or the empty list when storage holds nothing or text that does not parse |
| History.SearchHistoryStore.AddToSearchHistory | src/lib/history.ts:13-22 | an empty query leaves storage unchanged; otherwise storage holds the updated history built from what `getSearchHistory` returned |
| ParameterMapping.HandleParameterChange | src/pages/DispatcherRunPage.tsx:71-91 | with `none` the file's entry is removed; otherwise the file maps to the parameter; no other file maps to that parameter; other files whose parameter differs keep their entries; the previous map is a value and is left as it was |
| ParameterMapping.ReassignmentKeepsInjective | src/pages/DispatcherRunPage.tsx:71-91 | if no two files shared a parameter before the change, none do after it |
| DispatcherUtils.Config | src/lib/dispatcherUtils.ts:10-25 | exactly the types `text-reversion` and `ocr-wordcloud` have a configuration |
| DispatcherUtils.Message | src/lib/dispatcherUtils.ts:70 | the text of the error thrown: "Invalid dispatcher type: " and the type, or the graph not being iterable |
| DispatcherUtils.CopyOnedata | src/lib/dispatcherUtils.ts:35-51 | the entity gains or overwrites exactly those of the four onedata fields that the extensions define, with the extensions' values; every other property is kept |
| DispatcherUtils.CopyOnedataFields | src/lib/dispatcherUtils.ts:47-51 | the inner loop over the four field names computes the copy above |
| DispatcherUtils.UpdatedGraph | src/lib/dispatcherUtils.ts:44-53 | the graph keeps its length; every entity named like the target, not only the first, receives the copy; every other entity is unchanged |
| DispatcherUtils.OnedataUpdated | src/lib/dispatcherUtils.ts:30-56 | fails with "not iterable" exactly when `@graph` is missing; otherwise returns a new crate whose other keys are unchanged |
| DispatcherUtils.UpdateOnedataForTarget | src/lib/dispatcherUtils.ts:30-56 | the loop over the cloned graph computes the updated crate above, and the input crate, a value, is not modified |
| DispatcherUtils.Titled | src/lib/dispatcherUtils.ts:76-79 | with a title and a non-empty graph, only the first entity's name and description change; otherwise the metadata is unchanged |
| DispatcherUtils.PreparedMetadata | src/lib/dispatcherUtils.ts:61-93 | an unknown dispatcher type is rejected |
| DispatcherUtils.PrepareDispatcherMetadata | src/lib/dispatcherUtils.ts:61-93 | the method, with its loop over the mapped files, computes the prepared metadata; an unknown type fails with "Invalid dispatcher type: " followed by the type |
| DispatcherUtils.ApplyMappingsKeepsOtherFields | src/lib/dispatcherUtils.ts:82-89 | applying the file mappings changes nothing outside the four onedata fields |
| DispatcherUtils.ApplyMappings | src/lib/dispatcherUtils.ts:82-89 | the `forEach` over the mappings, applying the target update for each listed file; only a missing `@graph` fails |
| DispatcherUtils.ApplyMappingsSucceeds | src/lib/dispatcherUtils.ts:82-89 | a crate with a `@graph` never fails under the mappings |
| DispatcherUtils.PreparedNameAndDescription | src/lib/dispatcherUtils.ts:76-79 | with a title and a non-empty template graph, the first entity is named "<analysis name> for: <title>" and described "<description> - Dataset: <title>" |
| DispatcherUtils.ApplyMappingsIgnoresMissingFiles | src/lib/dispatcherUtils.ts:84-88 | mappings whose file index is not a listed file have no effect |
| DispatcherUtils.EveryMapped | src/lib/dispatcherUtils.ts:115-120 | true exactly when every parameter is among the mapped values |
| DispatcherUtils.AreAllParametersMapped | src/lib/dispatcherUtils.ts:109-121 | false for an unknown type; otherwise true exactly when every configured parameter is mapped at least once |
| DispatcherUtils.MappedExactlyOnce | src/lib/dispatcherUtils.ts:109-121 | with an injective mapping, as the editor keeps it, a complete mapping assigns each parameter to exactly one file |
| DispatcherApi.PollCount | src/lib/dispatcherApi.ts:87-136 | a session runs no more polls than there are outcomes and no more than 61 from the start |
| DispatcherApi.OrUnknown | src/lib/dispatcherApi.ts:102 | `error || 'Unknown error'`: a present, non-empty error is kept, and the result is never empty |
| DispatcherApi.ThrownMessage | src/lib/dispatcherApi.ts:128 | an `Error`'s message is kept even when empty; any other thrown value gives "Unknown error" |
| DispatcherApi.PollStep | src/lib/dispatcherApi.ts:91-133 | the callbacks one poll fires and whether it schedules another; its properties are `PollStepReschedules`, `PollStepEndsTerminal`, `SuccessCompletes`, `FailureReportsError` and `ThrownEmptyMessageKept` |
| DispatcherApi.Session | src/lib/dispatcherApi.ts:87-136 | the callbacks of a whole session; its properties are `SessionUnfold`, `SessionTerminatesOnce` and `SessionGivesUp` |
| DispatcherApi.ThrownEmptyMessageKept | src/lib/dispatcherApi.ts:128-131 | the last poll throwing an `Error` with message "" reports "Error checking task status: " with nothing after it |
| DispatcherApi.PollStepReschedules | src/lib/dispatcherApi.ts:108-127 | a poll schedules another exactly when fewer than 60 have been scheduled and the outcome is neither SUCCESS nor FAILURE: pending, started, retry, a status the switch does not list, or a thrown error |
| DispatcherApi.Poll | src/lib/dispatcherApi.ts:91-134 | one poll fires the callbacks and the re-scheduling decision of the step function |
| DispatcherApi.PollTaskStatus | src/lib/dispatcherApi.ts:81-137 | the loop of polls fires exactly the callbacks of the session function, runs at most 61 polls, and a session that stops ends with a terminal callback |
| DispatcherApi.PollStepEndsTerminal | src/lib/dispatcherApi.ts:95-133 | a poll that does not re-schedule ends with `onComplete` or `onError`; one that re-schedules fires neither |
| DispatcherApi.SessionUnfold | src/lib/dispatcherApi.ts:91-136 | a session is its first poll's callbacks followed, when it re-schedules, by the rest of the session with one more attempt |
| DispatcherApi.TerminalOnlyLast | src/lib/dispatcherApi.ts:95-133 | a trace with terminal callbacks only in its last place has at most one terminal callback |
| DispatcherApi.SessionTerminatesOnce | src/lib/dispatcherApi.ts:95-133 | at most one of `onComplete`/`onError` fires in a session, and only as its last callback |
| DispatcherApi.SuccessCompletes | src/lib/dispatcherApi.ts:96-99 | SUCCESS reports the status, then calls `onComplete` with the result or null, and stops after that poll |
| DispatcherApi.FailureReportsError | src/lib/dispatcherApi.ts:101-105 | FAILURE calls `onError` with "Virtual Research Environment setup failed: " and the error or "Unknown error", and stops |
| DispatcherApi.SessionGivesUp | src/lib/dispatcherApi.ts:115-132 | when every poll is pending or throws, exactly 61 polls run; after a final response the session ends with `onStatusUpdate('PENDING', 'Task monitoring timeout.')` then `onError('Task monitoring timeout')`; after a final throw with `onStatusUpdate('FAILURE', msg)` then `onError(msg)`, msg being "Error checking task status: " and the thrown `Error`'s message, or "Unknown error" for another value |
| DispatcherApi.SessionLastPoll | src/lib/dispatcherApi.ts:115-132 | such a session runs 61 polls and ends with every callback of the 61st poll, the one made after 60 re-schedules |
| DispatcherApi.LastPollGivesUp | src/lib/dispatcherApi.ts:118-131 | the 61st poll on an answer that is not SUCCESS or FAILURE ends with the two give-up callbacks: the PENDING timeout status update and `onError` after a response, the FAILURE status update and `onError` with the same message after a failed request |
| FilterPanel.GetAllAppend | src/components/FilterPanel.tsx:15 | `getAll` distributes over appended pairs |
| FilterPanel.GetAll | src/components/FilterPanel.tsx:15 | `getAll(key)`: the values of `key` in order; its meaning is stated by the `GetAll…` lemmas |
| FilterPanel.Delete | src/components/FilterPanel.tsx:18 | `delete(key)`: every pair of `key` removed; stated by `GetAllDelete` |
| FilterPanel.Pairs | src/components/FilterPanel.tsx:19 | the pairs appended for the remaining values; stated by `GetAllPairs` and `PairsAppend` |
| FilterPanel.GetAllDelete | src/components/FilterPanel.tsx:18 | after `delete(key)`, `getAll(key)` is empty and every other key is unchanged |
| FilterPanel.GetAllPairs | src/components/FilterPanel.tsx:19 | appended pairs for `key` add exactly their values to `getAll(key)` and nothing to other keys |
| FilterPanel.PairsAppend | src/components/FilterPanel.tsx:19 | appending values one at a time builds the pairs for the whole list |
| FilterPanel.HandleFilter | src/components/FilterPanel.tsx:14-24 | the method builds the toggled parameter list on a new value, leaving `activeFilters` as it was |
| FilterPanel.ToggledValues | src/components/FilterPanel.tsx:15-22 | the value becomes active exactly when it was not; every other value keeps whether it is active |
| FilterPanel.Toggled | src/components/FilterPanel.tsx:15-22 | the new parameter list; stated by `ToggledGetAll` |
| FilterPanel.ToggledGetAll | src/components/FilterPanel.tsx:15-22 | after the toggle, `getAll(key)` is the old values without the value when it was present, or with it appended at the end otherwise; every other key is unchanged |
| FilterPanel.ToggleTwiceRestores | src/components/FilterPanel.tsx:15-22 | toggling an absent value twice restores the original values of the key |
| FilterPanel.ToggleFlipsActive | src/components/FilterPanel.tsx:15-22 | the value is active after the toggle exactly when it was not active before |
| SearchResultItem.FindType | src/components/SearchResultItem.tsx:52-62 | `find` returns the first entry of the wanted type, or nothing when no entry has that type |
| SearchResultItem.DateOfType | src/components/SearchResultItem.tsx:52-62 | the date of the first entry of the type, and nothing exactly when no entry has the type |
| SearchResultItem.PublicationDate | src/components/SearchResultItem.tsx:44-71 | the root date if truthy, else the first Issued, else the first Available, else the first Created date, else the publication year; null exactly when all of these are missing |
| SearchResultItem.FirstOfTypeUnique | src/components/SearchResultItem.tsx:52-62 | the first entry of a type is unique |
| SearchResultItem.VisibleDescription | src/components/SearchResultItem.tsx:86-90 | a description longer than 300 characters and not expanded shows its first 300 characters plus "..."; otherwise it shows in full |
| SearchResultItem.IsDescTruncated | src/components/SearchResultItem.tsx:86 | the description is cut when it is longer than 300 characters; stated by `VisibleDescription` |
| SearchResultItem.VisibleCreators | src/components/SearchResultItem.tsx:94-96 | all creators when expanded or at most three; otherwise the first three |
| SearchResultItem.RemainingAuthors | src/components/SearchResultItem.tsx:97 | `max(0, n - 3)`: zero exactly when there are at most three creators |
| SearchResultItem.MoreAuthors | src/components/SearchResultItem.tsx:143-151 | the ", +N more" suffix is shown exactly when the list is not expanded and has more than three creators, and N is the number hidden |
| SearchResultItem.CreatorsAccounted | src/components/SearchResultItem.tsx:143-151 | the ", +N more" suffix appears exactly when names are hidden, and the shown names plus N are all the creators |
| SearchResultItem.VisibleSubjects | src/components/SearchResultItem.tsx:179 | at most five subject chips, a prefix of the subjects |
| SearchResultItem.MoreSubjects | src/components/SearchResultItem.tsx:185-188 | the "+N more" label appears exactly when there are more than five subjects, with a positive N |
| SearchResultItem.SubjectsAccounted | src/components/SearchResultItem.tsx:175-188 | the chips and the label's number together account for every subject |
| Text.DropWhile | src/lib/citation.ts:10-12 | the leading whitespace that `trim` removes: a suffix, starting with a character that is kept |
| Text.DropWhileEnd | src/lib/citation.ts:10-12 | the trailing whitespace that `trim` removes: a prefix, ending with a character that is kept |
| Text.Trim | src/lib/citation.ts:10-12 | the result neither starts nor ends with whitespace, is no longer than the string, and a string without whitespace is unchanged |
| Text.TrimSlice | src/lib/citation.ts:10-12 | the string is a run of whitespace, then its trimmed text, then a run of whitespace: `trim` removes the leading and trailing whitespace and nothing else |
| Text.Strip | src/lib/citation.ts:10-12 | stripping the characters of a class from both ends leaves neither end in the class, and leaves a string without them unchanged |
| Text.StripSlice | src/lib/citation.ts:10-12 | the string is a run of the class, the stripped text, and another run of the class, in that order |
| Text.TrimEmpty | src/lib/citation.ts:22 | trimming gives the empty string exactly when the string is all whitespace |
| Text.ReplaceRuns | src/lib/citation.ts:10 | `replace(/…+/g, rep)` maps the empty string to itself, keeps a non-empty string non-empty when `rep` is non-empty, and keeps a first character that is not replaced; together with the split, run and field lemmas below this pins the result as each maximal run replaced by one `rep`, every other character kept in order |
| Text.ReplaceRunsSplit | src/lib/citation.ts:10 | replacing runs works part by part when the cut does not fall inside a run |
| Text.ReplaceRunsRun | src/lib/citation.ts:10 | a non-empty run of matching characters becomes exactly one `rep` |
| Text.ReplaceRunsField | src/lib/citation.ts:10 | a string starting with a kept character keeps its first field as it is and continues with the replacement of the rest |
| Text.ReplaceRunsFields | src/lib/citation.ts:10 | for a string not starting with a match, the result is its fields joined by `rep`, followed by one `rep` when the string ends in a run |
| Text.CollapseFields | src/lib/citation.ts:22 | replacing runs by a string of the class and then stripping gives the fields joined by that string |
| Text.StripReplaceFields | src/lib/citation.ts:10 | stripping and then replacing runs gives the fields joined by `rep` |
| Text.Fields | src/lib/citation.ts:12 | the maximal runs of characters outside the class: each field is non-empty and has no character of the class |
| Text.FieldsNone | src/lib/citation.ts:12 | a string of class characters only has no fields |
| Text.FieldsOne | src/lib/citation.ts:12 | a non-empty string without class characters is one field |
| Text.FieldsAppend | src/lib/citation.ts:12 | the fields of a concatenation are the fields of its parts when the cut falls on a class character |
| Text.StripFields | src/lib/citation.ts:12 | stripping does not change the fields |
| Text.LastFieldOfStrip | src/lib/citation.ts:12-13 | the part after the last separator of a stripped string is its last field, or "" when there is none |
| Text.DropWhileAcross | src/lib/citation.ts:10-12 | leading class characters of a prefix made only of them are all dropped |
| Text.DropWhileWithin | src/lib/citation.ts:10-12 | when the prefix has a kept character, dropping stops inside it and the rest is untouched |
| Text.DropWhileEndAcross | src/lib/citation.ts:10-12 | a suffix made only of class characters is dropped from the end entirely |
| Text.RemoveAll | src/lib/citation.ts:3 | `replace(/[…]/g, "")` leaves no matching character, keeps every other one, and on a one-character string removes it exactly when it matches |
| Text.RemoveAllAppend | src/lib/citation.ts:3 | removing works part by part, so with the one-character case it keeps the other characters in order and with their multiplicity |
| Text.BeforeFirst | src/lib/citation.ts:10 | `split(",")[0]`: the prefix before the first separator |
| Text.AfterLast | src/lib/citation.ts:12-13 | the last part of a split: the suffix after the last separator |
| Text.Join | src/lib/citation.ts:22 | joining no parts gives "", and joining one part gives that part |
| Text.JoinSnoc | src/lib/citation.ts:22 | joining one more part adds the separator and that part at the end |
| Text.JoinFieldsEnds | src/lib/citation.ts:22 | the fields joined by any separator neither start nor end with a class character |
| Text.JoinEnds | src/lib/citation.ts:77 | a joined text starts with its first part and ends with its last |
| Text.ReplaceRunsAvoids | src/components/CitationExport.tsx:66 | replacing runs by a string free of the pattern leaves no matching character |
| Text.ReplaceRunsNoRuns | src/components/CitationExport.tsx:66 | a string without matching characters is unchanged |
| Text.ReplaceRunsCollapses | src/lib/citation.ts:22 | after `replace(/\s+/g, ' ')` every whitespace character is a single space between non-spaces |
| Text.CollapsedSlice | src/lib/citation.ts:22 | every slice of a collapsed string is collapsed |
| Text.TrimKeepsCollapsed | src/lib/citation.ts:22 | trimming a collapsed string keeps it collapsed |
| Text.RemoveAllIdempotent | src/lib/citation.ts:3 | removing characters twice is the same as removing them once |
| Text.RemoveAllNone | src/lib/citation.ts:3 | removing characters that do not occur changes nothing |
| Text.AfterLastSeparator | src/components/CitationExport.tsx:67 | after a text ending in a separator, the last part is what follows it |
| Citation.Sanitize | src/lib/citation.ts:3 | removes every `{` and `}` and keeps every other character; a single character is removed exactly when it is a brace; text without braces is unchanged |
| Citation.SanitizeAppend | src/lib/citation.ts:3 | sanitising works part by part, so the kept characters stay in order |
| Citation.SanitizeIdempotent | src/lib/citation.ts:3 | sanitising twice is the same as sanitising once |
| Citation.FirstCreatorLastName | src/lib/citation.ts:5-14 | "unknown" for no creators; with a comma in the first creator, the words before the first comma joined by `_`; otherwise its last word, or "" when it is blank; never any whitespace |
| Citation.InvertedLastName | src/lib/citation.ts:10 | `split(",")[0].trim().replace(/\s+/g, "_")` is the words before the first comma joined by `_`, without whitespace |
| Citation.JoinedWords | src/lib/citation.ts:10 | trimming and then turning whitespace runs into `_` joins the words by `_` |
| Citation.PlainLastName | src/lib/citation.ts:12-13 | the last part of `trim().split(/\s+/)` is the last word, or "" for a blank name |
| Citation.LastNameOfGivenFamily | src/lib/citation.ts:12-13 | "Given Family" without a comma gives the family name, the last token |
| Citation.LastNameOfInverted | src/lib/citation.ts:9-10 | for "<family>,<rest>" with no comma in the family part, the result is the words of the family part joined by `_`, and the family part itself when it is one word |
| Text.ContainsWithin | src/lib/citation.ts:9 | a text contains every piece it is built from, so the inverted form takes the comma branch |
| Text.BeforeFirstSeparator | src/lib/citation.ts:10 | the first part of a split is the text before the first separator |
| Text.Contains | src/lib/citation.ts:9 | `includes`: some suffix of the text starts with the piece; its meaning is stated by `Text.ContainsWithin` |
| Citation.NormalizeAuthor | src/lib/citation.ts:22 | a normalised name is the words of the name in order, joined by single spaces: collapsed, with no leading or trailing whitespace, and empty exactly when the name is blank |
| Citation.NormalizeWords | src/lib/citation.ts:22 | collapsing whitespace runs to a space and trimming gives the words joined by spaces |
| Citation.NormalizeBlank | src/lib/citation.ts:22 | collapse and trim give "" exactly for a blank name |
| Citation.BlankSpaced | src/lib/citation.ts:22 | collapsing a blank name leaves only whitespace |
| Citation.SpacedKeeps | src/lib/citation.ts:22 | collapsing keeps a non-whitespace character when there is one |
| Citation.NormalizedAuthors | src/lib/citation.ts:22 | one entry per creator, in order: each is that creator's normalised name, which is collapsed |
| Citation.FormatAuthorsBibTeX | src/lib/citation.ts:21-23 | the normalised creators joined by " and ": "" for no creators, the normalised name for one, and otherwise a text that starts with the first normalised name |
| Citation.FormatAuthorsSnoc | src/lib/citation.ts:22 | one more creator appends " and " and that creator's normalised name, so the list is every normalised creator in order joined by " and " |
| Citation.BibTeXKey | src/lib/citation.ts:42 | the key holds only `[A-Za-z0-9_]` and keeps every such character of "<last name>_<year>_<id>" |
| Citation.BibTeXFields | src/lib/citation.ts:45-52 | the six fields in source order: sanitised title, the author list or nothing when it is "", the year unless "n.d.", the url, the access note, the DOI; its properties are `BibTeXEntries`, `BibTeXEntriesOnly` and `PresentFieldsOf` |
| Citation.BibTeXLines | src/lib/citation.ts:53-59 | the body lines of the truthy fields; its layout is stated by `BibTeXLayout` |
| Citation.Present | src/lib/citation.ts:53 | keeps exactly the fields with truthy values, each with its value; one field gives its entry when truthy and nothing otherwise |
| Citation.PresentAppend | src/lib/citation.ts:53 | the filter works part by part, so the kept entries stay in declaration order, which decides the last line without a comma |
| Citation.FieldLine | src/lib/citation.ts:55-58 | a line reads "  <key> = {…}", followed by a comma unless it is the last |
| Citation.FieldLines | src/lib/citation.ts:54-59 | one line per entry: every one but the last ends with a comma, and the last ends with `}` |
| Citation.GenerateBibTeX | src/lib/citation.ts:40-61 | the record starts with "@misc{<key>,\n" and ends with "\n}" |
| Citation.BibTeXEntries | src/lib/citation.ts:45-53 | the body always has the access note, has the title when it is not empty, and has the year unless it is "n.d." |
| Citation.BibTeXEntriesOnly | src/lib/citation.ts:45-53 | every entry has a non-empty value, the year entry appears only for a year other than "n.d.", and the author entry is the formatted list |
| Citation.PresentFieldsOf | src/lib/citation.ts:53 | each kept entry carries the value of its own field |
| Citation.BibTeXLayout | src/lib/citation.ts:53-59 | the body has one to six lines, commas after all but the last, and the last ends with `}` |
| Citation.Tagged | src/lib/citation.ts:71 | one line `tag + x` per item, in order |
| Citation.TaggedSnoc | src/lib/citation.ts:71 | the lines grow by one per `forEach` step |
| Citation.CountTagged | src/lib/citation.ts:69-77 | the number of lines with a tag is at most the number of lines |
| Citation.CountTaggedAppend | src/lib/citation.ts:69-77 | counting distributes over concatenation |
| Citation.CountTaggedAll | src/lib/citation.ts:71 | every tagged line counts |
| Citation.CountTaggedNone | src/lib/citation.ts:69-77 | lines that differ from the tag in one place do not count |
| Citation.Opt | src/lib/citation.ts:72-74 | a conditional push adds the line exactly when its condition holds |
| Citation.CountTaggedKeeps | src/lib/citation.ts:69-77 | lines with another tag leave the count unchanged |
| Citation.CountTaggedAdds | src/lib/citation.ts:71 | tagged lines add one each to the count |
| Citation.GenerateRIS | src/lib/citation.ts:63-78 | the pushes build the RIS lines: type, title, one AU per creator, optional PY/DA/DO, UR, ER, joined by newlines |
| Citation.RisLines | src/lib/citation.ts:63-78 | the RIS lines in push order; their shape is stated by `RisShape` and `RisAuthorCount` |
| Citation.RisShape | src/lib/citation.ts:69-76 | the record starts with "TY  - DATA", ends with "ER  - ", and its AU lines are the creators in input order, one each |
| Citation.RisAuthorCount | src/lib/citation.ts:71 | there are exactly as many AU lines as creators |
| Citation.RisText | src/lib/citation.ts:77 | the RIS text starts with "TY  - DATA" and ends with "ER  - " |
| Citation.GenerateEndNote | src/lib/citation.ts:80-92 | the pushes build the EndNote lines, joined by newlines |
| Citation.EndNoteLines | src/lib/citation.ts:80-92 | the EndNote lines in push order; their shape is stated by `EndNoteShape` and `EndNoteAuthorCount` |
| Citation.EndNoteShape | src/lib/citation.ts:84-90 | the record starts with "%0 Dataset", ends with the access line, and has one %A line per creator in input order |
| Citation.EndNoteAuthorCount | src/lib/citation.ts:86 | there are exactly as many %A lines as creators |
| Citation.KeywordsShown | src/lib/citation.ts:125 | at most 15 keywords, a prefix of them, exactly 15 when there are at least 15, all of them when there are fewer, and none when the keywords are absent |
| Citation.GenerateRefWorks | src/lib/citation.ts:116-130 | the pushes, with the creator and keyword loops, build the RefWorks lines, joined by newlines |
| Citation.RefWorksLines | src/lib/citation.ts:116-130 | the RefWorks lines in push order; their shape is stated by `RefWorksShape` and the two count lemmas |
| Citation.RefWorksShape | src/lib/citation.ts:120-128 | the record starts with "RT Dataset", ends with "ER", has at most 15 K1 lines, and has one A1 line per creator |
| Citation.RefWorksKeywordCount | src/lib/citation.ts:125 | the K1 lines are exactly the keywords shown |
| Citation.RefWorksCreatorCount | src/lib/citation.ts:122 | there are exactly as many A1 lines as creators |
| CitationExport.ExtensionsDistinct | src/components/CitationExport.tsx:12-18 | the five formats have distinct, non-empty extensions without a dot |
| CitationExport.Labels | src/components/CitationExport.tsx:12-18 | the label, extension and MIME type of each of the five formats; `ExtensionsDistinct` states that the extensions differ |
| CitationExport.SafeTitle | src/components/CitationExport.tsx:66 | the safe title has only `[A-Za-z0-9._-]` and 1 to 60 characters; an empty title gives "citation"; otherwise it is a prefix of the title with each run of other characters turned into `_`, and its length is that of the replaced title cut to 60 |
| CitationExport.SafeTitleKeepsSafe | src/components/CitationExport.tsx:66 | a title that is already safe and at most 60 characters long is kept as it is |
| CitationExport.DownloadName | src/components/CitationExport.tsx:62-67 | the file name is the safe title, a dot, and then exactly the format's extension |
| CitationExport.DownloadNameExtension | src/components/CitationExport.tsx:62-67 | the part of the file name after its last dot is the format's extension |
| Pagination.TotalPages | src/components/Pagination.tsx:7 | the page count is the ceiling of total over size: enough pages for every item, and no page left empty |
| Pagination.CeilingBounds | src/components/Pagination.tsx:7 | integer ceiling division meets both ceiling bounds |
| Pagination.RendersIff | src/components/Pagination.tsx:8 | the control renders exactly when there are more items than fit on one page |
| Pagination.Renders | src/components/Pagination.tsx:8 | the control renders when there is more than one page; stated by `RendersIff` |
| Pagination.HandlePageClick | src/components/Pagination.tsx:10-14 | `onPageChange` receives a page only when it lies in 1 to the page count, and then the requested page |
| Pagination.ButtonsMatchGuard | src/components/Pagination.tsx:19-30 | Previous is disabled exactly when its click would be ignored, on page 1; Next exactly on the last page; an enabled button's click moves one page |
| Pagination.PreviousDisabled | src/components/Pagination.tsx:20 | Previous is disabled on page 1; stated by `ButtonsMatchGuard` |
| Pagination.NextDisabled | src/components/Pagination.tsx:30 | Next is disabled on the last page; stated by `ButtonsMatchGuard` |
| ModelSelector.ModelName | src/components/ModelSelector.tsx:11-12 | the segment after the last `/`, or the whole string without one |
| ModelSelector.GetShortName | src/components/ModelSelector.tsx:10-18 | mistral, gpt, kimi and qwen are checked in that order and the first match wins; without a match the segment is returned; the result is non-empty when the segment is |
| ModelSelector.ShortNameOfPath | src/components/ModelSelector.tsx:11-12 | only the last segment matters: any prefix ending in `/` gives the same short name |

## Left out

- The event-stream search client and its session controller are not in the repository's source, so they are not part of this model.
- Network calls are not modelled: `fetch` in `src/lib/api.ts`, the timeout fetch in `src/lib/utils.ts`, and the file listing, submission and `checkTaskStatus` in `src/lib/dispatcherApi.ts`. Each poll's response or thrown error is an input value.
- Timers are not modelled. `setTimeout` and the 2000 ms interval are discrete steps of the poll loop, and the delay itself is not modelled.
- Browser storage: `localStorage` is the store object's field. Whether stored text parses as JSON is a three-way value: absent, malformed or a list. A stored JSON value that parses but is not an array is not modelled.
- SearchHistoryStore.AddToSearchHistory: the model does not include a storage write that throws, where the source swallows the error and leaves storage as it was.
- `Date` parsing and formatting are parameters rather than computed. This covers `extractYear`, the RIS date part, the access date ("today") and `formatDate`.
- `extractDOI` needs the WHATWG URL parser, so the DOI is a parameter.
- `generateCSLJSON` needs `JSON.stringify` output, and the `GENERATORS` table only dispatches to the generators, so neither is modelled.
- Floating-point code is not modelled: `formatFileSize`, `scorePercent`, star clamping and the disclaimer geometry.
- DOM and browser work is not modelled: `cleanDescription`, the Blob and anchor download in `handleDownload`, the clipboard, `window.open`, outside-click listeners, and the React state setters around the modelled functions.
- `handleRunDispatcher` and `WorkflowRunPage.tsx` are not modelled. The latter is a near-copy of the poll loop, wired to React state, over a template that is not in the source.
- `SearchInput` filtering is not modelled, because it relies on Unicode case mapping (`toLowerCase`).
- `EasterEgg` is not modelled, because it uses randomness.
- The other components and pages only render, route or configure, so they are not modelled.
- The contents of the two template JSON files are not in the source, so they are parameters of the model.
- Values of the JSON documents that no modelled code inspects are opaque tokens.
- The type of the generators' input declares `id: string | number` (src/types/zenodo.ts:6); the model holds the `id` as the text it prints as, which for a number is its decimal form.
- That type declares no `url`, so the model's `url` may be missing, and a missing `url` prints as "undefined".
- The only caller of the generators (src/components/SearchResultItem.tsx:211) passes a search hit, whose `url` and `creators` sit under `_source` (src/types/commons.ts:31-43). For such a hit `ds.url` is missing and prints as "undefined", and `ds.creators.length` throws a `TypeError`. The model takes a value of the declared type and does not model that throw.
- Pagination.TotalPages: requires a page size above zero. The source divides by the size, so with size 0 it produces `Infinity` or `NaN`, which the model does not represent.
- Pagination.HandlePageClick: `onPageChange` itself is not modelled. The function returns the page it would be called with.
- DispatcherApi.PollTaskStatus: the callbacks are recorded in a trace and assumed not to throw.
- SearchResultItem.MoreAuthors: the "+N more" labels are numbers, not their decimal text.
- SearchResultItem.MoreSubjects: the same applies to the subject label.
- SearchResultItem.VisibleDescription: strings are sequences of Unicode scalar values, while JavaScript strings are UTF-16 code units. For a description with characters outside the Basic Multilingual Plane, `length > 300` and `slice(0, 300)` (src/components/SearchResultItem.tsx:86-90) count differently from the model. The safe title's `slice(0, 60)` is unaffected, because the replaced title is ASCII.
- Citation.FirstCreatorLastName: the second "unknown" fallback (`parts.length` zero) cannot happen, because `split` always returns at least one part, so the model has no such branch.
- DispatcherUtils.AreAllParametersMapped: `DISPATCHER_CONFIGS` is a plain object, so a type such as "toString", "constructor" or "__proto__" finds an inherited member there. The source then throws a `TypeError` at `config.parameters.every` (src/lib/dispatcherUtils.ts:120); the model treats such a name as an unknown type and returns false.
- DispatcherUtils.PreparedMetadata: for those inherited names the source gets past the check and throws a `SyntaxError` from `JSON.parse(JSON.stringify(undefined))` (src/lib/dispatcherUtils.ts:73); the model rejects them as an invalid dispatcher type.
- DispatcherUtils.PrepareDispatcherMetadata: the same inherited names fail with "Invalid dispatcher type: …" in the model, where the source throws that `SyntaxError`.
- Text.Trim: its own ensures give only the two ends and the unchanged case; that nothing but the leading and trailing whitespace is removed is stated by `Text.TrimSlice`.
- Text.ReplaceRuns: its own ensures give only the empty string and a kept first character; that each maximal run becomes one `rep` while every other character stays in order is stated by `Text.ReplaceRunsSplit`, `Text.ReplaceRunsRun`, `Text.ReplaceRunsField` and `Text.ReplaceRunsFields`.
- Text.RemoveAll: its own ensures say which characters remain; their order and multiplicity follow from `Text.RemoveAllAppend` together with its one-character case.
- Text.Join: its own ensures cover zero and one part; the separator between the parts of longer lists is stated by `Text.JoinSnoc`.
- Citation.Sanitize: its own ensures say which characters remain; that the other characters keep their order and multiplicity follows from `Citation.SanitizeAppend` together with its one-character case.
