# Quote generator store, in Dafny

A model of the in-memory quote store behind the "dynamic quote generator"
page (`dom-manipulation/script.js`). The store is an ordered list of quote
records `(id, text, category)`. The page changes it in three ways:

- the add-quote form appends one trimmed record;
- a JSON import appends a parsed array wholesale;
- a periodic sync with a remote endpoint merges server quotes into it by
  identifier. A server quote overwrites the first record carrying its id in
  the list being merged into (a local record, or one appended earlier in the
  same sync) and counts a conflict; otherwise it is appended.

The page reads the store in two ways. It builds the category filter's
options, `"all"` followed by the distinct categories. It draws one quote from
the candidates the selected filter lets through.

Files and modules:

- `sequences.dfy` (`Sequences`): first-occurrence de-duplication, which is
  what `[...new Set(xs)]` computes, and its ordering lemma.
- `quotes.dfy` (`Quotes`): the `Quote` record, the default store and
  `findIndex` by id.
- `text.dfy` (`Text`): ECMAScript `trim` and the "has content" test.
- `catalog.dfy` (`Catalog`): category options, the category filter and the
  random pick.
- `sync.dfy` (`Sync`): the server merge, written two ways:
  - `MergeServerQuotes` is the source's loop;
  - `Reconciled` is a position-by-position reference definition.

  The loop is proved equal to the reference definition, and the merge
  properties are proved about `Reconciled`.
- `store.dfy` (`Store`): the class `QuoteStore`, whose `quotes` field the
  add, import and sync handlers reassign.

Modelling choices:

- Identifiers are `Option<int>`. An imported record may have no `id`, and
  `undefined === undefined` holds in JavaScript, so two absent ids match.
- `Math.random()` is a real parameter in `[0, 1)`.
- `Date.now()` is an integer parameter.
- The fetched posts and the parsed import file are inputs.

Two behaviours of the code that the model keeps:

- `['all', ...new Set(categories)]` lists "all" a second time when a quote's
  category is `"all"`. `Catalog.AllListedOnceUnlessUsed` states exactly when.
- The import appends elements without any check, so the store can hold
  records that the add-quote form would refuse.

## Model

| member | source | states |
|---|---|---|
| `Sequences.Distinct` | dom-manipulation/script.js:124 | `new Set` then spread: every kept value occurs in the input and was not excluded. Every non-excluded input value is kept, no value is kept twice, and the result is no longer than the input. |
| `Sequences.DistinctKeepsFirstOccurrenceOrder` | dom-manipulation/script.js:124 | The de-duplicated values appear in the order of their first occurrence in the input. |
| `Sequences.DistinctSnoc` | dom-manipulation/script.js:124 | Appending a value to the input appends it to the output exactly when it is new and not excluded. |
| `Quotes.FindById` | dom-manipulation/script.js:202 | `findIndex` by id: the result is the first position carrying the id, or none exactly when no record carries it. |
| `Quotes.FindByIdFirst` | dom-manipulation/script.js:202 | Any position whose id no earlier record carries is the one `findIndex` reports. |
| `Quotes.LoadQuotes` | dom-manipulation/script.js:8-17 | A saved list is used as is. With nothing saved, the store is the three default quotes with ids 1, 2, 3. |
| `Catalog.SelectedCategory` | dom-manipulation/script.js:57 | A missing or empty saved filter means "all", and any other saved value is used as is. |
| `Catalog.CategoryOptions` | dom-manipulation/script.js:124 | The options start with "all". After it come exactly the categories of the store, each listed once. |
| `Catalog.CategoryOptionsInStoreOrder` | dom-manipulation/script.js:124 | The categories after "all" are in order of first appearance in the store. |
| `Catalog.AllListedOnceUnlessUsed` | dom-manipulation/script.js:124 | "all" is listed again after the first entry if and only if some quote has the category "all". |
| `Catalog.FilterByCategory` | dom-manipulation/script.js:59 | A quote is in the filter's result if and only if it is in the store and has the category. The result is no longer than the store. |
| `Catalog.FilterKeepsMultiplicity` | dom-manipulation/script.js:59 | The filter keeps every quote of the category as many times as the store holds it, and no other quote. |
| `Catalog.FilterDistributes` | dom-manipulation/script.js:59 | Filtering a concatenation is the concatenation of the filtered parts, so store order is kept. |
| `Catalog.Candidates` | dom-manipulation/script.js:56-60 | With "all" the candidates are the whole store. Otherwise a quote is a candidate if and only if it is stored and has the selected category. |
| `Catalog.RandomIndex` | dom-manipulation/script.js:67 | `floor(random * n)` for a draw in [0, 1) is an index in [0, n). |
| `Catalog.ShowRandomQuote` | dom-manipulation/script.js:56-69 | "No quotes available" is shown if and only if there are no candidates. Otherwise the quote shown is a candidate from the store, of the selected category unless the filter is "all". |
| `Catalog.EveryQuoteCanBeShown` | dom-manipulation/script.js:67-68 | With the "all" filter, every quote of the store is shown for some draw. |
| `Text.Trim` | dom-manipulation/script.js:94-95 | `trim` returns the empty string if and only if the input has no non-white character. Otherwise it returns the slice from the first to the last non-white character, with only white space cut on either side. |
| `Text.TrimIdempotent` | dom-manipulation/script.js:94-95 | Trimming twice is trimming once. |
| `Store.NewQuote` | dom-manipulation/script.js:94-101 | A record exists if and only if both fields have a non-white character. It carries the given time as id and the trimmed text and category. |
| `Store.NewQuoteIsTrimmed` | dom-manipulation/script.js:94-101 | An accepted record has non-empty fields with nothing left to trim. |
| `Store.QuoteStore.constructor` | dom-manipulation/script.js:23 | The store at page load is the saved list, or the defaults when nothing is saved. |
| `Store.QuoteStore.AddQuote` | dom-manipulation/script.js:93-111 | Exactly one trimmed record is appended when both fields have content. Otherwise the store is unchanged. |
| `Store.QuoteStore.ImportFromJson` | dom-manipulation/script.js:163-177 | A parsed array is appended in order, without de-duplication. A non-array or an unparsable file leaves the store unchanged, with the matching message. |
| `Store.QuoteStore.SyncWithServer` | dom-manipulation/script.js:185-224 | A failed fetch leaves the store unchanged. Otherwise the store becomes the merge of the old store with the mapped posts. The reported conflict count is exact, and the store grows by the number of non-conflicting server quotes. |
| `Sync.LastWithId` | dom-manipulation/script.js:201-205 | The winning server quote for an id is a server quote carrying that id. |
| `Sync.LastWithIdSnoc` | dom-manipulation/script.js:201-205 | A later server quote with the same id replaces the winner; a quote with another id leaves it alone. |
| `Sync.NewIds` | dom-manipulation/script.js:206-208 | Every appended id is a server id that is absent from the local list. |
| `Sync.Resolved` | dom-manipulation/script.js:204 | Each local position keeps its id through the merge. |
| `Sync.PresentOnArrival` | dom-manipulation/script.js:199-205 | The conflict count never exceeds the number of server quotes. |
| `Sync.MergeServerQuotes` | dom-manipulation/script.js:198-209 | The loop returns exactly the reference merge `Reconciled`. The counter equals the number of server quotes whose id was present when processed, and the length is the local length plus the server count minus the conflicts. |
| `Sync.ReconcileStep` | dom-manipulation/script.js:202-208 | One iteration overwrites if and only if the id is already present, locally or from an earlier server quote. Either branch extends the reference merge by that server quote. |
| `Sync.StepOnLocalId` | dom-manipulation/script.js:202-205 | For an id present locally, the step overwrites at its first local position. |
| `Sync.StepOnAppendedId` | dom-manipulation/script.js:202-205 | For an id that an earlier server quote appended, the step overwrites that appended entry. |
| `Sync.StepOnNewId` | dom-manipulation/script.js:206-208 | For an id present nowhere, `findIndex` finds nothing and the step appends. |
| `Sync.AppendedPosition` | dom-manipulation/script.js:202-208 | A server id absent locally is found after the local records, at its rank among the new ids. |
| `Sync.ResolvedSnoc` | dom-manipulation/script.js:202-205 | One more server quote changes a local record only at the first local position carrying its id, which becomes that quote. |
| `Sync.AbsentBeforeMerge` | dom-manipulation/script.js:202-203 | An id that neither the local list nor the earlier server quotes carry is not found in the merged list. |
| `Sync.ReconciledWithoutServer` | dom-manipulation/script.js:198 | Merging no server quotes leaves the copy of the local list unchanged. |
| `Sync.ReconciledIds` | dom-manipulation/script.js:198-209 | The merged ids are the local ids position by position, followed by the new ids. |
| `Sync.ReconcileKeepsUnmatchedLocal` | dom-manipulation/script.js:198-209 | A local quote whose id matches no server quote stays at its index, unchanged. |
| `Sync.ConflictsPlusNewIds` | dom-manipulation/script.js:202-208 | Conflicts plus appended ids equal the number of server quotes. |
| `Sync.ReconcileLength` | dom-manipulation/script.js:198-209 | The merged list is no shorter than the local list, at most the server count longer, and exactly the non-conflicts longer. |
| `Sync.ReconcileAppendsServerQuotes` | dom-manipulation/script.js:206-208 | Only server quotes are appended, and only after the local records. Local positions keep their ids. The appended ids are distinct, absent from the local list, and in server order of first appearance. |
| `Sync.ReconcileServerWins` | dom-manipulation/script.js:202-205 | For every server id, the first merged record carrying it is the last server quote with that id. |
| `Sync.ReconcileIdempotent` | dom-manipulation/script.js:198-209 | Merging the same server quotes twice gives the same list as merging them once. |
| `Sync.NothingNewOnSecondMerge` | dom-manipulation/script.js:206-208 | After a merge, a second merge of the same server quotes appends nothing. |
| `Sync.SecondMergeAllConflicts` | dom-manipulation/script.js:205 | A second merge of the same server quotes counts every one of them as a conflict. |
| `Sync.SyncFromPosts` | dom-manipulation/script.js:191-209 | After a sync with the fetched posts, every record is either the old record at its position or the quote made from one of the posts, with category "Server". Every post's id is carried by the new store. |
| `Sync.ReconcileExample` | dom-manipulation/script.js:191-209 | Local `[{1,"A","X"}]` merged with post `{1,"B"}` becomes `[{1,"B","Server"}]`, with one conflict and nothing appended. |

## Left out

- Browser persistence is left out: `saveQuotes`, the `selectedCategory` write in `filterQuotes`, and the `lastViewedQuote` session entry with its replay at page load. The saved list and the saved filter are parameters instead.
- `fetch`, `response.json()` and the 60-second `setInterval` are left out. The fetched posts, or the failure, are an input. Overlapping sync cycles are a concurrency matter and are not modelled.
- `JSON.parse`, `JSON.stringify`, `Blob`, `URL.createObjectURL`, `FileReader` and the export click handler are left out. The parsed file is an input that is an array, something else, or unparsable.
- Imported elements are modelled as quote records. JSON elements that are not objects, or whose fields are not strings or integer ids, are not modelled.
- Posts are modelled with an optional integer id and a string title. A post without `title`, or with `id: null` (which `===` does not equate with a missing id), is not modelled.
- A `saveQuotes()` that throws after `quotes.push(...)` or after `quotes = mergedQuotes` is not modelled: the page then shows its failure message although the in-memory store has already changed, while the model's failure outcomes leave the store unchanged.
- A `RangeError` from spreading an extremely large imported array into `push` is not modelled.
- `Catalog.RandomIndex`: the draw is an exact real, so floating-point rounding of `Math.random() * n` is not modelled.
- `Date.now()` is left out. The new record's id is a parameter.
- DOM work is left out: the notification banner, building the form, clearing the inputs, the option elements with their capitalised labels, restoring the filter control's value, and the text written to the display.
- The root `script.js` is left out. It is an earlier subset of the same page: a fixed list, a random display and the same trimmed add-quote check.
