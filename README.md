# Welding practice tracker: the state layer

This project models the state layer of a browser-based welding study tracker
(`app.js`). One shared state object holds five pieces of data:

- a reading-progress map and a practice-progress map, each from item id to "done";
- the list of custom reading items the user added;
- the list of reflection notes;
- the daily streak record `{count, date}`.

The event handlers change this object in place. They toggle checkboxes,
add, remove and clear custom readings, reset reading progress, and add,
remove and clear notes. Loading the object rebuilds it from browser storage:
malformed note records are filtered out, a legacy single-string note is
migrated, and the notes are sorted newest first.

The model is in nine modules:

- `Wrappers`: `Option` and `Result`.
- `Text`: JavaScript's `trim`, `split(/\s+/)`, `join(" ")`, ASCII case
  mapping and the decimal rendering of timestamps.
- `Seqs`: the id filter and first-occurrence de-duplication.
- `Streak`: the streak state machine, and a lemma about any history of
  completion days.
- `Progress`: done counts and completion fractions.
- `Storage`: parsed JSON values, and what reading a stored list can produce.
- `Notes`: note records, the load-time filter, the legacy migration and the
  newest-first sort.
- `Catalog`: built-in items, link normalisation, category formatting, tags,
  the duplicate check and the add-reading validation.
- `Tracker`: the class `TrackerState`, whose fields are the five pieces of
  state and whose methods are the handlers.

Days are whole UTC day numbers. The source compares `toISOString()` dates,
and those are UTC dates, so "yesterday" is exactly `today - 1`. Timestamps
(`Date.now()`), ISO strings, `new URL(...)` and the parsing of `createdAt`
strings into times are parameters of the operations that use them.

## Model

| member | source | states |
|---|---|---|
| `Text.Trim` | app.js:585-588 | The result has no leading or trailing whitespace and is no longer than the input. It is empty exactly when every input character is whitespace, which is the condition for an "empty" title, link or note body. |
| `Text.TrimRemovesOnlySpace` | app.js:585-588 | The trimmed value is a slice of the input, and every input character outside that slice is whitespace. Together with the result being trimmed, this fixes the result: `trim` removes the surrounding whitespace and nothing else. |
| `Seqs.Without` | app.js:541-543 | An element is kept exactly when it was in the list and its id differs from the removed id. The result is never longer than the input. |
| `Seqs.WithoutConcat` | app.js:721 | Removing by id works piece by piece over a concatenation, so the remaining elements keep their order. |
| `Seqs.WithoutIdempotent` | app.js:540-546 | Removing the same id a second time changes nothing. |
| `Seqs.Dedupe` | app.js:613-619 | `Array.from(new Set(...))` has no duplicates and the same members as its input. Its values appear in the order of their first occurrence in the input, so it starts with the input's first element. |
| `Streak.Next` | app.js:258-277 | With no completion, or when the date is already today, the record is unchanged. Otherwise the date becomes today, and the count goes up by one when the old date was yesterday and becomes 1 in every other case (null date, a gap, a future date). |
| `Streak.HistoryIsRunSpan` | app.js:258-277 | Start from `{0, null}` and record a completion on each day of a sequence. The count is then the number of calendar days spanned by the final unbroken run of completion days, and the date is the last completion day. |
| `Streak.HistoryPositive` | app.js:262-274 | After any completion the count is at least 1. |
| `Progress.DoneCount` | app.js:232-240 | The done count is at most the number of items. It is 0 exactly when no item is done and equals the total exactly when every item is done. |
| `Progress.DoneCountConcat` | app.js:206-209 | The reading done count over built-in plus custom items is the sum of the two counts. |
| `Progress.DoneCountSameDone` | app.js:232-234 | Two maps that agree on which ids are done give the same count. |
| `Progress.DoneCountMonotone` | app.js:384 | Checking an item never lowers a done count, and unchecking never raises it. |
| `Progress.ToggleBackRestoresCounts` | app.js:384 | Setting an entry and then setting it back to its former done-ness restores every id's done-ness and every count. The map itself may keep an explicit `false` entry. |
| `Progress.Percent` | app.js:231-241 | The fraction times `total \|\| 1` is the done count, so it is `done / (total \|\| 1)`. It lies in [0,1] whenever done is at most total. It is 0 when nothing is done (so 0 for an empty list). For a non-empty list it is 1 exactly when everything is done. |
| `Progress.Compute` | app.js:229-243 | Each kind's fraction is its done count over its number of items, or over 1 when it has none. The overall value is the mean of the two fractions. Both fractions and the overall value lie in [0,1]. A kind with no items has fraction 0, and a kind's fraction is 1 exactly when it has items and all are done. |
| `Notes.DecodeNote` | app.js:126-132 | A stored element is kept exactly when it is an object whose `id`, `body` and `createdAt` are all strings, and the note is built from those three strings. |
| `Notes.WellFormed` | app.js:125-133 | A note is in the filtered list exactly when some stored element decodes to it. Nothing is added. |
| `Notes.WellFormedConcat` | app.js:125-133 | The filter works element by element, so the stored order is kept. |
| `Notes.SaveThenLoad` | app.js:218-220 | Notes saved with `saveNotes` and loaded back pass the filter unchanged and in the same order. |
| `Notes.ReloadAfterMigration` | app.js:135-144 | After a migrating load the list is rewritten and the legacy key removed. Loading again yields the same notes and migrates nothing, so the legacy note is migrated once. |
| `Notes.SortNewestFirst` | app.js:146-148 | The result is ordered newest first by `createdAt` and is a permutation of the input. |
| `Notes.SortKeepsSorted` | app.js:146-148 | A list that is already newest first is returned as it is, so sorting is idempotent. |
| `Notes.LoadNotes` | app.js:122-153 | An unparsable stored list gives no notes and no migration. Otherwise the legacy note is migrated exactly when it is present and not blank, and the unsorted list is written back then. The notes returned are newest first and are a permutation of the well-formed stored notes, with the trimmed legacy note in front of them when one is migrated. |
| `Catalog.CustomReadingsRoundTrip` | app.js:110-120 | The custom items that `saveCustomReadings` (app.js:211-216) writes load back as the same list, in the same order. |
| `Catalog.CustomReadingsFallback` | app.js:110-120 | A missing key, a value that does not parse, and a value that is not an array each load as no custom items. |
| `Catalog.BuiltinIdsNotCustom` | app.js:3-60 | No built-in reading id starts with `custom-`. |
| `Catalog.WithoutCustomKeys` | app.js:668-673 | Exactly the keys starting with `custom-` are deleted. Every other entry keeps its value. |
| `Catalog.NormalizeLink` | app.js:600-602 | The result always starts with a scheme. A link that already has one is kept. Any other link gets `https://` after its leading slashes are stripped. |
| `Catalog.NormalizeLinkIdempotent` | app.js:600-602 | Normalising a normalised link changes nothing. |
| `Catalog.FormatCategory` | app.js:572-578 | The formatted category is empty exactly when the input is. So an item's type falls back to `"Custom"` exactly when no category was given. |
| `Catalog.FormatCategoryWords` | app.js:572-578 | For a trimmed, non-empty category, the formatted value has the same whitespace-separated words, each with its first character upper-cased. |
| `Catalog.CategoryTags` | app.js:611-620 | No category gives no tags. Otherwise the tags are duplicate-free and are, in this order: the raw value; the title-cased value if it differs from the raw value; and the lower-cased value if it differs from both. |
| `Catalog.AnyDuplicate` | app.js:622-628 | True exactly when some item's trimmed, lower-cased title equals the new title, or the item has a link equal to the normalised new link. |
| `Catalog.ValidateReading` | app.js:584-644 | An accepted item is a custom item: its origin is custom, its id starts with `custom-` and its title is not empty. Which outcome occurs in which case is stated by `Catalog.ValidateReadingOutcomes`, and the accepted item's fields by `Catalog.ValidateReadingAccepted`. |
| `Catalog.ValidateReadingOutcomes` | app.js:584-633 | Each rejection happens in exactly its own case, in the handler's order. A blank title gives `MissingTitle`. Then a blank link gives `MissingLink`. Then a link the URL parser rejects gives `InvalidLink`. Then a title or link match against any existing item gives `Duplicate`. |
| `Catalog.ValidateReadingAccepted` | app.js:635-644 | An accepted item has a `custom-` id and origin custom. Its title, description and link are the trimmed title, the trimmed description and the parsed link. Its category is the formatted category, its type is that category or `"Custom"`, and its tags are the derived tags. It matches no existing item's title or link. |
| `Catalog.ResubmitIsDuplicate` | app.js:622-646 | Once a submission's item has been appended, submitting the same form again is rejected as `Duplicate`. |
| `Tracker.TrackerState.constructor` | app.js:159-167 | The state holds the built-in catalog (`trackerData`) and the loaded progress maps, notes, streak and custom readings. |
| `Tracker.TrackerState.ReadingItems` | app.js:206-209 | The reading items begin with the built-in items, in order, and the custom items follow in insertion order. Nothing else is in the list. |
| `Tracker.TrackerState.Report` | app.js:229-243 | The reading fraction is the done count over all reading items (built-in and custom) divided by their number, or by 1 when there are none. The practice fraction is the same over the practice items. The overall value is their mean. |
| `Tracker.TrackerState.UpdateStreak` | app.js:258-277 | The streak becomes `Streak.Next` of the old streak. Nothing else changes. |
| `Tracker.TrackerState.Toggle` | app.js:383-392 | The toggled kind's map gets `id := checked` and the other map is unchanged. The streak advances as `Streak.Next` with "completed" true only for a checked practice item. |
| `Tracker.TrackerState.ResetReadings` | app.js:750-754 | The reading map becomes empty. Practice progress, the streak, notes and custom readings are unchanged. |
| `Tracker.TrackerState.RemoveCustomReading` | app.js:540-548 | Every custom item with the id is removed and the rest keep their order. The id's progress entry is deleted and every other entry is unchanged. |
| `Tracker.TrackerState.ClearCustomReadings` | app.js:662-679 | With no custom items nothing changes. Otherwise the list is emptied and exactly the progress keys starting with `custom-` are deleted, by a loop over the keys. |
| `Tracker.TrackerState.SubmitReading` | app.js:580-655 | The outcome is the add-reading decision `Catalog.ValidateReading` against the built-in and current custom items. On success exactly that item is appended, and on any error nothing changes. |
| `Tracker.TrackerState.AddNote` | app.js:550-561 | The new note, with id `note-<now>`, is placed in front and the old notes follow in their order. |
| `Tracker.TrackerState.SubmitNote` | app.js:694-708 | A body that trims to empty is rejected and nothing changes. Otherwise the trimmed body is added as a note. The quick-note dialog at app.js:802-813 does the same. |
| `Tracker.TrackerState.RemoveNote` | app.js:715-724 | An empty id changes nothing. Otherwise the notes with that id are dropped and the rest keep their order. |
| `Tracker.TrackerState.ClearNotes` | app.js:727-738 | The notes become empty. Nothing else changes. |
| `Tracker.ClearKeepsBuiltinProgress` | app.js:666-673 | Deleting the `custom-` keys leaves the done count of the built-in readings unchanged. |
| `Tracker.ReportCountsBoth` | app.js:229-243 | The report over built-in plus custom readings has as its reading numerator the done built-in items plus the done custom items, and as its divisor their combined number. |

## Left out

- Rendering and wiring are presentation code and are not modelled. This covers `renderTracker`, `renderNotes`, `updateCustomSummary`, `populateReadingFilters`, `applyReadingFilter`, the dialogs, focus and `setTimeout`. So is the streak label (`count || 0` days).
- Browser storage reads and writes, and `JSON.stringify`, are I/O. A save is the assignment of the field it writes. `LoadNotes` returns the list it writes back on migration.
- The initial `JSON.parse` of the progress maps and the streak (app.js:160-165) is not modelled. The constructor receives those values already parsed, with `Streak.Initial` as the default streak. The source does not catch a parse failure there.
- `Date.now()`, `toISOString()` and `Intl.DateTimeFormat` are clock and locale calls. They become the parameters `now`, `nowIso` and `today`.
- `new URL(...)` is a library call. It is the parameter `parseUrl`, which returns the normalised link or `None` where the constructor throws.
- `new Date(createdAt)` is a library call. It is the parameter `timeOf`.
- Notes.LoadNotes: assumes every `createdAt` parses to a time. A string that gives `NaN` makes the comparator inconsistent, and the result order is then up to the engine.
- Notes.SortNewestFirst: the contract states ordering and permutation, not stability. `Array.prototype.sort` is stable, so ties keep their stored order; the function itself is a stable insertion, but no lemma says so.
- Percentages are reals. `formatPercent` rounding, `setProgressArc` and `Math.PI` are floating-point display code and are left out.
- Case mapping and `charAt(0).toUpperCase()` are modelled on ASCII letters only. Whitespace is the ECMAScript WhiteSpace and LineTerminator set.
- Catalog.LoadCustomReadings: has no property beyond its case table and the save-then-load round trip, which `Catalog.CustomReadingsRoundTrip` and `Catalog.CustomReadingsFallback` state. It assumes the stored items have the shape the app writes. The source only checks `Array.isArray` and keeps the elements unchecked, so elements of other shapes are not modelled.
- Notes.DecodeNote: keeps only `id`, `body` and `createdAt`. Extra fields of a stored record are dropped, and nothing in the source reads them.
- A stored streak date that is not a date string is modelled as `None`. It behaves the same way, because it never equals today or yesterday. A non-numeric stored count is not modelled.
- Tracker.TrackerState.Toggle: accepts any id. In the source only the ids of rendered items reach the handler.
- Streak.HistoryIsRunSpan: starts from the initial record `{0, null}`, not from an arbitrary stored record.
- Ids built from `Date.now()` are not guaranteed to be unique, so the model asserts no uniqueness.
- Adding a note does not advance the streak, and the model follows that.
- Setting an entry and then setting it back does not restore a map that had no entry for that id, because the handler at app.js:384 stores an explicit `false`. `Progress.ToggleBackRestoresCounts` states what does hold: done-ness and all counts are restored.
- Streak.Next: `updateStreak` reads the clock twice, once for today (app.js:259) and once for yesterday (app.js:266). The model takes one `today` and assumes both reads fall on the same UTC day. If midnight passes between them, "yesterday" equals the old today, and a streak last counted the day before is reset to 1.
