# Frunch Room picture catalog and rotation, modelled in Dafny

Frunch Room is a picture frame server. It mirrors the image files of a Google Drive into a
local `pictures` table and reverse-geocodes their GPS coordinates in the background. Every
twenty seconds it shows a random picture, weighted towards recent additions, that was not
among the last ten shown. This project models its decision rules over abstract state and
proves what those rules guarantee.

- **Catalog** (`catalog.dfy`): the `pictures` table as a map from id to row.
  - It holds the `^image/` filter, the row built from a file's metadata (author, capture time, coordinates marker), `INSERT OR IGNORE` and delete-by-id.
  - It gives the effect of a full listing and of a change page as folds over their entries.
- **Capture time** (`capture_time.dfy`): the `\d{4}\D\d{2}\D\d{2}` separator rewrite applied to a textual capture time.
- **Sync** (`sync.dfy`): class `PictureManager`, with the table, the stored `changesPageToken` cursor and the `isGeocoding` flag as fields.
  - `SyncFiles` runs the full-listing `do/while` loop or the incremental change loop. `GeocodeStart`/`GeocodeFinish` are the guard and the continuation of `geocodeLocations`.
  - The Drive answers are a sequence consumed in order by the loops. Each loop is proved against a function (`ListingRun`, `ChangeRun`) that states which answers it consumes, what it applies and which cursor it leaves.
- **Geocode** (`geocode.dfy`): the place-string rule. It gives `"city, state"` for `us`, `"city, country"` otherwise, and null without an address.
- **Selection** (`selection.dfy`): `selectRandom`.
  - It covers the `NOT IN` exclusion, the throwback branch, the recency weights as exact reals, the running-total loop and the scan for the first total that reaches `pick`.
- **Rotation** (`rotation.dfy`): index.js's `setPicture`, `getPicture` and one turn of the rotation loop, in class `Scheduler`.
  - The class has `history`, `currentPicture` and a ghost record of every picture shown.

Quirks of the code that are modelled as written:

- **Same cursor on every request.** Every request of the incremental pass carries the token read at the start of the pass (`src/pictureManager.js:112-113`), not the `nextPageToken` just received.
  - `IncrementalPass` returns the tokens it requested, and states that each one is the start token.
  - `RepeatedPageNeverCompletes` shows what follows when Drive answers that token with the same page: the pass never completes, and later pages are never reached.
- **Mixed time units.** The weights compare `Date.now()` in milliseconds with `added` in unix seconds. `MixedUnitsGiveUniformWeights` shows that this makes every weight 1 in practice.
  - The comment at src/pictureManager.js:298 counts the age in days, so a recency weighting in days was meant. The difference only flattens a probability distribution and the code as written is consistent, so it is recorded here and not as a finding.
- **No candidate.** With no candidate row, the scan at src/pictureManager.js:308-312 resolves nothing, so `selectRandom`'s promise never settles. `Selected` returns `None` for that, and `Fetched` turns it into `NeverSettles`.
- **`when` text.** The two placeholders of the `when` template are separated by a literal space. An added-only time therefore reads `added  <relative time>`, with two spaces.

Inputs the model takes as parameters:

- `unixOf`: `moment(...).unix()`.
- `fromNow`: `moment.unix(...).fromNow()`.
- `pathOf`: the `/images/...` path of the downloaded file, or `None` when `getFilePath` rejects (a database error or a failed download, src/pictureManager.js:321-363).
- `coin`, `draw`: the two `Math.random()` values.
- `shuffle`: `ORDER BY RANDOM()` over the throwback rows.
- `now`: `Date.now()`.
- `inTime`: whether `getPicture` is fulfilled within `pictureTimeout`, the maximum wait of index.js:17. The code enforces no such bound. Its timer promise resolves after `pictureInterval` (index.js:73), so the later `reject` (index.js:75) has no effect. `inTime` is only used by the corrected turn, `Scheduler.Tick`.

## Model

| member | source | states |
|---|---|---|
| CaptureTime.FirstMatchFrom | src/pictureManager.js:175 | the regular expression's leftmost match position at or after `from`: it matches there, nowhere earlier, and `None` means no match at all |
| CaptureTime.NormalizeSeparators | src/pictureManager.js:175 | length is kept; with no match the string is unchanged; at the first match the two separators become `-` and every other character is unchanged |
| CaptureTime.FirstMatchFromDigitPattern | src/pictureManager.js:175 | where the pattern matches depends only on which characters are digits |
| CaptureTime.NormalizeKeepsDigitPattern | src/pictureManager.js:175 | the rewrite keeps every character's digit/non-digit class |
| CaptureTime.NormalizeIdempotent | src/pictureManager.js:175 | rewriting an already rewritten time changes nothing |
| CaptureTime.ExifDateExample | src/pictureManager.js:173-176 | `2019:05:04 10:20:30` becomes `2019-05-04 10:20:30` |
| Catalog.IsImage | src/pictureManager.js:9 | the `^image/` test: the MIME type starts with `image/` |
| Catalog.IsPending | src/pictureManager.js:230 | a location awaiting geocoding starts with `{`, as `LIKE '{%'` and `location[0] === '{'` test (index.js:36) |
| Catalog.CoordsFields | src/pictureManager.js:165-168 | the body of `JSON.stringify({lat, lon})`: a key whose value is undefined is left out |
| Catalog.CoordsMarker | src/pictureManager.js:164-168 | the serialised coordinates start with `{`, so the row counts as pending geocoding, and end with `}` |
| Catalog.Author | src/pictureManager.js:190 | the first owner's display name, absent with no owners |
| Catalog.Taken | src/pictureManager.js:171-181 | a non-empty textual time is normalised and then parsed; a non-zero number is used as is; no time, `""` or `0` is absent |
| Catalog.Location | src/pictureManager.js:162-169 | the location column is set exactly when the metadata has a location, and then it is pending |
| Catalog.Record | src/pictureManager.js:162-193 | the row keeps the file's id, extension and creation time as `added`; its author is the first owner's name and its capture time follows the `Taken` rule; it has a location exactly when the metadata has one, and that location is pending |
| Catalog.InsertOrIgnore | src/pictureManager.js:185-193 | the key set grows by the row's id; existing rows are unchanged; a new id gets exactly the row |
| Catalog.AddFile | src/pictureManager.js:150-204 | a non-image MIME type leaves the table unchanged; an existing id leaves it unchanged; otherwise exactly one row is added |
| Catalog.RemoveFile | src/pictureManager.js:210-217 | that id is gone and every other row is unchanged |
| Catalog.Eligible | src/pictureManager.js:96-100 | an entry of a full listing that is added: not trashed, and an image |
| Catalog.ListedFileEffect | src/pictureManager.js:95-101 | a trashed or non-image entry has no effect; any other entry is inserted or ignored |
| Catalog.ApplyListing | src/pictureManager.js:95-101 | a listing adds exactly the ids of its non-trashed image entries and changes no existing row |
| Catalog.ApplyListingFirstWins | src/pictureManager.js:95-101 | a new id gets the record of its first eligible entry; later entries with that id are ignored |
| Catalog.ApplyListingFixed | src/pictureManager.js:95-101 | a listing whose eligible ids are all present leaves the table unchanged |
| Catalog.ApplyListingIdempotent | src/pictureManager.js:95-101 | applying the same listing twice yields the same table as once |
| Catalog.TrashedNeverAdded | src/pictureManager.js:96-99 | an id the listing shows only trashed (or only as a non-image) gets no row |
| Catalog.ApplyListingAppend | src/pictureManager.js:83-103 | applying the pages one after the other equals applying their concatenation |
| Catalog.ChangeEffect | src/pictureManager.js:121-134 | a non-`file` change has no effect; a removed or trashed change deletes its `fileId`; otherwise a change with a file goes through `addFile` |
| Catalog.IsRemoval | src/pictureManager.js:127 | a change is a removal when it is marked removed or its file is trashed |
| Catalog.ApplyChanges | src/pictureManager.js:121-134 | the changes of one page applied in order; what it guarantees is stated by the lemmas that follow |
| Catalog.ApplyChangesAppend | src/pictureManager.js:111-142 | applying the change pages in turn equals applying their concatenation |
| Catalog.SetLocation | src/pictureManager.js:255 | only that row's location changes; a missing row means no update |
| Catalog.ApplyChangesUntouched | src/pictureManager.js:121-134 | a row that no change of the page touches is left exactly as it was |
| Catalog.ApplyChangesRemoved | src/pictureManager.js:127-129 | after a removal that no later change of the page touches, no row with that `fileId` is left |
| Catalog.ApplyChangesIgnoresOtherKinds | src/pictureManager.js:122-125 | a page of non-`file` changes leaves the table unchanged |
| Geocode.Text | src/pictureManager.js:252 | a template literal prints a missing field as `undefined` |
| Geocode.Region | src/pictureManager.js:252 | the state for country code `us`, the country otherwise |
| Geocode.PlaceString | src/pictureManager.js:252 | the city, then `, `, then the region |
| Geocode.Resolved | src/pictureManager.js:250-253 | null without an address, the place string with one |
| Geocode.ResolvedNotPending | src/pictureManager.js:230-253 | a written location whose city does not itself begin with `{` is never pending again |
| Drive.Truthy | src/pictureManager.js:80-142 | the truthiness of a page token (lines 80, 88, 103, 106, 138, 142): present and not the empty string |
| Sync.ListingStep | src/pictureManager.js:93-102 | a listed page hands on its files and sets `nextPageToken`; an answer without data hands on nothing and keeps the token |
| Sync.ListingRun | src/pictureManager.js:83-103 | the full-listing loop consumes at most the answers given and consumes all of them when it is still unfinished; a completed loop made a request |
| Sync.ListedFilesMembers | src/pictureManager.js:93-101 | a file is among the listed pages' files exactly when one of those pages holds it |
| Sync.ListingRunFiles | src/pictureManager.js:83-103 | the files the listing hands on are exactly the files of the listed pages among the answers it consumed, in order |
| Sync.ListingRunFilesListed | src/pictureManager.js:91-101 | a file is handed on exactly when a listed page among the answers consumed holds it |
| Sync.CursorWrite | src/pictureManager.js:138-140 | a page writes the cursor exactly when its `newStartPageToken` is truthy and differs from the token read at the start |
| Sync.ChangeStep | src/pictureManager.js:120-141 | a listed page applies its changes, sets `nextPageToken` and gives its cursor write; an answer without data does none of these and keeps the token |
| Sync.ChangeRun | src/pictureManager.js:110-142 | the incremental loop never aborts, because failures are caught; it consumes at most the answers given; a cursor it writes is non-empty and differs from the start token |
| Sync.PageWrite | src/pictureManager.js:117-140 | an answer writes the cursor exactly when it is a listed page whose cursor write applies, and then writes its `newStartPageToken` |
| Sync.LastWriteIsLast | src/pictureManager.js:110-142 | the last written value is the write of an answer after which no answer writes; there is none exactly when no answer writes |
| Sync.ChangeRunPages | src/pictureManager.js:110-142 | the pass applies exactly the changes of the listed pages it consumed, in order, and leaves the cursor the last consumed page wrote |
| Sync.PageChangesMembers | src/pictureManager.js:120-134 | a change is among the pages' changes exactly when one of the listed pages holds it |
| Sync.ChangeRunChangesListed | src/pictureManager.js:110-142 | a change is applied exactly when a listed page among the answers consumed holds it |
| Sync.ChangeRunWritesNewStart | src/pictureManager.js:136-140 | a cursor the pass writes is the `newStartPageToken` of a consumed page after which no consumed page writes |
| Sync.ChangeRunNoWrite | src/pictureManager.js:117-140 | the cursor is left alone exactly when no consumed page has a usable new token (failed fetches have none) |
| Sync.RepeatedPageNeverCompletes | src/pictureManager.js:111-142 | if the one requested token keeps returning the same page with a next token, the pass never completes and applies only that page's changes |
| Sync.PictureManager.constructor | src/pictureManager.js:17 | the geocoding guard starts cleared |
| Sync.PictureManager.AddFile | src/pictureManager.js:150-204 | the table becomes the `addFile` effect of the file |
| Sync.PictureManager.RemoveFile | src/pictureManager.js:210-217 | the table loses that id only |
| Sync.PictureManager.ApplyListedPage | src/pictureManager.js:95-101 | the loop over one page's files leaves the table of `ApplyListing` |
| Sync.PictureManager.FullListing | src/pictureManager.js:80-108 | ends as `ListingRun`; the table gets the listing's effect; the cursor becomes the start token only when the loop completed and the token is truthy, otherwise it is unchanged |
| Sync.PictureManager.ApplyChangePage | src/pictureManager.js:121-140 | the loop over one page's changes leaves the table of `ApplyChanges`; the cursor follows the write rule |
| Sync.PictureManager.IncrementalPass | src/pictureManager.js:109-143 | ends as `ChangeRun`; gives the table and cursor it determines; every request carries the start token |
| Sync.PictureManager.SyncFiles | src/pictureManager.js:74-144 | with a falsy cursor, the full listing; with a truthy one, the incremental pass from it |
| Sync.PictureManager.GeocodeStart | src/pictureManager.js:223-234 | a set guard changes nothing; otherwise a pending row is picked while the guard stays set, or with no pending row the guard is cleared |
| Sync.PictureManager.GeocodeFinish | src/pictureManager.js:248-263 | the guard is cleared; an answer writes the resolved place to that row alone and reschedules; a failure leaves the table unchanged |
| Selection.Exclude | src/pictureManager.js:274-289 | the `NOT IN` filter keeps exactly the rows whose id is not excluded |
| Selection.NewestFirst | src/pictureManager.js:278-289 | the rows in `ORDER BY added DESC` order |
| Selection.Older | src/pictureManager.js:278 | exactly the rows after the 50 newest whose id is not excluded |
| Selection.Recent | src/pictureManager.js:289 | at most 50 rows: exactly those among the 50 newest whose id is not excluded |
| Selection.NewerThanOlderRows | src/pictureManager.js:278-289 | on rows newest first, a row among the 50 newest is at least as new as every later row |
| Selection.NoNewerThanRecentRows | src/pictureManager.js:278-289 | on rows newest first, a row after the 50 newest is no newer than any of them |
| Selection.RecentNewerThanOlder | src/pictureManager.js:278-289 | every main-query candidate is at least as new as every throwback candidate |
| Selection.Throwback | src/pictureManager.js:276 | the coin is below `1 / throwbackFrequency` |
| Selection.Weight | src/pictureManager.js:298-300 | every weight lies in `[1, 5 * msInDay]` |
| Selection.WeightMonotone | src/pictureManager.js:298-300 | a newer row never weighs less than an older one |
| Selection.WeightFloor | src/pictureManager.js:298-300 | a row at least five days old weighs exactly 1 |
| Selection.WeightTenToOne | src/pictureManager.js:298-300 | half a day old weighs 10; five days old weighs 1 |
| Selection.MixedUnitsGiveUniformWeights | src/pictureManager.js:296-299 | with `now` in milliseconds and `added` in seconds, every weight is 1 |
| Selection.Weights | src/pictureManager.js:297-300 | one weight per candidate row, in order |
| Selection.Sum | src/pictureManager.js:302 | `total += weight` over the weights, in order |
| Selection.Prefix | src/pictureManager.js:301 | one running total per weight |
| Selection.PrefixAt | src/pictureManager.js:301-302 | entry `i` of the running totals is the sum of the first `i + 1` weights |
| Selection.SumPositive | src/pictureManager.js:302 | positive weights have a positive total |
| Selection.PrefixIncreasing | src/pictureManager.js:294-303 | the running totals are strictly increasing and the last equals `total` |
| Selection.FirstAtLeast | src/pictureManager.js:308-312 | the scan returns the first index whose total reaches `pick`; `None` means no total reaches it |
| Selection.Threshold | src/pictureManager.js:306 | `pick` is the draw scaled by the total |
| Selection.WeightedIndex | src/pictureManager.js:305-312 | an index in range whose running total reaches `pick`, every earlier total being below it |
| Selection.ThresholdAtMost | src/pictureManager.js:306 | a draw of at most 1 puts `pick` at or below a positive total |
| Selection.WeightedIndexExists | src/pictureManager.js:305-312 | for any draw up to 1 (so for every `Math.random()` value), an index is found exactly when there is a candidate row |
| Selection.HighDrawMisses | src/pictureManager.js:305-312 | a draw above 1 can find no index: with one candidate and a draw of 2, the scan resolves nothing |
| Selection.ZeroDrawPicksFirst | src/pictureManager.js:305-312 | a zero draw picks the first candidate |
| Selection.TwoRowSelections | src/pictureManager.js:288-312 | two distinct rows, no throwback, a zero draw: nothing excluded selects the first row, and excluding the first selects the second |
| Selection.WeightedPick | src/pictureManager.js:305-312 | the picked row is one of the candidates |
| Selection.Selected | src/pictureManager.js:271-315 | the selection is a row of the table whose id is not excluded |
| Selection.SelectedRecency | src/pictureManager.js:276-312 | on rows newest first, a throwback is no newer than any of the 50 newest rows, and a weighted pick is at least as new as every row after them |
| Selection.ExcludeAll | src/pictureManager.js:274 | excluding every row's id leaves nothing |
| Selection.ExhaustedCatalogSelectsNothing | src/pictureManager.js:276-312 | when every id is excluded, neither branch finds a row |
| Selection.SelectRandom | src/pictureManager.js:271-315 | a throwback row when the coin says so and one exists, and then no newer than any of the 50 newest; otherwise the weighted pick among the 50 newest, at least as new as every older row; the result is never an excluded id |
| Selection.WeightedScan | src/pictureManager.js:294-312 | the two loops find the weighted index, which is in range |
| Selection.RunningTotals | src/pictureManager.js:294-303 | the first loop pushes the running totals and ends with their sum |
| Selection.ScanAtLeast | src/pictureManager.js:308-312 | the second loop finds the first total that reaches `pick` |
| Rotation.PushHistory | index.js:53-57 | the new id is first; the rest is the old history's first `min(n, 9)` ids; the length is `min(n + 1, 10)` |
| Rotation.Window | index.js:18 | at most `minRepeat` entries |
| Rotation.PushHistoryWindow | index.js:53-57 | pushing onto the last ten ids shown gives the last ten ids shown after it |
| Rotation.AntiRepeat | index.js:18-19 | showing an id not in the history keeps every eleven consecutive pictures distinct |
| Rotation.TakenTruthy | index.js:34 | `!picture.taken` is false exactly when `taken` is present and not `0` |
| Rotation.ShownTime | index.js:34 | `taken` when truthy, otherwise `added` |
| Rotation.When | index.js:34 | starts with `added ` exactly when `taken` is falsy; otherwise it is a space and the capture time's relative text |
| Rotation.StripPending | index.js:36-38 | a pending location becomes `''`, any other is unchanged, and the result is never pending |
| Rotation.Decorate | index.js:32-41 | the row with only its location stripped, plus its path and `when` text |
| Rotation.Fetched | index.js:31-43 | `getPicture` never settles exactly when the selection finds nothing, rejects exactly when the selected file's path cannot be had, and otherwise is fulfilled with a decorated table row whose id is not in the history |
| Rotation.TurnAsWritten | index.js:70-77 | a fulfilled `getPicture` gives its picture, a rejected one a TypeError from `[0]` on `undefined`, and one that never settles a loop that waits forever |
| Rotation.TurnCorrected | index.js:17 | a picture is set exactly when `getPicture` was fulfilled within the maximum wait |
| Rotation.ExhaustedCatalogHangsRotation | index.js:70-77 | once every catalog id is in the history, `getPicture` never settles and the as-written loop waits forever; the corrected turn is skipped |
| Rotation.SinglePictureHangsRotation | index.js:66-77 | with one picture, the turn after it was shown waits forever |
| Rotation.FailedDownloadEndsRotation | index.js:64-77 | two pictures, newest first, the second of which cannot be downloaded: the first call shows the first picture; on the next loop turn the second is selected, `getFilePath` rejects, the as-written turn throws a TypeError and the corrected turn is skipped |
| Rotation.Scheduler.constructor | index.js:19-20 | the history is empty and there is no current picture |
| Rotation.Scheduler.SetPicture | index.js:48-59 | a falsy picture changes nothing; otherwise it becomes current and its id is pushed onto the bounded history |
| Rotation.Scheduler.GetPicture | index.js:31-43 | settles as `Fetched`; a fulfilled picture is not in the history and is not pending; the geocoder is nudged exactly when the path was found for a pending row |
| Rotation.Scheduler.Tick | index.js:17 | the corrected turn: a picture not fulfilled within the maximum wait is a skipped turn with no state change; a fulfilled one is set; every eleven consecutive pictures stay distinct |

## Left out

- Google authentication and the Drive client: their answers are the `ListResponse`/`ChangeResponse` sequences and the `start` token.
- The page token of the full listing's requests (`params.pageToken`) is not recorded. Only the answers and their order are.
- A full listing or change feed that never ends: an answer sequence that runs out while a loop still wants pages ends the pass `Unfinished`.
- SQLite: table creation, SQL text, database errors and the string-built `NOT IN` clause with its unescaped ids. The table is a map, or a sequence in `ORDER BY added DESC` order for `selectRandom`.
- `src/keyValue.js`: a thin upsert wrapper. The stored cursor is the `cursor` field.
- The Nominatim request and `JSON.parse` of the coordinates marker: the settled answer (`GeoResponse`) is an input.
- Catalog.Taken: `unixOf` always yields an integer. `moment` gives `NaN` for an unparseable capture time or creation date, SQLite stores that as NULL, and the picture is then shown as "added ...". The model gives `Some(unixOf(..))` instead.
- `moment` parsing and relative time, `Date.now()`, `Math.random()` and `ORDER BY RANDOM()`: these are parameters.
- IEEE double arithmetic of the weights: they are exact reals.
- `getFilePath` (download and cache of the image file): the path is the parameter `pathOf`.
- Timers and concurrency:
  - the `setInterval` sync trigger, the `setTimeout` geocode reschedule (only returned as `reschedule`) and the rotation loop's timer promise (as written it only delays a turn, so `TurnAsWritten` does not need it; the intended bound is the input `inTime`);
  - the un-awaited `addFile` calls of the full listing;
  - the `geocodeLocations()` calls made after each insert and by `getPicture` (only returned as `nudge`).
- Express, socket.io and the `'new picture'` broadcast.
- Catalog.AddFile: does not model the geocode trigger after a successful insert, a fire-and-forget call that changes no row itself.
- Sync.PictureManager.GeocodeFinish: the "no longer pending" guarantee needs a city that does not itself start with `{`, since a city spelled that way would read as a marker again.
- Selection.SelectRandom: an empty candidate list gives `None`. A draw above 1 may too (`HighDrawMisses`); `Math.random()` never returns one. The source's promise then never settles; `Fetched` names that case `NeverSettles`, but no model of time shows the wait.
- Selection.SelectRandom: the `ORDER BY added DESC` of both queries is the precondition `NewestFirst` on `table`, not a sort the model performs.
- Rotation.Scheduler.GetPicture: models `getPicture` for the loop's turns; the first call at index.js:66, awaited without a `.catch`, is not modelled separately.
- The capture-time pattern works on Dafny characters (Unicode code points). JavaScript regular expressions without the `u` flag work on UTF-16 code units, so a separator outside the Basic Multilingual Plane counts as one character here and as two there.

## Findings

| source | as written | input that shows it | evidently intended | confidence | as-written member | corrected member |
|---|---|---|---|---|---|---|
| index.js:70-77 | The timer promise resolves after `pictureInterval`, so its `reject` after `pictureTimeout` has no effect and `Promise.all` waits for `getPicture` however long it takes. | a catalog whose every id is in `history`, e.g. a single picture after it was shown once: `selectRandom` finds no candidate and never settles, so the rotation stops with no error | a turn whose picture has not arrived within `pictureTimeout` (index.js:17) is skipped, and the loop goes on: `setPicture` already ignores a falsy picture (index.js:49-51) | not executed | Rotation.SinglePictureHangsRotation | Rotation.Scheduler.Tick |
| index.js:70-77 | `.catch(console.error)` turns a rejected `getPicture` into `undefined`, and `[0]` on it throws a TypeError that ends `schedulePictures`. | two pictures; the first was shown by the call at index.js:66; with no throwback, the loop turn selects the second, whose download fails (src/pictureManager.js:342-356) | a failed turn is skipped and the loop goes on, as with a falsy picture (index.js:49-51) | not executed | Rotation.FailedDownloadEndsRotation | Rotation.Scheduler.Tick |
