# private-photo-site in Dafny

The private photo site has two halves. The Pages Functions under
`functions/api/` store photos and per-event manifests in one object bucket.
The browser scripts `timeline.js` (the event timeline and event view) and
`app.js` (the flat gallery) read them back and upload new photos.

This project models both halves:

- **Event identifiers.** `EventIds` models how `event-create` turns a title
  and a date into an event id (`{date}-{slug}-{random hex}`): the slug
  pipeline, the id pattern `^[a-z0-9-]{3,80}$` and the date shape.
- **Manifests.** `Manifest` models the manifest document: its key
  `events/{eventId}/manifest.json`, the new manifest, the edit of
  `event-update`, and the photo append of `event-upload`, which sets the
  cover on the first upload.
- **Server handlers.** Each handler is a method or a function over a
  `Store.Bucket` whose `objects` map the methods update in place:
  - `event-create`, `event-update` and `event-upload` (with the type-to-extension
    map and the random file name);
  - `events` (the paged listing, the per-event summary and the sort);
  - `event`, `event-delete` (the paged listing and the deletion in chunks of 1000);
  - the legacy `upload`, `list` and `img`.

  Every guard returns the same status and message as the source. A
  `Reply<T>` is `Fail(status, message)`, `Ok(value)`, or `Crash` for an
  exception the handler does not catch.
- **timeline.js.** `Html` models `escapeHtml`, `Fnv` models the FNV-1a
  `hash32`, and `Mosaic` models the event card's mosaic (the Fisher–Yates
  `shuffleInPlace` over an array, the `desired` tile count and the key
  selection). `Timeline` models the event view: the photo list built from a
  manifest, the heading, and the lightbox with its keyboard navigation, as
  pure `Screen` transitions and as the class `EventPage` whose methods
  perform them in place.
- **app.js.** `Gallery` models the gallery page: the photos loaded from
  `/api/list`, the lightbox, and descriptions fetched on demand and cached in
  the `Photo` objects, with `lastMetaReqId` discarding stale responses.
- **Batch upload.** `BatchUpload` models the upload buttons of both pages:
  the checks before sending, then one request per file, stopping at the
  first failure.

Nothing outside the page can be seen from the model. Clocks, random numbers,
the bucket's listing pages and HTTP responses are therefore parameters:

- `now` / `nowMs` stand for the clock readings;
- a hex `fraction` stands for `Math.random().toString(16)`;
- `pick` and `picks` stand for the seeded generator's integer choices;
- `accepted[i]` and `ok` / `body` stand for response outcomes.

## Model

| member | source | states |
|---|---|---|
| Text.Trim | functions/api/event-create.js:28-30 | no white space at either end; empty exactly when the input is all white space |
| Text.TrimIsSlice | functions/api/event-create.js:28-30 | the result is the slice of the input left between a leading and a trailing run of white space |
| Text.FilterTrim | functions/api/event-create.js:28-30 | trimming removes only white space: every character of another kind survives, in order |
| Text.TrimIdempotent | timeline.js:543 | trimming an already trimmed description changes nothing (the page trims, then the server trims again) |
| Text.Lower | functions/api/event-create.js:3 | same length, each character lowered (ASCII) |
| Text.DecimalRoundTrip | functions/api/event-upload.js:17 | the decimal rendering of `Date.now()` is all digits, has no leading zero and reads back as the number |
| Text.Pad2RoundTrip | functions/api/upload.js:18-19 | `padStart(2, "0")` of a month or day below 100 is two digits reading back as it |
| Text.LexLeqTotal | functions/api/list.js:14 | code-unit order used by `sort()` is total |
| Text.LexLeqTrans | functions/api/list.js:14 | that order is transitive |
| Text.LexLeqAntisym | functions/api/list.js:14 | that order is antisymmetric |
| Text.RandomHex | functions/api/event-create.js:16-18 | `toString(16).slice(2, 8)`: at most `n` hex digits, exactly `n` when the fraction has them, a prefix of the fraction |
| Text.TakeLast | functions/api/events.js:40 | `slice(-12)`: the last `min(12, len)` elements, a suffix of the input |
| Text.SliceTo | timeline.js:186 | `slice(0, n)` clamps: a prefix of length `min(n, len)` |
| JsonValue.Member | functions/api/events.js:26 | a member is found exactly when the value is an object holding that name |
| JsonValue.StringMember | functions/api/events.js:26-30 | `typeof m?.x === "string" ? m.x : ""`: the member's text when it is a string, else "" |
| JsonValue.TrimmedMember | functions/api/event-create.js:28-30 | `Trim` of the member's text when it is a string, else ""; no white space at either end |
| JsonValue.ArrayMember | functions/api/events.js:31 | `Array.isArray(m?.photos) ? m.photos : []` |
| Store.ParseBody | functions/api/event.js:15-20 | `obj.json()` succeeds exactly on a stored JSON document and yields it |
| Store.ListCalls | functions/api/events.js:5-11 | the listing loop makes at least one and at most the page-limit calls |
| Store.ListedKeysBound | functions/api/events.js:5-7 | at most 1000 keys per page, so at most `1000 * pages` keys |
| Store.ListedKeysSinglePage | functions/api/events.js:6-8 | when the first page is not truncated the result is that page's keys after one call |
| Store.ListAllWithPrefix | functions/api/events.js:1-14 | the loop returns the keys of the page chain up to the page limit and the number of `list` calls |
| Store.Bucket.Put | functions/api/event-create.js:61-63 | the bucket afterwards maps the key to the object, everything else unchanged |
| Store.Bucket.Delete | functions/api/event-delete.js:49 | the bucket afterwards lacks exactly the given keys |
| EventIds.DashSpaces | functions/api/event-create.js:5 | no white space remains; a string without white space is unchanged (its content is fixed by the three lemmas below) |
| EventIds.DashSpacesRun | functions/api/event-create.js:5 | a maximal run of white space becomes exactly one dash |
| EventIds.DashSpacesCons | functions/api/event-create.js:5 | any other character is copied; with `DashSpacesRun` this determines the result on every string |
| EventIds.DashSpacesKeeps | functions/api/event-create.js:5 | every character that is neither white space nor a dash survives, in order |
| EventIds.KeepSlugChars | functions/api/event-create.js:6 | only `[a-z0-9-]` characters remain and the string gets no longer; a string of them is unchanged |
| EventIds.KeepSlugCharsAppend | functions/api/event-create.js:6 | the filter works character by character: the result for `a + b` is the result for `a` followed by that for `b` |
| EventIds.KeepSlugCharsSingle | functions/api/event-create.js:6 | one character is kept exactly when it is in `[a-z0-9-]`; with `KeepSlugCharsAppend` this determines the result |
| EventIds.KeepSlugCharsKeeps | functions/api/event-create.js:6 | every slug character survives, in order |
| EventIds.CollapseDashes | functions/api/event-create.js:7 | no two adjacent dashes remain, only slug characters remain, empty only for the empty string, first and last character kept |
| EventIds.CollapseDashesRun | functions/api/event-create.js:7 | a maximal run of dashes becomes exactly one dash |
| EventIds.CollapseDashesCons | functions/api/event-create.js:7 | any other character is copied; with `CollapseDashesRun` this determines the result on every string |
| EventIds.CollapseDashesKeeps | functions/api/event-create.js:7 | only dashes are dropped: every other character survives, in order |
| EventIds.CollapseDashesFixes | functions/api/event-create.js:7 | a string with no two adjacent dashes is left unchanged |
| EventIds.StripEdgeDashes | functions/api/event-create.js:8 | at most one character goes at each end; a string with no dash at either end is unchanged; from a string without `--` neither end of the result is a dash and no `--` appears; only slug characters remain |
| EventIds.StripEdgeDashesEnds | functions/api/event-create.js:8 | the first character is removed exactly when it is a dash, then the last exactly when it is a dash (so both go from a string of two or more that starts and ends with one), and everything between is kept |
| EventIds.StripEdgeDashesKeeps | functions/api/event-create.js:8 | only dashes are dropped: every other character survives, in order |
| EventIds.Slugify | functions/api/event-create.js:1-10 | the slug has only `[a-z0-9-]`, no `--`, no dash at either end |
| EventIds.SlugifyKeepsAlnum | functions/api/event-create.js:1-10 | the letters and digits of the lower-cased input are exactly those of the slug, in the same order |
| EventIds.SlugifyFixes | functions/api/event-create.js:1-10 | a string that is already a slug (only `[a-z0-9-]`, no `--`, no edge dash) slugs to itself |
| EventIds.SlugBase | functions/api/event-create.js:38 | `slugify(title) \|\| "event"`: a non-empty slug |
| EventIds.JoinedIdValid | functions/api/event-create.js:39-40 | date, base and suffix joined by dashes use only `[a-z0-9-]`, and pass `isValidEventId` exactly when base and suffix together have at most 68 characters |
| EventIds.ComposedEventIdValid | functions/api/event-create.js:38-42 | a well-formed date with a short title's slug and a hex suffix yields an id passing `isValidEventId` |
| EventIds.ComposedEventIdPrefix | functions/api/event-create.js:39 | the id starts with the date and a dash |
| Manifest.ObjectKey | functions/api/event-upload.js:69 | `events/{eventId}/{file}` lies under the event's prefix |
| Manifest.ManifestKey | functions/api/event-create.js:44 | the manifest key lies under the event prefix and ends with `/manifest.json` |
| Manifest.ManifestKeyInjective | functions/api/event-create.js:44 | distinct event ids have distinct manifest keys |
| Manifest.NewManifest | functions/api/event-create.js:50-59 | the new manifest's id, title, date and note are the inputs, the cover is empty, the photo list is empty, both timestamps are `now` |
| Manifest.ApplyEdit | functions/api/event-update.js:37-41 | an object manifest gets the new title, date, note and `updatedAt`; a JSON array is written back unchanged; other values cannot be assigned to (None) |
| Manifest.EditKeepsPhotosAndCover | functions/api/event-update.js:37-41 | editing leaves the id, the photo list and the cover as they were |
| Manifest.AppendPhoto | functions/api/event-upload.js:75-84 | the photo list gains exactly the new entry at its end, a missing list becomes `[entry]`, the cover is set only when it was falsy, `updatedAt` is `now` |
| Manifest.UploadIntoNew | functions/api/event-upload.js:75-84 | the first record in a new manifest makes its file the cover and the only photo |
| Manifest.FirstUploadSetsCover | functions/api/event-upload.js:82-83 | the first upload to a new manifest becomes its cover, later uploads never change a set cover |
| EventCreate.HandleCreate | functions/api/event-create.js:20-68 | each guard's 400, the 500 for an invalid id, the 409 for an existing manifest, otherwise the new manifest is stored under the id's key and nothing else changes |
| EventUpdate.HandleUpdate | functions/api/event-update.js:5-50 | each guard's 400, the 404 and 500, otherwise the stored manifest is replaced by its edit and nothing else changes |
| EventUpdate.AssignEditable | functions/api/event-update.js:38-41 | the in-place assignments give the value `ApplyEdit` describes |
| Media.AlnumTail | functions/api/event-upload.js:11 | the longest run of `[a-z0-9]` at the end of the name |
| Media.AlnumTailLongest | functions/api/event-upload.js:11 | no longer alphanumeric suffix exists |
| Media.NameExt | functions/api/event-upload.js:11-12 | `/\.([a-z0-9]+)$/` on the lowered name: a non-empty alphanumeric extension after a dot, or None |
| Media.NameExtMatches | functions/api/event-upload.js:11 | the extension found is `e` exactly when `e` is non-empty lowercase alphanumeric and the lowered name ends with `.` + `e` |
| Media.NameExtOfDotted | functions/api/event-upload.js:11 | a name ending in `.` plus an alphanumeric extension yields that extension |
| Media.ExtFromType | functions/api/event-upload.js:1-13 | the five known image types map to their extensions, otherwise the name's extension, otherwise `bin`; always non-empty lowercase alphanumeric |
| EventUpload.RandomName | functions/api/event-upload.js:15-18 | `{Date.now()}-{hex}.{ext}`: its extension is `ext`, it starts with a digit, has no `/` and is never `manifest.json` |
| EventUpload.PhotoKeyIsNotManifestKey | functions/api/event-upload.js:69 | a stored photo never overwrites the event's manifest |
| EventUpload.DescOf | functions/api/event-upload.js:33-34 | a text field gives its trim, anything else "" |
| EventUpload.PushPhoto | functions/api/event-upload.js:75-84 | the in-place push and cover default give the value `AppendPhoto` describes |
| EventUpload.StorePhoto | functions/api/event-upload.js:67-92 | the photo is put under its key, then the manifest is rewritten with the entry appended |
| EventUpload.HandleEventUpload | functions/api/event-upload.js:24-93 | each guard's status in the source's order (400, 400, 400, 413, 404, 500), with the bucket unchanged on every refusal and when the form cannot be parsed; otherwise the object and the rewritten manifest are stored and nothing else changes |
| Sorting.Insert | functions/api/events.js:60-65 | insertion adds exactly the new element, as a multiset |
| Sorting.InsertSorted | functions/api/events.js:60-65 | inserting into a sorted list under a total preorder keeps it sorted |
| Sorting.ConsSorted | functions/api/events.js:60-65 | an element ordered before the head of a sorted list can go in front of it |
| Sorting.SortBy | functions/api/events.js:60-65 | the result is a permutation of the input |
| Sorting.SortBySorted | functions/api/events.js:60-65 | the result is sorted under any total preorder |
| EventsList.PhotoFiles | functions/api/events.js:37-39 | no more files than entries, none of them empty; its order and contents are fixed by the two lemmas below |
| EventsList.PhotoFilesAppend | functions/api/events.js:37-39 | the files of a concatenation are the files of each part, in order |
| EventsList.PhotoFilesSingle | functions/api/events.js:37-39 | one entry gives its `file` member when that is a non-empty string, nothing otherwise |
| EventsList.AppendedFileIsLast | functions/api/events.js:37-39 | after a photo is recorded the file list is the old one with the new file at the end |
| EventsList.SampleKeys | functions/api/events.js:40-43 | one key per sample file, each the file's key under the event |
| EventsList.Summarize | functions/api/events.js:26-53 | the summary's fields are the manifest's string members, `coverKey` only when cover and id are set, `count` the photo list's length |
| EventsList.NewEventSummary | functions/api/events.js:26-53 | a new manifest is listed with its title, date, note, no cover, no samples, count 0 |
| EventsList.UploadedPhotoIsListed | functions/api/events.js:33-52 | after an upload the event's count grows by one and its newest sample is the new photo's key |
| EventsList.ManifestKeys | functions/api/events.js:18 | a key is kept exactly when it is listed and ends with `/manifest.json`; no more keys than listed |
| EventsList.ManifestKeysAppend | functions/api/events.js:18 | filtering a concatenation filters each part, in order |
| EventsList.ManifestKeysSingle | functions/api/events.js:18 | one key is kept exactly when it ends with `/manifest.json` |
| EventsList.Summaries | functions/api/events.js:20-57 | no more summaries than keys; order and contents are fixed by the lemmas below |
| EventsList.SummariesAppend | functions/api/events.js:20-57 | the summaries of a concatenation are those of each part, in order |
| EventsList.SummariesSingle | functions/api/events.js:21-56 | one key gives the summary of its manifest when that exists and parses, nothing otherwise |
| EventsList.SummariesSnoc | functions/api/events.js:20-57 | one more key adds the summary of its manifest, if any, at the end |
| EventsList.SummariesComplete | functions/api/events.js:21-57 | every stored JSON manifest among the listed keys is summarised |
| EventsList.EventBeforeIsTotalPreorder | functions/api/events.js:60-65 | "date descending, then title" is a total preorder |
| EventsList.SortEventsOrdered | functions/api/events.js:59-65 | the sorted events are a permutation of the summaries, ordered by date descending then title |
| EventsList.CollectSummaries | functions/api/events.js:20-57 | the loop collects exactly `Summaries` of the manifest keys |
| EventsList.ListEvents | functions/api/events.js:16-73 | the response is the sorted summaries of the manifests among the first 100 pages of keys under `events/`; the bucket is unchanged |
| EventDelete.Chunks | functions/api/event-delete.js:46-50 | every batch has between 1 and 1000 keys |
| EventDelete.ChunksFlatten | functions/api/event-delete.js:47-49 | the batches concatenate back to the key list |
| EventDelete.ChunksCount | functions/api/event-delete.js:46-48 | the number of batches is the key count divided by 1000, rounded up |
| EventDelete.MapMinusUnion | functions/api/event-delete.js:47-50 | deleting batch after batch deletes their union |
| EventDelete.HandleDelete | functions/api/event-delete.js:20-55 | each guard's 400, `deleted: 0` with no change for an empty listing, otherwise exactly the listed keys are removed and their count returned |
| EventDelete.DeleteUnderPrefix | functions/api/event-delete.js:36-50 | the count is the number of listed keys, the batches are their chunks, and exactly those keys leave the bucket |
| EventDelete.DeleteInBatches | functions/api/event-delete.js:46-50 | the loop issues the chunked batches and removes exactly the listed keys |
| EventDelete.ChunksHead | functions/api/event-delete.js:46-50 | the first batch is the first 1000 keys, or all of them |
| EventDelete.DeleteStep | functions/api/event-delete.js:46-50 | deleting one more batch after the earlier ones has deleted the keys up to its end |
| EventDelete.DeletedEventReadsNotFound | functions/api/event-delete.js:36-55 | when the listing reaches every key under the prefix, what a successful delete leaves reads as 404 in `event` |
| EventDelete.ListedKeysUnderPrefix | functions/api/event-delete.js:5-18 | a listing that honours its prefix returns only keys under it |
| EventDelete.OtherManifestOutsidePrefix | functions/api/event-delete.js:35 | another event's manifest key never starts with this event's prefix |
| EventDelete.DeleteKeepsOtherEvents | functions/api/event-delete.js:35-50 | deleting one event leaves every other event's manifest in place |
| EventRead.ReadEvent | functions/api/event.js:5-28 | 400 for a missing or invalid id, 404 for a missing manifest, 500 for a non-JSON one, otherwise the manifest itself |
| EventRead.ReadYourWrite | functions/api/event.js:11-22 | a manifest just written is read back unchanged, and writing one event's manifest does not change another's read |
| EventRead.ReadAfterDelete | functions/api/event.js:11-13 | once every key under the prefix is deleted the event reads as 404 |
| LegacyUpload.DateFolderShape | functions/api/upload.js:16-19 | `yyyy-mm-dd` is ten characters with dashes at 4 and 7 and the padded month and day |
| LegacyUpload.GenKeyShape | functions/api/upload.js:15-23 | the key lies under `uploads/` and its extension is `ext` |
| LegacyUpload.LegacyDesc | functions/api/upload.js:33 | `String(form.get("desc") \|\| "").slice(0, 500)`: at most 500 characters, a prefix of the text, the whole text when short enough |
| LegacyUpload.HandleUpload | functions/api/upload.js:25-60 | each guard's status (400, 400, 400, 413), otherwise the object is put under the generated key with the description as metadata and nothing else changes |
| ImageList.FilterImages | functions/api/list.js:9-13 | exactly the keys with an image extension, case-insensitive, each as often as listed |
| ImageList.LexLeqIsTotalPreorder | functions/api/list.js:14 | the default sort order is a total preorder |
| ImageList.ListImagesSpec | functions/api/list.js:11-14 | the listing is sorted and holds each image key of the page exactly as often as the page lists it, and nothing else |
| ImageServe.ServeImage | functions/api/img.js:1-20 | 400 for a missing key, 404 for an absent object, 304 exactly when the etag is set and matches `If-None-Match`, otherwise the body with its content type or `image/jpeg` |
| Html.Escape | timeline.js:9-17 | the result contains none of `<>"'`; a text without `&` and those characters is unchanged |
| Html.EscapeHtml | timeline.js:10 | `s ?? ""`: a missing value escapes to "" |
| Html.UnescapeHead | timeline.js:11-15 | unescaping one escaped character then the rest gives the character then the rest |
| Html.EscapeRoundTrip | timeline.js:9-17 | decoding the five entities recovers the original text |
| Fnv.FoldFromAppend | timeline.js:88-92 | hashing `a + b` continues from the hash of `a` over `b` |
| Fnv.Fnv1aKnownValues | timeline.js:86-94 | the empty string hashes to the offset basis 2166136261, and "a" to 0xE40C292C |
| Fnv.Hash32 | timeline.js:86-94 | the loop with `Math.imul` and `>>> 0` computes the 32-bit FNV-1a of the string |
| Carousel.JsRem | timeline.js:445 | JavaScript's `%`: Dafny's remainder for a non-negative dividend, in `(-n, 0]` for a negative one |
| Carousel.StepsStayInRange | timeline.js:443-453 | from a valid index both moves stay in range; next wraps the last to 0, prev wraps 0 to the last |
| Carousel.NextPrevInverse | timeline.js:443-453 | next and prev undo each other |
| Carousel.ForwardAdvances | timeline.js:443-447 | before the end, `k` presses of next advance by `k` |
| Carousel.ForwardAdd | timeline.js:443-447 | `a` then `b` presses are `a + b` presses |
| Carousel.FullCircle | timeline.js:443-447 | `n` presses of next return to the start, passing the last photo to the first |
| Mosaic.Swap | timeline.js:110-112 | the two positions exchange their elements, the others stay |
| Mosaic.SwapPermutes | timeline.js:110-112 | a swap is a permutation and keeps elements distinct |
| Mosaic.ShuffleFromPermutes | timeline.js:107-115 | the partial shuffle is a permutation and keeps elements distinct |
| Mosaic.FisherYatesPermutes | timeline.js:107-115 | whatever the random choices, the shuffle is a permutation with the same members and keeps them distinct |
| Mosaic.ShuffleInPlace | timeline.js:107-115 | the in-place loop over the array leaves it equal to the Fisher–Yates shuffle of its old contents |
| Mosaic.Dedup | timeline.js:181 | `Array.from(new Set(keys))`: distinct, same members, no longer |
| Mosaic.UsableKeys | timeline.js:180 | exactly the non-empty string items |
| Mosaic.Desired | timeline.js:175-178 | three to six tiles: three below three photos, the count itself from three to six, three plus the random pick above six |
| Mosaic.ShuffledKeys | timeline.js:179-181 | the shuffled keys are distinct and are exactly the non-empty string sample keys |
| Mosaic.CoverKeysAreSamples | timeline.js:179-195 | the mosaic's images are distinct non-empty sample keys of the event, and its `desired` is three to six |
| Mosaic.CoverTileCount | timeline.js:183-195 | above six photos exactly `desired` tiles, `3 + pick`; one or two photos give exactly three tiles; three to six give at least `count` |
| Timeline.KeyEndsWithSlash | timeline.js:497-498 | the key ends with "/" exactly when the manifest's file is empty or ends with "/" |
| Timeline.GalleryPhotos | timeline.js:493-498 | the filter never adds photos |
| Timeline.Kept | timeline.js:498 | the filter keeps a photo or drops it |
| Timeline.ShownAsKept | timeline.js:498 | the filter keeps an entry exactly when its file is neither empty nor ends with "/" |
| Timeline.GalleryPhotosMembers | timeline.js:493-498 | a photo is shown exactly when some manifest entry maps to it and names a usable file |
| Timeline.GalleryPhotosSnoc | timeline.js:494-498 | one more manifest entry appends at most its own photo |
| Timeline.EntryShown | timeline.js:494-498 | an uploaded entry is shown with its key and description |
| Timeline.UploadedPhotoShownLast | timeline.js:494-498 | after an upload the event view shows the earlier photos and then the new one with its description |
| Timeline.EventMeta | timeline.js:491 | date and note joined by " · ", either alone when the other is empty |
| Timeline.EventTitle | timeline.js:486 | the manifest's title when it is a string, else the event id |
| Timeline.SetContent | timeline.js:422-428 | the index is assigned; the image and caption are the photo's when it exists; an index outside the list throws after the assignment |
| Timeline.Open | timeline.js:430-434 | the lightbox opens and the page stops scrolling only when the content was set |
| Timeline.Close | timeline.js:436-441 | closed, image cleared, scrolling restored, index -1, caption and photos untouched |
| Timeline.LoadEvent | timeline.js:483-501 | the photos, the title and the meta line come from the manifest; the lightbox is untouched |
| Timeline.OpenShows | timeline.js:430-434 | opening on a listed photo shows it and leaves the screen coherent |
| Timeline.NavigationCycles | timeline.js:443-453 | next moves to `(i + 1) mod N`, prev to `(i - 1 + N) mod N`, both show the photo they land on and undo each other |
| Timeline.NavigationIdle | timeline.js:443-453 | with the lightbox closed or no photos, neither move changes anything |
| Timeline.KeysKeepCoherent | timeline.js:475-481 | keys are ignored while closed, Escape closes, and every key keeps the lightbox showing a listed photo |
| Timeline.EventPage.constructor | timeline.js:415-416 | no photos, index -1, lightbox hidden |
| Timeline.EventPage.SetLightboxContent | timeline.js:422-428 | the fields change as `SetContent` says |
| Timeline.EventPage.OpenLightbox | timeline.js:430-434 | the fields change as `Open` says |
| Timeline.EventPage.CloseLightbox | timeline.js:436-441 | the fields change as `Close` says |
| Timeline.EventPage.ShowNextPhoto | timeline.js:443-447 | the fields change as `ShowNext` says |
| Timeline.EventPage.ShowPrevPhoto | timeline.js:449-453 | the fields change as `ShowPrev` says |
| Timeline.EventPage.OnKeyDown | timeline.js:475-481 | the fields change as `KeyDown` says |
| Timeline.EventPage.LoadEventPhotos | timeline.js:483-501 | the fields change as `LoadEvent` says |
| Gallery.Photo.constructor | app.js:40 | a photo with the given key and an empty description |
| Gallery.FetchedDescription | app.js:70-75 | "" for a failed response or a body that is not JSON, the `desc` member when it is a string, else "" |
| Gallery.ListedKeysOf | app.js:33-37 | the listing's keys, item for item in order, whenever `keys` is an array of strings; `[]` for a falsy `keys`; a throw (None) for a failed response, a body that is not JSON, `null` or an array, and for an object whose `keys` is truthy but not an array; `[]` for a boolean, number or string body |
| Gallery.GalleryPage.constructor | app.js:54-55 | no photos, index -1, `lastMetaReqId` 0 |
| Gallery.GalleryPage.LoadList | app.js:33-42 | on success one new, distinct photo per listed key, in order, with an empty description; on a throw the photos are unchanged |
| Gallery.GalleryPage.LoadDescriptionForCurrent | app.js:77-89 | out of range nothing changes; in range the request id goes up by one, then a cached description is shown at once or a request for the current photo is issued |
| Gallery.GalleryPage.CompleteDescription | app.js:90-94 | a response to the latest request is cached in its photo and shown; a stale one changes nothing |
| Gallery.GalleryPage.SetLightboxContent | app.js:61-68 | the index is assigned; the image is the photo's, a new request id is taken, and the caption is the cached description or, with a request issued, empty; an index outside the list throws after the assignment and changes nothing else |
| Gallery.GalleryPage.OpenLightbox | app.js:97-101 | opens only when the content was set |
| Gallery.GalleryPage.CloseLightbox | app.js:103-108 | closed, image cleared, scrolling restored, index -1 |
| Gallery.GalleryPage.ShowNext | app.js:110-114 | when open with photos, sets the content of the next index with wrap-around (image, request id, caption and pending request as `setLightboxContent` leaves them); otherwise nothing changes |
| Gallery.GalleryPage.ShowPrev | app.js:116-120 | when open with photos, sets the content of the previous index with wrap-around, as for `ShowNext`; otherwise nothing changes |
| Gallery.GalleryPage.OnKeyDown | app.js:138-144 | ignored while closed; Escape closes and keeps the caption and request id; an arrow with photos sets the next or previous content and keeps the lightbox open; any other key, or an arrow with no photos, changes nothing |
| BatchUpload.CheckFiles | app.js:193-199 | the batch passes exactly when it has 1 to 30 files and all are images; the empty and the oversized batch get their own refusal |
| BatchUpload.CheckEventFiles | timeline.js:545-552 | a missing event id is refused first, then the same checks |
| BatchUpload.UploadForm | timeline.js:561-564 | the form carries the file, the description and, for an event, its id |
| BatchUpload.BatchForms | timeline.js:558-572 | one form per file, in order |
| BatchUpload.SendAll | timeline.js:558-572 | the forms sent are the batch's first ones, up to and including the first failed response, whose index is reported; all of them, and no index, exactly when none fails |
| BatchUpload.StopsAtFirstFailureUnique | timeline.js:558-572 | the responses decide what is sent: two runs over the same batch and responses send the same forms and stop at the same file |
| BatchUpload.UploadToEvent | timeline.js:540-585 | a refused batch sends nothing; otherwise the trimmed description goes with every file, sending stops at the first failed response, whose index is reported, and every file is sent exactly when none fails |
| BatchUpload.UploadToGallery | app.js:188-233 | the same without an event id |
| BatchUpload.EventFormAccepted | timeline.js:561-566 | a form the page sends for an image within the limit passes every bucket-independent check of `event-upload`, which records the description as the page trimmed it |
| BatchUpload.PassedBatchIsImages | timeline.js:545-564 | after the checks, every form sent carries an image, the event id and the description |

## Left out

- `functions/api/meta.js` is not part of this model. The gallery's description requests are modelled from the client's side only, as the response given to `CompleteDescription`.
- Rendering and decoration in the two pages are not modelled, because they only paint DOM nodes: the timeline rail, the `tileVars` styling, the fireflies, the hover polish, and `renderGallery` / `render`.
- The `mulberry32` generator and the hash-based seeding feed only the mosaic's choices, which are floating point. The integer choices are parameters (`pick`, `picks`) instead.
- `imgUrl` / `encodeURIComponent`: the lightbox's image is modelled as the photo's key (`imageKey`), not as the encoded URL.
- `createDialog`, the edit dialog, `deleteEvent`'s confirmation prompt, `alert`s, the button labels and the page bootstrap (`init`) are user-interface plumbing. Each only calls the handlers modelled here.
- The reload after a successful batch (`loadEvent` / `loadList`) is the separate operations `LoadEventPhotos` and `LoadList`; the sequencing is not modelled.
- Concurrency is not modelled. Handlers run one at a time, so two uploads racing on one manifest (lost update) are not modelled either.
- An I/O failure of either put of `event-upload` is not modelled. The model's only partial write is the `Crash` path where the manifest value cannot take the record after the photo was stored.
- JSON numbers are integers. Floating-point numbers and `JSON.stringify` formatting are not modelled. A stored manifest is a JSON value, and a body that failed to parse is a separate case.
- The bucket's listing is a parameter (`PageSource`) not tied to the bucket's `objects`, because the store's pagination is outside this codebase.
- `createdAt`, `updatedAt` and `uploadedAt` are one clock reading `now` per request, where the source calls `new Date()` separately for each.
- `ImageServe.ServeImage`: the object's etag is a parameter.
- Media.KnownExt: only the five own keys of the extension map are modelled. The inherited `Object.prototype` names that `map[type]` would also find (e.g. a type of `constructor`) are not, because no image MIME type is one.
- Text.Lower: ASCII lower-casing only, where `toLowerCase` is Unicode-aware. Non-ASCII letters are then removed by the slug filter either way, except those whose lower case is ASCII (e.g. the Kelvin sign).
- Text.LexLeqTotal: `sort()` and `localeCompare` are modelled as code-unit order. Locale-specific collation in `events.js` is not modelled.
- Sorting.SortBy: permutation and order are proved. Stability, which `Array.prototype.sort` also guarantees, is not stated.
- Fnv.Hash32: a Dafny `char` stands for one UTF-16 code unit. A string is taken to be its code units, so characters outside the Basic Multilingual Plane are not split into surrogate pairs.
- Gallery.ListedKeysOf: a `keys` array with a non-string item is treated as a throw. The source would build photos with non-string keys.
- The returned `eventId` suffix can have fewer than six hex digits: `slice(2, 8)` of `Math.random().toString(16)` is shorter when the rendering has fewer digits, and `Text.RandomHex` follows that.
