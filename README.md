# HairGrowth photo journal — a Dafny model of the photo collection

The HairGrowth tracker is a single-page client. Its `App` component keeps, in
component state, an ordered list of hair photos. It also keeps an `uploading`
flag, the photo picked for the detail dialog, and whether that dialog is open.

The user can:

- drop or select image files, which prepends one entry per file, newest batch first;
- delete a photo by id;
- start a simulated upload, which after a delay marks every photo as uploaded;
- clear the collection;
- open a photo in a dialog, and close the dialog.

A progress panel shows the total count, the uploaded count and a completion percentage.

This project models that component. It has two modules:

- `Photos` (`Photos.dfy`) is the value layer. It holds the `Photo` record
  (`HairPhoto`), the pure list transforms the handlers hand to the state setters
  (array spread, `.filter`, `.map`), and the statistics.
- `Journal` (`Journal.dfy`) is the state layer. The class `PhotoJournal` has one
  field per `useState` slot and one method per handler. Each method's `ensures`
  gives the new value of every field in terms of the old state, using the
  functions of `Photos`. The facts the source promises are proved as lemmas about
  those functions.

Modelling choices:

- The photo id, the `File`, the object-URL preview and the `Date` are opaque types.
  For each dropped file the caller supplies a `Minted` value: the random id, the
  preview URL and the clock reading the browser would produce.
- The upload handler awaits a timer between its two state updates. It is split
  into `BeginUpload` and `CompleteUpload`. A drop, a file selection, a delete, a
  view or closing the dialog may run between them; Upload All and Clear All are
  hidden while uploading. The completion maps over the photos as they are at
  completion time, like the `prev` of the source's functional state update. So
  photos dropped during the delay are marked as well (`DropDuringUploadIsMarked`,
  `UploadWithDropDuringDelay`).
- The Upload All and Clear All buttons are only rendered when there is a photo
  and nothing is uploading (line 183). This condition is `ActionsEnabled()`, and it is the precondition of `BeginUpload` and
  `ClearAll`. `CompleteUpload` requires `uploading`: it only runs as the
  continuation of a begun upload, and no other handler lowers the flag.
- The percentage uses exact integer arithmetic with halves rounded up, like
  `Math.round`: `(200·u + n) / (2·n)` for `n > 0` photos of which `u` are uploaded.
  Whole-number arithmetic preserves one behaviour of the source: from 200 photos
  on, one pending photo still shows 100% (`CompletionFullWithOnePending`). The
  exact statement is that the display reads 100 iff `200·u >= 199·n`. It reads 100
  exactly when all photos are uploaded only below 200 photos
  (`CompletionFullIffAllUploaded`).

Facts about the code that the model keeps:

- The upload handler has no re-entrancy check of its own; only the hidden
  buttons (line 183) prevent a second upload.
- The view handler stores the record it is given, with no lookup by id.
  Deleting that photo does not clear the selection.
- Ids are random strings and are never checked for uniqueness. The model does
  not assume uniqueness. `AddedKeepsIdsUnique` and `WithoutIdKeepsIdsUnique`
  show it is preserved when the minted ids are fresh. `DeleteSoleIdRemovesOne`
  shows that a delete then removes exactly one photo.
- An uploaded photo never becomes pending again: `FlagsNeverRevert` holds across
  a completed upload, across a delete (with unique ids) and across a drop (with
  unique, fresh ids).

## Model

| member | source | states |
|---|---|---|
| `Photos.NewEntries` | frontend/src/App.tsx:50-56 | builds each entry with `FreshEntry` (the object literal of lines 50-55): one entry per dropped file, in input order; entry i carries file i and the id, preview and date minted for it, has no notes and is not uploaded |
| `Photos.Added` | frontend/src/App.tsx:49-58 | after a drop the length grows by the batch size, the new entries come first in input order, every earlier entry follows unchanged and in its old order, and an empty batch changes nothing |
| `Photos.NewEntriesAppend` | frontend/src/App.tsx:50-56 | building the entries of two file lists one after the other equals building them for the concatenated list |
| `Photos.AddedTwice` | frontend/src/App.tsx:58 | two drops equal one drop of the later batch followed by the earlier batch (newest batch first, each batch in its own order); the length is the sum of the batch sizes plus the old length |
| `Photos.WithoutId` | frontend/src/App.tsx:93-95 | deleting never lengthens the list, and an entry survives exactly when it was present and its id differs from the deleted id |
| `Photos.WithoutIdMultiplicity` | frontend/src/App.tsx:94 | entries with the deleted id disappear completely; every other entry keeps its number of occurrences |
| `Photos.WithoutIdAppend` | frontend/src/App.tsx:94 | deleting distributes over concatenation, so the surviving entries keep their relative order |
| `Photos.WithoutAbsentId` | frontend/src/App.tsx:93-95 | deleting an id that no entry carries leaves the list unchanged |
| `Photos.WithoutIdIdempotent` | frontend/src/App.tsx:93-95 | deleting the same id twice equals deleting it once |
| `Photos.DeleteSoleIdRemovesOne` | frontend/src/App.tsx:93-95 | when no other entry shares entry i's id, deleting that id removes entry i and keeps everything before and after it in order |
| `Photos.AddedKeepsIdsUnique` | frontend/src/App.tsx:49-58 | if the ids are unique and the minted ids are pairwise distinct and new, the ids stay unique after a drop |
| `Photos.WithoutIdKeepsIdsUnique` | frontend/src/App.tsx:94 | deleting keeps unique ids unique |
| `Photos.MarkAllUploaded` | frontend/src/App.tsx:89 | same length; every entry is the entry at the same position of the old list with `uploaded` set and all other fields (id, file, preview, date, notes) unchanged |
| `Photos.UploadedCount` | frontend/src/App.tsx:291 | the uploaded count is at most the total; it equals the total iff every entry is uploaded and is 0 iff none is |
| `Photos.UploadedCountAppend` | frontend/src/App.tsx:291 | the uploaded count of a concatenation is the sum of the counts of its parts |
| `Photos.AddedUploadedCount` | frontend/src/App.tsx:49-58 | a drop leaves the uploaded count unchanged, since new entries are pending |
| `Photos.WithoutIdUploadedCount` | frontend/src/App.tsx:94 | a delete raises neither the uploaded count nor the pending count |
| `Photos.DeleteSoleIdFromUploaded` | frontend/src/App.tsx:93-95 | deleting an unshared id from a fully uploaded list leaves one photo fewer, all uploaded |
| `Photos.MarkAllUploadedNeverReverts` | frontend/src/App.tsx:89 | completing an upload never turns an uploaded photo back to pending |
| `Photos.WithoutIdNeverReverts` | frontend/src/App.tsx:94 | with unique ids, a delete keeps the uploaded flag of every surviving photo |
| `Photos.AddedNeverReverts` | frontend/src/App.tsx:49-58 | with unique ids and fresh minted ids, a drop keeps the uploaded flag of every earlier photo |
| `Photos.WithoutIdKeepsAllUploaded` | frontend/src/App.tsx:94 | deleting from a fully uploaded list leaves it fully uploaded |
| `Photos.RoundedPercent` | frontend/src/App.tsx:301 | the rounded percentage lies in [0, 100]; it is 100 iff 200·u >= 199·n and 0 iff 200·u < n |
| `Photos.RoundedPercentIsNearest` | frontend/src/App.tsx:301 | the result r satisfies r - 1/2 <= 100·u/n < r + 1/2, i.e. it is `Math.round` of the percentage |
| `Photos.Completion` | frontend/src/App.tsx:301 | the completion lies in [0, 100]; it is 0 for an empty collection and when nothing is uploaded; it is 100 for a non-empty, fully uploaded one; otherwise it is 100 iff 200·uploaded >= 199·total |
| `Photos.CompletionIsNearestPercent` | frontend/src/App.tsx:301 | for a non-empty collection the completion is the uploaded share rounded to the nearest percent, halves up |
| `Photos.CompletionFullIffAllUploaded` | frontend/src/App.tsx:301 | below 200 photos the completion is 100 exactly when the collection is non-empty and every photo is uploaded |
| `Photos.CompletionFullWithOnePending` | frontend/src/App.tsx:301 | from 200 photos on, a collection with exactly one pending photo still shows 100 |
| `Photos.MarkAllUploadedStats` | frontend/src/App.tsx:89 | after an upload completes, the uploaded count equals the total and a non-empty collection shows 100 |
| `Journal.PhotoJournal.constructor` | frontend/src/App.tsx:43-46 | the initial state: no photos, not uploading, nothing selected, dialog closed |
| `Journal.PhotoJournal.ActionsEnabled` | frontend/src/App.tsx:183 | Upload All and Clear All are shown exactly when there is a photo and no upload is pending |
| `Journal.PhotoJournal.Stats` | frontend/src/App.tsx:281-301 | the panel shows the photo count, an uploaded count no larger than it, and a completion in [0, 100] that is 0 when empty or nothing is uploaded and 100 when the collection is non-empty and all are uploaded |
| `Journal.PhotoJournal.Drop` | frontend/src/App.tsx:49-59 | the photos become the drop of the given files onto the old photos; the flag, the selection and the dialog are unchanged |
| `Journal.PhotoJournal.BeginUpload` | frontend/src/App.tsx:84-87 | callable only when the upload button is shown (line 183: photos present, not uploading); raises `uploading` and leaves the photos, selection and dialog unchanged |
| `Journal.PhotoJournal.CompleteUpload` | frontend/src/App.tsx:89-90 | marks as uploaded the photos present at completion time, then lowers `uploading`; the selection and dialog are unchanged |
| `Journal.PhotoJournal.Delete` | frontend/src/App.tsx:93-95 | the photos become the old photos without that id; the flag, the selection and the dialog are unchanged |
| `Journal.PhotoJournal.ClearAll` | frontend/src/App.tsx:197 | callable only when the button is shown (line 183); the photos become empty and nothing else changes |
| `Journal.PhotoJournal.ViewPhoto` | frontend/src/App.tsx:97-100 | selects the photo and opens the dialog; the photos and the flag are unchanged |
| `Journal.PhotoJournal.CloseDialog` | frontend/src/App.tsx:315-338 | both the dialog's `onClose` (line 315) and its Close button (line 338) close the dialog and keep the selection, photos and flag |
| `Journal.DropDuringUploadIsMarked` | frontend/src/App.tsx:84-91 | a drop that lands while an upload is pending is marked by the completion too: every entry ends up uploaded |
| `Journal.UploadWithDropDuringDelay` | frontend/src/App.tsx:84-91 | beginning an upload, dropping files during the delay and completing leaves every photo uploaded, the flag lowered, and the length grown by the batch size |
| `Journal.DropAfterUploadIsPending` | frontend/src/App.tsx:49-58 | photos dropped after a completed upload stay pending, and the uploaded count stays at the number of earlier photos |
| `Journal.Walkthrough` | frontend/src/App.tsx:49-95 | drop three photos: 3 photos, 0 uploaded, 0%; upload: 3, 3, 100%; delete one: 2, 2, 100% |

## Left out

- The backend (`backend/src/index.ts`) is not part of this model: it registers middleware, a health route that returns a fixed status with the current time, and a constant welcome route, and it listens on a port read from the environment. All of this is network and clock I/O, and none of it touches the photo state.
- All rendering and layout, the empty-state panel and the dialog markup are left out. Only the state changes they trigger are modelled: the enabling condition of line 183 and closing the dialog.
- `URL.createObjectURL`, the browser `File` and the dropzone's accept filter are foreign calls: the file and the preview are opaque values supplied by the caller.
- Id generation with `Math.random` is left out: ids are passed in, and their uniqueness is not assumed.
- The 2000 ms timer and `async`/`await` are left out: the upload is two steps, with no timing and no cancellation (the source has none).
- The hidden file input's click and reset plumbing is left out: it only forwards the selected files to the drop handler, which is modelled.
- Date formatting with `toLocaleDateString` is locale-library formatting and is left out.
- Object URLs are never revoked by the source, so no release of previews is modelled.
- No handler ever sets `notes`; it exists in the record and is always absent.
- Completion, RoundedPercent: use exact rational rounding (halves up) in place of `Math.round` over an IEEE double quotient; a quotient that is an exact half in rational arithmetic can fall just below it as a double: with 29 of 200 photos uploaded, `(29/200)*100` evaluates to 14.499999999999998, so the browser shows 14 where the model gives 15 (likewise 23 of 40: 57 against 58). The 100% and 0% thresholds agree with the browser.
