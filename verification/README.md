# Prospect dashboard: form logic, local list and store lookups

A Dafny model of the pure logic inside a small prospect-management
dashboard. Prospects are people a sales team follows (name, email, phone,
city, watched sector), and sectors are the categories they watch. The model
covers three parts:

- **The add and update forms** (`public/script/modals.js`):
  - the two format checks `validateEmail` and `validatePhone`;
  - what `handleAddSubmit` flags or sends, with the phone rewritten as
    `"+33"` followed by its digits;
  - how `openUpdateModal` fills the update form from a stored prospect,
    showing the phone without its `"+33"`;
  - how `handleUpdateSubmit` builds its "changed fields only" patch, checks
    only the fields in it, and either sends it, sends nothing because nothing
    changed, or is blocked.
- **The browser's local prospect list** (`src/script/data.js`): `push`, the
  index-based shallow merge `{ ...old, ...patch }`, and `splice(index, 1)`
  with JavaScript's negative-index rule.
- **The server's read accessors** (`src/utils/prospectsCRUD.js`,
  `src/utils/sectorsCRUD.js`): "get all", and "get by id", which returns the
  first record whose `id` is strictly equal to the parsed id.

Values follow JavaScript. A field value is a string or a number (`Value`).
`undefined` and `null` are a missing key. Truthiness, `|| ""`, `?? ""` and
`String(v)` are written out in `Values`. Comparisons are strict, so a form
string never equals a stored number. `\s` and `trim` use the ECMAScript
white-space and line-terminator code points, and `\d` means the ASCII
digits. A string `replace` replaces the first occurrence only.

Some behaviour of the code follows from the model and is proved:

- **Unedited form sends nothing.** A prospect that stores no field as a
  number, whose strings have no white space at either end, and whose phone
  is `"+33"` with no white space, can be reopened and submitted untouched
  with nothing sent
  (`Modals.UneditedFormNoChange`), and only such a prospect can
  (`Modals.OpenFormUnedited`). A prospect stored exactly as the add form sent
  it is such a prospect (`Modals.AddedProspectReopensUnchanged`).
- **A created prospect always looks edited.** The server's create route
  stores `sectorWatchedId` as the number `parseInt` makes of the text sent
  (`src/apiRoutes.js:74`). Such a prospect never reopens unchanged: an
  untouched update always sends it again (`Modals.CreatedProspectLooksEdited`).
- **Numbers always look edited.** A field stored as a number is sent again,
  as a string, on every update (`Modals.StoredNumberAlwaysSent`).
- **A phone without "+33" cannot be resubmitted.** If the stored phone does
  not start with `"+33"`, submitting the update form untouched is always
  blocked on the phone (`Modals.UnprefixedPhoneBlocks`).

Where the design intent and the code differ, the model follows the code:

- **Unreadable store.** `getProspectById` and `getSectorById` throw when the
  store cannot be read, because the code reads `null.prospects`. They do not
  return an error value. The model returns `Failure`.
- **Phone format.** The browser form rejects a phone written with its
  leading `0` (such as `"06 12 34 56 78"`). The form wants the nine digits
  that follow the `0`.

Modules, one per file:

- `Wrappers`: `Option` and `Result`.
- `Text`: the JavaScript string built-ins the forms use.
- `Values`: JSON values and JavaScript coercions.
- `Validation`: `validateEmail` and `validatePhone`.
- `Modals`: the forms.
- `ProspectList`: `src/script/data.js`.
- `Store`: parsed documents and the search by id.
- `ProspectsCrud` and `SectorsCrud`: the accessors.

## Model

| member | source | states |
|---|---|---|
| Validation.EmailMatchesPattern | public/script/modals.js:11-13 | the split-at-first-`@` test accepts exactly the strings of the form run `@` run `.` run, each run a non-empty string of characters that are neither white space nor `@` |
| Validation.EmailCharacterization | public/script/modals.js:11-13 | an email is accepted iff it has no white space and exactly one `@`, has something before it, and has a `.` after it that is neither the first nor the last character of the domain |
| Validation.ValidatePhoneSpec | public/script/modals.js:15-18 | a phone is accepted iff its non-white-space characters, in order, are exactly nine ASCII digits starting with 6 or 7 |
| Validation.ValidatePhoneIgnoresSpaces | public/script/modals.js:16 | where white space sits in the input never changes the verdict |
| Validation.TrunkPrefixRejected | public/script/modals.js:17 | a number written with its leading trunk `0` is rejected |
| Text.StripSpacesNoSpace | public/script/modals.js:16 | `replace(/\s/g, '')` leaves no white space |
| Text.StripSpacesKeeps | public/script/modals.js:16 | every character that is not white space survives as often as it occurs |
| Text.StripSpacesAppend | public/script/modals.js:96 | removing white space keeps the order of the rest: it distributes over concatenation |
| Text.TrimSpec | public/script/modals.js:60 | `trim` keeps one slice of the input, drops only white space outside it, and leaves no white space at either end |
| Text.TrimEmpty | public/script/modals.js:67 | a trimmed entry is empty iff the entry is all white space |
| Text.ReplaceFirst | public/script/modals.js:204 | a string pattern replaces only its first occurrence; with no occurrence the string is unchanged |
| Text.IntToDecimal | public/script/modals.js:121 | a stored integer is shown as its decimal digits, which read back as its magnitude, with a leading `-` when negative, no white space and no leading zero, so the text is the single canonical spelling |
| Modals.AddFlagged | public/script/modals.js:66-90 | a field is flagged iff it is checked (every field but `city`) and its trimmed entry fails its check, so all failing fields are flagged |
| Modals.SubmitAdd | public/script/modals.js:59-96 | the add form sends iff every checked field passes; otherwise it is blocked with a non-empty flag list; it sends every field trimmed, the phone as `"+33"` plus its digits, a 12-character stored phone |
| Modals.ValidPhoneIsStored | public/script/modals.js:82-96 | an accepted phone entry becomes `"+33"` plus nine digits starting with 6 or 7 |
| Modals.PhoneFieldOnOpen | public/script/modals.js:125 | the update form shows the stored phone minus its leading `"+33"`, which put back gives the stored phone, and shows nothing for a phone without it; a stored phone that is not a string throws |
| Modals.OpenFormUnedited | public/script/modals.js:120-125 | an untouched control reads as unedited iff the form shows the stored value as it is: missing or a string with no white space at either end, and for the phone a `"+33"` string with no white space; a stored number always reads as edited |
| Modals.CollectChangesSpec | public/script/modals.js:158-175 | the loop adds exactly the edited fields with their new values, keeps everything else in the patch, and raises the flag iff it added a field |
| Modals.DiffKeys | public/script/modals.js:154-175 | the patch holds `id`, with the prospect's value, and exactly the edited fields |
| Modals.DiffValues | public/script/modals.js:164-173 | every edited field is in the patch with its new value: the trimmed entry, or the phone in its `"+33"` form |
| Modals.DiffFlag | public/script/modals.js:155-175 | `hasChanges` is raised iff some field was edited |
| Modals.UpdateFlagged | public/script/modals.js:177-222 | a field is flagged iff it is checked, edited, and its new value fails the add form's check; unedited fields are never checked |
| Modals.SubmitUpdate | public/script/modals.js:154-239 | nothing is sent iff no field was edited; blocked iff some edited field fails; otherwise the body holds `id` and the new value of exactly the edited fields |
| Modals.PhoneReformatPreserves | public/script/modals.js:203-211 | putting `"+33"` back in front of a phone that starts with it, once its first `"+33"` is removed, gives the phone back |
| Modals.ReformatKeeps | public/script/modals.js:209-210 | the reformatting step leaves a patch whose phone starts with `"+33"` unchanged |
| Modals.PhoneRoundTrip | public/script/modals.js:162-169 | a stored `"+33"` phone with no white space, shown on open and re-prefixed on submit, equals the stored phone |
| Modals.UneditedFormNoChange | public/script/modals.js:120-175 | an untouched update form over a prospect shown as stored sends nothing |
| Modals.StoredNumberAlwaysSent | public/script/modals.js:171 | a field stored as a number always counts as edited, and is sent as its decimal string |
| Modals.EmptyPhoneBlocks | public/script/modals.js:203-207 | an empty phone entry blocks the update with the phone flagged, unless the stored phone is exactly `"+33"` |
| Modals.UnprefixedPhoneBlocks | public/script/modals.js:125 | a stored phone without `"+33"` opens as an empty control, and an untouched submit is blocked on the phone |
| Modals.AddedProspectReopensUnchanged | public/script/modals.js:95-96 | a prospect stored exactly as the add form sent it reopens unchanged: an untouched update sends nothing |
| Modals.CreatedProspectLooksEdited | src/apiRoutes.js:73-74 | a prospect the add form created, stored with `sectorWatchedId` as a number, reads as edited on `sectorWatchedId`, so an untouched update of it is never "nothing changed" |
| ProspectList.Merge | src/script/data.js:21 | the spread merge has every key of either object, the patch's value where the patch has the key, the old value elsewhere |
| ProspectList.AddProspect | src/script/data.js:14-16 | push grows the list by one at the end and keeps every earlier element |
| ProspectList.UpdateProspect | src/script/data.js:19-22 | at an index naming an element, that element becomes the merge and every other element and the length are kept; any other index changes nothing |
| ProspectList.DeleteProspect | src/script/data.js:26-28 | at an index naming an element, exactly that element is removed and the rest keep their order; an index at or past the end changes nothing |
| ProspectList.DeleteNegativeIndex | src/script/data.js:27 | a negative index counts from the end, and one reaching before the start deletes the first element |
| ProspectList.DeleteRemovesOne | src/script/data.js:27 | a delete at an index below the length removes one occurrence of the element at the splice start from the list's contents |
| ProspectList.DeleteUndoesAdd | src/script/data.js:14-28 | deleting the element just pushed, by its position or as `-1`, gives the list back |
| ProspectList.UpdateIdempotent | src/script/data.js:19-22 | a patch applied twice is applied once |
| ProspectList.UpdateEmptyPatch | src/script/data.js:19-22 | an empty patch changes nothing |
| ProspectList.UpdatesCompose | src/script/data.js:19-22 | two updates of one element equal one update with the patches merged, the second winning |
| ProspectList.DeleteAfterUpdate | src/script/data.js:19-28 | updating an element and then deleting it equals deleting it |
| Store.ListIn | src/utils/prospectsCRUD.js:9-11 | the list is present iff the document was read and has the member, and is then that member as stored |
| Store.FindById | src/utils/prospectsCRUD.js:27 | the position found is the first whose `id` is strictly the number; none is found iff no record carries it |
| Store.Find | src/utils/sectorsCRUD.js:26 | `find` gives a record iff one carries the id, and then the first such record |
| Store.FindUnique | src/utils/prospectsCRUD.js:27-31 | with unique ids in the list, the record found is the one carrying the id |
| Store.FindAfterAppend | src/utils/prospectsCRUD.js:27 | after appending a record, earlier matches are found as before, and the new record only when no earlier one matches |
| ProspectsCrud.GetAllProspects | src/utils/prospectsCRUD.js:8-16 | the `prospects` array as stored when the document was read, `null` when it was not |
| ProspectsCrud.GetProspectById | src/utils/prospectsCRUD.js:18-33 | a non-numeric id gives `null` whatever the store holds; an unreadable store throws; otherwise the first prospect carrying the id, or `null` iff none does |
| ProspectsCrud.FoundProspectIsListed | src/utils/prospectsCRUD.js:27-31 | a prospect found by id is one of the listed prospects and carries that id |
| SectorsCrud.GetAllSectors | src/utils/sectorsCRUD.js:6-14 | the `sectors` array as stored when the document was read, `null` when it was not |
| SectorsCrud.GetSectorById | src/utils/sectorsCRUD.js:17-31 | a non-numeric id gives `null` whatever the store holds; an unreadable store throws; otherwise the first sector carrying the id, or `null` iff none does |
| SectorsCrud.FoundSectorIsListed | src/utils/sectorsCRUD.js:26-29 | a sector found by id is one of the listed sectors and carries that id |

## Left out

- DOM work is reduced to data:
  - the red borders, `setCustomValidity` and `reportValidity` are the list of flagged fields;
  - the input listeners and the show/hide of modals are not modelled;
  - the form is the text of each control.
- The requests sent by the forms (`public/script/data.js`: `fetch` and promises) are not modelled. A submit handler's result is the body it would send. The `.then`/`.catch` handling, `alert` and console logging are not modelled either.
- The guards of `handleUpdateSubmit` that return early are not modelled: no current prospect, or one no longer in the list (`public/script/modals.js:144-148`). The `prospects.find` in `openUpdateModal` (lines 116-117) is not modelled either. The model takes the prospect that was found.
- Order of the update form's controls:
  - The handlers visit the controls in the order `lastName`, `firstName`, `email`, `phone`, `city`, `sectorWatchedId`.
  - That order only decides the key order of the JSON body, which a map does not keep.
  - `ui.js` is not part of this model.
- The form shows a value as `String(v)` for strings and numbers only.
  - Booleans, objects and arrays stored in a prospect are not modelled.
  - A `<select>` given a value none of its options carries is not modelled. The browser then deselects every option and the control reads `""`. An untouched update would send `sectorWatchedId: ""` and be blocked with "Sector is required." The model instead reads the control as the text of the value it was given.
- Strings are sequences of Unicode scalar values, not UTF-16 code units. All white space and the characters the checks look at are single code units, so no verdict changes.
- `readJsonFile` (file read and `JSON.parse`) is an input: the parsed document, or `None` for its `null`.
  - A list member that is not an array is not modelled.
  - Nor is a list element that is `null`, where the search callback would throw.
  - A missing list member (`undefined`) and an unreadable file (`null`) are both `None` for the "get all" accessors.
- `parseInt` is an input: its result, with `None` for `NaN`.
- Numbers are unbounded integers, not double-precision numbers. This holds for identifiers and for stored field values alike.
  - A stored number with a fractional part is not modelled.
  - Neither is the exponent form `String(n)` gives when |n| is at least 10^21.
- ProspectList.Merge: a patch property that holds `null` or `undefined` is not modelled. The spread copies such a property over the old value, but a missing key keeps the old value. The only caller builds its patches from trimmed form strings (`src/script/modals.js:54-58`).
- A record with two spellings of one property is not modelled. A JSON property named `id` or like a form field is always read as `Id` or `Of`, never as `Other`.
- The lookups are pure functions of the document, so they cannot modify the store. No separate statement says so.
- Apart from the create route's `parseInt` of `sectorWatchedId`, which `Modals.CreatedProspectLooksEdited` takes as given, the Express routes and the server's write paths are not modelled (`src/apiRoutes.js`, `src/script/server.js`, `src/server.js`).
  - They call `createProspect`, `updateProspectById`, `deleteProspectById` and `analyseAndSanitizeProspect`.
  - `src/utils/prospectsCRUD.js` does not define those functions; it exports only the two accessors.
  - Their id rule is not modelled: the last element's id plus one, which throws on an empty list.
- The module-level caches of `public/script/main.js` and the DOM-only files (`table.js`, `ui.js`, `events.js`, `popups.js`, `utils.js`, `src/script/modals.js`) are not part of this model.
- Text.StripSpaces: its contract states only that the result is no longer than the input. What it keeps and removes is stated by `StripSpacesNoSpace`, `StripSpacesKeeps`, `StripSpacesAppend` and `StripSpacesOfNoSpace`.
- Text.Trim: its contract states only that the result is no longer than the input. Its meaning is stated by `TrimSpec`, `TrimOfTrimmed` and `TrimEmpty`.
