# Diário de Bordo photo logbook: a Dafny model of the photo and PDF core

The application is a browser form. A teacher enters a class ("turma"), a
list of student names and up to six photos, and the page builds a PDF
logbook. This project models the logic in `app.js` that decides which
uploaded photos are kept, how big each one is stored, where each one is
drawn in the PDF, and what the file is called. All of it is proved in Dafny.

Modules, one per component:

- `Config` (`config.dfy`): the `CONFIG` constants. These are the 6-photo cap, the 10-field student cap, the MIME whitelist, the 10 MiB size cap and the 800 x 600 bounding box.
- `ImageSizing` (`image_sizing.dfy`): the dimension arithmetic of `compressImage`, over `real`.
- `PhotoLayout` (`photo_layout.dfy`): `addPhotosToPDF`. The loop is an imperative method that returns the `addImage` rectangles (with their page index and photo position) and the number of `addPage` calls. It is proved against a recursive description of the row cursor. Lemmas about that description establish the page-break properties.
- `Admission` (`admission.dfy`): `processFiles` is described as a recursive function over the batch. `ProcessIsCappedFilter` relates it to an independent description: the acceptable files, cut to the free room.
- `FormText` (`form_text.dfy`): JavaScript's `trim`, `getStudentNames` (trim, drop empty names, join with ", ") and `validateForm`.
- `PdfFileName` (`pdf_file_name.dfy`): `generatePdfFileName`, with `String(n)`, `padStart(2, '0')`, `substring(0, 20)` and the `[^a-zA-Z0-9]` replacement.
- `Session` (`session.dfy`): the module-level state (`selectedPhotos`, `generatedPdfBlob`, `shareLink`) and the two form fields it reads, as a class. Its methods are `processFiles` (a `while` loop with `break`), `removePhoto`, `addStudentField`, `generatePDF` and `clearForm`.

Outside inputs become parameters:

- the result of decoding each file, with its natural size and the id stamped on it;
- the calendar date;
- the page height.

The call site uses a 20 mm left margin and starts the photos at y = 90 (`PhotoArea`).

Two facts about the code that shape the model:

- Every photo is drawn stretched to its full 85-wide cell (app.js:435). There is no centring or aspect fitting inside the cell.
- Photo records keep the real-valued scaled dimensions (app.js:299-300). Only the canvas truncates them (app.js:288-289).

One behaviour worth knowing: the page-break test runs after every completed row, including the last one. On an A4 page (297 mm), two photos therefore leave an empty trailing page in the document (`TwoPhotosAddEmptyPage`). Four, five and six photos do not: their last page holds photos (`FourPhotosTwoPages`, `FivePhotos`, `SixPhotos`). Likewise `generatePDF` does not clear `shareLink`, so a link from an earlier upload survives a regeneration; `GeneratePdf` keeps it unchanged.

## Model

| member | source | states |
|---|---|---|
| ImageSizing.Ratio | app.js:282-283 | the scale factor is strictly between 0 and 1, no larger than either side's ratio, and equal to one of them (a zero side's infinite ratio is never chosen) |
| ImageSizing.Resize | app.js:279-286 | within 800 x 600 the size is unchanged; otherwise the result fits 800 x 600, never grows, keeps the aspect ratio exactly, meets at least one bound exactly, and keeps positive sides positive |
| ImageSizing.ScaledWithinBox | app.js:282-286 | multiplying both sides by the ratio lands inside the box, meets one bound, does not enlarge and keeps proportions |
| ImageSizing.ResizeIdempotent | app.js:279-286 | resizing an already resized image changes nothing |
| PhotoLayout.TierFor | app.js:423-424 | up to 4 photos use 110-high cells 10 apart and more use 76.5-high cells 5 apart; `AddPhotosToPdf`'s layout predicate states these values for every cell |
| PhotoLayout.NextRow | app.js:439-449 | after a completed row the cursor stays on the page, dropping by cell height plus spacing, exactly when the next row fits above pageHeight - 20; otherwise it moves to the next page at y = 20 |
| PhotoLayout.RowCursor | app.js:426-449 | the cursor after k completed rows is on page at most k; `PagesNondecreasing`, `RowAfterFirstFits`, `FirstPageRows` and `RowsCompose` below give its page and y |
| PhotoLayout.AddPhotosToPdf | app.js:420-459 | exactly one 85-wide cell per photo, in photo order, 110 high for up to 4 photos and 76.5 high otherwise; even positions in the left column at startX and odd positions at startX + 85 + spacing, spacing being 10 for up to 4 photos and 5 otherwise; each row's page and y given by the row cursor; the number of added pages equals the page of the cursor after the last completed row |
| PhotoLayout.NoPhotosNoLayout | app.js:430 | zero photos give no cell and no page break |
| PhotoLayout.PagesNondecreasing | app.js:439-449 | page indices never decrease from row to row and grow by at most one per row |
| PhotoLayout.RowAfterFirstFits | app.js:446-449 | every row after the first either opens a fresh page at y = 20 or ends above pageHeight - 20 |
| PhotoLayout.FirstPageRows | app.js:426-449 | while rows keep fitting, row k stays on the first page at startY + k * (cell height + spacing) |
| PhotoLayout.RowsCompose | app.js:439-449 | laying out a + b rows equals laying out a rows and then b more from where they ended |
| PhotoLayout.TrailingPage | app.js:439-449 | the last completed row adds a page exactly when another row would cross pageHeight - 20 |
| PhotoLayout.TrailingPageEmpty | app.js:430-449 | with an even photo count, a page added after the last row holds none of the photos, so it is left empty |
| PhotoLayout.TwoPhotosAddEmptyPage | app.js:396 | with margin 20, startY 90 and A4, two photos share page 0 and the check after their row still adds a second page |
| PhotoLayout.FourPhotosTwoPages | app.js:396 | four photos on A4: one row on each of two pages, rows at y = 90 and y = 20 |
| PhotoLayout.FivePhotos | app.js:396 | five photos on A4: two small-tier rows on page 0, the fifth photo alone at the top of page 1 |
| PhotoLayout.SixPhotos | app.js:396 | six photos on A4: two rows on page 0, one on page 1, and the cursor ends on page 1, so no empty page is added |
| Admission.Process | app.js:240-264 | a batch adds at most one photo per file and gives at most one notice per file, and at least one for a non-empty batch; `ProcessIsCappedFilter` gives the exact result |
| Admission.Compress | app.js:279-301 | the photo record keeps the decode's id and the file name and has dimensions inside 800 x 600, no larger than the natural size, in the same proportion |
| Admission.Classify | app.js:247-263 | a file is accepted iff its type is whitelisted, its size is at most 10485760 and it decodes; otherwise it is rejected for the first failing check, in the order type, size, decode |
| Admission.ProcessStep | app.js:241-264 | while there is room, one iteration examines the first file, appends its photo if accepted and records its notice |
| Admission.ProcessIsCappedFilter | app.js:240-264 | the collection after a batch is the old collection followed by the acceptable files' photos in batch order, cut to the room left under the 6-photo cap |
| Admission.ProcessKeepsExisting | app.js:259 | photos already held stay first and unchanged |
| Admission.ProcessRespectsCap | app.js:242-245 | a batch never takes the collection past 6 photos |
| Admission.ProcessAdmitsAllWhenRoom | app.js:247-263 | when everything fits, every acceptable file is admitted in order and rejected files are skipped |
| Admission.FullCollectionStops | app.js:242-245 | a full collection stops the batch at once: no file is examined and a single cap notice is shown |
| Admission.AcceptableFromFiles | app.js:247-263 | every admitted photo comes from a file of the batch that passed all checks |
| Admission.NoticesFollowFiles | app.js:241-264 | one notice per examined file, in file order; every file is examined unless the cap notice ends the list, and that notice comes only when the collection is full |
| Admission.ExactlyTenMegabytesAccepted | app.js:252-255 | a file of exactly 10485760 bytes is accepted, one byte more is too large, and image/gif is an invalid type |
| FormText.Trim | app.js:698 | trimming never lengthens a string (its content is stated by the lemmas below) |
| FormText.TrimStartSpec | app.js:704 | TrimStart removes exactly a whitespace prefix and stops at a non-whitespace character |
| FormText.TrimEndSpec | app.js:704 | TrimEnd removes exactly a whitespace suffix and stops at a non-whitespace character |
| FormText.TrimSpec | app.js:704 | a trimmed string is empty or starts and ends with non-whitespace |
| FormText.TrimIsSlice | app.js:704 | the trimmed string is a slice of the input with only whitespace around it |
| FormText.TrimEmptyIff | app.js:704-705 | trimming gives the empty string iff the input is all whitespace |
| FormText.TrimIdempotent | app.js:704 | trimming twice equals trimming once |
| FormText.NonEmptyNames | app.js:703-705 | the map/filter keeps at most one name per field; `NonEmptyNamesOne` and `NonEmptyNamesAppend` below fix which names and in what order |
| FormText.NonEmptyNamesTrimmed | app.js:703-705 | each kept name is non-empty and already trimmed |
| FormText.NonEmptyNamesAppend | app.js:703-705 | names are kept in field order: the kept names of two field groups are the two lists concatenated |
| FormText.NonEmptyNamesOne | app.js:704-705 | a single field yields its trimmed value, or nothing when it is all whitespace; with `NonEmptyNamesAppend` this determines the kept names of any field list |
| FormText.NonEmptyNamesEmptyIff | app.js:703-705 | no name is kept iff every field is blank |
| FormText.Join | app.js:706 | joining no names gives "" and joining one name gives that name |
| FormText.JoinLength | app.js:706 | the length of a joined list is the names' total length plus one separator length between each two names |
| FormText.JoinAppend | app.js:706 | joining one more name appends the separator and then that name, which fixes the content of every join |
| FormText.JoinEmptyIff | app.js:706 | joining non-empty names gives "" iff there are none |
| FormText.StudentNames | app.js:701-707 | the names joined with ", "; it is empty iff every student field is blank (`NonEmptyNamesEmptyIff`, `JoinEmptyIff`) |
| FormText.ValidateForm | app.js:461-466 | both trimmed values non-empty; `ValidateFormIff` states when that holds |
| FormText.ValidateFormIff | app.js:461-466 | the form is valid iff the class field and at least one student field contain a non-whitespace character |
| PdfFileName.DecimalString | app.js:711-713 | `String(n)` is a non-empty string of digits with no leading zero for n > 0, one digit long iff n < 10, and two, three or four digits long for 10-99, 100-999 and 1000-9999 (so a four-digit year fills four characters) |
| PdfFileName.DecimalRoundTrip | app.js:711-713 | reading back the digits of n gives n |
| PdfFileName.PadTwo | app.js:711-712 | `padStart(2, '0')` leaves strings of length 2 or more alone and left-fills shorter ones with zeros to length 2 |
| PdfFileName.LeadingZero | app.js:711-712 | a leading zero does not change a decimal value |
| PdfFileName.TwoDigits | app.js:711-712 | the day and month fields are digits; below 100 they are exactly two characters and read back as the number |
| PdfFileName.Sanitize | app.js:714-715 | replacing `[^a-zA-Z0-9]` preserves length, keeps ASCII letters and digits, and turns every other character into '-' |
| PdfFileName.SanitizeIdempotent | app.js:714-715 | sanitising twice equals sanitising once |
| PdfFileName.AccentsBecomeDashes | app.js:714 | accented letters are replaced: "Maçã" becomes "Ma--" |
| PdfFileName.Prefix | app.js:715 | `substring(0, 20)` is the first min(20, length) characters |
| PdfFileName.AssembleLayout | app.js:717 | in the assembled name the day and month are the first four characters, ".pdf" the last four, and the length is the sum of the parts plus the two dashes |
| PdfFileName.AssembleYear | app.js:717 | in an assembled name with a two-character day and month, the year occupies the characters from 4 on, followed by a dash, and a second dash follows the class part |
| PdfFileName.FileNameYear | app.js:709-718 | for a calendar date the characters after the day and month read back as the year, a dash sits on each side of the class part, and the name is at most 20 characters longer than its parts without the student part |
| PdfFileName.FileName | app.js:709-718 | `generatePdfFileName`: `FileNameDate`, `FileNameYear` and `FileNameSafe` below give its date fields, year, dashes, length and character set |
| PdfFileName.AssembleDate | app.js:711-712 | the first two and next two characters of an assembled name read back as its day and month |
| PdfFileName.FileNameDate | app.js:710-712 | for a calendar date, the first four characters of the file name read back as the day and the month counted from 1 |
| PdfFileName.AssembleSafe | app.js:714-717 | an assembled name made of safe parts is safe up to its extension |
| PdfFileName.FileNameSafe | app.js:709-718 | the file name ends in ".pdf", and every character before that is an ASCII letter, a digit or '-' |
| Session.Without | app.js:347 | removal never lengthens the collection |
| Session.WithoutMembers | app.js:347 | after removal a photo is present iff it was present before and its id differs from the removed id |
| Session.WithoutAppend | app.js:347 | removal keeps relative order: removing from a split collection removes from each part |
| Session.WithoutAbsent | app.js:347 | removing an id that no photo has changes nothing |
| Session.WithoutIdempotent | app.js:347 | removing the same id twice equals removing it once |
| Session.Session.constructor | app.js:38-42 | a new session has no photos, no PDF, no share link and an empty form |
| Session.Session.ProcessFiles | app.js:240-268 | the loop leaves the collection and the notices exactly as the batch description says; the 6-photo invariant is kept and the PDF, the link and the form are untouched |
| Session.Session.Examine | app.js:247-263 | one examined file: the type, size and decode checks in order give the verdict's notice, and an accepted file's compressed photo is appended |
| Session.Session.RemovePhoto | app.js:346-350 | the collection becomes the old one without the given id; nothing else changes |
| Session.Session.AddStudentField | app.js:179-212 | a blank field is appended iff fewer than 10 fields exist; photos, PDF, link and class field are untouched |
| Session.Session.GeneratePdf | app.js:359-418 | an invalid form changes nothing and gives no file name; a valid form stores a PDF with the trimmed class, the joined names and the layout of all selected photos from (20, 90), and returns the file name |
| Session.Session.ClearForm | app.js:783-807 | the photos, the PDF, the share link and both form fields are reset to empty |

## Left out

- DOM wiring is not modelled: event listeners, drag and drop, the preview grid, the photo counter, the loading spinner, message toasts and their 5-second removal. These are UI only. Each `showMessage` error of `processFiles` is kept only as a `Notice` value.
- Canvas decode, `drawImage`, JPEG encoding at quality 0.8 and object URLs are browser calls. The decode result is an input per file, and `canvas.width`'s truncation to an integer is not modelled.
- jsPDF is reduced to its placements. The header text, fonts, date/time line and `output('blob')` are summarised by `PdfDocument`, and the page height is a parameter. jsPDF's A4 height is 297 mm up to its point conversion; the A4 lemmas use 297.
- The `try/catch` around `addImage` is assumed never to throw. A throw in the source would skip that photo's cursor advance.
- The `try/catch`, loading state and download link of `generatePDF` are browser glue, and so is `downloadPDF`.
- The network and third-party services are out of scope: the file.io upload and its `isUploading` guard, EmailJS, Web Share, the clipboard and `localStorage`. Because the upload that sets `shareLink` is left out, the model only ever resets `shareLink`.
- The asynchronous structure is not modelled. `processFiles` awaits each file in turn, so the model takes the decode outcomes, in batch order, as given.
- Admission.ProcessRespectsCap: the 6-photo cap is proved for batches that run one after another. Two `processFiles` calls can interleave at the `await` (app.js:258), both pass the cap check (app.js:242) before either pushes (app.js:259), and the collection can then exceed 6. The model does not capture this.
- Photo ids (`Date.now() + Math.random()`) and the current date are inputs. Id uniqueness is not modelled.
- IEEE-754 rounding is not modelled: layout coordinates and scale ratios are exact `real` values.
- JavaScript strings are UTF-16, while the model's strings are sequences of Unicode scalar values. For characters outside the Basic Multilingual Plane, `substring(0, 20)` counts two code units in the source and one character in the model. The regular expression likewise writes two dashes in the source and one in the model.
- `Date.getFullYear()` is taken as a natural number. Negative years are not modelled.
- Typing into the form fields and removing a single student field are not modelled. The form fields are plain class fields. The page's initial set of student fields comes from `index.html`, which is not part of this model, so the constructor starts with none.
