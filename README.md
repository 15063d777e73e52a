# Contract templates and document composition, in Dafny

This project models the core of a small contract service. The service keeps
versioned PDF contract templates, of which at most one is active. It fills the
active template with a recipient's name and address, and it signs a filled
contract with a drawn signature image and the signing time.

Two parts are modelled:

- **The template activation store** (`templates.dfy`). The `contract_templates`
  table is a class holding a sequence of rows and the SERIAL id counter.
  - Uploading a file checks that its lower-cased name ends in `.pdf`. It then
    clears every active flag and inserts the new row as active.
  - Activating an id fails when no row has it. Otherwise it clears every
    active flag and sets the flag of that row.
  - Reading the active template returns the active row, or fails.
  - Listing returns every row's summary, newest `created_at` first.

  The two SQL `UPDATE` statements are functions on the rows. The handlers
  apply them in the order the source runs them. Lemmas prove that at most one
  row is ever active, and that after a successful upload or activation
  exactly the targeted row is.
- **Document composition** (`documents.dfy`, `data_uri.dfy`, `personal.dfy`).
  - A PDF is its list of pages. A page is its size and a list of draw
    instructions.
  - Composition copies the pages into a new writer in a loop. It then merges a
    letter-sized overlay onto one page: the first page when personalizing,
    the last page when signing. Merging paints the overlay's instructions
    after the page's own, so the overlay lands on top.
  - The signature payload is the second comma-separated field of the data
    URI.
  - Signing writes the signed PDF and the timestamp into one row of
    `personalized_contracts`. It leaves that row's generated PDF alone.

Modules: `Outcomes` (Option, Result, the error kinds), `Documents`, `DataUri`,
`Templates`, `Personal`.

Where the model departs from the code:

- A signature without a comma makes `split(',')[1]` raise an uncaught
  `IndexError`, not a dedicated error. The model reports
  `InvalidSignatureData` and, as in the code, writes nothing.
- A document with no pages makes `pages[0]` or `pages[-1]` raise. The model
  reports `EmptyDocument` and writes nothing.
- Empty template bytes make `PdfReader` raise an uncaught exception
  (app.py:196), so the request fails with HTTP 500. The model reports
  `CorruptDocument` and writes nothing.
- The signing time is the server's local wall-clock time (`datetime.now()`,
  app.py:286). Here it is a parameter.
- The signature is parsed before the row is looked up. So a bad signature
  fails even for an id that does not exist.

## Model

| member | source | states |
|---|---|---|
| `Templates.Lower` | app.py:61 | lower-casing keeps the length, leaves no upper-case letter, shifts each upper-case letter to its lower-case partner and keeps every other character |
| `Templates.LowerIdempotent` | app.py:61 | lower-casing an already lower-cased name changes nothing |
| `Templates.PdfNameIff` | app.py:61-63 | an upload is accepted exactly when the name has at least four characters and ends in `.pdf` in any mix of letter case |
| `Templates.IsPdfName` | app.py:61-62 | the acceptance test: the lower-cased filename ends in `.pdf`; `PdfNameIff` characterises it character by character |
| `Templates.NewTemplate` | app.py:71-75 | the row the INSERT adds is active, its stored name is the lower-cased upload name (already lower-case, same length) and passes the extension test exactly when the upload name does; `UploadLeavesOnlyNew` proves it is the only active row afterwards |
| `Templates.DeactivateAll` | app.py:69 | the first UPDATE leaves no active row and changes nothing but flags |
| `Templates.SetActiveById` | app.py:129 | the second UPDATE sets exactly the rows with the id active, keeps the other flags and changes nothing but flags |
| `Templates.TemplateStore.constructor` | app.py:379-386 | the table starts empty and ids start at 1 |
| `Templates.TemplateStore.UploadContract` | app.py:60-80 | a rejected name fails with `InvalidFormat` and changes nothing; an accepted one clears every flag and appends an active row with a fresh id, the lower-cased name and the upload note, after which that row is the only active one |
| `Templates.UploadLeavesOnlyNew` | app.py:68-76 | after an upload the table grew by the new row, old rows differ at most in their flags, ids stay unique and exactly one row (the new one) is active |
| `Templates.TemplateStore.ActivateContract` | app.py:120-133 | an unknown id fails with `TemplateNotFound` and changes nothing; a known id leaves that row the only active one |
| `Templates.ActivateLeavesOnlyTarget` | app.py:127-129 | activating an existing id changes only flags and leaves exactly that row active |
| `Templates.AtMostOneActiveIffCount` | app.py:128-129 | the single-active invariant holds exactly when at most one row is active |
| `Templates.FindActive` | app.py:146-147 | the query finds a row exactly when some row is active, and the row found is an active row of the table |
| `Templates.FindActiveIsTheActive` | app.py:146-150 | under the single-active invariant the query returns the one active row |
| `Templates.TemplateStore.ActiveContract` | app.py:145-156 | fails with `NoActiveTemplate` exactly when no row is active, and otherwise returns the id and filename of the active row |
| `Templates.Summaries` | app.py:100-107 | one summary per row, in row order, carrying its id, filename, timestamp and flag |
| `Templates.SortNewestFirst` | app.py:92-96 | the result is ordered by `created_at`, newest first, and is a permutation of the input |
| `Templates.ListVersions` | app.py:92-107 | the version list is newest first and holds every row's summary exactly once |
| `Templates.ListVersionsComplete` | app.py:92-107 | a summary is listed exactly when some row has it |
| `Templates.TemplateStore.ListContractVersions` | app.py:86-108 | the listing handler returns every template's summary, newest first |
| `Documents.RecipientOverlay` | app.py:203-209 | the letter-sized overlay holds two text lines at x = 100: "Name: " followed by the name, above "Address: " followed by the address; `PersonalizedShowsRecipient` gives the exact instructions on the filled page |
| `Documents.SignatureOverlay` | app.py:283-290 | the letter-sized overlay holds the signature image, inside the page, then a text line just below it ending in the signing time; `SignedShowsSignature` gives the exact instructions on the signed page |
| `Documents.Merge` | app.py:212 | the merged page keeps the target's size and its own content, with the overlay's content painted after it |
| `Documents.TargetIndex` | app.py:295 | subscript 0 selects the first page and -1 the last |
| `Documents.Stamped` | app.py:211-212 | the composed page list has the same length, the overlay merged onto the target page, and every other page unchanged |
| `Documents.CopyPages` | app.py:197-200 | the writer holds exactly the source pages, in order |
| `Documents.Compose` | app.py:293-295 | an empty page list fails with `EmptyDocument`; otherwise the overlay is merged onto the target page of the copy and nothing else changes |
| `Documents.Personalize` | app.py:196-217 | empty bytes fail with `CorruptDocument`, a page-less PDF with `EmptyDocument`, and otherwise the recipient overlay is merged onto the first page |
| `Documents.Sign` | app.py:278-300 | the same failures, and otherwise the signature overlay is merged onto the last page |
| `Documents.PersonalizedShowsRecipient` | app.py:202-212 | the filled first page keeps its size and shows "Name: …" at (100,700) and "Address: …" at (100,680) above its own content; the other pages are unchanged |
| `Documents.SignedShowsSignature` | app.py:282-295 | the signed last page shows the 200×100 image at (100,100) and "Signed on …" at (100,90) above its own content; earlier pages are unchanged |
| `Documents.SignAfterPersonalize` | app.py:272-295 | on a one-page contract the signature lands on top of the recipient lines; on a longer one, signing leaves the filled first page as it was |
| `DataUri.Split` | app.py:267 | the number of fields is one more than the number of separators, and no field contains the separator |
| `DataUri.SignaturePayload` | app.py:267 | the payload exists exactly when the text has a comma, contains no comma, and a missing one fails with `InvalidSignatureData` |
| `DataUri.JoinSplit` | app.py:267 | joining the split fields with the separator gives the text back |
| `DataUri.SplitJoin` | app.py:267 | separator-free fields survive a join followed by a split |
| `DataUri.PayloadBetweenCommas` | app.py:267 | the payload is the text between the first comma and the next comma or the end |
| `DataUri.DataUriPayload` | app.py:258-267 | a data URI with a comma-free header and a comma-free payload yields that payload |
| `Personal.FindRecord` | app.py:272-273 | the lookup finds a row exactly when one has the id, and the row found has it |
| `Personal.RecordSignature` | app.py:303-307 | the UPDATE writes the signed PDF and the time into the rows with the id, and changes no other column and no other row |
| `Personal.FindAfterSigning` | app.py:303-307 | after the UPDATE, the signed row reads as before with the new signature, and every other row reads as before |
| `Personal.SigningKeepsGenerated` | app.py:303-307 | signing changes no row's existence, recipient, template or generated PDF |
| `Personal.ResignReplaces` | app.py:272-307 | signing a row twice leaves it as if only the second signing had happened |
| `Personal.CreatePersonal` | app.py:186-217 | no active template fails with `NoActiveTemplate`; otherwise the PDF of the one active template is personalized, whichever row the unordered query returns |
| `Personal.PersonalStore.constructor` | app.py:389-400 | the table holds the given rows, whose ids are unique |
| `Personal.PersonalStore.SignPersonal` | app.py:261-314 | in this order: a missing signature fails, a comma-less one fails, a missing row or empty generated PDF fails with `PdfNotFound`, a page-less PDF fails; otherwise the row's generated PDF is signed on its last page and recorded on that row alone; every failure leaves the table unchanged |

## Left out

- HTTP routing and request parsing: the missing-file check (app.py:58-59), the missing `template_id` check (app.py:116-117), the default `''` name and address (app.py:182-184), JSON replies, `send_file`, `url_for` and the 404 handler. These belong to the transport layer.
- Database connections, commits and the concurrent-upload race. Each handler is one sequential step on in-memory state.
- PDF byte structure. Reading and writing a PDF are the identity on the page list. Only empty bytes are modelled as unreadable, not other malformed bytes.
- Base64 decoding and `ImageReader`. The decoded image stays symbolic (`FromBase64(payload)`), so decoding failures are not modelled.
- `datetime.now()` in the upload note and the signature time. Both are parameters, and the `strftime` format is not modelled. The database `created_at` clock is a parameter too.
- Templates.Lower: lower-cases ASCII letters only. Python's `str.lower` also maps other scripts, so a stored non-ASCII filename may differ. The accept/reject decision is exact, because no non-ASCII character lower-cases to `p`, `d` or `f`.
- Templates.SortNewestFirst: SQL leaves rows with equal `created_at` in any order. The contract states only the ordering and the permutation, not which tie order is used.
- `created_at.isoformat()` in the listing. Timestamps are integers.
- The debug copy written to `debug_filled.pdf` (app.py:220-221).
- Storing the personalized contract (app.py:223-232). The INSERT names columns that the table created at app.py:389-400 does not have. `PersonalStore` is built from given rows instead.
- The download endpoints and the personalized-contract listing (app.py:161-175, 237-255, 320-366). They are outside the modelled core.
- Page sizes and coordinates are integers. The letter size is 612×792 points.
