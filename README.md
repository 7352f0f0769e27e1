# Convert Pro upload and conversion core, in Dafny

This project models the part of the Convert Pro front end that decides which
files are accepted and that tracks them through upload and conversion:

- **Server-side validation** (`lib/fileValidation.js`).
  - The format matrix: five categories, each with its input and output extensions.
  - The per-plan size limits.
  - Extension parsing and secure file names.
  - The conversion compatibility test.
  - The ordered checks of `validateFile`.
  - The advisory signature scan.
- **Browser-side gate** (`middleware/fileValidation.js`): a fixed list of thirteen
  MIME types and a 10 MiB ceiling.
- **Upload list** (`components/FileUploader.jsx`). This is an ordered list of
  per-file records keyed by id.
  - A record goes from `uploading` to `uploaded` or `error`. Later it goes from
    `converting` to `completed` or `error`.
  - The list sits beside an `uploading` flag, which is raised for a whole batch.
- **Converter grid** (`app/page.jsx`).
  - A case-insensitive, order-preserving search over six converters.
  - The "No converters found" condition.
  - The dialog's lookup by key.

Files:

| file | module | models |
|---|---|---|
| `wrappers.dfy` | `Wrappers` | `Option`, for JavaScript's `null`/`undefined`-or-value |
| `sequences.dfy` | `Sequences` | order-preserving selections (`IsSubsequence`) and the facts about them |
| `js_text.dfy` | `JsText` | the string built-ins the code relies on: `toLowerCase`, `includes`, `split`, hex rendering of bytes, decimal rendering of numbers |
| `file_validation.dfy` | `FileValidation` | `lib/fileValidation.js` |
| `mime_gate.dfy` | `MimeGate` | `middleware/fileValidation.js` |
| `uploader.dfy` | `Uploader` | `components/FileUploader.jsx`, as the class `FileUploader` |
| `converter_search.dfy` | `ConverterSearch` | the converter table, the search filter and the lookup in `app/page.jsx` |

The pure code is modelled with functions and lemmas. The upload component is
different: it replaces its `files` array and its `uploading` flag step by step.
So it is a class with those two fields, and each handler is a method.

Each method states the new list as a function of the old one:
- `UpdateById` is the map by id.
- `RemoveById` is the filter by id.
- `UploadBatch` is the records one batch leaves behind.

Lemmas then say what those functions do. Only the record with the id changes,
and the order is kept. An absent id changes nothing. Ids stay distinct. Each
record stays well formed: progress is 0 or 100, matching its status, and a
record in error carries a message.

Outside calls become inputs:
- the content sniffer (`fileTypeFromBuffer`) becomes the parameter `sniff`;
- MD5 becomes the parameter `md5`;
- `Date.now()` becomes `now`, and `crypto.randomBytes(8)` becomes `random`;
- the generated record id becomes a fresh-id argument;
- the answers of `/api/upload` and `/api/convert` become the datatypes
  `UploadResponse` and `ConvertResponse`.

Behaviour of the code worth knowing before reading the model:
- **Extension of a dotless name.** It is the whole name, because
  `split('.').pop()` returns it (`FileValidation.ExtensionOfDotlessName`).
- **The scan is not part of validation.** `basicVirusScan` is a separate
  function. Its result is always `true`, and a match only logs a warning.
- **No status checks in the handlers.** No handler of the upload list looks at `status`.
  - `updateOutputFormat` and the guard of `startConversion` ignore it, so the
    handler would accept a completed or failed record.
  - The component renders the output choice and the Convert button only for a
    record whose status is `uploaded` (`components/FileUploader.jsx:329-352`).
    A finished record reaches the handler again only through the stale-snapshot
    double click listed under "## Left out".
  - `removeFile` deletes the record whatever its state.
- **No quota, concurrency ceiling or retries.** The code has none, so the model has none.
- **Plan lookup.** The plan name indexes `SIZE_LIMITS` directly.
  - `free` and `pro` give their maximum.
  - A name inherited from `Object.prototype`, such as `constructor`, gives an
    object whose `max` is `undefined`. A comparison with `undefined` is false,
    so the size check is skipped (`FileValidation.InheritedPlanSkipsSizeCheck`).
  - Any other name makes reading `.max` throw. The `catch` turns that into an
    invalid result carrying the engine's message (`UnknownPlan`).
- **Lower-casing.** `toLowerCase` maps the Kelvin sign U+212A to the ASCII
  letter `k`. So an extension written with it passes validation, while the
  secure name keeps the raw extension (see "## Findings").

## Model

| member | source | states |
|---|---|---|
| FileValidation.InputListsDisjoint | lib/fileValidation.js:10-31 | no extension is an input of two categories, so the category of an extension is unambiguous |
| FileValidation.InputExtensionChars | lib/fileValidation.js:10-31 | every input extension is lower-case letters and digits |
| FileValidation.FirstCategoryAccepting | lib/fileValidation.js:111-116 | the loop over the categories returns one whose input list holds the extension, or null when none does |
| FileValidation.GetFileCategory | lib/fileValidation.js:110-117 | a category is returned only if its input list holds the extension; null exactly when no category accepts it |
| FileValidation.GetFileCategoryUnique | lib/fileValidation.js:110-117 | the category found is the one category listing the extension |
| FileValidation.GetFileExtension | lib/fileValidation.js:122-124 | the extension is a suffix of the name without a dot, and it is preceded by a dot unless it is the whole name |
| FileValidation.ExtensionOfDotlessName | lib/fileValidation.js:123 | a name without a dot is its own extension |
| FileValidation.ExtensionOfTrailingDot | lib/fileValidation.js:123 | a name ending in a dot has the empty extension |
| FileValidation.StripExtension | lib/fileValidation.js:133 | the result is a prefix of the name; what is cut off is a match of the final-extension pattern (a dot, then one or more characters other than dot and slash, to the end); nothing is cut when the pattern matches nowhere |
| FileValidation.SanitizeBaseName | lib/fileValidation.js:133 | same length; ASCII letters and digits kept, every other character becomes `_` |
| FileValidation.GenerateSecureFileName | lib/fileValidation.js:129-136 | its contract is stated by `SecureNameTimestamp`, `SecureNameToken` and `SecureNameShape` |
| FileValidation.SecureNameShape | lib/fileValidation.js:129-136 | after the timestamp and token the name holds the sanitised base, a dot, and the original extension unchanged |
| FileValidation.SecureNameTimestamp | lib/fileValidation.js:130-135 | the leading digits read back as the clock value and are followed by `_` |
| FileValidation.SecureNameToken | lib/fileValidation.js:131-135 | after the timestamp and `_` come the random bytes in hexadecimal (two digits per byte, read back by `JsText.HexRoundTrip`), then `_` |
| FileValidation.NameParts | lib/fileValidation.js:135 | in `stamp_token_base.ext` each part sits at its fixed offset, with `_`, `_` and `.` between them |
| FileValidation.SecureNameKeepsSlashInExtension | lib/fileValidation.js:132-135 | the extension is not sanitised: `a./b` yields a secure name containing `/` |
| FileValidation.ErrorMessage | lib/fileValidation.js:56-77 | the `error` strings; the size message is pinned by `FreePlanLimitMessage` |
| FileValidation.FreePlanLimitMessage | lib/fileValidation.js:34-63 | the free-plan size error reads "File size exceeds limit. Max allowed: 2 GB" |
| FileValidation.ValidateFile | lib/fileValidation.js:52-105 | empty input, then a plan whose lookup throws, then size over a real plan's maximum, then an unlisted lower-cased extension (`UnsupportedFormat` with that extension) are refused in that order; valid exactly when the buffer is non-empty, the plan admits its size (an inherited property name admits any size) and its lower-cased extension is listed; a valid result carries the name, size, lower-cased extension, its category and that category's outputs, the MD5 of the bytes, the secure name, the sniffed MIME type or `application/<ext>`, and the mismatch flag |
| FileValidation.SniffedTypeOnlyWarns | lib/fileValidation.js:66-72 | the sniffed type never changes the verdict, the error, the category or the hash |
| FileValidation.HashIgnoresName | lib/fileValidation.js:84 | the hash depends on the bytes only |
| FileValidation.AcceptedWithinLimit | lib/fileValidation.js:55-78 | a non-empty buffer that the plan admits (up to and including a real plan's maximum) with a listed extension is accepted in that extension's category |
| FileValidation.InheritedPlanSkipsSizeCheck | lib/fileValidation.js:60-63 | with an inherited property name such as `constructor` as the plan, a non-empty buffer of any size with a listed extension is accepted |
| FileValidation.KelvinExtensionReachesSecureName | lib/fileValidation.js:67-81 | as written, `x.m\u212Av` is accepted as an `mkv` video and its secure name contains the Kelvin sign, a character outside letters, digits, `_` and `.` |
| FileValidation.CorrectedSecureNameIsSafe | lib/fileValidation.js:75-81 | corrected: on the accepted path, the secure name built with the validated extension holds only letters, digits, `_` and `.` |
| FileValidation.CorrectedNameAgreesOnLowerCase | lib/fileValidation.js:129-136 | the corrected name equals the name as written whenever the raw extension has nothing to lower-case |
| FileValidation.ClipMp4OnFreePlan | lib/fileValidation.js:52-97 | a 5 MiB `clip.mp4` on the free plan is accepted in the category reported as `video`, whose outputs are mp4, avi, mov, webm, gif, mp3 |
| FileValidation.ThreeGiBOnFreePlan | lib/fileValidation.js:34-63 | a 3 GiB file on the free plan is refused with the 2 GiB limit |
| FileValidation.IsConversionSupported | lib/fileValidation.js:154-159 | true exactly when some category lists the lower-cased source as an input and the lower-cased target as an output |
| FileValidation.VideoToMp3Supported | lib/fileValidation.js:154-159 | `MP4` to `mp3` is allowed (audio extraction from video), the source extension being lower-cased first |
| FileValidation.ImageToMp3Unsupported | lib/fileValidation.js:154-159 | `jpg` to `mp3` is refused: `jpg` is only an image input and images do not output `mp3` |
| FileValidation.ScannedHex | lib/fileValidation.js:173 | the scanned text is the hex rendering of at most the first 100 bytes |
| FileValidation.SignaturesFound | lib/fileValidation.js:175-180 | a signature is reported exactly when it occurs in the text, in the order of the signature list |
| FileValidation.BasicVirusScan | lib/fileValidation.js:165-183 | always safe; warns for exactly the signatures that occur in the hex text of the first 100 bytes |
| FileValidation.ScanIgnoresBytesPastWindow | lib/fileValidation.js:173 | bytes after the first 100 do not affect the scan |
| FileValidation.SignatureBytesMatchText | lib/fileValidation.js:167-171 | the three hex signatures denote the bytes 4d 5a 90, 50 4b 03 and 25 50 44 46 2d |
| FileValidation.ScanFlagsSignatureAcrossByteBoundary | lib/fileValidation.js:173-176 | the bytes 04 d5 a9 00 raise the PE-header warning without containing its bytes |
| FileValidation.ByteSignaturesFound | lib/fileValidation.js:175-180 | a signature is reported exactly when its bytes occur in the window |
| FileValidation.AlignedVirusScan | lib/fileValidation.js:165-183 | always safe; warns exactly for the signatures whose bytes occur in the first 100 bytes |
| FileValidation.AlignedScanWarningsAreHexWarnings | lib/fileValidation.js:165-183 | every byte-aligned warning is also raised by the scan as written |
| MimeGate.ValidateFile | middleware/fileValidation.js:21-31 | valid exactly when the type is one of the thirteen listed and the size is at most 10 MiB; valid exactly when the error is null; the format error takes precedence over the size error |
| MimeGate.GateIgnoresName | middleware/fileValidation.js:21-31 | the verdict depends only on type and size |
| MimeGate.GateSizeBoundary | middleware/fileValidation.js:18-28 | 10485760 bytes pass, 10485761 bytes get the size error |
| MimeGate.GateTypeBeforeSize | middleware/fileValidation.js:1-24 | an oversize `image/svg+xml` file gets the format error |
| Uploader.NewRecord | components/FileUploader.jsx:44-58 | the record a new upload starts as is well formed (`uploading` at 0%) |
| Uploader.Apply | components/FileUploader.jsx:78-200 | each object spread keeps a record well formed, with its id and file, as `ApplyKeepsWellFormed` states |
| Uploader.UpdateById | components/FileUploader.jsx:77-86 | same length and ids; records with the id are transformed, all others are unchanged in place |
| Uploader.UpdateAtUniqueIndex | components/FileUploader.jsx:77-86 | with distinct ids, updating by the id of entry k replaces entry k and nothing else |
| Uploader.UpdateAbsent | components/FileUploader.jsx:77-86 | an id that no record has leaves the list unchanged |
| Uploader.UpdateKeepsValid | components/FileUploader.jsx:75-201 | every update keeps ids distinct and each record well formed |
| Uploader.RemoveById | components/FileUploader.jsx:139 | its contract is stated by `RemoveSelects`, `RemoveAbsent` and `RemoveAtUniqueIndex` |
| Uploader.RemoveSelects | components/FileUploader.jsx:138-140 | the filter keeps exactly the records whose id differs, in their original order |
| Uploader.RemoveAbsent | components/FileUploader.jsx:138-140 | removing an absent id leaves the list unchanged |
| Uploader.RemoveAtUniqueIndex | components/FileUploader.jsx:138-140 | with distinct ids, removing the id of entry k cuts out exactly entry k |
| Uploader.RemoveKeepsValid | components/FileUploader.jsx:138-140 | removal keeps ids distinct and records well formed |
| Uploader.FindById | components/FileUploader.jsx:151 | a found record is in the list and has the id; nothing is found exactly when no record has the id |
| Uploader.FindAtUniqueIndex | components/FileUploader.jsx:151 | with distinct ids the lookup finds the one record with the id |
| Uploader.ConversionRequest | components/FileUploader.jsx:151-170 | a request is made only for an existing record, carrying its non-empty server file id and its non-empty selected output; none for an absent id |
| Uploader.ConversionRequestAt | components/FileUploader.jsx:151-152 | with distinct ids, conversion starts exactly when the record has a truthy server id and a non-empty selected output |
| Uploader.UploadBatch | components/FileUploader.jsx:36-104 | one record per file in input order with its id and file; success gives `uploaded`, 100%, the server id, the outputs and the first output (or `''`) selected; failure gives `error` with the message, 0% and nothing selected |
| Uploader.UpdateLastOnly | components/FileUploader.jsx:60-86 | settling a freshly appended record by its id changes only that record |
| Uploader.ConversionOutcome | components/FileUploader.jsx:150-203 | with distinct ids, the two updates of a conversion that passes the guard replace entry k by `ConvertedRecord` and leave every other entry in place |
| Uploader.ConvertedRecord | components/FileUploader.jsx:155-201 | id, file, server id and chosen output are kept; success gives `completed`, 100%, the download URL and output info; failure gives `error` with the message at 0% and the old download URL |
| Uploader.FileUploader.constructor | components/FileUploader.jsx:23-31 | the list starts empty and the flag down |
| Uploader.FileUploader.AddRecord | components/FileUploader.jsx:44-60 | appends a new `uploading` record at 0% with no outputs and `''` selected |
| Uploader.FileUploader.UploadSettled | components/FileUploader.jsx:75-102 | the upload outcome is applied to the record with the id only |
| Uploader.FileUploader.HandleFileUpload | components/FileUploader.jsx:35-107 | appends the settled records of the first `maxFiles` files in order; the flag is up throughout the loop and down afterwards |
| Uploader.FileUploader.RemoveFile | components/FileUploader.jsx:138-140 | the list becomes the filter by id |
| Uploader.FileUploader.UpdateOutputFormat | components/FileUploader.jsx:143-147 | only `selectedOutput` of the record with the id changes; neither the status nor the supported outputs are consulted |
| Uploader.FileUploader.BeginConversion | components/FileUploader.jsx:151-157 | a no-op unless the guard passes; then the record is `converting` at 0% |
| Uploader.FileUploader.ConversionSettled | components/FileUploader.jsx:175-201 | the conversion outcome is applied to the record with the id only |
| Uploader.FileUploader.StartConversion | components/FileUploader.jsx:150-203 | the guard, the switch to `converting`, then the outcome, all on that record only |
| ConverterSearch.Filter | app/page.jsx:142-147 | keeps exactly the entries that pass, in their original order |
| ConverterSearch.MatchesSearch | app/page.jsx:143-146 | its case-insensitivity is stated by `SearchIgnoresCase`, its use by `Visible` |
| ConverterSearch.Visible | app/page.jsx:142-147 | shows exactly the converters whose lower-cased title or description contains the lower-cased search (all of them for an empty search), in declared order, at most six |
| ConverterSearch.VisibleIsOrderedSelection | app/page.jsx:142-147 | any ordered selection of the converters with the same members as the grid is the grid |
| ConverterSearch.EmptySearchShowsAll | app/page.jsx:142-145 | an empty search shows all six converters in declared order |
| ConverterSearch.SearchIgnoresCase | app/page.jsx:145-146 | searches that agree in lower case show the same grid |
| ConverterSearch.NoResultsShown | app/page.jsx:161-164 | its contract is stated by `NoResultsIffEmptyGrid` |
| ConverterSearch.NoResultsIffEmptyGrid | app/page.jsx:161-164 | the empty-state block appears exactly when the search is non-empty and the grid is empty |
| ConverterSearch.ConvertersDistinct | app/page.jsx:16-23 | the six converters, and their keys, are pairwise distinct |
| ConverterSearch.FindByKey | app/page.jsx:217 | a converter from the list with the key, or none exactly when no converter has it |
| ConverterSearch.FindByKeyFirst | app/page.jsx:217 | the converter found is the one at the first index holding the key |
| ConverterSearch.LookupIsUnique | app/page.jsx:217 | the dialog finds the one converter with the key |
| JsText.ToLower | lib/fileValidation.js:67 | same length; each character lower-cased |
| JsText.LowerCharIntoAlnum | lib/fileValidation.js:67 | lower-casing lands in `[a-zA-Z0-9]` exactly from that class and from the Kelvin sign, which is outside it |
| JsText.Split | lib/fileValidation.js:123 | at least one piece, none containing the separator |
| JsText.SplitLast | lib/fileValidation.js:123 | the last piece is the text after the last separator, or the whole string |
| JsText.SplitJoin | lib/fileValidation.js:123 | joining the pieces of a split with the separator gives back the string |
| JsText.ToLowerIdempotent | app/page.jsx:145-146 | lower-casing twice is lower-casing once |
| JsText.Includes | lib/fileValidation.js:176 | true exactly when the needle occurs at some position of the text |
| JsText.HexEncode | lib/fileValidation.js:131 | two digits per byte; `HexRoundTrip` and `HexIsLower` state the rest |
| JsText.HexRoundTrip | lib/fileValidation.js:131 | the hexadecimal text consists of hex digits and decodes back to the bytes |
| JsText.HexIsLower | lib/fileValidation.js:173 | `toLowerCase` leaves the hexadecimal text unchanged |
| JsText.Decimal | lib/fileValidation.js:135 | at least one digit, only digits, no leading zero; `DecimalRoundTrip` reads it back |
| JsText.DecimalRoundTrip | lib/fileValidation.js:130-135 | the decimal rendering of a number reads back as that number |

## Left out

- `formatFileSize` (`lib/fileValidation.js:141-149`, `components/FileUploader.jsx:215-221`) works in floating point (`Math.log`, `toFixed`).
  - It is not modelled, and neither is the `sizeFormatted` field.
  - The size-limit message renders the limit as whole GiB plus " GB". That matches `formatFileSize` for the two plan limits.
- `JsText.ToLower`: lower-cases ASCII `A`-`Z` and the Kelvin sign only.
  - These are the mappings whose result is a single ASCII character. No other Unicode case mapping is modelled.
  - So a non-ASCII upper-case letter stays unchanged in the model, and the length is always kept (the source turns U+0130 into two characters).
- `FileValidation.ValidateFile`: the plan is an explicit argument.
  - The source's default `userPlan = 'free'` (`lib/fileValidation.js:52`) is not modelled.
  - A caller that omits the plan corresponds to passing `"free"`.
- `FileValidation.ValidateFile`: the `TypeError` message of a plan whose lookup throws is taken as one fixed string.
- `FileValidation.SanitizeBaseName`: the model works on Unicode scalar values, while the regex `/[^a-zA-Z0-9]/g` has no `u` flag and works on UTF-16 code units.
  - A character outside the Basic Multilingual Plane becomes one `_` in the model and two in the source (`😀` gives `__`).
  - So "same length" counts scalar values, not the source's code units.
- `FileValidation.ValidateFile`: the empty or corrupted check `!buffer` (a missing buffer) is subsumed by the empty check, since a byte sequence is always present.
- `SIZE_LIMITS.daily` is declared in the source but never read. It is not modelled.
- `console.warn` in `validateFile` and `basicVirusScan`: the logging is not modelled.
  - It becomes the `extensionMismatch` flag and the `warnings` list of `ScanReport`.
- `Uploader.FileUploader.HandleFileUpload`: the handler's `await` points are not modelled as interleavings.
  - Each upload is added and then settled before the next file starts, as the loop does.
  - Other handlers may run while a request is in flight; that is not modelled.
  - `startConversion` reads a possibly stale `files` snapshot; that is not modelled either.
- `Uploader.FileUploader.HandleFileUpload`: record ids are taken as fresh, distinct inputs. The `file_<time>_<random>` construction and its collision probability are not modelled.
- `Uploader.UploadResponse`: a successful upload whose `fileInfo` is missing is outside the model.
  - `UploadSuccess` always carries an outputs list.
  - In the source, `result.fileInfo.supportedOutputs` is read inside the updater passed to `setFiles`, not by the `try` itself, so the `catch` never sees the error.
  - The error surfaces when the component renders, and the record never leaves `uploading`.
- `conversionOptions`: always `{}`. It is not modelled.
- The `onFileUploaded` and `onConversionComplete` callbacks, drag and drop, the file picker, icons, animation and all JSX rendering are not modelled.
- The `fetch` calls themselves (request bodies, HTTP status, JSON parsing) are not modelled. Their outcomes are the method inputs.
- The content sniffer, MD5 and the random source are parameters. Their behaviour is not modelled.
- The dialog in `app/page.jsx` is modelled as its key lookup only. Its open/close state and the embedded uploader instance are not modelled.
- Authentication, the other pages and `next.config.mjs` are not modelled.

## Findings

| source | as written | input that shows it | evidently intended | confidence | as-written member | corrected member |
|---|---|---|---|---|---|---|
| lib/fileValidation.js:173-176 | the signatures are searched for in the hex text of the first 100 bytes, so a match can start at an odd digit and straddle two bytes | bytes `04 d5 a9 00` render as `04d5a900`, which contains `4d5a90` at digit 1, though the bytes 4d 5a 90 do not occur | warn only when the signature's bytes occur at a byte position | medium, not executed | FileValidation.ScanFlagsSignatureAcrossByteBoundary | FileValidation.AlignedVirusScan |
| lib/fileValidation.js:132-135 | the secure name appends the raw extension, while validation checked its lower-cased form | `x.mKv` (Kelvin sign) lower-cases to `mkv`, is accepted as a video, and its secure name ends in `.mKv` | the secure name holds only `[A-Za-z0-9_.]`, built from the validated extension | medium, not executed | FileValidation.KelvinExtensionReachesSecureName | FileValidation.CorrectedSecureNameIsSafe |
