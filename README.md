# Media upload handler and gallery, modelled in Dafny

This project models the server side of a small PHP media-hosting site:

- `FileUploader` (`php_20251106_d580ea.php`) takes a batch of uploaded files and does four things:
  - it validates each file by size, sniffed MIME type and extension;
  - it saves each accepted file under `uploads/<time>_<sanitised name>`;
  - it appends one record per stored file to `uploads/upload_log.json`;
  - it answers with a `{success, errors}` result.
- `MediaGallery` (`galphp_20251106_0d0f47.php`) lists the upload directory. It classifies each entry by extension as image, video or other. It strips the `<time>_` prefix to recover a display name, sorts the entries newest first and truncates long names for display.

## Files and modules

- `option.dfy` (`Optional`): an `Option` type. The log file is `None` when it is missing or cannot be decoded.
- `text.dfy` (`Text`): helpers on byte strings.
  - ASCII digits and `strtolower`.
  - The extension `pathinfo` reports (the text after the last `.`).
  - PHP's decimal rendering of `time()`, and its inverse.
  - UTF-8 well-formedness (section 4 of RFC 3629), which decides whether `json_encode` accepts a string.
- `sizes.dfy` (`SizeUnits`): the unit `formatFileSize` chooses (`B`, `KB`, `MB`, `GB`). Both PHP files define this identically.
- `uploader.dfy` (`Uploader`):
  - the sanitiser and the validator;
  - the outcome of one file;
  - the batch functions that specify `uploadFiles`;
  - the audit log;
  - the class `FileUploader`. Its field `log` is the decoded log file. Its methods `LogUpload` and `UploadFiles` are imperative, loop and all.
- `gallery.dfy` (`Gallery`):
  - classification and the prefix strip;
  - the collecting loop and a stable newest-first sort;
  - the method `GetMediaFiles`;
  - `TruncateFilename`.
- `roundtrip.dfy` (`UploadToGallery`): lemmas that connect the two halves. The gallery shows a stored upload under its rewritten client name, at the URL the uploader reported, with the same size unit and the type of the client's extension.

The environment is input data:
- The `files` form field: absent, a single file (sent as `files`, so that `tmp_name` is a string), or an array of files (sent as `files[]`).
- For each uploaded file: the MIME type `finfo` sniffs, whether `move_uploaded_file` succeeds, and the values of `time()` and `date()`.
- The client IP and the request method.
- Whether the upload directory exists, and its listing with each entry's size and modification time.

Behaviours of the code worth knowing:

- The validator does not stop at the first failing check. It runs all three checks and reports every failure, in the order size, MIME type, extension (`Uploader.ValidationErrors`).
- Saved names are not unique. The prefix is whole seconds only, so two client names that differ only in unsafe characters, uploaded in the same second, get the same saved name (`Uploader.SanitizeCollides`).
- Stripping the display name is exact for uploads. The pattern `^\d+_` is anchored and `preg_replace` removes its one match, so stripping undoes the uploader's prefix for every client name, including names that themselves start with digits and `_` (`UploadToGallery.StripUndoesPrefix`). Only files put into the directory some other way can lose part of their name.
- Ties in modification time keep the listing order. `usort` is stable from PHP 8 on, and `Gallery.SortIsStable` proves the model's sort stable.
- The gallery lists the upload log. The log lives in the upload directory and only `.`, `..` and `.htaccess` are skipped, so `upload_log.json` is shown as a file of type other (`Gallery.LogFileIsListed`).
- A single file sent as `files` rather than `files[]` is dropped without any entry in `errors`. `tmp_name` is then a string, `foreach` runs no iteration, and the JSON answer, after the warning `foreach` prints, is `{success: [], errors: []}` (`Uploader.Response`).
- A stored file whose client name is not UTF-8 erases the upload log (see Findings).

## Model

| member | source | states |
|---|---|---|
| Uploader.SanitizeFileName | php_20251106_d580ea.php:39-42 | The saved name consists only of `[A-Za-z0-9._-]`, has no `/` or `\`, starts with a digit, is never `.` or `..`, and is one character longer than the client name plus the time's decimal digits. |
| Uploader.RewriteUnsafe | php_20251106_d580ea.php:40 | The rewritten name has the same length as the client name and consists only of `[A-Za-z0-9._-]`. |
| Uploader.RewriteKeepsExactlySafeChars | php_20251106_d580ea.php:40 | A character is kept if and only if it is in `[A-Za-z0-9._-]`; every other character becomes `_`. |
| Uploader.RewriteIdempotent | php_20251106_d580ea.php:40 | Rewriting twice equals rewriting once; a name is left unchanged exactly when all its characters are safe. |
| Uploader.SanitizeCollides | php_20251106_d580ea.php:41 | `a b.png` and `a_b.png` uploaded in the same second get the same saved name. |
| Uploader.ExtensionOfRewrite | php_20251106_d580ea.php:40 | The rewrite commutes with taking the extension. |
| Uploader.SavedExtension | php_20251106_d580ea.php:39-42 | The saved name's extension is the client name's extension, rewritten. |
| Uploader.ValidationErrors | php_20251106_d580ea.php:44-69 | One message per failing check. Each message is present if and only if its check fails. The list is empty if and only if all three pass. The size message comes first and the extension message last. |
| Uploader.ValidateFile | php_20251106_d580ea.php:44-69 | The imperative accumulation returns exactly `ValidationErrors`. |
| Uploader.SizeLimitIsInclusive | php_20251106_d580ea.php:48-50 | 52428800 bytes passes the size check and 52428801 bytes fails it. |
| Uploader.Outcome | php_20251106_d580ea.php:87-124 | A file is stored if and only if its upload code is OK, validation is empty and the move succeeds; otherwise it yields at least one message. |
| Uploader.ClientTypeIgnored | php_20251106_d580ea.php:93-101 | The client-declared MIME type never changes what happens to a file. |
| Uploader.RejectedFilesFail | php_20251106_d580ea.php:101-105 | A file that is too large, has a sniffed type outside the allow-list, or has a dangerous extension is never stored. |
| Uploader.StoredFileIsSafe | php_20251106_d580ea.php:57-66 | A stored file has an allowed sniffed type and an allowed size. Neither its client name nor its saved name has a dangerous extension. |
| Uploader.EntryFor | php_20251106_d580ea.php:112-117 | The success entry keeps the client name and size, has the unit `formatFileSize` picks for that size (one of `B`-`GB`), and its URL is `uploads/` followed by a saved name that has no `/` or `\` and is not `.` or `..`. |
| Uploader.RecordFor | php_20251106_d580ea.php:139-145 | The log record names the same client name, saved name and size as the success entry, with the request's IP and the file's date. It can be JSON-encoded if and only if the client name, the date and the IP are UTF-8. |
| Uploader.Response | php_20251106_d580ea.php:71-127 | A non-POST request gets exactly `[] / ["Invalid request method"]`, a missing `files` field exactly `[] / ["No files uploaded"]`, and a single-file field exactly `[] / []`. For an array of files there is one success per stored file and at least one error per other file. |
| Uploader.EarlyExits | php_20251106_d580ea.php:77-87 | A request that is not a POST or carries no array of files stores nothing and adds nothing to the log. |
| Uploader.BatchSplits | php_20251106_d580ea.php:87-124 | A batch's successes, errors and log records are those of its first part followed by those of its second. A failing file never affects later files, and order is kept. |
| Uploader.BatchStep | php_20251106_d580ea.php:87-124 | A batch's results are those of all but the last file, followed by the last file's outcome. |
| Uploader.LoopStep | php_20251106_d580ea.php:87-124 | One more file adds, in order: an upload-error message when its code is not OK; otherwise its validation messages; otherwise a move-failed message; otherwise one success entry and one log record. |
| Uploader.BatchAccounting | php_20251106_d580ea.php:87-124 | The number of success entries and of log records equals the number of stored files. There is at least one error per file not stored. |
| Uploader.SuccessesComeFromStoredFiles | php_20251106_d580ea.php:108-117 | Every success entry is the entry of some stored input file. |
| Uploader.SuccessEntriesAreSafe | php_20251106_d580ea.php:101-117 | Every success entry comes from an intact, allowed, small enough input file. Its saved name is `sanitizeFileName` of the client name, and its URL is `uploads/` followed by the saved name. Neither name has a dangerous extension. |
| Uploader.RecordsMatchSuccesses | php_20251106_d580ea.php:112-120 | The log records of a batch match its success entries one for one, in order: same names, same size, the request's IP. |
| Uploader.AfterAppends | php_20251106_d580ea.php:147-155 | No records leave the log as it was. After one or more records, a readable log encodes and ends with the last record. |
| Uploader.AppendOnly | php_20251106_d580ea.php:147-155 | When the old entries and the new records all encode, appending keeps every earlier entry in place, adds exactly the new records at the end, and treats a missing log as empty. |
| Uploader.LogErased | php_20251106_d580ea.php:155 | A record that cannot be encoded leaves an empty log: every earlier entry is lost. |
| Uploader.InvalidNameErasesLog | php_20251106_d580ea.php:139-155 | A request storing one file whose client name starts with the byte 0xFF leaves an empty log. |
| Uploader.RecordsEncode | php_20251106_d580ea.php:139-145 | The records of a batch encode when the IP and every stored file's client name and date are UTF-8. |
| Uploader.LogGrowsBySuccesses | php_20251106_d580ea.php:111-123 | After a request whose records all encode, the log has grown by exactly the number of success entries. |
| Uploader.KeepingLogNeverLoses | php_20251106_d580ea.php:147-155 | With the corrected append, which skips the write when encoding fails, the old entries are always a prefix of the new log. |
| Uploader.KeepingLogAgrees | php_20251106_d580ea.php:147-155 | When every record encodes, the corrected append gives the same log as the code as written. |
| Uploader.FileUploader.LogUpload | php_20251106_d580ea.php:138-156 | The log becomes the old entries (none when the file was missing or undecodable) followed by the new record. If that list cannot be encoded, the file is left empty and reads back as no entries. |
| Uploader.FileUploader.UploadFiles | php_20251106_d580ea.php:71-127 | The loop returns exactly the batch response. The log ends as the result of one append per stored file, in order. |
| Text.ExtensionOf | php_20251106_d580ea.php:62 | The extension is a suffix of the name with no `.` in it. It is preceded by a `.`, or is empty when the name has no `.`. |
| Text.ExtensionAfterLastDot | galphp_20251106_0d0f47.php:31 | The extension of `stem.ext` is `ext` whenever `ext` has no `.`. |
| Text.ExtensionOfAppend | galphp_20251106_0d0f47.php:31 | Prepending text does not change the extension of a name that has a `.`. |
| Text.Decimal | php_20251106_d580ea.php:41 | The rendering of the time is a non-empty string of digits. It starts with `0` only for the time 0. |
| Text.Lower | php_20251106_d580ea.php:62 | The result has the same length and no upper-case letter. Every other byte is kept, and `A`-`Z` become `a`-`z`. |
| Text.LowerKeepsOtherChars | galphp_20251106_0d0f47.php:31 | A character that is not a letter occurs in the lower-cased string if and only if it occurs in the original. |
| Text.AsciiIsValidUtf8 | php_20251106_d580ea.php:155 | A string of ASCII bytes is valid UTF-8, so a saved name never stops the log from being encoded. |
| Text.DecimalRoundTrip | php_20251106_d580ea.php:41 | The decimal rendering of the time reads back as the same number. |
| SizeUnits.FloorLog1024 | php_20251106_d580ea.php:132 | `1024^k <= n < 1024^(k+1)` for the exact floor of the base-1024 logarithm. |
| SizeUnits.UnitIndex | php_20251106_d580ea.php:130-133 | The index is at most 3 and is 0 for no bytes. Otherwise `1024^k <= bytes`, and below the clamp `bytes < 1024^(k+1)`. |
| SizeUnits.UnitIndexIsLargest | php_20251106_d580ea.php:130-133 | The index is the largest `k <= 3` with `1024^k <= bytes`. |
| SizeUnits.UnitName | galphp_20251106_0d0f47.php:65-70 | The unit is one of `B`, `KB`, `MB`, `GB`. |
| SizeUnits.UnitNameExamples | php_20251106_d580ea.php:129-136 | 0 and 1023 bytes are in `B`, 1024 and 1536 in `KB`, and 50 MiB in `MB`. |
| Gallery.Classify | galphp_20251106_0d0f47.php:35-40 | The type is image if and only if the lower-cased extension is in the image list, and video if and only if it is in the video list. Otherwise it is other. |
| Gallery.LeadingDigits | galphp_20251106_0d0f47.php:43 | The leading run of digits is all digits and is followed by a non-digit or the end. |
| Gallery.PrefixEndsAfterLeadingDigits | galphp_20251106_0d0f47.php:43 | A `^\d+_` match can only end right after the leading digit run. |
| Gallery.StripTimestampPrefix | galphp_20251106_0d0f47.php:42-43 | A name without a `^\d+_` prefix is unchanged. Otherwise the result is what follows the `_` of the match. |
| Gallery.NoDigitNoStrip | galphp_20251106_0d0f47.php:43 | A name that does not start with a digit is shown as it is. |
| Gallery.ToMediaFile | galphp_20251106_0d0f47.php:30-53 | The element keeps the entry's name, size and modification time. Its path is `uploads/` plus the name. Its display name is a suffix of the name. Its extension has no `.`, and its type is the classification of that extension. Its unit is the one `formatFileSize` picks for the entry's size, one of `B`-`GB`. |
| Gallery.Collect | galphp_20251106_0d0f47.php:25-54 | At most one element per listed entry is collected, and no collected element is `.`, `..` or `.htaccess`. |
| Gallery.CollectKeepsListedEntries | galphp_20251106_0d0f47.php:25-54 | Every listed entry other than `.`, `..` and `.htaccess` is collected. |
| Gallery.CollectOnlyListedEntries | galphp_20251106_0d0f47.php:25-54 | Only listed, non-skipped entries are collected. |
| Gallery.CollectLength | galphp_20251106_0d0f47.php:25-28 | One element is collected per listed entry that is not skipped. |
| Gallery.InsertNewestFirst | galphp_20251106_0d0f47.php:56-59 | Inserting into a newest-first sequence keeps it newest first and adds exactly the one element. |
| Gallery.SortNewestFirst | galphp_20251106_0d0f47.php:56-59 | The result is newest first and a permutation of the input. |
| Gallery.InsertKeepsTies | galphp_20251106_0d0f47.php:56-59 | An insertion places the new element ahead of the elements with its modification time and keeps their order. |
| Gallery.SortIsStable | galphp_20251106_0d0f47.php:56-59 | For every modification time, the entries with that time keep their listing order. |
| Gallery.Catalog | galphp_20251106_0d0f47.php:14-62 | The catalog is newest first. It is empty when the directory is missing. Otherwise it is a permutation of the collected elements, with at most one element per listed entry. |
| Gallery.GetMediaFiles | galphp_20251106_0d0f47.php:14-62 | The loop and sort return the catalog, newest first, as a permutation of the collected entries. A missing directory or an empty listing gives an empty list. |
| Gallery.CatalogContents | galphp_20251106_0d0f47.php:14-62 | The catalog is newest first. It has one element per non-skipped entry, holds exactly the elements built from those entries, and keeps the listing order among equal times. |
| Gallery.ListedEntryInCatalog | galphp_20251106_0d0f47.php:25-59 | A listed entry other than `.`, `..` and `.htaccess` is in the sorted catalog. |
| Gallery.PlainNameEntry | galphp_20251106_0d0f47.php:30-53 | An entry `stem.ext` whose stem does not start with a digit is shown under its own name, with extension `strtolower(ext)` and the type of that extension. |
| Gallery.LogFileIsListed | galphp_20251106_0d0f47.php:25-28 | When `upload_log.json` is in the directory, the catalog shows it unchanged, with extension `json` and type other. |
| Gallery.TruncateFilename | galphp_20251106_0d0f47.php:128-133 | Names of at most 20 characters are unchanged. Longer names become their first 20 characters and `...`. The result has at most 23 characters and always starts with the first min(length, 20) characters. |
| Gallery.TruncateIdempotent | galphp_20251106_0d0f47.php:128-133 | Truncating a truncated name changes nothing. |
| UploadToGallery.StripUndoesPrefix | galphp_20251106_0d0f47.php:43 | Stripping `decimal(t) + "_" + s` gives back exactly `s`, for every `s`. |
| UploadToGallery.DisplayNameOfSavedFile | php_20251106_d580ea.php:39-42 | The gallery's display name of a saved file is the client name with unsafe characters rewritten. |
| UploadToGallery.SafeNameRoundTrip | galphp_20251106_0d0f47.php:43 | A client name made of safe characters only is displayed exactly as uploaded. |
| UploadToGallery.SavedFileType | galphp_20251106_0d0f47.php:31-40 | A saved file is classified as its client name's extension would be. |
| UploadToGallery.CatalogElementOfUpload | galphp_20251106_0d0f47.php:45-53 | For a stored upload, the gallery's element matches the success entry: the same file name and URL, the same size and the unit `formatFileSize` picks for it, the display name is the rewritten client name, and the type is that of the client's extension. The saved name is not skipped. |
| UploadToGallery.UploadsAppearInGallery | galphp_20251106_0d0f47.php:14-62 | Every success entry whose saved file is listed appears in the catalog with the URL, unit and display name the upload reported. |
| UploadToGallery.PhotoExample | php_20251106_d580ea.php:40 | An upload of `My Photo!.png` appears in the gallery as the image `My_Photo_.png`. |

## Findings

| source | as written | input that shows it | evidently intended | confidence | as-written member | corrected member |
|---|---|---|---|---|---|---|
| php_20251106_d580ea.php:151-155 | The result of `json_encode` is not checked. When any string in the log is not UTF-8, it returns `false`, and `file_put_contents` writes an empty file. | A stored upload named with the byte 0xFF followed by `.png`, sniffed as `image/png`: the whole log, earlier entries included, is replaced by an empty file. | An append that cannot be encoded leaves the log file as it was. | not executed | Uploader.InvalidNameErasesLog | Uploader.KeepingLogNeverLoses |

## Left out

- The browser script is not part of this model: DOM work, `fetch`, notifications and floating-point size formatting.
- MIME sniffing with `finfo` is a foreign library call. Its answer is a field of each uploaded file.
- Filesystem and runtime I/O are inputs or abstract state:
  - `mkdir`, the `.htaccess` write, `move_uploaded_file` (an oracle boolean per file);
  - `scandir`, `filesize`, `filemtime` (the listing);
  - the superglobals, headers and `echo`.
- JSON encoding and decoding of the log: the log is the decoded list, or `None` when the file is missing, empty or does not decode. The only encoding failure modelled is a string that is not UTF-8. A file that decodes to something other than a list of records is not modelled.
- Uploader.FileUploader.LogUpload: assumes `file_put_contents` succeeds. Its result is not checked either, so a failed write leaves the log unchanged while the upload is still reported as a success; the model does not show that case.
- Uploader.FileUploader.UploadFiles: the class keeps the code as written, so a name that is not UTF-8 erases the log (see Findings); the corrected append is modelled beside it, not used by the class.
- Uploader.Response: the PHP warning `foreach` prints for a single-file field goes into the response body ahead of the JSON. Only the JSON value is modelled.
- `time()` and `date()` are per-file inputs. The date strings are opaque, and `upload_date` is kept as the modification time it is formatted from.
- SizeUnits.UnitIndex: uses the exact base-1024 logarithm. Floating-point `log` may round differently near exact powers of 1024. The division and `round($bytes, 2)` rendering of the number are not modelled, only the unit.
- Gallery.SortNewestFirst: models `usort` as a stable insertion sort on a sequence. The in-place mechanics of the library sort are not modelled. The comparator's fresh `filemtime` calls are assumed to return the listing's modification times.
- `pathinfo` also drops any directory part of a name. Names from an upload form or from `scandir` have none, so only the extension part is modelled.
- Names are byte strings, one `char` per byte. `strtolower` changes only `A`-`Z`.
- HTML rendering in `displayGallery` and `displayMediaItem` is output only.
- Concurrency is out of scope: the read-modify-write race on the log, and collisions between requests in the same second. The model is sequential.
- The constructors' directory set-up and configuration are the constants of the modules.
