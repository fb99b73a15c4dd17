/**
 * The upload handler (`FileUploader`): name sanitising, per-file validation,
 * the batch loop with its partial-success policy, and the JSON audit log.
 *
 * Everything the handler asks of its environment is an input here: the MIME
 * type `finfo` sniffs from the bytes, whether `move_uploaded_file` succeeds,
 * and what `time()` and `date()` read while a file is processed are fields of
 * `UploadedFile`; the request method, the `files` form field and the client
 * address are parameters of `UploadFiles`; the log file is a field of the
 * `FileUploader` object.
 */
module Uploader {

  import opened Optional
  import opened Text
  import opened SizeUnits

  const UploadDir: string := "uploads/"
  const MaxFileSize: nat := 50 * 1024 * 1024
  const AllowedTypes: seq<string> := [
    "image/jpeg", "image/png", "image/gif", "image/webp", "image/svg+xml",
    "video/mp4", "video/mov", "video/avi", "video/webm", "video/quicktime"
  ]
  const DangerousExtensions: seq<string> := ["php", "phtml", "php3", "php4", "php5", "phar"]
  /** PHP's `UPLOAD_ERR_OK`. */
  const UploadErrOk: int := 0

  /** One entry of the `files` form field, with what the environment answers about it. */
  datatype UploadedFile = UploadedFile(
    name: string,          // client-supplied file name
    clientType: string,    // client-declared MIME type: copied, never consulted
    size: nat,
    error: int,            // the upload error code
    sniffedMime: string,   // what `finfo_file` reports for the uploaded bytes
    moveSucceeds: bool,    // what `move_uploaded_file` returns
    clock: nat,            // what `time()` returns when the name is sanitised
    date: string)          // what `date('Y-m-d H:i:s')` returns when the upload is logged

  /** One element of the response's `success` array; `size` is rendered as bytes and unit. */
  datatype SuccessEntry = SuccessEntry(
    originalName: string, savedName: string, sizeBytes: nat, sizeUnit: string, url: string)

  /**
   * The `files` form field: absent, one file sent as `files` (whose
   * `tmp_name` is then a string), or an array of files sent as `files[]`.
   */
  datatype FilesField = Absent | Single(file: UploadedFile) | Many(files: seq<UploadedFile>)

  datatype UploadResult = UploadResult(success: seq<SuccessEntry>, errors: seq<string>)

  /** One record of `uploads/upload_log.json`. */
  datatype LogEntry = LogEntry(
    timestamp: string, originalName: string, savedName: string, size: nat, ip: string)

  // ---------------------------------------------------------------- sanitising

  /** The characters `[a-zA-Z0-9._-]` that `sanitizeFileName` keeps. */
  predicate SafeChar(c: char) {
    'a' <= c <= 'z' || 'A' <= c <= 'Z' || '0' <= c <= '9' || c == '.' || c == '_' || c == '-'
  }

  /** `preg_replace('/[^a-zA-Z0-9\._-]/', '_', $name)`. */
  function RewriteUnsafe(name: string): (r: string)
    ensures |r| == |name|
    ensures forall i :: 0 <= i < |r| ==> SafeChar(r[i])
  {
    seq(|name|, i requires 0 <= i < |name| => if SafeChar(name[i]) then name[i] else '_')
  }

  /** A character survives the rewrite exactly when it is in the kept class; the rest become `_`. */
  lemma RewriteKeepsExactlySafeChars(name: string)
    ensures forall i :: 0 <= i < |name| ==> (RewriteUnsafe(name)[i] == name[i] <==> SafeChar(name[i]))
    ensures forall i :: 0 <= i < |name| && !SafeChar(name[i]) ==> RewriteUnsafe(name)[i] == '_'
  {
  }

  /** Rewriting is idempotent, and a name is left alone exactly when it is already safe. */
  lemma RewriteIdempotent(name: string)
    ensures RewriteUnsafe(RewriteUnsafe(name)) == RewriteUnsafe(name)
    ensures RewriteUnsafe(name) == name <==> forall i :: 0 <= i < |name| ==> SafeChar(name[i])
  {
    if RewriteUnsafe(name) == name {
      assert forall i :: 0 <= i < |name| ==> SafeChar(RewriteUnsafe(name)[i]);
    }
  }

  /** `sanitizeFileName`: the decimal clock reading, `_`, then the rewritten name. */
  function SanitizeFileName(now: nat, name: string): (saved: string)
    ensures forall i :: 0 <= i < |saved| ==> SafeChar(saved[i])
    ensures '/' !in saved && '\\' !in saved
    ensures |saved| == |Decimal(now)| + 1 + |name|
    ensures IsDigit(saved[0]) && saved != "." && saved != ".."
  {
    var saved := Decimal(now) + "_" + RewriteUnsafe(name);
    assert forall i :: 0 <= i < |saved| ==> SafeChar(saved[i]) by {
      forall i | 0 <= i < |saved| ensures SafeChar(saved[i]) {
        if i < |Decimal(now)| {
          assert saved[i] == Decimal(now)[i];
        } else if i > |Decimal(now)| {
          assert saved[i] == RewriteUnsafe(name)[i - |Decimal(now)| - 1];
        }
      }
    }
    assert saved[0] == Decimal(now)[0];
    saved
  }

  /** Two different client names uploaded in the same second are saved under the same name. */
  lemma SanitizeCollides(now: nat)
    ensures SanitizeFileName(now, "a b.png") == SanitizeFileName(now, "a_b.png")
  {
  }

  /** Letters and digits in lower case only: the shape of every listed extension. */
  predicate PlainWord(w: string) {
    forall i :: 0 <= i < |w| ==> 'a' <= w[i] <= 'z' || '0' <= w[i] <= '9'
  }

  /** The rewrite keeps every `.` and makes no new one. */
  lemma RewriteKeepsDots(s: string)
    ensures '.' in RewriteUnsafe(s) <==> '.' in s
  {
    var r := RewriteUnsafe(s);
    if '.' in s {
      var j :| 0 <= j < |s| && s[j] == '.';
      assert r[j] == '.';
    }
    if '.' in r {
      var j :| 0 <= j < |r| && r[j] == '.';
      assert s[j] == '.';
    }
  }

  /** The rewrite works character by character, so it distributes over concatenation. */
  lemma RewriteConcat(a: string, b: string)
    ensures RewriteUnsafe(a + b) == RewriteUnsafe(a) + RewriteUnsafe(b)
  {
  }

  /** The rewrite and `pathinfo`'s extension commute, because `.` is kept and nothing else becomes `.`. */
  lemma {:induction false} ExtensionOfRewrite(s: string)
    ensures ExtensionOf(RewriteUnsafe(s)) == RewriteUnsafe(ExtensionOf(s))
    decreases |s|
  {
    if s != [] {
      var init, last := s[..|s| - 1], [s[|s| - 1]];
      assert s == init + last;
      var r := RewriteUnsafe(s);
      RewriteConcat(init, last);
      assert r[..|r| - 1] == RewriteUnsafe(init);
      RewriteKeepsDots(s);
      if '.' in s && s[|s| - 1] != '.' {
        ExtensionOfRewrite(init);
        RewriteConcat(ExtensionOf(init), last);
      }
    }
  }

  /** The saved name has the client name's extension, rewritten. */
  lemma SavedExtension(now: nat, name: string)
    ensures ExtensionOf(SanitizeFileName(now, name)) == RewriteUnsafe(ExtensionOf(name))
  {
    var d := Decimal(now);
    assert '.' !in d + "_" by {
      forall i | 0 <= i < |d + "_"| ensures (d + "_")[i] != '.' {
        if i < |d| { assert (d + "_")[i] == d[i]; }
      }
    }
    ExtensionOfAppend(d + "_", RewriteUnsafe(name));
    ExtensionOfRewrite(name);
    RewriteKeepsDots(name);
  }

  /**
   * Membership of a lower-cased extension in a list of plain words is the same
   * before and after the rewrite: such a word has no character the rewrite changes.
   */
  lemma PlainMembershipSurvivesRewrite(ext: string, words: seq<string>)
    requires forall w :: w in words ==> PlainWord(w)
    ensures Lower(RewriteUnsafe(ext)) in words <==> Lower(ext) in words
  {
    var r := RewriteUnsafe(ext);
    if Lower(r) in words {
      forall i | 0 <= i < |ext| ensures SafeChar(ext[i]) {
        assert Lower(r)[i] == LowerChar(r[i]);
        assert r[i] != '_';
      }
      assert r == ext;
    }
    if Lower(ext) in words {
      forall i | 0 <= i < |ext| ensures SafeChar(ext[i]) {
        assert Lower(ext)[i] == LowerChar(ext[i]);
      }
      assert r == ext;
    }
  }

  // ---------------------------------------------------------------- validation

  function TooLargeMessage(name: string): string { "File too large: " + name + " (max 50MB)" }
  function InvalidTypeMessage(name: string): string { "Invalid file type: " + name }
  function DangerousTypeMessage(name: string): string { "Dangerous file type: " + name }
  function UploadErrorMessage(name: string): string { "Upload error for: " + name }
  function MoveFailedMessage(name: string): string { "Failed to move uploaded file: " + name }

  predicate TooLarge(f: UploadedFile) {
    f.size > MaxFileSize
  }

  predicate MimeAllowed(f: UploadedFile) {
    f.sniffedMime in AllowedTypes
  }

  predicate HasDangerousExtension(name: string) {
    Lower(ExtensionOf(name)) in DangerousExtensions
  }

  /** Every failed check adds its own message; no check is skipped because an earlier one failed. */
  function ValidationErrors(f: UploadedFile): (errors: seq<string>)
    ensures |errors| == (if TooLarge(f) then 1 else 0) + (if MimeAllowed(f) then 0 else 1)
                        + (if HasDangerousExtension(f.name) then 1 else 0)
    ensures errors == [] <==> !TooLarge(f) && MimeAllowed(f) && !HasDangerousExtension(f.name)
    ensures TooLargeMessage(f.name) in errors <==> f.size > MaxFileSize
    ensures InvalidTypeMessage(f.name) in errors <==> f.sniffedMime !in AllowedTypes
    ensures DangerousTypeMessage(f.name) in errors <==> HasDangerousExtension(f.name)
    ensures TooLarge(f) ==> errors[0] == TooLargeMessage(f.name)
    ensures HasDangerousExtension(f.name) ==> errors[|errors| - 1] == DangerousTypeMessage(f.name)
  {
    var n := f.name;
    assert TooLargeMessage(n)[0] == 'F' && InvalidTypeMessage(n)[0] == 'I';
    assert DangerousTypeMessage(n)[0] == 'D';
    (if TooLarge(f) then [TooLargeMessage(n)] else [])
    + (if MimeAllowed(f) then [] else [InvalidTypeMessage(n)])
    + (if HasDangerousExtension(n) then [DangerousTypeMessage(n)] else [])
  }

  /** `validateFile`: runs the size, MIME and extension checks in that order, collecting messages. */
  method ValidateFile(f: UploadedFile) returns (errors: seq<string>)
    ensures errors == ValidationErrors(f)
  {
    errors := [];
    if f.size > MaxFileSize {
      errors := errors + [TooLargeMessage(f.name)];
    }
    var mimeType := f.sniffedMime;
    if mimeType !in AllowedTypes {
      errors := errors + [InvalidTypeMessage(f.name)];
    }
    var extension := Lower(ExtensionOf(f.name));
    if extension in DangerousExtensions {
      errors := errors + [DangerousTypeMessage(f.name)];
    }
  }

  /** The limit is inclusive: exactly 50 MiB passes the size check, one byte more does not. */
  lemma SizeLimitIsInclusive(f: UploadedFile)
    ensures f.size == 52428800 ==> TooLargeMessage(f.name) !in ValidationErrors(f)
    ensures f.size == 52428801 ==> TooLargeMessage(f.name) in ValidationErrors(f)
  {
  }

  // ---------------------------------------------------------------- one file

  /** What processing one file yields: a stored upload with its log record, or error messages. */
  datatype FileOutcome =
    | Stored(entry: SuccessEntry, record: LogEntry)
    | Failed(messages: seq<string>)

  /** A file is stored when it arrived intact, passes validation and is moved into place. */
  predicate Stores(f: UploadedFile) {
    f.error == UploadErrOk && ValidationErrors(f) == [] && f.moveSucceeds
  }

  /** The success entry of a stored file: its URL names a file directly inside the upload directory. */
  function EntryFor(f: UploadedFile): (e: SuccessEntry)
    ensures e.originalName == f.name && e.sizeBytes == f.size
    ensures e.sizeUnit == UnitName(f.size) && e.sizeUnit in Units
    ensures e.url == UploadDir + e.savedName
    ensures '/' !in e.savedName && '\\' !in e.savedName && e.savedName != "." && e.savedName != ".."
  {
    var saved := SanitizeFileName(f.clock, f.name);
    SuccessEntry(f.name, saved, f.size, UnitName(f.size), UploadDir + saved)
  }

  /**
   * The log record of a stored file. It names the same files as the success
   * entry, and `json_encode` can write it exactly when the client name, the
   * date and the client address are UTF-8: the saved name always is.
   */
  function RecordFor(f: UploadedFile, ip: string): (r: LogEntry)
    ensures r.originalName == EntryFor(f).originalName && r.savedName == EntryFor(f).savedName
    ensures r.size == EntryFor(f).sizeBytes && r.ip == ip && r.timestamp == f.date
    ensures RecordEncodes(r) <==> ValidUtf8(f.name) && ValidUtf8(f.date) && ValidUtf8(ip)
  {
    var saved := SanitizeFileName(f.clock, f.name);
    AsciiIsValidUtf8(saved);
    LogEntry(f.date, f.name, saved, f.size, ip)
  }

  /** The body of the `foreach` in `uploadFiles` for one file. */
  function Outcome(f: UploadedFile, ip: string): (o: FileOutcome)
    ensures o.Stored? <==> Stores(f)
    ensures o.Failed? ==> |o.messages| >= 1
  {
    if f.error != UploadErrOk then Failed([UploadErrorMessage(f.name)])
    else
      var v := ValidationErrors(f);
      if v != [] then Failed(v)
      else if f.moveSucceeds then Stored(EntryFor(f), RecordFor(f, ip))
      else Failed([MoveFailedMessage(f.name)])
  }

  /** The client-declared MIME type never influences what happens to a file. */
  lemma ClientTypeIgnored(f: UploadedFile, declared: string, ip: string)
    ensures Outcome(f.(clientType := declared), ip) == Outcome(f, ip)
  {
  }

  /** A file with a dangerous extension or a sniffed type outside the allow-list is never stored. */
  lemma RejectedFilesFail(f: UploadedFile, ip: string)
    ensures HasDangerousExtension(f.name) ==> Outcome(f, ip).Failed?
    ensures f.sniffedMime !in AllowedTypes ==> Outcome(f, ip).Failed?
    ensures f.size > MaxFileSize ==> Outcome(f, ip).Failed?
  {
  }

  // ---------------------------------------------------------------- the batch

  /** The outcome of each file of a batch, in order. */
  function Outcomes(files: seq<UploadedFile>, ip: string): (os: seq<FileOutcome>)
    ensures |os| == |files|
  {
    seq(|files|, i requires 0 <= i < |files| => Outcome(files[i], ip))
  }

  /** The success entries of a run of outcomes, in order. */
  function StoredEntries(os: seq<FileOutcome>): seq<SuccessEntry>
    decreases |os|
  {
    if os == [] then []
    else
      var o := os[|os| - 1];
      StoredEntries(os[..|os| - 1]) + (if o.Stored? then [o.entry] else [])
  }

  /** The error messages of a run of outcomes, in order. */
  function FailureMessages(os: seq<FileOutcome>): seq<string>
    decreases |os|
  {
    if os == [] then []
    else
      var o := os[|os| - 1];
      FailureMessages(os[..|os| - 1]) + (if o.Failed? then o.messages else [])
  }

  /** The log records of a run of outcomes, in order. */
  function StoredRecords(os: seq<FileOutcome>): seq<LogEntry>
    decreases |os|
  {
    if os == [] then []
    else
      var o := os[|os| - 1];
      StoredRecords(os[..|os| - 1]) + (if o.Stored? then [o.record] else [])
  }

  /** The `success` array after the loop has run over `files`. */
  function Successes(files: seq<UploadedFile>, ip: string): seq<SuccessEntry> {
    StoredEntries(Outcomes(files, ip))
  }

  /** The `errors` array after the loop has run over `files`. */
  function Errors(files: seq<UploadedFile>, ip: string): seq<string> {
    FailureMessages(Outcomes(files, ip))
  }

  /** The log records appended while the loop runs over `files`. */
  function Records(files: seq<UploadedFile>, ip: string): seq<LogEntry> {
    StoredRecords(Outcomes(files, ip))
  }

  function CountStored(files: seq<UploadedFile>): nat
    decreases |files|
  {
    if files == [] then 0
    else CountStored(files[..|files| - 1]) + (if Stores(files[|files| - 1]) then 1 else 0)
  }

  /**
   * The response of `uploadFiles` to a request. A single file sent as `files`
   * rather than `files[]` makes `tmp_name` a string: `foreach` warns, runs no
   * iteration, and the file is dropped without a message.
   */
  function Response(requestMethod: string, files: FilesField, ip: string): (r: UploadResult)
    ensures requestMethod != "POST" ==> r == UploadResult([], ["Invalid request method"])
    ensures requestMethod == "POST" && files.Absent? ==> r == UploadResult([], ["No files uploaded"])
    ensures requestMethod == "POST" && files.Single? ==> r == UploadResult([], [])
    ensures requestMethod == "POST" && files.Many? ==>
      |r.success| == CountStored(files.files) && |r.errors| >= |files.files| - CountStored(files.files)
  {
    if requestMethod != "POST" then UploadResult([], ["Invalid request method"])
    else if files.Absent? then UploadResult([], ["No files uploaded"])
    else if files.Single? then UploadResult([], [])
    else
      BatchAccounting(files.files, ip);
      UploadResult(Successes(files.files, ip), Errors(files.files, ip))
  }

  /** The log records a request appends: only an array of files is processed. */
  function RequestRecords(requestMethod: string, files: FilesField, ip: string): seq<LogEntry> {
    if requestMethod == "POST" && files.Many? then Records(files.files, ip) else []
  }

  /** A request that is not a POST, or has no array of files, stores nothing and adds nothing to the log. */
  lemma EarlyExits(requestMethod: string, files: FilesField, ip: string)
    ensures requestMethod != "POST" || !files.Many? ==>
      Response(requestMethod, files, ip).success == [] && RequestRecords(requestMethod, files, ip) == []
  {
  }

  lemma {:induction false} StoredEntriesSplits(x: seq<FileOutcome>, y: seq<FileOutcome>)
    ensures StoredEntries(x + y) == StoredEntries(x) + StoredEntries(y)
    decreases |y|
  {
    if y == [] {
      assert x + y == x;
    } else {
      var init := y[..|y| - 1];
      assert (x + y)[..|x + y| - 1] == x + init;
      StoredEntriesSplits(x, init);
    }
  }

  lemma {:induction false} FailureMessagesSplits(x: seq<FileOutcome>, y: seq<FileOutcome>)
    ensures FailureMessages(x + y) == FailureMessages(x) + FailureMessages(y)
    decreases |y|
  {
    if y == [] {
      assert x + y == x;
    } else {
      var init := y[..|y| - 1];
      assert (x + y)[..|x + y| - 1] == x + init;
      FailureMessagesSplits(x, init);
    }
  }

  lemma {:induction false} StoredRecordsSplits(x: seq<FileOutcome>, y: seq<FileOutcome>)
    ensures StoredRecords(x + y) == StoredRecords(x) + StoredRecords(y)
    decreases |y|
  {
    if y == [] {
      assert x + y == x;
    } else {
      var init := y[..|y| - 1];
      assert (x + y)[..|x + y| - 1] == x + init;
      StoredRecordsSplits(x, init);
    }
  }

  lemma OutcomesSplit(a: seq<UploadedFile>, b: seq<UploadedFile>, ip: string)
    ensures Outcomes(a + b, ip) == Outcomes(a, ip) + Outcomes(b, ip)
  {
    var l, r := Outcomes(a + b, ip), Outcomes(a, ip) + Outcomes(b, ip);
    forall k | 0 <= k < |l| ensures l[k] == r[k] {
      if k < |a| {
        assert (a + b)[k] == a[k];
      } else {
        assert (a + b)[k] == b[k - |a|];
      }
    }
  }

  /**
   * Files are processed independently: the results of a batch are the results
   * of its first part followed by those of the rest, so a failing file never
   * affects the files after it.
   */
  lemma BatchSplits(a: seq<UploadedFile>, b: seq<UploadedFile>, ip: string)
    ensures Successes(a + b, ip) == Successes(a, ip) + Successes(b, ip)
    ensures Errors(a + b, ip) == Errors(a, ip) + Errors(b, ip)
    ensures Records(a + b, ip) == Records(a, ip) + Records(b, ip)
  {
    OutcomesSplit(a, b, ip);
    StoredEntriesSplits(Outcomes(a, ip), Outcomes(b, ip));
    FailureMessagesSplits(Outcomes(a, ip), Outcomes(b, ip));
    StoredRecordsSplits(Outcomes(a, ip), Outcomes(b, ip));
  }

  lemma SingleOutcome(o: FileOutcome)
    ensures StoredEntries([o]) == (if o.Stored? then [o.entry] else [])
    ensures FailureMessages([o]) == (if o.Failed? then o.messages else [])
    ensures StoredRecords([o]) == (if o.Stored? then [o.record] else [])
  {
    assert [o][..0] == [];
  }

  /** The batch functions on a non-empty batch: the results of all but the last file, then the last file's. */
  lemma BatchStep(files: seq<UploadedFile>, ip: string)
    requires files != []
    ensures var init, o := files[..|files| - 1], Outcome(files[|files| - 1], ip);
      && Successes(files, ip) == Successes(init, ip) + (if o.Stored? then [o.entry] else [])
      && Errors(files, ip) == Errors(init, ip) + (if o.Failed? then o.messages else [])
      && Records(files, ip) == Records(init, ip) + (if o.Stored? then [o.record] else [])
  {
    var init, last := files[..|files| - 1], files[|files| - 1];
    assert files == init + [last];
    BatchSplits(init, [last], ip);
    assert Outcomes([last], ip) == [Outcome(last, ip)];
    SingleOutcome(Outcome(last, ip));
  }

  /**
   * One more turn of the loop in `uploadFiles`, spelled out branch by branch:
   * an upload error, validation messages, a failed move, or a stored file.
   */
  lemma LoopStep(batch: seq<UploadedFile>, i: nat, ip: string)
    requires i < |batch|
    ensures var f := batch[i];
      Successes(batch[..i + 1], ip)
        == if Stores(f) then Successes(batch[..i], ip) + [EntryFor(f)] else Successes(batch[..i], ip)
    ensures var f := batch[i];
      Records(batch[..i + 1], ip)
        == if Stores(f) then Records(batch[..i], ip) + [RecordFor(f, ip)] else Records(batch[..i], ip)
    ensures var f := batch[i];
      Errors(batch[..i + 1], ip) ==
        if f.error != UploadErrOk then Errors(batch[..i], ip) + [UploadErrorMessage(f.name)]
        else if ValidationErrors(f) != [] then Errors(batch[..i], ip) + ValidationErrors(f)
        else if !f.moveSucceeds then Errors(batch[..i], ip) + [MoveFailedMessage(f.name)]
        else Errors(batch[..i], ip)
  {
    assert batch[..i + 1][..i] == batch[..i];
    BatchStep(batch[..i + 1], ip);
  }

  /**
   * Every file yields exactly one success entry and one log record when it is
   * stored, and at least one error message otherwise.
   */
  lemma {:induction false} BatchAccounting(files: seq<UploadedFile>, ip: string)
    ensures |Successes(files, ip)| == CountStored(files)
    ensures |Records(files, ip)| == CountStored(files)
    ensures |Errors(files, ip)| >= |files| - CountStored(files)
    decreases |files|
  {
    if files != [] {
      BatchStep(files, ip);
      BatchAccounting(files[..|files| - 1], ip);
    }
  }

  /** Every success entry is the entry of a file of the batch that passed every check and was moved. */
  lemma {:induction false} SuccessesComeFromStoredFiles(files: seq<UploadedFile>, ip: string)
    ensures forall e :: e in Successes(files, ip) ==> exists f :: f in files && Stores(f) && e == EntryFor(f)
    decreases |files|
  {
    if files != [] {
      var init := files[..|files| - 1];
      BatchStep(files, ip);
      SuccessesComeFromStoredFiles(init, ip);
      forall e | e in Successes(files, ip) ensures exists f :: f in files && Stores(f) && e == EntryFor(f) {
        if e in Successes(init, ip) {
          var f :| f in init && Stores(f) && e == EntryFor(f);
          assert f in files;
        } else {
          assert files[|files| - 1] in files;
        }
      }
    }
  }

  /**
   * What a success entry promises: a file with this client name arrived intact,
   * has an allowed sniffed type, is within the size limit and has no dangerous
   * extension; it was saved under its sanitised name, at `uploads/` plus that name,
   * and the saved name has no dangerous extension either.
   */
  lemma SuccessEntriesAreSafe(files: seq<UploadedFile>, ip: string)
    ensures forall e :: e in Successes(files, ip) ==>
      && (exists f :: f in files && f.name == e.originalName && f.error == UploadErrOk
                      && f.sniffedMime in AllowedTypes && f.size <= MaxFileSize
                      && e.savedName == SanitizeFileName(f.clock, f.name))
      && e.url == UploadDir + e.savedName
      && !HasDangerousExtension(e.originalName)
      && !HasDangerousExtension(e.savedName)
  {
    SuccessesComeFromStoredFiles(files, ip);
    forall e | e in Successes(files, ip)
      ensures exists f :: f in files && f.name == e.originalName && f.error == UploadErrOk
                          && f.sniffedMime in AllowedTypes && f.size <= MaxFileSize
                          && e.savedName == SanitizeFileName(f.clock, f.name)
      ensures e.url == UploadDir + e.savedName
      ensures !HasDangerousExtension(e.originalName)
      ensures !HasDangerousExtension(e.savedName)
    {
      var f :| f in files && Stores(f) && e == EntryFor(f);
      StoredFileIsSafe(f);
    }
  }

  /** A stored file passed every check, and its saved name carries no dangerous extension. */
  lemma StoredFileIsSafe(f: UploadedFile)
    requires Stores(f)
    ensures f.sniffedMime in AllowedTypes && f.size <= MaxFileSize
    ensures !HasDangerousExtension(f.name)
    ensures !HasDangerousExtension(SanitizeFileName(f.clock, f.name))
  {
    assert ValidationErrors(f) == [];
    SavedExtension(f.clock, f.name);
    DangerousExtensionsArePlain();
    PlainMembershipSurvivesRewrite(ExtensionOf(f.name), DangerousExtensions);
  }

  lemma DangerousExtensionsArePlain()
    ensures forall w :: w in DangerousExtensions ==> PlainWord(w)
  {
  }

  /** The log records appended by a batch match its success entries one for one, in order. */
  lemma {:induction false} RecordsMatchSuccesses(files: seq<UploadedFile>, ip: string)
    ensures |Records(files, ip)| == |Successes(files, ip)|
    ensures forall i :: 0 <= i < |Records(files, ip)| ==>
      var r, e := Records(files, ip)[i], Successes(files, ip)[i];
      r.originalName == e.originalName && r.savedName == e.savedName && r.size == e.sizeBytes && r.ip == ip
    decreases |files|
  {
    if files != [] {
      BatchStep(files, ip);
      RecordsMatchSuccesses(files[..|files| - 1], ip);
    }
  }

  // ---------------------------------------------------------------- the audit log

  /** What `json_decode(...) ?: []` yields for the log file: nothing when it is missing or unreadable. */
  function Entries(log: Option<seq<LogEntry>>): seq<LogEntry> {
    if log.Some? then log.value else []
  }

  /** Every string of the record is UTF-8, the condition for `json_encode` to accept it. */
  predicate RecordEncodes(r: LogEntry) {
    ValidUtf8(r.timestamp) && ValidUtf8(r.originalName) && ValidUtf8(r.savedName) && ValidUtf8(r.ip)
  }

  /** `json_encode` succeeds on a list of records exactly when every record encodes. */
  predicate Encodes(entries: seq<LogEntry>) {
    forall i :: 0 <= i < |entries| ==> RecordEncodes(entries[i])
  }

  lemma EncodesConcat(a: seq<LogEntry>, b: seq<LogEntry>)
    ensures Encodes(a + b) <==> Encodes(a) && Encodes(b)
  {
    if Encodes(a + b) {
      forall i | 0 <= i < |a| ensures RecordEncodes(a[i]) {
        assert (a + b)[i] == a[i];
      }
      forall i | 0 <= i < |b| ensures RecordEncodes(b[i]) {
        assert (a + b)[|a| + i] == b[i];
      }
    }
  }

  /**
   * The log file after one `logUpload`: read, append, write back. When
   * `json_encode` fails it returns `false`, `file_put_contents` writes an empty
   * file, and an empty file reads back as no log at all.
   */
  function Append(log: Option<seq<LogEntry>>, r: LogEntry): Option<seq<LogEntry>> {
    var logs := Entries(log) + [r];
    if Encodes(logs) then Some(logs) else None
  }

  /**
   * The log file after one `logUpload` per record, in order. Whenever the file
   * is readable afterwards, it encodes and ends with the last record.
   */
  function AfterAppends(log: Option<seq<LogEntry>>, records: seq<LogEntry>): (a: Option<seq<LogEntry>>)
    ensures records == [] ==> a == log
    ensures records != [] && a.Some? ==>
      Encodes(a.value) && a.value != [] && a.value[|a.value| - 1] == records[|records| - 1]
    decreases |records|
  {
    if records == [] then log
    else Append(AfterAppends(log, records[..|records| - 1]), records[|records| - 1])
  }

  /** As long as every record encodes, appending keeps every earlier entry in place and adds exactly the new records at the end. */
  lemma {:induction false} AppendOnly(log: Option<seq<LogEntry>>, records: seq<LogEntry>)
    requires Encodes(Entries(log) + records)
    ensures Entries(AfterAppends(log, records)) == Entries(log) + records
    ensures Entries(AfterAppends(log, records))[..|Entries(log)|] == Entries(log)
    ensures |Entries(AfterAppends(log, records))| == |Entries(log)| + |records|
    decreases |records|
  {
    if records == [] {
      assert Entries(log) + records == Entries(log);
    } else {
      var init, last := records[..|records| - 1], records[|records| - 1];
      assert Entries(log) + records == (Entries(log) + init) + [last];
      EncodesConcat(Entries(log) + init, [last]);
      AppendOnly(log, init);
    }
  }

  /** A record that does not encode erases the whole log, earlier entries included. */
  lemma LogErased(log: Option<seq<LogEntry>>, r: LogEntry)
    requires !RecordEncodes(r)
    ensures Entries(Append(log, r)) == []
  {
    assert (Entries(log) + [r])[|Entries(log)|] == r;
  }

  /**
   * A request storing one file whose client name is not UTF-8 (it starts
   * with the byte 0xFF) leaves an empty log, whatever the log held before.
   */
  lemma InvalidNameErasesLog(log: Option<seq<LogEntry>>, f: UploadedFile, ip: string)
    requires Stores(f) && f.name != [] && f.name[0] as int == 0xFF
    ensures Entries(AfterAppends(log, RequestRecords("POST", Many([f]), ip))) == []
  {
    BatchStep([f], ip);
    assert [f][..0] == [];
    InvalidLeadByte(f.name);
    LogErased(log, RecordFor(f, ip));
  }

  /** One more record appended to the log the earlier records produced. */
  lemma AppendOneMore(log: Option<seq<LogEntry>>, earlier: seq<LogEntry>, r: LogEntry)
    ensures AfterAppends(log, earlier + [r]) == Append(AfterAppends(log, earlier), r)
  {
    assert (earlier + [r])[..|earlier|] == earlier;
  }

  /** The records of a batch encode when the client address and every stored file's name and date are UTF-8. */
  lemma {:induction false} RecordsEncode(files: seq<UploadedFile>, ip: string)
    requires ValidUtf8(ip)
    requires forall f :: f in files && Stores(f) ==> ValidUtf8(f.name) && ValidUtf8(f.date)
    ensures Encodes(Records(files, ip))
    decreases |files|
  {
    if files != [] {
      var init := files[..|files| - 1];
      BatchStep(files, ip);
      assert forall f :: f in init ==> f in files;
      RecordsEncode(init, ip);
      var last := files[|files| - 1];
      EncodesConcat(Records(init, ip), if Stores(last) then [RecordFor(last, ip)] else []);
    }
  }

  /** After a request whose records all encode, the log has grown by exactly the number of files stored. */
  lemma LogGrowsBySuccesses(log: Option<seq<LogEntry>>, requestMethod: string, files: FilesField, ip: string)
    requires Encodes(Entries(log) + RequestRecords(requestMethod, files, ip))
    ensures |Entries(AfterAppends(log, RequestRecords(requestMethod, files, ip)))|
         == |Entries(log)| + |Response(requestMethod, files, ip).success|
  {
    AppendOnly(log, RequestRecords(requestMethod, files, ip));
    if requestMethod == "POST" && files.Many? {
      BatchAccounting(files.files, ip);
    }
  }

  /** `logUpload` as evidently intended: when the records cannot be encoded, the file is left as it was. */
  function AppendKeepingLog(log: Option<seq<LogEntry>>, r: LogEntry): Option<seq<LogEntry>> {
    var logs := Entries(log) + [r];
    if Encodes(logs) then Some(logs) else log
  }

  function AfterAppendsKeepingLog(log: Option<seq<LogEntry>>, records: seq<LogEntry>): Option<seq<LogEntry>>
    decreases |records|
  {
    if records == [] then log
    else AppendKeepingLog(AfterAppendsKeepingLog(log, records[..|records| - 1]), records[|records| - 1])
  }

  /** With the corrected append no entry is ever lost, whatever the records hold. */
  lemma {:induction false} KeepingLogNeverLoses(log: Option<seq<LogEntry>>, records: seq<LogEntry>)
    ensures Entries(log) <= Entries(AfterAppendsKeepingLog(log, records))
    decreases |records|
  {
    if records != [] {
      KeepingLogNeverLoses(log, records[..|records| - 1]);
    }
  }

  /** When every record encodes, the corrected append and the code as written agree. */
  lemma {:induction false} KeepingLogAgrees(log: Option<seq<LogEntry>>, records: seq<LogEntry>)
    requires Encodes(Entries(log) + records)
    ensures AfterAppendsKeepingLog(log, records) == AfterAppends(log, records)
    decreases |records|
  {
    if records != [] {
      var init, last := records[..|records| - 1], records[|records| - 1];
      assert Entries(log) + records == (Entries(log) + init) + [last];
      EncodesConcat(Entries(log) + init, [last]);
      KeepingLogAgrees(log, init);
      AppendOnly(log, init);
    }
  }

  class FileUploader {
    /** `uploads/upload_log.json` as `json_decode` reads it; `None` when missing or undecodable. */
    var log: Option<seq<LogEntry>>

    constructor (existing: Option<seq<LogEntry>>)
      ensures log == existing
    {
      log := existing;
    }

    /** `logUpload`: load the log (empty if absent), append one record, write it all back. */
    method LogUpload(originalName: string, savedName: string, size: nat, date: string, ip: string)
      modifies this
      ensures log == Append(old(log), LogEntry(date, originalName, savedName, size, ip))
    {
      var entry := LogEntry(date, originalName, savedName, size, ip);
      var logs: seq<LogEntry> := [];
      if log.Some? {
        logs := log.value;
      }
      logs := logs + [entry];
      if Encodes(logs) {
        log := Some(logs);
      } else {
        // `json_encode` returned `false`, which is written as an empty file
        log := None;
      }
    }

    /** `uploadFiles`: answer a request, storing and logging every file that passes. */
    method UploadFiles(requestMethod: string, files: FilesField, ip: string)
      returns (results: UploadResult)
      modifies this
      ensures results == Response(requestMethod, files, ip)
      ensures log == AfterAppends(old(log), RequestRecords(requestMethod, files, ip))
    {
      if requestMethod != "POST" {
        return UploadResult([], ["Invalid request method"]);
      }
      if files.Absent? {
        return UploadResult([], ["No files uploaded"]);
      }
      if files.Single? {
        // `foreach` over a string: a warning, and no iteration
        return UploadResult([], []);
      }
      var batch := files.files;
      var success: seq<SuccessEntry> := [];
      var errors: seq<string> := [];
      var i := 0;
      while i < |batch|
        invariant 0 <= i <= |batch|
        invariant success == Successes(batch[..i], ip)
        invariant errors == Errors(batch[..i], ip)
        invariant log == AfterAppends(old(log), Records(batch[..i], ip))
      {
        var f := batch[i];
        LoopStep(batch, i, ip);
        ghost var earlier := Records(batch[..i], ip);
        i := i + 1;
        if f.error != UploadErrOk {
          errors := errors + [UploadErrorMessage(f.name)];
          continue;
        }
        var validationErrors := ValidateFile(f);
        if validationErrors != [] {
          errors := errors + validationErrors;
          continue;
        }
        var sanitizedName := SanitizeFileName(f.clock, f.name);
        var destination := UploadDir + sanitizedName;
        if f.moveSucceeds {
          success := success + [SuccessEntry(f.name, sanitizedName, f.size, UnitName(f.size), destination)];
          AppendOneMore(old(log), earlier, RecordFor(f, ip));
          LogUpload(f.name, sanitizedName, f.size, f.date, ip);
        } else {
          errors := errors + [MoveFailedMessage(f.name)];
        }
      }
      assert batch[..i] == batch;
      results := UploadResult(success, errors);
    }
  }
}
