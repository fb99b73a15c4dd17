/**
 * The gallery's catalog (`MediaGallery::getMediaFiles`): every entry of the
 * upload directory except `.`, `..` and `.htaccess`, classified by extension,
 * with the display name recovered by stripping the `^\d+_` prefix, sorted
 * newest first; and `truncateFilename` for display.
 *
 * The directory is an input: whether it exists, and its `scandir` listing with
 * the `filesize` and `filemtime` of each entry.
 */
module Gallery {

  import opened Text
  import opened SizeUnits

  const UploadDir: string := "uploads/"
  const ImageExtensions: seq<string> := ["jpg", "jpeg", "png", "gif", "webp", "svg"]
  const VideoExtensions: seq<string> := ["mp4", "mov", "avi", "webm", "mkv"]
  const TruncateLength: nat := 20

  /** One entry of the directory listing, with its size and modification time. */
  datatype DirEntry = DirEntry(name: string, size: nat, mtime: int)

  datatype MediaType = Image | Video | Other

  /**
   * One element of the catalog; `size` is kept as bytes and unit, and
   * `upload_date` as the modification time it is formatted from.
   */
  datatype MediaFile = MediaFile(
    filename: string, originalName: string, path: string, mediaType: MediaType,
    sizeBytes: nat, sizeUnit: string, mtime: int, extension: string)

  /** The only entries the loop skips. */
  predicate Skipped(name: string) {
    name == "." || name == ".." || name == ".htaccess"
  }

  // ---------------------------------------------------------------- classification

  lemma ExtensionListsDisjoint()
    ensures forall e :: e in ImageExtensions ==> e !in VideoExtensions
  {
  }

  /** The media type of a lower-cased extension; the two lists do not overlap, so it is well defined. */
  function Classify(ext: string): (t: MediaType)
    ensures t == Image <==> ext in ImageExtensions
    ensures t == Video <==> ext in VideoExtensions
    ensures t == Other <==> ext !in ImageExtensions && ext !in VideoExtensions
  {
    ExtensionListsDisjoint();
    if ext in ImageExtensions then Image
    else if ext in VideoExtensions then Video
    else Other
  }

  // ---------------------------------------------------------------- the timestamp prefix

  /** The length of the leading run of digits. */
  function LeadingDigits(s: string): (k: nat)
    ensures k <= |s| && AllDigits(s[..k])
    ensures k < |s| ==> !IsDigit(s[k])
  {
    if s == [] || !IsDigit(s[0]) then 0
    else
      var k := LeadingDigits(s[1..]);
      assert s[..k + 1] == [s[0]] + s[1..][..k];
      k + 1
  }

  /** `s` matches `^\d+_`: one or more digits, then `_`. */
  predicate HasTimestampPrefix(s: string) {
    exists k :: 0 < k < |s| && AllDigits(s[..k]) && s[k] == '_'
  }

  /** Where a `^\d+_` match can end: the digit run cannot contain `_`, so only after the leading digits. */
  lemma PrefixEndsAfterLeadingDigits(s: string)
    ensures forall k :: 0 < k < |s| && AllDigits(s[..k]) && s[k] == '_' ==> LeadingDigits(s) == k
  {
    var d := LeadingDigits(s);
    forall k | 0 < k < |s| && AllDigits(s[..k]) && s[k] == '_' ensures d == k {
      DigitRunEndsBefore(s, d, k);
      DigitRunEndsBefore(s, k, d);
    }
  }

  /** `preg_replace('/^\d+_/', '', $file)`: removes one leading `^\d+_` match, if there is one. */
  function StripTimestampPrefix(s: string): (r: string)
    ensures |r| <= |s| && r == s[|s| - |r|..]
    ensures !HasTimestampPrefix(s) ==> r == s
    ensures forall k :: 0 < k < |s| && AllDigits(s[..k]) && s[k] == '_' ==> r == s[k + 1..]
  {
    PrefixEndsAfterLeadingDigits(s);
    var k := LeadingDigits(s);
    if 0 < k < |s| && s[k] == '_' then s[k + 1..] else s
  }

  /** A name that does not start with a digit is shown as it is. */
  lemma NoDigitNoStrip(s: string)
    requires s == [] || !IsDigit(s[0])
    ensures StripTimestampPrefix(s) == s
  {
    assert LeadingDigits(s) == 0;
    PrefixEndsAfterLeadingDigits(s);
  }

  // ---------------------------------------------------------------- collecting

  /** The catalog element the loop builds for one listed entry. */
  function ToMediaFile(e: DirEntry): (m: MediaFile)
    ensures m.filename == e.name && m.path == UploadDir + e.name
    ensures |m.originalName| <= |e.name| && m.originalName == e.name[|e.name| - |m.originalName|..]
    ensures '.' !in m.extension && |m.extension| <= |e.name|
    ensures m.mediaType == Classify(m.extension)
    ensures m.sizeBytes == e.size && m.mtime == e.mtime
    ensures m.sizeUnit == UnitName(e.size) && m.sizeUnit in Units
  {
    var ext := Lower(ExtensionOf(e.name));
    LowerKeepsOtherChars(ExtensionOf(e.name), '.');
    MediaFile(e.name, StripTimestampPrefix(e.name), UploadDir + e.name, Classify(ext),
              e.size, UnitName(e.size), e.mtime, ext)
  }

  /** The media files the loop has collected, in listing order, before sorting. */
  function Collect(listing: seq<DirEntry>): (c: seq<MediaFile>)
    ensures |c| <= |listing|
    ensures forall i :: 0 <= i < |c| ==> !Skipped(c[i].filename)
    decreases |listing|
  {
    if listing == [] then []
    else
      var e := listing[|listing| - 1];
      Collect(listing[..|listing| - 1]) + (if Skipped(e.name) then [] else [ToMediaFile(e)])
  }

  function CountSkipped(listing: seq<DirEntry>): nat
    decreases |listing|
  {
    if listing == [] then 0
    else CountSkipped(listing[..|listing| - 1]) + (if Skipped(listing[|listing| - 1].name) then 1 else 0)
  }

  /** Every entry but the three skipped names is collected. */
  lemma {:induction false} CollectKeepsListedEntries(listing: seq<DirEntry>)
    ensures forall e :: e in listing && !Skipped(e.name) ==> ToMediaFile(e) in Collect(listing)
    decreases |listing|
  {
    if listing != [] {
      var init, last := listing[..|listing| - 1], listing[|listing| - 1];
      assert listing == init + [last];
      CollectKeepsListedEntries(init);
    }
  }

  /** Nothing but listed entries is collected. */
  lemma {:induction false} CollectOnlyListedEntries(listing: seq<DirEntry>)
    ensures forall m :: m in Collect(listing) ==>
      exists e :: e in listing && !Skipped(e.name) && m == ToMediaFile(e)
    decreases |listing|
  {
    if listing != [] {
      var init, last := listing[..|listing| - 1], listing[|listing| - 1];
      CollectOnlyListedEntries(init);
      forall m | m in Collect(listing)
        ensures exists e :: e in listing && !Skipped(e.name) && m == ToMediaFile(e)
      {
        if m in Collect(init) {
          var e :| e in init && !Skipped(e.name) && m == ToMediaFile(e);
          assert e in listing;
        } else {
          assert last in listing;
        }
      }
    }
  }

  /** One element is collected per entry that is not skipped. */
  lemma {:induction false} CollectLength(listing: seq<DirEntry>)
    ensures |Collect(listing)| == |listing| - CountSkipped(listing)
    decreases |listing|
  {
    if listing != [] {
      CollectLength(listing[..|listing| - 1]);
    }
  }

  // ---------------------------------------------------------------- sorting

  predicate NewestFirst(s: seq<MediaFile>) {
    forall i, j :: 0 <= i < j < |s| ==> s[i].mtime >= s[j].mtime
  }

  /** Putting an element no older than all the others in front keeps a sequence newest first. */
  lemma NewestInFront(h: MediaFile, t: seq<MediaFile>)
    requires NewestFirst(t)
    requires forall y :: y in t ==> y.mtime <= h.mtime
    ensures NewestFirst([h] + t)
  {
    var r := [h] + t;
    forall i, j | 0 <= i < j < |r| ensures r[i].mtime >= r[j].mtime {
      assert r[j] == t[j - 1];
      if i > 0 {
        assert r[i] == t[i - 1];
      }
    }
  }

  /** Keeping the head of `s` in front of `rest`, which is the tail of `s` with `x` inserted. */
  lemma BehindHead(x: MediaFile, s: seq<MediaFile>, rest: seq<MediaFile>)
    requires NewestFirst(s) && s != [] && x.mtime < s[0].mtime
    requires NewestFirst(rest) && multiset(rest) == multiset(s[1..]) + multiset{x}
    requires forall y :: y in rest ==> y == x || y in s[1..]
    ensures NewestFirst([s[0]] + rest)
    ensures multiset([s[0]] + rest) == multiset(s) + multiset{x}
    ensures forall y :: y in [s[0]] + rest ==> y == x || y in s
  {
    assert s == [s[0]] + s[1..];
    forall y | y in rest ensures y.mtime <= s[0].mtime {
      if y != x {
        var j :| 0 <= j < |s[1..]| && s[1..][j] == y;
        assert s[j + 1] == y;
      }
    }
    NewestInFront(s[0], rest);
  }

  /** Places `x` before the first element that is not newer than it. */
  function InsertNewestFirst(x: MediaFile, s: seq<MediaFile>): (r: seq<MediaFile>)
    requires NewestFirst(s)
    ensures NewestFirst(r)
    ensures multiset(r) == multiset(s) + multiset{x}
    ensures forall y :: y in r ==> y == x || y in s
  {
    if s == [] || x.mtime >= s[0].mtime then
      NewestInFront(x, s);
      [x] + s
    else
      var rest := InsertNewestFirst(x, s[1..]);
      BehindHead(x, s, rest);
      [s[0]] + rest
  }

  /**
   * `usort` with the comparator `mtime(b) - mtime(a)`. Sorting in PHP 8 is
   * stable, so entries with the same modification time keep the listing order.
   */
  function SortNewestFirst(s: seq<MediaFile>): (r: seq<MediaFile>)
    ensures NewestFirst(r)
    ensures multiset(r) == multiset(s)
  {
    if s == [] then []
    else
      assert s == [s[0]] + s[1..];
      InsertNewestFirst(s[0], SortNewestFirst(s[1..]))
  }

  /** The entries of `s` with modification time `t`, in the order of `s`. */
  function WithMtime(s: seq<MediaFile>, t: int): seq<MediaFile> {
    if s == [] then []
    else (if s[0].mtime == t then [s[0]] else []) + WithMtime(s[1..], t)
  }

  lemma {:induction false} InsertKeepsTies(x: MediaFile, s: seq<MediaFile>, t: int)
    requires NewestFirst(s)
    ensures WithMtime(InsertNewestFirst(x, s), t)
         == if x.mtime == t then [x] + WithMtime(s, t) else WithMtime(s, t)
  {
    var r := InsertNewestFirst(x, s);
    if s == [] || x.mtime >= s[0].mtime {
      assert r == [x] + s && r[0] == x && r[1..] == s;
      assert WithMtime(r, t) == (if x.mtime == t then [x] else []) + WithMtime(s, t);
    } else {
      var rest := InsertNewestFirst(x, s[1..]);
      assert r == [s[0]] + rest && r[0] == s[0] && r[1..] == rest;
      assert WithMtime(r, t) == (if s[0].mtime == t then [s[0]] else []) + WithMtime(rest, t);
      assert WithMtime(s, t) == (if s[0].mtime == t then [s[0]] else []) + WithMtime(s[1..], t);
      InsertKeepsTies(x, s[1..], t);
    }
  }

  /** The sort is stable: for every modification time, the entries with that time keep their order. */
  lemma {:induction false} SortIsStable(s: seq<MediaFile>, t: int)
    ensures WithMtime(SortNewestFirst(s), t) == WithMtime(s, t)
  {
    if s != [] {
      SortIsStable(s[1..], t);
      InsertKeepsTies(s[0], SortNewestFirst(s[1..]), t);
    }
  }

  // ---------------------------------------------------------------- the catalog

  /** What `getMediaFiles` returns for a directory state. */
  function Catalog(dirExists: bool, listing: seq<DirEntry>): (c: seq<MediaFile>)
    ensures NewestFirst(c)
    ensures !dirExists ==> c == []
    ensures dirExists ==> multiset(c) == multiset(Collect(listing)) && |c| <= |listing|
  {
    if dirExists then
      var sorted := SortNewestFirst(Collect(listing));
      assert |sorted| == |multiset(sorted)| == |multiset(Collect(listing))| == |Collect(listing)|;
      sorted
    else []
  }

  /** `getMediaFiles`: collect the listed entries in a loop, then sort them newest first. */
  method GetMediaFiles(dirExists: bool, listing: seq<DirEntry>) returns (mediaFiles: seq<MediaFile>)
    ensures mediaFiles == Catalog(dirExists, listing)
    ensures NewestFirst(mediaFiles)
    ensures !dirExists || listing == [] ==> mediaFiles == []
    ensures dirExists ==> multiset(mediaFiles) == multiset(Collect(listing))
  {
    mediaFiles := [];
    if !dirExists {
      return;
    }
    var i := 0;
    while i < |listing|
      invariant 0 <= i <= |listing|
      invariant mediaFiles == Collect(listing[..i])
    {
      var file := listing[i];
      assert listing[..i + 1][..i] == listing[..i];
      i := i + 1;
      if file.name == "." || file.name == ".." || file.name == ".htaccess" {
        continue;
      }
      var filePath := UploadDir + file.name;
      var fileExtension := Lower(ExtensionOf(file.name));
      var mediaType := Other;
      if fileExtension in ImageExtensions {
        mediaType := Image;
      } else if fileExtension in VideoExtensions {
        mediaType := Video;
      }
      var originalName := StripTimestampPrefix(file.name);
      mediaFiles := mediaFiles + [MediaFile(file.name, originalName, filePath, mediaType,
                                            file.size, UnitName(file.size), file.mtime, fileExtension)];
    }
    assert listing[..i] == listing;
    mediaFiles := SortNewestFirst(mediaFiles);
  }

  /**
   * The catalog holds, newest first, one element for every listed entry other
   * than `.`, `..` and `.htaccess`, and nothing else; among entries with the
   * same modification time the listing order is kept.
   */
  lemma CatalogContents(listing: seq<DirEntry>)
    ensures var c := Catalog(true, listing);
      && NewestFirst(c)
      && |c| == |listing| - CountSkipped(listing)
      && (forall e :: e in listing && !Skipped(e.name) ==> ToMediaFile(e) in c)
      && (forall m :: m in c ==> exists e :: e in listing && !Skipped(e.name) && m == ToMediaFile(e))
      && (forall t :: WithMtime(c, t) == WithMtime(Collect(listing), t))
  {
    var c := Catalog(true, listing);
    CollectKeepsListedEntries(listing);
    CollectOnlyListedEntries(listing);
    CollectLength(listing);
    assert |c| == |multiset(c)| == |multiset(Collect(listing))|;
    forall m ensures m in c <==> m in Collect(listing) {
      assert m in c <==> m in multiset(c);
    }
    forall t ensures WithMtime(c, t) == WithMtime(Collect(listing), t) {
      SortIsStable(Collect(listing), t);
    }
  }

  /** A name `stem.ext` whose stem does not start with a digit is shown as it is and classified by `ext`. */
  lemma PlainNameEntry(e: DirEntry, stem: string, ext: string)
    requires e.name == stem + "." + ext && '.' !in ext
    requires stem == [] || !IsDigit(stem[0])
    ensures ToMediaFile(e).originalName == e.name
    ensures ToMediaFile(e).extension == Lower(ext)
    ensures ToMediaFile(e).mediaType == Classify(Lower(ext))
  {
    ExtensionAfterLastDot(stem, ext);
    assert e.name[0] == if stem == [] then '.' else stem[0];
    NoDigitNoStrip(e.name);
  }

  /** The fields of a catalog element, in terms of the entry it was built from. */
  lemma MediaFileFields(e: DirEntry)
    ensures ToMediaFile(e).filename == e.name
    ensures ToMediaFile(e).originalName == StripTimestampPrefix(e.name)
    ensures ToMediaFile(e).extension == Lower(ExtensionOf(e.name))
    ensures ToMediaFile(e).mediaType == Classify(Lower(ExtensionOf(e.name)))
  {
  }

  lemma LogFileExtension(name: string)
    requires name == "upload_log.json"
    ensures ExtensionOf(name) == "json"
  {
    ExtensionAfterLastDot("upload_log", "json");
  }

  lemma LogFileNameKept(name: string)
    requires name == "upload_log.json"
    ensures StripTimestampPrefix(name) == name && !Skipped(name)
  {
    assert !IsDigit(name[0]);
    NoDigitNoStrip(name);
  }

  lemma JsonIsOther()
    ensures Lower("json") == "json" && Classify("json") == Other
  {
  }

  /** A listed entry that is not skipped is in the catalog. */
  lemma ListedEntryInCatalog(listing: seq<DirEntry>, e: DirEntry)
    requires e in listing && !Skipped(e.name)
    ensures ToMediaFile(e) in Catalog(true, listing)
  {
    CollectKeepsListedEntries(listing);
    assert ToMediaFile(e) in multiset(Collect(listing));
    assert ToMediaFile(e) in multiset(Catalog(true, listing));
  }

  /**
   * The upload log lives in the upload directory and is not among the skipped
   * names: whenever it is there, the catalog shows it, as a file of type other.
   */
  lemma LogFileIsListed(listing: seq<DirEntry>, e: DirEntry)
    requires e in listing && e.name == "upload_log.json"
    ensures exists m :: (m in Catalog(true, listing) && m.filename == "upload_log.json"
      && m.originalName == "upload_log.json" && m.mediaType == Other && m.extension == "json")
  {
    LogFileNameKept(e.name);
    ListedEntryInCatalog(listing, e);
    MediaFileFields(e);
    LogFileExtension(e.name);
    JsonIsOther();
  }

  // ---------------------------------------------------------------- display

  /** `truncateFilename`: names longer than `length` keep their first `length` characters and gain `...`. */
  function TruncateFilename(filename: string, length: nat := TruncateLength): (r: string)
    ensures |filename| <= length ==> r == filename
    ensures |r| <= length + 3
    ensures |filename| > length ==> |r| == length + 3 && r[length..] == "..."
    ensures var keep := if |filename| < length then |filename| else length;
      |r| >= keep && r[..keep] == filename[..keep]
  {
    if |filename| <= length then filename else filename[..length] + "..."
  }

  /** Truncating a truncated name changes nothing. */
  lemma TruncateIdempotent(filename: string, length: nat)
    ensures TruncateFilename(TruncateFilename(filename, length), length) == TruncateFilename(filename, length)
  {
    var r := TruncateFilename(filename, length);
    if |filename| > length {
      assert r[..length] == filename[..length];
    }
  }
}
