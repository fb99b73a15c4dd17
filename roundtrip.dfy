/**
 * The uploader and the gallery share the upload directory: a file the
 * uploader stores under `<time>_<sanitised name>` is listed by the gallery,
 * which strips the `^\d+_` prefix again to show a display name. These lemmas
 * connect the two halves.
 */
module UploadToGallery {

  import opened Text
  import SizeUnits
  import U = Uploader
  import G = Gallery

  /**
   * Stripping undoes the prefix the uploader adds, whatever follows it: the
   * pattern is anchored and removes one match, so a name that itself starts
   * with digits and `_` keeps them.
   */
  lemma StripUndoesPrefix(now: nat, rest: string)
    ensures G.StripTimestampPrefix(Decimal(now) + "_" + rest) == rest
  {
    var d := Decimal(now);
    var s := d + "_" + rest;
    assert s[..|d|] == d;
    assert s[|d|] == '_';
    assert s[|d| + 1..] == rest;
  }

  /** The gallery shows a saved file under its client name with unsafe characters rewritten. */
  lemma DisplayNameOfSavedFile(now: nat, name: string)
    ensures G.StripTimestampPrefix(U.SanitizeFileName(now, name)) == U.RewriteUnsafe(name)
  {
    StripUndoesPrefix(now, U.RewriteUnsafe(name));
  }

  /** A client name made of safe characters only is shown exactly as it was uploaded. */
  lemma SafeNameRoundTrip(now: nat, name: string)
    requires forall i :: 0 <= i < |name| ==> U.SafeChar(name[i])
    ensures G.StripTimestampPrefix(U.SanitizeFileName(now, name)) == name
  {
    DisplayNameOfSavedFile(now, name);
    U.RewriteIdempotent(name);
  }

  lemma MediaListsArePlain()
    ensures forall w :: w in G.ImageExtensions ==> U.PlainWord(w)
    ensures forall w :: w in G.VideoExtensions ==> U.PlainWord(w)
  {
  }

  /**
   * The gallery classifies a saved file as the client's extension would be
   * classified: sanitising keeps the extension of every image and video name.
   */
  lemma SavedFileType(now: nat, name: string)
    ensures G.Classify(Lower(ExtensionOf(U.SanitizeFileName(now, name))))
         == G.Classify(Lower(ExtensionOf(name)))
  {
    U.SavedExtension(now, name);
    MediaListsArePlain();
    U.PlainMembershipSurvivesRewrite(ExtensionOf(name), G.ImageExtensions);
    U.PlainMembershipSurvivesRewrite(ExtensionOf(name), G.VideoExtensions);
  }

  /** The listing entry of a stored file: its saved name, its size and some modification time. */
  function SavedEntry(f: U.UploadedFile, mtime: int): G.DirEntry {
    G.DirEntry(U.EntryFor(f).savedName, f.size, mtime)
  }

  /**
   * The catalog element the gallery builds for a stored upload agrees with the
   * uploader's success entry: same file, same URL, same size and unit, the
   * display name is the rewritten client name, and the type is that of the
   * client's extension.
   */
  lemma CatalogElementOfUpload(f: U.UploadedFile, mtime: int)
    ensures var e, m := U.EntryFor(f), G.ToMediaFile(SavedEntry(f, mtime));
      && !G.Skipped(e.savedName)
      && m.filename == e.savedName
      && m.path == e.url
      && m.originalName == U.RewriteUnsafe(f.name)
      && m.sizeBytes == e.sizeBytes && m.sizeUnit == e.sizeUnit == SizeUnits.UnitName(f.size)
      && m.mediaType == G.Classify(Lower(ExtensionOf(f.name)))
  {
    var saved := U.SanitizeFileName(f.clock, f.name);
    G.MediaFileFields(SavedEntry(f, mtime));
    DisplayNameOfSavedFile(f.clock, f.name);
    SavedFileType(f.clock, f.name);
    assert saved != ".htaccess" by {
      assert IsDigit(saved[0]);
    }
  }

  /**
   * Every file a request stored is in the gallery's catalog once its saved
   * name is listed, with the URL, size unit and display name described above.
   */
  lemma UploadsAppearInGallery(files: seq<U.UploadedFile>, ip: string, listing: seq<G.DirEntry>)
    ensures forall s :: s in U.Successes(files, ip) ==>
      forall mtime :: G.DirEntry(s.savedName, s.sizeBytes, mtime) in listing ==>
        exists m :: (m in G.Catalog(true, listing) && m.path == s.url && m.sizeUnit == s.sizeUnit
          && m.originalName == U.RewriteUnsafe(s.originalName))
  {
    U.SuccessesComeFromStoredFiles(files, ip);
    G.CatalogContents(listing);
    forall s, mtime | s in U.Successes(files, ip) && G.DirEntry(s.savedName, s.sizeBytes, mtime) in listing
      ensures exists m :: (m in G.Catalog(true, listing) && m.path == s.url && m.sizeUnit == s.sizeUnit
        && m.originalName == U.RewriteUnsafe(s.originalName))
    {
      var f :| f in files && U.Stores(f) && s == U.EntryFor(f);
      CatalogElementOfUpload(f, mtime);
      assert G.ToMediaFile(SavedEntry(f, mtime)) in G.Catalog(true, listing);
    }
  }

  lemma PhotoNameRewritten()
    ensures U.RewriteUnsafe("My Photo!.png") == "My_Photo_.png"
  {
  }

  lemma PhotoExtension(name: string)
    requires name == "My Photo!.png"
    ensures ExtensionOf(name) == "png"
  {
    ExtensionAfterLastDot("My Photo!", "png");
    assert name == "My Photo!" + "." + "png";
  }

  lemma PhotoNameIsImage(name: string)
    requires name == "My Photo!.png"
    ensures G.Classify(Lower(ExtensionOf(name))) == G.Image
  {
    PhotoExtension(name);
    LowerKeepsLowerCase("png");
  }

  /** An upload of `My Photo!.png` is shown in the gallery as the image `My_Photo_.png`. */
  lemma PhotoExample(f: U.UploadedFile, mtime: int)
    requires f.name == "My Photo!.png"
    ensures G.ToMediaFile(SavedEntry(f, mtime)).originalName == "My_Photo_.png"
    ensures G.ToMediaFile(SavedEntry(f, mtime)).mediaType == G.Image
  {
    CatalogElementOfUpload(f, mtime);
    PhotoNameRewritten();
    PhotoNameIsImage(f.name);
  }
}
