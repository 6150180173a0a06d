/**
 * Image uploads: the multer storage and file-filter rules, the upload route that
 * turns a stored file (or no file) into an image URL, and the delete-image route
 * that turns an image URL back into a file name under the uploads directory.
 */
module Uploads {
  import opened Common
  import opened PathRules

  const PublicOrigin := "https://journal-backend-9rv9.onrender.com"

  /** The static fallback image; it is served from the assets directory, not from uploads. */
  const PlaceholderImageUrl := PublicOrigin + "/assets/placeholder.png"

  /** multer's destination: every accepted file is written here, whatever the request or the file. */
  const UploadDir := "./uploads/"

  /** What multer knows of an incoming multipart file. */
  datatype IncomingFile = IncomingFile(originalname: string, mimetype: string)

  datatype FilterDecision = Accept | Reject(message: string)

  /** The upload file filter: only image MIME types are let through. */
  function FileFilter(file: IncomingFile): (d: FilterDecision)
    ensures d.Accept? <==> |file.mimetype| >= 6 && file.mimetype[..6] == "image/"
    ensures d.Reject? ==> d.message == "Only images are allowed"
  {
    var prefix := "image/";
    if |prefix| <= |file.mimetype| && file.mimetype[..|prefix|] == prefix then Accept
    else Reject("Only images are allowed")
  }

  /**
   * The name an accepted file is stored under: the millisecond clock reading `now`
   * written in decimal, followed by the original name's extension.
   */
  function StoredFilename(now: nat, file: IncomingFile): (name: string)
    ensures name != [] && Free(name, '/') && IsDigit(name[0])
    ensures Extname(name) == Extname(file.originalname)
    ensures var k := |name| - |Extname(file.originalname)|;
      0 < k <= |name| && NumeralOf(name[..k], now) && name[k..] == Extname(file.originalname)
      && (k == 1 || name[0] != '0')
  {
    var digits := DecimalString(now);
    var ext := Extname(file.originalname);
    ExtnameAfterDigits(digits, ext);
    DecimalRoundTrip(now);
    assert (digits + ext)[..|digits|] == digits && (digits + ext)[|digits|..] == ext;
    digits + ext
  }

  /** A numeral followed by an extension has that extension and no '/'. */
  lemma ExtnameAfterDigits(digits: string, ext: string)
    requires digits != [] && forall i :: 0 <= i < |digits| ==> IsDigit(digits[i])
    requires Free(ext, '/') && (ext == [] || (ext[0] == '.' && forall i :: 1 <= i < |ext| ==> ext[i] != '.'))
    ensures Extname(digits + ext) == ext
    ensures Free(digits + ext, '/')
  {
    var n := digits + ext;
    assert Free(n, '/') by {
      assert forall i :: 0 <= i < |digits| ==> n[i] == digits[i];
      assert forall i :: |digits| <= i < |n| ==> n[i] == ext[i - |digits|];
    }
    BasenameOfSegment(n);
    ExtensionAfterDigits(digits, ext);
  }

  /** The extension of a numeral followed by an extension is that extension. */
  lemma ExtensionAfterDigits(digits: string, ext: string)
    requires digits != [] && forall i :: 0 <= i < |digits| ==> IsDigit(digits[i])
    requires ext == [] || (ext[0] == '.' && forall i :: 1 <= i < |ext| ==> ext[i] != '.')
    ensures ExtensionOf(digits + ext) == ext
  {
    var n := digits + ext;
    assert forall i :: 0 <= i < |digits| ==> n[i] == digits[i];
    assert forall i :: |digits| <= i < |n| ==> n[i] == ext[i - |digits|];
    if ext == [] {
      assert LastIndexOf(n, '.').None?;
    } else {
      assert n[|digits|] == '.';
      assert LastIndexOf(n, '.') == Some(|digits|);
      assert n[0] != '.';
      assert n[|digits|..] == ext;
    }
  }

  /** Where a numeral is followed by an extension, the numeral ends where the digits end. */
  lemma NumeralPrefixShorter(d1: string, e1: string, d2: string, e2: string)
    requires forall i :: 0 <= i < |d1| ==> IsDigit(d1[i])
    requires e2 == [] || e2[0] == '.'
    requires d1 + e1 == d2 + e2
    ensures |d1| <= |d2|
  {
    var n := d1 + e1;
    assert forall i :: 0 <= i < |d1| ==> IsDigit(n[i]);
    assert |n| > |d2| ==> n[|d2|] == e2[0];
  }

  /** Two uploads in different milliseconds never share a stored name. */
  lemma StoredFilenamesDistinct(t1: nat, f1: IncomingFile, t2: nat, f2: IncomingFile)
    requires t1 != t2
    ensures StoredFilename(t1, f1) != StoredFilename(t2, f2)
  {
    var d1, e1 := DecimalString(t1), Extname(f1.originalname);
    var d2, e2 := DecimalString(t2), Extname(f2.originalname);
    if d1 + e1 == d2 + e2 {
      var n := d1 + e1;
      NumeralPrefixShorter(d1, e1, d2, e2);
      NumeralPrefixShorter(d2, e2, d1, e1);
      assert d1 == n[..|d1|] == d2;
      DecimalInjective(t1, t2);
    }
  }

  /** The file name under the uploads directory that an image URL designates. */
  function UploadTarget(imageUrl: string): (name: string)
    ensures Free(name, '/')
  {
    Basename(imageUrl)
  }

  datatype UploadOutcome =
    | Stored(filename: string, imageUrl: string)
    | Placeholder(imageUrl: string)
    | Rejected(message: string)

  /**
   * The image-upload route: no file yields the placeholder URL; a file the filter
   * rejects never reaches the route; an accepted file is stored and its public URL returned.
   */
  function ImageUpload(file: Option<IncomingFile>, now: nat): (r: UploadOutcome)
    ensures r.Placeholder? <==> file.None?
    ensures r.Placeholder? ==> r.imageUrl == PlaceholderImageUrl
    ensures r.Rejected? <==> file.Some? && FileFilter(file.value).Reject?
    ensures r.Rejected? ==> r.message == "Only images are allowed"
    ensures r.Stored? ==> r.filename == StoredFilename(now, file.value)
    ensures r.Stored? ==> r.imageUrl == PublicOrigin + "/uploads/" + r.filename
    ensures r.Stored? ==> UploadTarget(r.imageUrl) == r.filename
  {
    match file
    case None => Placeholder(PlaceholderImageUrl)
    case Some(f) =>
      match FileFilter(f)
      case Reject(message) => Rejected(message)
      case Accept =>
        var name := StoredFilename(now, f);
        BasenameAfterSeparator(PublicOrigin + "/uploads/", name);
        Stored(name, PublicOrigin + "/uploads/" + name)
  }

  datatype DeleteImageOutcome =
    | MissingImageUrl
    | ImageDeleted(filename: string)
    | ImageNotFound(filename: string)
    | UnlinkFailed(filename: string)

  /**
   * A base name that, joined to the uploads directory, names that directory or its
   * parent: the file exists, but unlinking a directory throws.
   */
  predicate NamesDirectory(name: string)
  {
    name == "" || name == "." || name == ".."
  }

  /**
   * The delete-image route. `present` is the set of file names in the uploads
   * directory: the route looks in `uploads` under the working directory, which is
   * the directory `UploadDir` that uploads are stored in. A missing file is a soft
   * "Image not found"; a base name naming a directory makes the unlink throw, which
   * the route answers with 500.
   */
  function DeleteImage(imageUrl: string, present: set<string>): (r: DeleteImageOutcome)
    ensures r.MissingImageUrl? <==> imageUrl == ""
    ensures !r.MissingImageUrl? ==> r.filename == UploadTarget(imageUrl)
    ensures r.UnlinkFailed? <==> imageUrl != "" && NamesDirectory(UploadTarget(imageUrl))
    ensures r.ImageDeleted? <==>
      imageUrl != "" && !NamesDirectory(UploadTarget(imageUrl)) && UploadTarget(imageUrl) in present
  {
    if imageUrl == "" then MissingImageUrl
    else
      var name := UploadTarget(imageUrl);
      if NamesDirectory(name) then UnlinkFailed(name)
      else if name in present then ImageDeleted(name)
      else ImageNotFound(name)
  }

  /** Deleting the URL an upload returned removes exactly the file that upload stored. */
  lemma DeleteAfterUpload(file: IncomingFile, now: nat, present: set<string>)
    requires FileFilter(file).Accept?
    ensures var u := ImageUpload(Some(file), now);
      DeleteImage(u.imageUrl, present + {u.filename}) == ImageDeleted(StoredFilename(now, file))
  {
    StoredUrlTargetsFile(file, now);
  }

  /** An accepted upload's URL is not empty and its base name is a plain file name. */
  lemma StoredUrlTargetsFile(file: IncomingFile, now: nat)
    requires FileFilter(file).Accept?
    ensures ImageUpload(Some(file), now).Stored?
    ensures ImageUpload(Some(file), now).filename == StoredFilename(now, file)
    ensures ImageUpload(Some(file), now).imageUrl != ""
    ensures UploadTarget(ImageUpload(Some(file), now).imageUrl) == StoredFilename(now, file)
    ensures !NamesDirectory(StoredFilename(now, file))
  {
    var u := ImageUpload(Some(file), now);
    assert |u.imageUrl| > 0;
    DigitLedNotDirectory(StoredFilename(now, file));
  }

  /** A name that starts with a digit never names the uploads directory or its parent. */
  lemma DigitLedNotDirectory(name: string)
    requires name != [] && IsDigit(name[0])
    ensures !NamesDirectory(name)
  {
    assert name[0] != '.';
  }

  /** The placeholder's file name is never one an upload is stored under. */
  lemma PlaceholderNeverUploaded(now: nat, file: IncomingFile)
    ensures UploadTarget(PlaceholderImageUrl) != StoredFilename(now, file)
  {
    var name := "placeholder.png";
    assert PlaceholderImageUrl == (PublicOrigin + "/assets/") + name;
    BasenameAfterSeparator(PublicOrigin + "/assets/", name);
    assert !IsDigit(name[0]);
  }
}
