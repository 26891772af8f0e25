/** The event-banner upload endpoint: seven checks, each of which can end
    the request, then the stored file's name. The session, the form data and
    the storage call are inputs; the clock and the random part of the name
    are parameters. */
module UploadImage {
  import opened Text

  /** One byte of the uploaded file. */
  newtype Byte = b: int | 0 <= b < 0x100

  /** The signed-in user, when there is one. */
  datatype User = User(role: Option<string>, email: string)

  /** The `image` form field: its name, declared type, size and bytes. */
  datatype UploadFile = UploadFile(name: string, mimeType: string, size: nat, content: seq<Byte>)

  /** Why a request is turned away. */
  datatype Rejection =
    | Unauthenticated
    | Forbidden
    | NoFile
    | InvalidType
    | TooLarge
    | ExtensionMismatch
    | ContentMismatch
    | UploadFailed

  datatype Response = Rejected(reason: Rejection) | Uploaded(path: string)

  /** The HTTP status each rejection is sent with. */
  function Status(reason: Rejection): (code: int)
    ensures reason == Unauthenticated <==> code == 401
    ensures reason == Forbidden <==> code == 403
    ensures reason == UploadFailed <==> code == 500
    ensures code in {400, 401, 403, 500}
  {
    match reason
    case Unauthenticated => 401
    case Forbidden => 403
    case UploadFailed => 500
    case _ => 400
  }

  const AllowedMimeTypes: seq<string> := ["image/jpeg", "image/jpg", "image/png", "image/gif", "image/webp"]

  /** 5 MiB. */
  const MaxFileSize: nat := 5 * 1024 * 1024

  /** `mimeToExt[type]`: the extensions each type may carry. */
  function ExtensionsFor(mimeType: string): Option<seq<string>>
  {
    if mimeType == "image/jpeg" then Some(["jpg", "jpeg"])
    else if mimeType == "image/png" then Some(["png"])
    else if mimeType == "image/gif" then Some(["gif"])
    else if mimeType == "image/webp" then Some(["webp"])
    else None
  }

  /** `magicNumbers[type]`: the bytes each type's content must begin with. */
  function MagicFor(mimeType: string): Option<seq<Byte>>
  {
    if mimeType == "image/jpeg" then Some([0xFF, 0xD8, 0xFF])
    else if mimeType == "image/png" then Some([0x89, 0x50, 0x4E, 0x47])
    else if mimeType == "image/gif" then Some([0x47, 0x49, 0x46, 0x38])
    else if mimeType == "image/webp" then Some([0x52, 0x49, 0x46, 0x46])
    else None
  }

  // ---------------------------------------------------------------------------
  // The extension
  // ---------------------------------------------------------------------------

  /** `name.split('.').pop()`: the text after the last dot, or the whole
      name when it has none. */
  function LastPiece(name: string): string
  {
    var parts := SplitOn(name, '.');
    parts[|parts| - 1]
  }

  /** The last piece is the longest dot-free end of the name: it is an end
      of the name, it has no dot, and what comes before it is either nothing
      or a dot. */
  lemma {:induction false} LastPieceIsEnd(name: string)
    ensures |LastPiece(name)| <= |name|
    ensures LastPiece(name) == name[|name| - |LastPiece(name)|..]
    ensures '.' !in LastPiece(name)
    ensures |LastPiece(name)| < |name| ==> name[|name| - |LastPiece(name)| - 1] == '.'
    decreases |name|
  {
    var i := IndexOfFrom(name, 0, '.');
    if i < |name| {
      var rest := name[i + 1..];
      assert SplitOn(name, '.') == [name[..i]] + SplitOn(rest, '.');
      assert LastPiece(name) == LastPiece(rest);
      LastPieceIsEnd(rest);
      assert name[|name| - |LastPiece(rest)|..] == rest[|rest| - |LastPiece(rest)|..];
      if |LastPiece(rest)| < |rest| {
        assert name[|name| - |LastPiece(rest)| - 1] == rest[|rest| - |LastPiece(rest)| - 1];
      }
    }
  }

  /** A name with no dot is its own extension. */
  lemma DotlessNameIsPiece(name: string)
    requires '.' !in name
    ensures LastPiece(name) == name
  {
    assert IndexOfFrom(name, 0, '.') == |name|;
  }

  /** The lower-cased extension, as the route compares it. */
  function Extension(name: string): string
  {
    Lower(LastPiece(name))
  }

  // ---------------------------------------------------------------------------
  // The magic number
  // ---------------------------------------------------------------------------

  /** `fileMagic[i]`: the byte at `i`, or `undefined` past the end. */
  function ByteAt(content: seq<Byte>, i: nat): Option<Byte>
  {
    if i < |content| then Some(content[i]) else None
  }

  /** `expected.every((byte, i) => fileMagic[i] === byte)`, where
      `fileMagic` holds at most as many bytes as `expected`; a missing byte
      is `undefined` and matches nothing. */
  predicate MagicMatches(content: seq<Byte>, expected: seq<Byte>)
  {
    forall i :: 0 <= i < |expected| ==> ByteAt(content, i) == Some(expected[i])
  }

  /** The magic check is a prefix test. */
  lemma {:induction false} MagicIsPrefix(content: seq<Byte>, expected: seq<Byte>)
    ensures MagicMatches(content, expected) <==> |expected| <= |content| && content[..|expected|] == expected
  {
    if MagicMatches(content, expected) {
      MagicFits(content, expected);
      assert content[..|expected|] == expected;
    }
    if |expected| <= |content| && content[..|expected|] == expected {
      forall i | 0 <= i < |expected|
        ensures ByteAt(content, i) == Some(expected[i])
      {
        assert content[..|expected|][i] == content[i];
      }
    }
  }

  /** A content that matches is at least as long as the magic number. */
  lemma MagicFits(content: seq<Byte>, expected: seq<Byte>)
    requires MagicMatches(content, expected)
    ensures |expected| <= |content|
  {
    if |expected| > 0 {
      var last := |expected| - 1;
      assert ByteAt(content, last) == Some(expected[last]);
    }
  }

  // ---------------------------------------------------------------------------
  // The checks
  // ---------------------------------------------------------------------------

  /** The organizer or admin role. */
  predicate MayUpload(user: User)
  {
    user.role == Some("organizer") || user.role == Some("admin")
  }

  /** The seven checks in order; the first that fails decides the answer.
      On success, the file's extension. */
  function Check(user: Option<User>, file: Option<UploadFile>): Result
  {
    if user.None? then Fail(Unauthenticated)
    else if !MayUpload(user.value) then Fail(Forbidden)
    else if file.None? then Fail(NoFile)
    else
      var f := file.value;
      if f.mimeType !in AllowedMimeTypes then Fail(InvalidType)
      else if f.size > MaxFileSize then Fail(TooLarge)
      else
        var ext := Extension(f.name);
        var allowed := ExtensionsFor(f.mimeType);
        if allowed.None? || ext == [] || ext !in allowed.value then Fail(ExtensionMismatch)
        else if MagicFor(f.mimeType).Some? && !MagicMatches(f.content, MagicFor(f.mimeType).value) then Fail(ContentMismatch)
        else Pass(ext)
  }

  datatype Result = Fail(reason: Rejection) | Pass(ext: string)

  /** `replace(/[^a-zA-Z0-9]/g, '')`: the ASCII letters and digits, in order. */
  function KeepAlnum(s: string): (r: string)
    ensures r == Filter(s, IsAlnum)
    ensures |r| <= |s|
    ensures forall i :: 0 <= i < |r| ==> IsAlnum(r[i])
  {
    if s == [] then []
    else
      FilterCons(s, IsAlnum);
      (if IsAlnum(s[0]) then [s[0]] else []) + KeepAlnum(s[1..])
  }

  /** The short tag made from the base64 text of the user's e-mail: its
      first eight characters with everything but letters and digits taken
      out. Base64 encoding itself is a library call and comes in as text. */
  function EmailTag(emailBase64: string): (r: string)
    ensures |r| <= 8
    ensures forall i :: 0 <= i < |r| ==> IsAlnum(r[i])
    ensures |emailBase64| <= 8 ==> r == Filter(emailBase64, IsAlnum)
    ensures |emailBase64| > 8 ==> r == Filter(emailBase64[..8], IsAlnum)
  {
    KeepAlnum(if |emailBase64| <= 8 then emailBase64 else emailBase64[..8])
  }

  /** `event-banners/{timestamp}-{random}-{tag}.{ext}`. */
  function FilePath(timestamp: nat, random: string, tag: string, ext: string): string
  {
    "event-banners/" + NatToString(timestamp) + "-" + random + "-" + tag + "." + ext
  }

  /** The stored path lies in the banner folder and ends with a dot and the
      checked extension. */
  lemma FilePathShape(timestamp: nat, random: string, tag: string, ext: string)
    ensures StartsWith(FilePath(timestamp, random, tag, ext), "event-banners/")
    ensures FilePath(timestamp, random, tag, ext)[|FilePath(timestamp, random, tag, ext)| - |ext| - 1..] == "." + ext
  {
    var p := FilePath(timestamp, random, tag, ext);
    assert p == "event-banners/" + (NatToString(timestamp) + "-" + random + "-" + tag + "." + ext);
    assert p == ("event-banners/" + NatToString(timestamp) + "-" + random + "-" + tag) + ("." + ext);
  }

  /** The whole request. `storageFails` is the storage service's answer. */
  function Post(user: Option<User>, file: Option<UploadFile>, timestamp: nat, random: string,
                emailBase64: string, storageFails: bool): Response
  {
    match Check(user, file)
    case Fail(reason) => Rejected(reason)
    case Pass(ext) =>
      if storageFails then Rejected(UploadFailed)
      else Uploaded(FilePath(timestamp, random, EmailTag(emailBase64), ext))
  }

  // ---------------------------------------------------------------------------
  // Properties
  // ---------------------------------------------------------------------------

  /** What an accepted upload is, stated without the order of the checks. */
  predicate Acceptable(user: Option<User>, file: Option<UploadFile>)
  {
    && user.Some? && MayUpload(user.value)
    && file.Some?
    && file.value.mimeType in AllowedMimeTypes
    && file.value.size <= MaxFileSize
    && ExtensionsFor(file.value.mimeType).Some?
    && Extension(file.value.name) != []
    && Extension(file.value.name) in ExtensionsFor(file.value.mimeType).value
    && MagicFor(file.value.mimeType).Some?
    && MagicMatches(file.value.content, MagicFor(file.value.mimeType).value)
  }

  /** Every type with an extension entry has a magic number. */
  lemma MagicForEveryExtensionType(mimeType: string)
    ensures ExtensionsFor(mimeType).Some? ==> MagicFor(mimeType).Some?
    ensures ExtensionsFor(mimeType).Some? ==> mimeType in AllowedMimeTypes
  {
  }

  /** A request passes the checks exactly when it is acceptable, and then
      carries the file's lower-cased extension; the magic-number step is
      never skipped. */
  lemma CheckPassesIffAcceptable(user: Option<User>, file: Option<UploadFile>)
    ensures Check(user, file).Pass? <==> Acceptable(user, file)
    ensures Check(user, file).Pass? ==> Check(user, file).ext == Extension(file.value.name)
  {
    if file.Some? {
      MagicForEveryExtensionType(file.value.mimeType);
    }
  }

  /** The first failing check decides: no session beats everything else,
      a wrong role beats every file problem. */
  lemma FirstFailureDecides(user: Option<User>, file: Option<UploadFile>)
    ensures user.None? ==> Check(user, file) == Fail(Unauthenticated)
    ensures user.Some? && !MayUpload(user.value) ==> Check(user, file) == Fail(Forbidden)
    ensures user.Some? && MayUpload(user.value) && file.None? ==> Check(user, file) == Fail(NoFile)
  {
  }

  /** `image/jpg` is on the allow-list but has no extensions, so every such
      upload is turned away at the extension step. */
  lemma JpgAlwaysRejected(user: User, f: UploadFile)
    requires MayUpload(user) && f.mimeType == "image/jpg" && f.size <= MaxFileSize
    ensures Check(Some(user), Some(f)) == Fail(ExtensionMismatch)
  {
    assert f.mimeType in AllowedMimeTypes;
  }

  /** Exactly 5 MiB passes the size step; one byte more does not. */
  lemma SizeBoundary(user: User, f: UploadFile)
    requires MayUpload(user) && f.mimeType in AllowedMimeTypes
    ensures f.size == MaxFileSize ==> Check(Some(user), Some(f)) != Fail(TooLarge)
    ensures f.size == MaxFileSize + 1 ==> Check(Some(user), Some(f)) == Fail(TooLarge)
  {
  }

  /** A file named just `png`, declared as PNG and starting with the PNG
      signature, is accepted with extension `png`. */
  lemma DotlessPngAccepted(user: User, size: nat, content: seq<Byte>)
    requires MayUpload(user) && size <= MaxFileSize
    requires |content| >= 4 && content[..4] == [0x89, 0x50, 0x4E, 0x47]
    ensures Check(Some(user), Some(UploadFile("png", "image/png", size, content))) == Pass("png")
  {
    DotlessNameIsPiece("png");
    assert Lower("png") == "png";
    MagicIsPrefix(content, [0x89, 0x50, 0x4E, 0x47]);
    assert "image/png" in AllowedMimeTypes;
  }

  /** A WebP upload is checked for `RIFF` only: any RIFF container passes
      the content step. */
  lemma WebpChecksRiffOnly(content: seq<Byte>)
    requires |content| >= 4 && content[..4] == [0x52, 0x49, 0x46, 0x46]
    ensures MagicMatches(content, MagicFor("image/webp").value)
  {
    MagicIsPrefix(content, [0x52, 0x49, 0x46, 0x46]);
  }

  /** A stored file is an acceptable one whose path ends with its own
      lower-cased extension. */
  lemma UploadedIsAcceptable(user: Option<User>, file: Option<UploadFile>, timestamp: nat,
                             random: string, emailBase64: string, storageFails: bool)
    requires Post(user, file, timestamp, random, emailBase64, storageFails).Uploaded?
    ensures Acceptable(user, file) && !storageFails
    ensures Post(user, file, timestamp, random, emailBase64, storageFails).path
         == FilePath(timestamp, random, EmailTag(emailBase64), Extension(file.value.name))
  {
    CheckPassesIffAcceptable(user, file);
  }
}
