/** The current media-type resolver: one ordered table of bindings
    (media kind, local MIME, remote MIME, file extension), from which six dictionaries
    are built, one per lookup direction.
 */
module MediaSettings {
  import opened Wrappers
  import Dictionaries
  import Paths

  datatype EMediaType = UNKNOWN | PNG | JPG | MP4 | MP3 | ZIP | EXCEL

  /** The enum member's name, as `string.Format` renders it in exception messages. */
  function Name(t: EMediaType): string {
    match t
    case UNKNOWN => "UNKNOWN"
    case PNG => "PNG"
    case JPG => "JPG"
    case MP4 => "MP4"
    case MP3 => "MP3"
    case ZIP => "ZIP"
    case EXCEL => "EXCEL"
  }

  datatype MediaBinding = MediaBinding(
    mediaType: EMediaType,
    localMimeType: string,   // MIME type sent with an upload
    remoteMimeType: string,  // MIME type Drive reports for a stored file
    fileExtension: string)

  const XlsxMime: string := "application/vnd.openxmlformats-officedocument.spreadsheetml.sheet"
  const SpreadsheetMime: string := "application/vnd.google-apps.spreadsheet"

  const MediaBindings: seq<MediaBinding> := [
    MediaBinding(PNG, "image/png", "image/png", ".png"),
    MediaBinding(JPG, "image/jpeg", "image/jpeg", ".jpg"),
    MediaBinding(MP4, "video/mp4", "video/mp4", ".mp4"),
    MediaBinding(MP3, "audio/mp3", "audio/mp3", ".mp3"),
    MediaBinding(ZIP, "application/zip", "application/zip", ".zip"),
    MediaBinding(EXCEL, XlsxMime, SpreadsheetMime, ".xlsx")
  ]

  // Column selectors handed to ToDictionary.
  const MediaColumn: MediaBinding -> EMediaType := (b: MediaBinding) => b.mediaType
  const LocalMimeColumn: MediaBinding -> string := (b: MediaBinding) => b.localMimeType
  const RemoteMimeColumn: MediaBinding -> string := (b: MediaBinding) => b.remoteMimeType
  const ExtensionColumn: MediaBinding -> string := (b: MediaBinding) => b.fileExtension

  // The six static dictionaries; a duplicate key would make the class initializer throw.
  const LocalMediaToMime := Dictionaries.ToDictionary(MediaBindings, MediaColumn, LocalMimeColumn)
  const LocalMimeToMedia := Dictionaries.ToDictionary(MediaBindings, LocalMimeColumn, MediaColumn)
  const RemoteMediaToMime := Dictionaries.ToDictionary(MediaBindings, MediaColumn, RemoteMimeColumn)
  const RemoteMimeToMedia := Dictionaries.ToDictionary(MediaBindings, RemoteMimeColumn, MediaColumn)
  const MediaToExt := Dictionaries.ToDictionary(MediaBindings, MediaColumn, ExtensionColumn)
  const ExtToMedia := Dictionaries.ToDictionary(MediaBindings, ExtensionColumn, MediaColumn)

  /** Some binding is for media kind `t`. */
  predicate IsBound(t: EMediaType) {
    exists b :: b in MediaBindings && b.mediaType == t
  }

  /** Some binding uploads with local MIME type `mime`. */
  predicate IsLocalMime(mime: string) {
    exists b :: b in MediaBindings && b.localMimeType == mime
  }

  /** Some binding is stored remotely with MIME type `mime`. */
  predicate IsRemoteMime(mime: string) {
    exists b :: b in MediaBindings && b.remoteMimeType == mime
  }

  /** Some binding has file extension `ext`. */
  predicate IsRegisteredExtension(ext: string) {
    exists b :: b in MediaBindings && b.fileExtension == ext
  }

  function UnknownMediaMessage(t: EMediaType): string {
    "unknown EMediaType : " + Name(t)
  }

  function UnknownMimeMessage(mime: string): string {
    "unknown MimeType : " + mime
  }

  /** Every column of the table is duplicate-free, `UNKNOWN` has no binding, and every
      extension is well formed; hence all six dictionaries are built. */
  lemma TableIsWellFormed()
    ensures Dictionaries.DistinctKeys(MediaBindings, MediaColumn)
    ensures Dictionaries.DistinctKeys(MediaBindings, LocalMimeColumn)
    ensures Dictionaries.DistinctKeys(MediaBindings, RemoteMimeColumn)
    ensures Dictionaries.DistinctKeys(MediaBindings, ExtensionColumn)
    ensures !IsBound(UNKNOWN)
    ensures forall b :: b in MediaBindings ==> Paths.IsExtension(b.fileExtension)
    ensures forall b :: b in MediaBindings ==> !Paths.HasInvalidPathChar(b.fileExtension)
  {
    MediaColumnIsDistinct();
    LocalMimeColumnIsDistinct();
    RemoteMimeColumnIsDistinct();
    ExtensionColumnIsDistinct();
    UnknownIsUnbound();
    ExtensionsAreWellFormed();
    ExtensionsAreValidPathText();
  }

  lemma UnknownIsUnbound()
    ensures !IsBound(UNKNOWN)
  {
  }

  lemma ExtensionsAreValidPathText()
    ensures forall b :: b in MediaBindings ==> !Paths.HasInvalidPathChar(b.fileExtension)
  {
    forall b | b in MediaBindings
      ensures !Paths.HasInvalidPathChar(b.fileExtension)
    {
      var ext := b.fileExtension;
      assert ext in {".png", ".jpg", ".mp4", ".mp3", ".zip", ".xlsx"};
      assert forall i :: 0 <= i < |ext| ==> ext[i] == '.' || '0' <= ext[i] <= 'z';
    }
  }

  lemma ExtensionsAreWellFormed()
    ensures forall b :: b in MediaBindings ==> Paths.IsExtension(b.fileExtension)
  {
    forall b | b in MediaBindings
      ensures Paths.IsExtension(b.fileExtension)
    {
      var ext := b.fileExtension;
      assert ext in {".png", ".jpg", ".mp4", ".mp3", ".zip", ".xlsx"};
    }
  }

  // One column per lemma keeps each solver query small.
  lemma MediaColumnIsDistinct()
    ensures Dictionaries.DistinctKeys(MediaBindings, MediaColumn)
  {
  }

  lemma LocalMimeColumnIsDistinct()
    ensures Dictionaries.DistinctKeys(MediaBindings, LocalMimeColumn)
  {
  }

  lemma RemoteMimeColumnIsDistinct()
    ensures Dictionaries.DistinctKeys(MediaBindings, RemoteMimeColumn)
  {
  }

  lemma ExtensionColumnIsDistinct()
    ensures Dictionaries.DistinctKeys(MediaBindings, ExtensionColumn)
  {
  }

  /** The file extension of media kind `t`. */
  function GetExtensionFromMedia(t: EMediaType): (r: Result<string>)
    ensures r.Success? <==> IsBound(t)
    ensures forall b :: b in MediaBindings && b.mediaType == t ==> r == Success(b.fileExtension)
    ensures r.Failure? ==> r.error == NotSupported(UnknownMediaMessage(t))
  {
    TableIsWellFormed();
    match MediaToExt
    case Failure(e) => Failure(e)
    case Success(d) => if t in d then Success(d[t]) else Failure(NotSupported(UnknownMediaMessage(t)))
  }

  /** The media kind of a path, by its extension; `UNKNOWN` rather than an exception
      when the extension is not registered. Extensions are compared exactly, so case
      matters. */
  function GetMediaFromPath(filePath: string): (r: EMediaType)
    ensures forall b :: b in MediaBindings && b.fileExtension == Paths.GetExtension(filePath) ==> r == b.mediaType
    ensures r == UNKNOWN <==> !IsRegisteredExtension(Paths.GetExtension(filePath))
  {
    TableIsWellFormed();
    var ext := Paths.GetExtension(filePath);
    match ExtToMedia
    case Failure(_) => UNKNOWN
    case Success(d) => if ext !in d then UNKNOWN else d[ext]
  }

  /** The MIME type an upload of media kind `t` is sent with. */
  function GetLocalMimeFromMedia(t: EMediaType): (r: Result<string>)
    ensures r.Success? <==> IsBound(t)
    ensures forall b :: b in MediaBindings && b.mediaType == t ==> r == Success(b.localMimeType)
    ensures r.Failure? ==> r.error == NotSupported(UnknownMediaMessage(t))
  {
    TableIsWellFormed();
    match LocalMediaToMime
    case Failure(e) => Failure(e)
    case Success(d) => if t in d then Success(d[t]) else Failure(NotSupported(UnknownMediaMessage(t)))
  }

  /** The media kind whose uploads use local MIME type `mime`. */
  function GetMediaFromLocalMime(mime: string): (r: Result<EMediaType>)
    ensures r.Success? <==> IsLocalMime(mime)
    ensures forall b :: b in MediaBindings && b.localMimeType == mime ==> r == Success(b.mediaType)
    ensures r.Failure? ==> r.error == NotSupported(UnknownMimeMessage(mime))
  {
    TableIsWellFormed();
    match LocalMimeToMedia
    case Failure(e) => Failure(e)
    case Success(d) => if mime in d then Success(d[mime]) else Failure(NotSupported(UnknownMimeMessage(mime)))
  }

  /** The MIME type Drive reports for a stored file of media kind `t`. */
  function GetRemoteMimeFromMedia(t: EMediaType): (r: Result<string>)
    ensures r.Success? <==> IsBound(t)
    ensures forall b :: b in MediaBindings && b.mediaType == t ==> r == Success(b.remoteMimeType)
    ensures r.Failure? ==> r.error == NotSupported(UnknownMediaMessage(t))
  {
    TableIsWellFormed();
    match RemoteMediaToMime
    case Failure(e) => Failure(e)
    case Success(d) => if t in d then Success(d[t]) else Failure(NotSupported(UnknownMediaMessage(t)))
  }

  /** The media kind of a stored file whose Drive MIME type is `mime`. */
  function GetMediaFromRemoteMime(mime: string): (r: Result<EMediaType>)
    ensures r.Success? <==> IsRemoteMime(mime)
    ensures forall b :: b in MediaBindings && b.remoteMimeType == mime ==> r == Success(b.mediaType)
    ensures r.Failure? ==> r.error == NotSupported(UnknownMimeMessage(mime))
  {
    TableIsWellFormed();
    match RemoteMimeToMedia
    case Failure(e) => Failure(e)
    case Success(d) => if mime in d then Success(d[mime]) else Failure(NotSupported(UnknownMimeMessage(mime)))
  }

  /** Local MIME lookups are mutually inverse: media kind to MIME and back, and MIME to
      media kind and back. */
  lemma LocalMimeRoundTrip(t: EMediaType, mime: string)
    ensures IsBound(t) ==>
      GetLocalMimeFromMedia(t).Success? && GetMediaFromLocalMime(GetLocalMimeFromMedia(t).value) == Success(t)
    ensures IsLocalMime(mime) ==>
      GetMediaFromLocalMime(mime).Success? && GetLocalMimeFromMedia(GetMediaFromLocalMime(mime).value) == Success(mime)
  {
  }

  /** Remote MIME lookups are mutually inverse in both directions. */
  lemma RemoteMimeRoundTrip(t: EMediaType, mime: string)
    ensures IsBound(t) ==>
      GetRemoteMimeFromMedia(t).Success? && GetMediaFromRemoteMime(GetRemoteMimeFromMedia(t).value) == Success(t)
    ensures IsRemoteMime(mime) ==>
      GetMediaFromRemoteMime(mime).Success? && GetRemoteMimeFromMedia(GetMediaFromRemoteMime(mime).value) == Success(mime)
  {
  }

  /** Any path ending in the extension of a bound media kind resolves back to that kind. */
  lemma ExtensionRoundTrip(t: EMediaType, stem: string)
    requires IsBound(t)
    ensures GetExtensionFromMedia(t).Success?
    ensures GetMediaFromPath(stem + GetExtensionFromMedia(t).value) == t
  {
    TableIsWellFormed();
    var b :| b in MediaBindings && b.mediaType == t;
    Paths.ExtensionOfAppended(stem, b.fileExtension);
  }

  /** Extensions match by exact string equality: ".PNG" is not ".png". */
  lemma ExtensionMatchIsCaseSensitive(stem: string)
    ensures GetMediaFromPath(stem + ".png") == PNG
    ensures GetMediaFromPath(stem + ".PNG") == UNKNOWN
  {
    ExtensionRoundTrip(PNG, stem);
    assert MediaBindings[0] in MediaBindings;
    UnregisteredExtensionIsUnknown(stem, ".PNG");
  }

  /** A path whose extension is not in the table resolves to `UNKNOWN`; ".txt" and
      ".PNG" are such extensions. */
  lemma UnregisteredExtensionIsUnknown(stem: string, ext: string)
    requires ext == ".txt" || ext == ".PNG"
    ensures GetMediaFromPath(stem + ext) == UNKNOWN
  {
    Paths.ExtensionOfAppended(stem, ext);
    NotRegistered(ext);
  }

  /** Neither ".txt" nor ".PNG" is in the table: their second characters differ from
      those of every registered extension. */
  lemma NotRegistered(ext: string)
    requires ext == ".txt" || ext == ".PNG"
    ensures !IsRegisteredExtension(ext)
  {
    RegisteredExtensions();
    assert ext[1] == 't' || ext[1] == 'P';
    assert forall e :: e in {".png", ".jpg", ".mp4", ".mp3", ".zip", ".xlsx"} ==> e[1] != 't' && e[1] != 'P';
  }

  /** The registered extensions, listed. */
  lemma RegisteredExtensions()
    ensures forall ext :: IsRegisteredExtension(ext) ==> ext in {".png", ".jpg", ".mp4", ".mp3", ".zip", ".xlsx"}
  {
  }

  /** Uploads and stored files share one MIME type for every bound kind except EXCEL,
      which uploads as an xlsx workbook and is stored as a Google spreadsheet. */
  lemma LocalAndRemoteMimeDifferOnlyForExcel(t: EMediaType)
    requires IsBound(t)
    ensures GetLocalMimeFromMedia(t) == GetRemoteMimeFromMedia(t) <==> t != EXCEL
    ensures t == EXCEL ==> GetLocalMimeFromMedia(t) == Success(XlsxMime)
    ensures t == EXCEL ==> GetRemoteMimeFromMedia(t) == Success(SpreadsheetMime)
  {
    var b :| b in MediaBindings && b.mediaType == t;
    if t == EXCEL {
      assert b == MediaBindings[5];
      assert |XlsxMime| != |SpreadsheetMime|;
    } else {
      assert b.localMimeType == b.remoteMimeType;
    }
  }
}
