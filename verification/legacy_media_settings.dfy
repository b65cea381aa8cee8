/** An earlier media-type resolver: three hand-written dictionaries (content type,
    Drive MIME type, extension) over a four-valued enum with an `UNKNOWN = -1` member.
    Unknown extensions map to `UNKNOWN`; the two media-keyed lookups throw
    `NotSupportedException` for a kind they do not list.
 */
module LegacyMediaSettings {
  import opened Wrappers
  import Paths

  /** Declared as UNKNOWN = -1, PNG = 0, EXCEL = 1, MP4 = 2. */
  datatype EMediaType = UNKNOWN | PNG | EXCEL | MP4

  function Name(t: EMediaType): string {
    match t
    case UNKNOWN => "UNKNOWN"
    case PNG => "PNG"
    case EXCEL => "EXCEL"
    case MP4 => "MP4"
  }

  const MediaToContentType: map<EMediaType, string> :=
    map[PNG := "image/png", MP4 := "video/mp4", EXCEL := "vnd.ms-excel"]

  const MediaToMIME: map<EMediaType, string> :=
    map[PNG := "application/vnd.google-apps.photo",
        MP4 := "application/vnd.google-apps.video",
        EXCEL := "application/vnd.google-apps.spreadsheet"]

  const ExtensionToMedia: map<string, EMediaType> :=
    map[".png" := PNG, ".mp4" := MP4, ".xlsx" := EXCEL]

  function UnknownTypeMessage(t: EMediaType): string {
    "unknown type : " + Name(t)
  }

  /** The media kind of a path: PNG, MP4 or EXCEL for ".png", ".mp4" or ".xlsx",
      `UNKNOWN` for every other extension (never an exception). */
  function GetMediaType(filePath: string): (r: EMediaType)
    ensures Paths.GetExtension(filePath) == ".png" ==> r == PNG
    ensures Paths.GetExtension(filePath) == ".mp4" ==> r == MP4
    ensures Paths.GetExtension(filePath) == ".xlsx" ==> r == EXCEL
    ensures r == UNKNOWN <==> Paths.GetExtension(filePath) !in {".png", ".mp4", ".xlsx"}
  {
    var ext := Paths.GetExtension(filePath);
    if ext !in ExtensionToMedia then UNKNOWN else ExtensionToMedia[ext]
  }

  /** The upload content type: "image/png", "video/mp4", or the bare "vnd.ms-excel". */
  function GetContentType(t: EMediaType): (r: Result<string>)
    ensures r.Success? <==> t != UNKNOWN
    ensures t == PNG ==> r == Success("image/png")
    ensures t == MP4 ==> r == Success("video/mp4")
    ensures t == EXCEL ==> r == Success("vnd.ms-excel")
    ensures r.Failure? ==> r.error == NotSupported(UnknownTypeMessage(t))
  {
    if t in MediaToContentType then Success(MediaToContentType[t])
    else Failure(NotSupported(UnknownTypeMessage(t)))
  }

  /** The Google Drive MIME type: photo, video or spreadsheet. */
  function GetMimeType(t: EMediaType): (r: Result<string>)
    ensures r.Success? <==> t != UNKNOWN
    ensures t == PNG ==> r == Success("application/vnd.google-apps.photo")
    ensures t == MP4 ==> r == Success("application/vnd.google-apps.video")
    ensures t == EXCEL ==> r == Success("application/vnd.google-apps.spreadsheet")
    ensures r.Failure? ==> r.error == NotSupported(UnknownTypeMessage(t))
  {
    if t in MediaToMIME then Success(MediaToMIME[t])
    else Failure(NotSupported(UnknownTypeMessage(t)))
  }

  /** The three tables share one key set, so both media-keyed lookups succeed on exactly
      the kinds that `GetMediaType` can return other than `UNKNOWN`. */
  lemma LookupsDefinedExactlyOnResolvableKinds(t: EMediaType)
    ensures GetContentType(t).Success? <==> GetMimeType(t).Success?
    ensures GetContentType(t).Success? <==> (t != UNKNOWN && exists p :: GetMediaType(p) == t)
  {
    if t != UNKNOWN {
      PathResolvesTo(t);
    }
  }

  /** The bare extension of a resolvable kind resolves back to it. */
  lemma PathResolvesTo(t: EMediaType)
    requires t != UNKNOWN
    ensures GetMediaType(if t == PNG then ".png" else if t == MP4 then ".mp4" else ".xlsx") == t
  {
    var ext := if t == PNG then ".png" else if t == MP4 then ".mp4" else ".xlsx";
    Paths.ExtensionOfAppended("", ext);
    assert "" + ext == ext;
  }

  /** The EXCEL content type is the literal "vnd.ms-excel": it lacks the "application/"
      prefix that a MIME type needs. */
  lemma ExcelContentTypeLacksPrefix()
    ensures GetContentType(EXCEL).Success?
    ensures !("application/" <= GetContentType(EXCEL).value)
  {
    assert GetContentType(EXCEL).value[0] != "application/"[0];
  }
}
