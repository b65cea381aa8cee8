/** The earliest media-type resolver: a three-valued enum without `UNKNOWN`, a `switch`
    for the content type and a dictionary for the Drive MIME type.

    A C# enum is an integer, and any integer can be cast to it, so the enum is modelled by
    its underlying value: that is how the `switch` fall-through and the dictionary miss
    become observable.
 */
module EarliestMediaSettings {
  import opened Wrappers

  /** Underlying values of the declared members PNG, EXCEL, MP4. */
  const PNG: int := 0
  const EXCEL: int := 1
  const MP4: int := 2

  predicate IsDeclared(t: int) {
    t == PNG || t == EXCEL || t == MP4
  }

  const MediaToMIME: map<int, string> :=
    map[PNG := "application/vnd.google-apps.photo",
        MP4 := "application/vnd.google-apps.video",
        EXCEL := "application/vnd.google-apps.spreadsheet"]

  /** The message of a `NotSupportedException` constructed without one. */
  const DefaultNotSupportedMessage: string := "Specified method is not supported."

  /** The upload content type; a value the `switch` does not list yields "" rather than an
      exception. */
  function GetContentType(t: int): (r: string)
    ensures t == PNG ==> r == "image/png"
    ensures t == MP4 ==> r == "video/mp4"
    ensures t == EXCEL ==> r == "application/vnd.ms-excel"
    ensures r == "" <==> !IsDeclared(t)
  {
    if t == PNG then "image/png"
    else if t == MP4 then "video/mp4"
    else if t == EXCEL then "application/vnd.ms-excel"
    else ""
  }

  /** The Google Drive MIME type; throws a `NotSupportedException` with the default
      message for a value missing from the dictionary. */
  function GetMimeType(t: int): (r: Result<string>)
    ensures r.Success? <==> t in MediaToMIME
    ensures t == PNG ==> r == Success("application/vnd.google-apps.photo")
    ensures t == MP4 ==> r == Success("application/vnd.google-apps.video")
    ensures t == EXCEL ==> r == Success("application/vnd.google-apps.spreadsheet")
    ensures r.Failure? ==> r.error == NotSupported(DefaultNotSupportedMessage)
  {
    if t in MediaToMIME then Success(MediaToMIME[t]) else Failure(NotSupported(DefaultNotSupportedMessage))
  }

  /** The dictionary lists every declared member and nothing else, so `GetMimeType` is
      total on the declared enum and fails exactly on undeclared casts, where
      `GetContentType` answers "". */
  lemma MimeTypeTotalOnDeclaredValues(t: int)
    ensures GetMimeType(t).Success? <==> IsDeclared(t)
    ensures GetMimeType(t).Failure? <==> GetContentType(t) == ""
  {
  }
}
