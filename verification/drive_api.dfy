/** The one piece of the Drive client that is pure string logic: the browser link of a
    file. Every other call of the client (list, delete, download, upload, authorisation)
    is network I/O and enters the model only as an input or an outcome.
 */
module DriveApi {

  const OpenUrlPrefix: string := "https://drive.google.com/open?id="

  /** The URL that opens file `fileId` in Google Drive: the id appended to a fixed
      prefix, so the id can be read back from the URL. */
  function GetFileURL(fileId: string): (url: string)
    ensures OpenUrlPrefix <= url
    ensures url[|OpenUrlPrefix|..] == fileId
  {
    OpenUrlPrefix + fileId
  }

  /** Distinct files get distinct links. */
  lemma FileUrlIsInjective(a: string, b: string)
    requires GetFileURL(a) == GetFileURL(b)
    ensures a == b
  {
    assert a == GetFileURL(a)[|OpenUrlPrefix|..];
  }
}
