/** The file list of the viewer window (the newer `FileTreeView`) without its drawing:
    the rows it shows, the selection, the three busy flags, and whether a fetch has been
    queued for the editor's next update.

    Each `async` operation is split at its `await` into a Begin and an End transition.
    An exception from the awaited work is rethrown inside an `async void` method, so the
    code after the `await` never runs: the End transitions then leave the view as it
    was, busy flag included. A `Reload()` queued with `EditorApplication.delayCall` only
    rebuilds the displayed rows from the list the view already holds, so it is applied
    at once; a queued `ReloadFilesAsync` is the `reloadScheduled` flag.
 */
module FileTreeView {
  import opened Wrappers
  import opened TreeRows
  import opened RowOrder
  import MediaSettings
  import Paths
  import DriveApi

  datatype View = View(
    items: seq<Row>,        // CurrentBindingItems, which are also the displayed rows
    selection: seq<int>,    // ids of the selected rows, in selection order
    isGettingFile: bool,
    isDeletingFile: bool,
    isDownloadingFile: bool,
    reloadScheduled: bool)  // a ReloadFilesAsync queued with delayCall

  /** The window greys out its toolbar and the list while any of the three operations
      is running. */
  predicate ControlsEnabled(v: View) {
    !(v.isGettingFile || v.isDeletingFile || v.isDownloadingFile)
  }

  /** A new view: the constructor's `Reload()` builds the root from a null list, which
      `BuildRoot` replaces by an empty one; nothing is selected or running. */
  function Create(): (v: View)
    ensures v.items == [] && v.selection == []
    ensures ControlsEnabled(v) && !v.reloadScheduled
  {
    View(BuildRootChildren(None), [], false, false, false, false)
  }

  /** Drops every row; nothing else changes. */
  function ClearTreeItems(v: View): (r: View)
    ensures r.items == [] && BuildRootChildren(Some(r.items)) == []
    ensures r.(items := v.items) == v
  {
    v.(items := [])
  }

  // ---------------------------------------------------------------------------------
  // Fetching the file list

  /** `ReloadFilesAsync` up to its `await`: the fetch starts and the controls grey out. */
  function BeginReload(v: View): (r: View)
    ensures r.isGettingFile && !ControlsEnabled(r)
    ensures r.(isGettingFile := v.isGettingFile) == v
  {
    v.(isGettingFile := true)
  }

  /** The editor's next update runs a queued `ReloadFilesAsync`, if there is one. */
  function RunScheduledReload(v: View): (r: View)
    ensures !r.reloadScheduled
    ensures v.reloadScheduled ==> r == BeginReload(v.(reloadScheduled := false))
    ensures !v.reloadScheduled ==> r == v
  {
    if v.reloadScheduled then BeginReload(v.(reloadScheduled := false)) else v
  }

  /** `ReloadFilesAsync` after its `await`, given what the file listing returned (a list
      that may be null, or an exception). A non-empty list replaces the rows, numbered
      by position; a null or empty list keeps the previous rows. Either way the flag is
      cleared and the selection cancelled. When the listing threw, nothing after the
      `await` runs and the view, flag included, stays as it was. */
  function EndReload(v: View, fetched: Result<Option<seq<DriveFile>>>): (r: View)
    ensures fetched.Failure? ==> r == v
    ensures fetched.Success? ==> !r.isGettingFile && r.selection == []
    ensures fetched.Success? ==>
      r.isDeletingFile == v.isDeletingFile && r.isDownloadingFile == v.isDownloadingFile
      && r.reloadScheduled == v.reloadScheduled
    ensures fetched.Success? && fetched.value.Some? && |fetched.value.value| > 0 ==>
      Files(r.items) == fetched.value.value && IdsAreIndices(r.items)
    ensures fetched.Success? && (fetched.value.None? || |fetched.value.value| == 0) ==>
      r.items == v.items
  {
    match fetched
    case Failure(_) => v
    case Success(files) =>
      var items := if files.Some? && |files.value| > 0 then RegisterFiles(files.value) else v.items;
      v.(items := items, isGettingFile := false, selection := [])
  }

  /** A fetch that throws leaves the window greyed out: `IsGettingFile` is never reset. */
  lemma FailedReloadKeepsControlsDisabled(v: View, e: Exception)
    ensures !ControlsEnabled(EndReload(BeginReload(v), Failure(e)))
  {
  }

  // ---------------------------------------------------------------------------------
  // Sorting by a header column

  /** The header changed its sort column or direction: the rows are stably sorted on
      column `index` (0 = name, 1 = id, 2 = MIME type) in the requested direction and
      then renumbered 0..n-1 in their new order. Any other index throws. */
  function SortByHeader(v: View, index: int, ascending: bool, le: (string, string) -> bool): (r: Result<View>)
    requires TotalPreorder(le)
    ensures r.Success? <==> 0 <= index < 3
    ensures r.Failure? ==> r.error == ArgumentOutOfRange("index", Some(index))
    ensures r.Success? ==> r.value.(items := v.items) == v
    ensures r.Success? ==> IdsAreIndices(r.value.items)
    ensures r.Success? ==> multiset(Files(r.value.items)) == multiset(Files(v.items))
    ensures r.Success? ==> Sorted(r.value.items, ColumnAt(index).value, Direction(le, ascending))
    ensures r.Success? ==> forall k ::
      Files(Ties(r.value.items, ColumnAt(index).value, Direction(le, ascending), k))
      == Files(Ties(v.items, ColumnAt(index).value, Direction(le, ascending), k))
  {
    match ColumnAt(index)
    case Failure(e) => Failure(e)
    case Success(c) =>
      RenumberedOrder(v.items, c, ascending, le);
      Success(v.(items := Renumber(OrderRows(v.items, c, ascending, le))))
  }

  /** The facts about sorted-then-renumbered rows that `SortByHeader` promises. */
  lemma RenumberedOrder(rows: seq<Row>, c: SortColumn, ascending: bool, le: (string, string) -> bool)
    requires TotalPreorder(le)
    ensures var r := Renumber(OrderRows(rows, c, ascending, le));
      && multiset(Files(r)) == multiset(Files(rows))
      && Sorted(r, c, Direction(le, ascending))
      && forall k :: Files(Ties(r, c, Direction(le, ascending), k)) == Files(Ties(rows, c, Direction(le, ascending), k))
  {
    var sorted := OrderRows(rows, c, ascending, le);
    var r := Renumber(sorted);
    FilesOfPermutation(sorted, rows);
    SortedIgnoresIds(sorted, r, c, Direction(le, ascending));
    forall k
      ensures Files(Ties(r, c, Direction(le, ascending), k)) == Files(Ties(rows, c, Direction(le, ascending), k))
    {
      TiesIgnoreIds(r, sorted, c, Direction(le, ascending), k);
    }
  }

  /** Clicking the same header state twice changes nothing the second time. */
  lemma SortByHeaderIsIdempotent(v: View, index: int, ascending: bool, le: (string, string) -> bool)
    requires TotalPreorder(le)
    requires 0 <= index < 3
    ensures SortByHeader(v, index, ascending, le).Success?
    ensures var once := SortByHeader(v, index, ascending, le).value;
      SortByHeader(once, index, ascending, le) == Success(once)
  {
    var c := ColumnAt(index).value;
    var once := SortByHeader(v, index, ascending, le).value;
    OrderRowsIsIdempotent(once.items, c, ascending, le);
    RenumberIsRegister(once.items);
  }

  // ---------------------------------------------------------------------------------
  // The context menu

  /** `GetRows()[id]`: the displayed row at position `id`; the list indexer throws for a
      position outside the list. While ids equal positions this is the row whose id is
      `id`. */
  function RowAt(rows: seq<Row>, id: int): (r: Result<Row>)
    ensures r.Success? <==> 0 <= id < |rows|
    ensures r.Success? ==> r.value in rows
    ensures r.Success? && IdsAreIndices(rows) ==> r.value.id == id
    ensures r.Failure? ==> r.error == IndexerOutOfRange
  {
    if 0 <= id < |rows| then Success(rows[id]) else Failure(IndexerOutOfRange)
  }

  /** "Open file": the browser link of the clicked row's file. */
  function OpenFileUrl(v: View, id: int): (r: Result<string>)
    ensures r.Success? <==> 0 <= id < |v.items|
    ensures r.Success? ==> r.value == DriveApi.GetFileURL(v.items[id].fileId)
    ensures r.Success? && IdsAreIndices(v.items) ==>
      exists row :: row in v.items && row.id == id && r.value == DriveApi.GetFileURL(row.fileId)
  {
    match RowAt(v.items, id)
    case Failure(e) => Failure(e)
    case Success(item) => Success(DriveApi.GetFileURL(item.fileId))
  }

  /** "Copy/ID": the text put on the clipboard. */
  function CopyFileId(v: View, id: int): (r: Result<string>)
    ensures r.Success? <==> 0 <= id < |v.items|
    ensures r.Success? && IdsAreIndices(v.items) ==>
      exists row :: row in v.items && row.id == id && r.value == row.fileId
  {
    match RowAt(v.items, id)
    case Failure(e) => Failure(e)
    case Success(item) => Success(item.fileId)
  }

  /** "Copy/MimeType": the text put on the clipboard. */
  function CopyMimeType(v: View, id: int): (r: Result<string>)
    ensures r.Success? <==> 0 <= id < |v.items|
    ensures r.Success? && IdsAreIndices(v.items) ==>
      exists row :: row in v.items && row.id == id && r.value == row.mimeType
  {
    match RowAt(v.items, id)
    case Failure(e) => Failure(e)
    case Success(item) => Success(item.mimeType)
  }

  // ---------------------------------------------------------------------------------
  // Downloading a file

  /** What a started download fetches and under which local name. */
  datatype DownloadStart = DownloadStart(view: View, fileId: string, fileName: string)

  /** `DownloadFileAsync` up to its `await`: the local name is the file name followed by
      the extension bound to the file's Drive MIME type. A position outside the list, an
      unbound MIME type, or a file name that `Path.Combine` rejects on Windows throws
      before `IsDownloadingFile` is set. */
  function BeginDownload(v: View, id: int): (r: Result<DownloadStart>)
    ensures r.Success? <==>
      && 0 <= id < |v.items|
      && MediaSettings.IsRemoteMime(v.items[id].mimeType)
      && !Paths.HasInvalidPathChar(v.items[id].fileName)
    ensures !(0 <= id < |v.items|) ==> r == Failure(IndexerOutOfRange)
    ensures 0 <= id < |v.items| && !MediaSettings.IsRemoteMime(v.items[id].mimeType) ==>
      r == Failure(NotSupported(MediaSettings.UnknownMimeMessage(v.items[id].mimeType)))
    ensures 0 <= id < |v.items| && MediaSettings.IsRemoteMime(v.items[id].mimeType)
            && Paths.HasInvalidPathChar(v.items[id].fileName) ==>
      r == Failure(Argument(Paths.InvalidPathCharsMessage))
    ensures r.Success? ==>
      && r.value.view == v.(isDownloadingFile := true)
      && r.value.fileId == v.items[id].fileId
      && forall b :: b in MediaSettings.MediaBindings && b.remoteMimeType == v.items[id].mimeType ==>
           r.value.fileName == v.items[id].fileName + b.fileExtension
    ensures r.Success? ==>
      MediaSettings.GetMediaFromPath(r.value.fileName)
      == MediaSettings.GetMediaFromRemoteMime(v.items[id].mimeType).value
  {
    match RowAt(v.items, id)
    case Failure(e) => Failure(e)
    case Success(item) =>
      match MediaSettings.GetMediaFromRemoteMime(item.mimeType)
      case Failure(e) => Failure(e)
      case Success(media) =>
        match MediaSettings.GetExtensionFromMedia(media)
        case Failure(e) => Failure(e)
        case Success(ext) =>
          var fileName := item.fileName + ext;
          MediaSettings.TableIsWellFormed();
          Paths.InvalidPathCharOfAppended(item.fileName, ext);
          if Paths.HasInvalidPathChar(fileName) then Failure(Argument(Paths.InvalidPathCharsMessage))
          else
            MediaSettings.ExtensionRoundTrip(media, item.fileName);
            Success(DownloadStart(v.(isDownloadingFile := true), item.fileId, fileName))
  }

  /** `DownloadFileAsync` after its `await`: the flag is cleared when the download
      finished, and stays set when it threw. */
  function EndDownload(v: View, completion: Outcome): (r: View)
    ensures completion.Pass? ==> !r.isDownloadingFile && r.(isDownloadingFile := v.isDownloadingFile) == v
    ensures completion.Fail? ==> r == v
  {
    match completion
    case Pass => v.(isDownloadingFile := false)
    case Fail(_) => v
  }

  // ---------------------------------------------------------------------------------
  // Deleting the selected files

  /** At most this many file names are listed in the confirmation dialog. */
  const ShowFileCount: nat := 3

  function Min(a: int, b: int): int {
    if a <= b then a else b
  }

  /** The decimal digits of `n`, as `string.Format` writes an integer: no sign, and no
      leading zero unless `n` is zero. */
  function DecimalString(n: nat): (s: string)
    ensures |s| >= 1
    ensures forall i :: 0 <= i < |s| ==> '0' <= s[i] <= '9'
    ensures DecimalValue(s) == n
    ensures s[0] == '0' <==> n == 0
    ensures n == 0 ==> s == "0"
  {
    if n < 10 then [DigitChar(n)]
    else
      var front := DecimalString(n / 10);
      DecimalValueOfAppend(front, DigitChar(n % 10));
      front + [DigitChar(n % 10)]
  }

  function DigitChar(d: nat): char
    requires d < 10
  {
    match d
    case 0 => '0' case 1 => '1' case 2 => '2' case 3 => '3' case 4 => '4'
    case 5 => '5' case 6 => '6' case 7 => '7' case 8 => '8' case _ => '9'
  }

  /** The number a string of decimal digits denotes. */
  function DecimalValue(s: string): nat
    requires forall i :: 0 <= i < |s| ==> '0' <= s[i] <= '9'
  {
    if |s| == 0 then 0
    else 10 * DecimalValue(s[..|s| - 1]) + ((s[|s| - 1] as int) - ('0' as int))
  }

  lemma DecimalValueOfAppend(s: string, c: char)
    requires forall i :: 0 <= i < |s| ==> '0' <= s[i] <= '9'
    requires '0' <= c <= '9'
    ensures DecimalValue(s + [c]) == 10 * DecimalValue(s) + ((c as int) - ('0' as int))
  {
    assert (s + [c])[..|s|] == s;
  }

  /** A digit string without a leading zero is nonzero. */
  lemma {:induction false} LeadingDigitIsNonZero(s: string)
    requires |s| >= 1 && forall i :: 0 <= i < |s| ==> '0' <= s[i] <= '9'
    requires s[0] != '0'
    ensures DecimalValue(s) >= 1
  {
    if |s| > 1 {
      LeadingDigitIsNonZero(s[..|s| - 1]);
    }
  }

  /** The canonical decimal form is unique: every digit string without a redundant
      leading zero is the `DecimalString` of its value. */
  lemma {:induction false} DecimalStringIsCanonical(s: string)
    requires |s| >= 1 && forall i :: 0 <= i < |s| ==> '0' <= s[i] <= '9'
    requires |s| > 1 ==> s[0] != '0'
    ensures DecimalString(DecimalValue(s)) == s
  {
    var last := s[|s| - 1];
    var d := (last as int) - ('0' as int);
    assert DigitChar(d) == last;
    if |s| > 1 {
      var front := s[..|s| - 1];
      LeadingDigitIsNonZero(front);
      DecimalStringIsCanonical(front);
      var n := DecimalValue(s);
      assert n / 10 == DecimalValue(front) && n % 10 == d;
      assert s == front + [last];
    }
  }

  /** "<n>個のファイルを削除しますか?" — "delete <n> files?". */
  function CountLine(n: nat): string {
    DecimalString(n) + "個のファイルを削除しますか?"
  }

  /** "・<name>" — one listed file. */
  function NameLine(name: string): string {
    "・" + name
  }

  /** "他<n>個のファイル" — "<n> more files". */
  function MoreFilesLine(n: nat): string {
    "他" + DecimalString(n) + "個のファイル"
  }

  /** Every line followed by a line feed, as `AppendFormat("...\n", ...)` writes them. */
  function Unlines(lines: seq<string>): string {
    if |lines| == 0 then "" else Unlines(lines[..|lines| - 1]) + lines[|lines| - 1] + "\n"
  }

  lemma UnlinesOfAppend(lines: seq<string>, line: string)
    ensures Unlines(lines + [line]) == Unlines(lines) + line + "\n"
  {
    assert (lines + [line])[..|lines|] == lines;
  }

  /** `GetRows()[id]` for every id in order, stopping at the first that throws. */
  function RowsAt(rows: seq<Row>, ids: seq<int>): (r: Result<seq<Row>>)
    ensures r.Success? <==> forall i :: 0 <= i < |ids| ==> 0 <= ids[i] < |rows|
    ensures r.Success? ==> |r.value| == |ids| && forall i :: 0 <= i < |ids| ==> r.value[i] == rows[ids[i]]
    ensures r.Failure? ==>
      exists j ::
        && 0 <= j < |ids| && !(0 <= ids[j] < |rows|)
        && (forall i :: 0 <= i < j ==> 0 <= ids[i] < |rows|)
        && r.error == IndexerOutOfRange
  {
    if |ids| == 0 then Success([])
    else
      match RowAt(rows, ids[0])
      case Failure(e) => Failure(e)
      case Success(row) =>
        match RowsAt(rows, ids[1..])
        case Failure(e) =>
          assert forall i :: 0 < i < |ids| ==> ids[1..][i - 1] == ids[i];
          Failure(e)
        case Success(rest) => Success([row] + rest)
  }

  /** The lines of the delete confirmation for selection `ids`: the count, the names of
      the first `ShowFileCount` selected files in selection order, and, when more are
      selected, one line with the number left unnamed. Looking up a listed row can
      throw. */
  function DeleteDialogLines(rows: seq<Row>, ids: seq<int>): (r: Result<seq<string>>)
    ensures r.Success? <==> forall i :: 0 <= i < |ids| && i < ShowFileCount ==> 0 <= ids[i] < |rows|
    ensures r.Success? ==>
      |r.value| == 1 + Min(|ids|, ShowFileCount) + (if |ids| > ShowFileCount then 1 else 0)
    ensures r.Success? ==> r.value[0] == CountLine(|ids|)
    ensures r.Success? ==> forall i :: 0 <= i < |ids| && i < ShowFileCount ==>
      r.value[i + 1] == NameLine(rows[ids[i]].fileName)
    ensures r.Success? && |ids| > ShowFileCount ==>
      r.value[ShowFileCount + 1] == MoreFilesLine(|ids| - ShowFileCount)
    ensures r.Failure? ==>
      exists j ::
        && 0 <= j < |ids| && j < ShowFileCount && !(0 <= ids[j] < |rows|)
        && r.error == IndexerOutOfRange
  {
    var n := Min(|ids|, ShowFileCount);
    match RowsAt(rows, ids[..n])
    case Failure(e) => Failure(e)
    case Success(shown) =>
      var names := seq(n, i requires 0 <= i < n => NameLine(shown[i].fileName));
      Success([CountLine(|ids|)] + names
        + (if |ids| > ShowFileCount then [MoreFilesLine(|ids| - ShowFileCount)] else []))
  }

  /** `GetDeleteDialogMessage`: walks the selection, appending one name line per id
      until `ShowFileCount` names are written, then one line with the rest and stops. */
  method GetDeleteDialogMessage(rows: seq<Row>, ids: seq<int>) returns (r: Result<string>)
    ensures r.Success? <==> DeleteDialogLines(rows, ids).Success?
    ensures r.Success? ==> r.value == Unlines(DeleteDialogLines(rows, ids).value)
    ensures r.Failure? ==> r.error == DeleteDialogLines(rows, ids).error
  {
    var counter := 0;
    var lines := [CountLine(|ids|)];
    var message := CountLine(|ids|) + "\n";
    assert message == Unlines(lines) by { UnlinesOfAppend([], CountLine(|ids|)); }
    var k := 0;
    while k < |ids|
      invariant 0 <= k <= |ids| && k <= ShowFileCount && counter == k
      invariant forall i :: 0 <= i < k ==> 0 <= ids[i] < |rows|
      invariant |lines| == 1 + k && lines[0] == CountLine(|ids|)
      invariant forall i :: 0 <= i < k ==> lines[i + 1] == NameLine(rows[ids[i]].fileName)
      invariant message == Unlines(lines)
    {
      if counter >= ShowFileCount {
        UnlinesOfAppend(lines, MoreFilesLine(|ids| - ShowFileCount));
        lines := lines + [MoreFilesLine(|ids| - ShowFileCount)];
        message := message + MoreFilesLine(|ids| - ShowFileCount) + "\n";
        break;
      }
      var id := ids[k];
      if !(0 <= id < |rows|) {
        r := Failure(IndexerOutOfRange);
        DialogFailsOnBadId(rows, ids, k);
        return;
      }
      UnlinesOfAppend(lines, NameLine(rows[id].fileName));
      lines := lines + [NameLine(rows[id].fileName)];
      message := message + NameLine(rows[id].fileName) + "\n";
      counter := counter + 1;
      k := k + 1;
    }
    DialogLinesAre(rows, ids, lines);
    r := Success(message);
  }

  /** An id outside the list among the first `ShowFileCount` makes the dialog throw the
      indexer's exception, whatever the other ids are. */
  lemma DialogFailsOnBadId(rows: seq<Row>, ids: seq<int>, k: int)
    requires 0 <= k < |ids| && k < ShowFileCount && !(0 <= ids[k] < |rows|)
    ensures DeleteDialogLines(rows, ids).Failure?
    ensures DeleteDialogLines(rows, ids).error == IndexerOutOfRange
  {
    var n := Min(|ids|, ShowFileCount);
    assert ids[..n][k] == ids[k];
  }

  /** Lines with the shape `DeleteDialogLines` promises are its lines. */
  lemma DialogLinesAre(rows: seq<Row>, ids: seq<int>, lines: seq<string>)
    requires DeleteDialogLines(rows, ids).Success?
    requires |lines| == 1 + Min(|ids|, ShowFileCount) + (if |ids| > ShowFileCount then 1 else 0)
    requires lines[0] == CountLine(|ids|)
    requires forall i :: 0 <= i < |ids| && i < ShowFileCount ==> lines[i + 1] == NameLine(rows[ids[i]].fileName)
    requires |ids| > ShowFileCount ==> lines[ShowFileCount + 1] == MoreFilesLine(|ids| - ShowFileCount)
    ensures lines == DeleteDialogLines(rows, ids).value
  {
    var expected := DeleteDialogLines(rows, ids).value;
    assert |lines| == |expected|;
    forall i | 0 <= i < |lines|
      ensures lines[i] == expected[i]
    {
      if 0 < i <= Min(|ids|, ShowFileCount) {
        assert lines[(i - 1) + 1] == expected[(i - 1) + 1];
      }
    }
  }

  /** The count line names the size of the selection, exactly three names come with no
      trailing line, and a fourth selected file adds the trailing line instead of its
      name. */
  lemma DeleteDialogCounts(rows: seq<Row>, ids: seq<int>)
    requires DeleteDialogLines(rows, ids).Success?
    ensures DecimalValue(DeleteDialogLines(rows, ids).value[0][..|DecimalString(|ids|)|]) == |ids|
    ensures |ids| == ShowFileCount ==> |DeleteDialogLines(rows, ids).value| == ShowFileCount + 1
    ensures |ids| > ShowFileCount ==> |DeleteDialogLines(rows, ids).value| == ShowFileCount + 2
  {
    var digits := DecimalString(|ids|);
    assert DeleteDialogLines(rows, ids).value[0][..|digits|] == digits;
  }

  /** The menu's delete item before its `await`: the confirmation message is built for
      the current selection (which can throw); a declined dialog changes nothing and a
      confirmed one sets `IsDeletingFile`. */
  function BeginDelete(v: View, confirmed: bool): (r: Result<View>)
    ensures r.Success? <==> DeleteDialogLines(v.items, v.selection).Success?
    ensures r.Failure? ==> r.error == DeleteDialogLines(v.items, v.selection).error
    ensures r.Success? && !confirmed ==> r.value == v
    ensures r.Success? && confirmed ==> r.value == v.(isDeletingFile := true) && !ControlsEnabled(r.value)
  {
    match DeleteDialogLines(v.items, v.selection)
    case Failure(e) => Failure(e)
    case Success(_) => if confirmed then Success(v.(isDeletingFile := true)) else Success(v)
  }

  /** Id `id` names a row whose file the Drive accepts deleting; `failing` holds the file
      ids whose deletion throws. */
  predicate Deletable(rows: seq<Row>, id: int, failing: set<string>) {
    0 <= id < |rows| && rows[id].fileId !in failing
  }

  /** How `TryDeleteFiles` ended: every id handled, or stopped at position `at` by an
      exception. */
  datatype DeleteOutcome = Deleted | Aborted(at: nat, error: Exception)

  /** `TryDeleteFiles`: one `DeleteFile` request per selected id, in selection order.
      The first id outside the list, or the first request that throws, ends the loop;
      `requests` are the file ids whose deletion was requested. */
  method TryDeleteFiles(rows: seq<Row>, ids: seq<int>, failing: set<string>)
    returns (requests: seq<string>, outcome: DeleteOutcome)
    ensures outcome.Deleted? <==> forall i :: 0 <= i < |ids| ==> Deletable(rows, ids[i], failing)
    ensures |requests| <= |ids|
    ensures forall i :: 0 <= i < |requests| ==> 0 <= ids[i] < |rows| && requests[i] == rows[ids[i]].fileId
    ensures outcome.Deleted? ==> |requests| == |ids|
    ensures outcome.Aborted? ==>
      && outcome.at < |ids|
      && (forall i :: 0 <= i < outcome.at ==> Deletable(rows, ids[i], failing))
      && !Deletable(rows, ids[outcome.at], failing)
      && (if 0 <= ids[outcome.at] < |rows|
          then outcome.error == RemoteFailure && |requests| == outcome.at + 1
          else outcome.error == IndexerOutOfRange && |requests| == outcome.at)
  {
    requests := [];
    var k := 0;
    while k < |ids|
      invariant 0 <= k <= |ids| && |requests| == k
      invariant forall i :: 0 <= i < k ==> Deletable(rows, ids[i], failing)
      invariant forall i :: 0 <= i < k ==> requests[i] == rows[ids[i]].fileId
    {
      var id := ids[k];
      if !(0 <= id < |rows|) {
        return requests, Aborted(k, IndexerOutOfRange);
      }
      requests := requests + [rows[id].fileId];
      if rows[id].fileId in failing {
        return requests, Aborted(k, RemoteFailure);
      }
      k := k + 1;
    }
    outcome := Deleted;
  }

  /** `DeleteAsync` after its `await`: once every deletion went through, a fetch is
      queued and the flag cleared; when one threw, nothing after the `await` runs and
      the flag stays set. */
  function EndDelete(v: View, outcome: DeleteOutcome): (r: View)
    ensures outcome.Deleted? ==> !r.isDeletingFile && r.reloadScheduled
    ensures outcome.Deleted? ==> r.(isDeletingFile := v.isDeletingFile, reloadScheduled := v.reloadScheduled) == v
    ensures outcome.Aborted? ==> r == v
  {
    match outcome
    case Deleted => v.(isDeletingFile := false, reloadScheduled := true)
    case Aborted(_, _) => v
  }

  /** A confirmed delete in which one request throws greys the window out for good:
      only `DeleteAsync` resets `IsDeletingFile`, and it never gets there. */
  lemma FailedDeleteKeepsControlsDisabled(v: View, at: nat, e: Exception)
    requires BeginDelete(v, true).Success?
    ensures !ControlsEnabled(EndDelete(BeginDelete(v, true).value, Aborted(at, e)))
  {
  }

  /** Every selected id names a row whose deletion goes through. */
  predicate AllDeletable(rows: seq<Row>, ids: seq<int>, failing: set<string>) {
    forall i :: 0 <= i < |ids| ==> Deletable(rows, ids[i], failing)
  }

  /** The menu's delete item from end to end: the dialog for the current selection,
      then, when confirmed, `DeleteAsync` on that same selection, which sets
      `IsDeletingFile`, requests one deletion per selected row in selection order, and
      clears the flag and queues a refresh only if every request went through. */
  method DeleteSelected(v: View, confirmed: bool, failing: set<string>)
    returns (requests: seq<string>, r: Result<View>)
    ensures r.Failure? <==> DeleteDialogLines(v.items, v.selection).Failure?
    ensures r.Failure? ==> r.error == DeleteDialogLines(v.items, v.selection).error && requests == []
    ensures r.Success? && !confirmed ==> r.value == v && requests == []
    ensures |requests| <= |v.selection|
    ensures forall i :: 0 <= i < |requests| ==>
      0 <= v.selection[i] < |v.items| && requests[i] == v.items[v.selection[i]].fileId
    ensures r.Success? && confirmed && AllDeletable(v.items, v.selection, failing) ==>
      && |requests| == |v.selection|
      && r.value == v.(isDeletingFile := false, reloadScheduled := true)
    ensures r.Success? && confirmed && !AllDeletable(v.items, v.selection, failing) ==>
      && r.value == v.(isDeletingFile := true)
      && !ControlsEnabled(r.value)
      && exists at :: 0 <= at < |v.selection|
           && AllDeletable(v.items, v.selection[..at], failing)
           && !Deletable(v.items, v.selection[at], failing)
           && |requests| == (if 0 <= v.selection[at] < |v.items| then at + 1 else at)
  {
    requests := [];
    var begun := BeginDelete(v, confirmed);
    if begun.Failure? {
      return requests, Failure(begun.error);
    }
    if !confirmed {
      return requests, Success(v);
    }
    var outcome;
    requests, outcome := TryDeleteFiles(begun.value.items, begun.value.selection, failing);
    if outcome.Aborted? {
      assert AllDeletable(v.items, v.selection[..outcome.at], failing);
    }
    r := Success(EndDelete(begun.value, outcome));
  }

  // ---------------------------------------------------------------------------------
  // The row-numbering invariant

  /** Every transition keeps each row's id equal to its position, so `GetRows()[id]` in
      the menu actions always finds the row whose id is `id`. */
  lemma TransitionsKeepIdsAreIndices(v: View, index: int, ascending: bool, le: (string, string) -> bool,
                                     fetched: Result<Option<seq<DriveFile>>>, outcome: DeleteOutcome,
                                     completion: Outcome, confirmed: bool, id: int)
    requires TotalPreorder(le)
    requires IdsAreIndices(v.items)
    ensures IdsAreIndices(Create().items)
    ensures IdsAreIndices(ClearTreeItems(v).items)
    ensures IdsAreIndices(RunScheduledReload(v).items)
    ensures IdsAreIndices(EndReload(v, fetched).items)
    ensures SortByHeader(v, index, ascending, le).Success? ==> IdsAreIndices(SortByHeader(v, index, ascending, le).value.items)
    ensures BeginDelete(v, confirmed).Success? ==> IdsAreIndices(BeginDelete(v, confirmed).value.items)
    ensures IdsAreIndices(EndDelete(v, outcome).items)
    ensures BeginDownload(v, id).Success? ==> IdsAreIndices(BeginDownload(v, id).value.view.items)
    ensures IdsAreIndices(EndDownload(v, completion).items)
  {
  }
}
