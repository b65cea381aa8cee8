# Google Drive file viewer for the Unity editor: a Dafny model

This project models the core of a Unity editor extension that lists, opens, downloads
and deletes Google Drive files and uploads files to Drive. Two parts are modelled:

- the **file tree view**: the table of Drive files, its refresh, its column sort, its
  context menu and its delete-confirmation dialog. Two generations exist and both are
  modelled:
  - `FileTreeView` is the newer, asynchronous view with busy flags.
  - `LegacyFileTreeView` is the earlier, synchronous one.
- the **media-type resolver**, which maps file extensions and MIME types to media kinds.
  Three generations exist and all are modelled:
  - `MediaSettings` is the current binding table.
  - `LegacyMediaSettings` is the earlier three-dictionary resolver.
  - `EarliestMediaSettings` is the first `switch`-based resolver.

Modelling conventions:

- A .NET exception is a `Failure` of `Wrappers.Result`. A null reference is `Option.None`.
- LINQ `ToDictionary` is `Dictionaries.ToDictionary`. It fails on a duplicate key, as the
  .NET method does.
- `System.IO.Path.GetExtension` is `Paths.GetExtension`, as it behaves on Windows. It
  returns the text from the last `.` that is not followed by a `\`, `/` or `:` separator.
  On macOS and Linux only `/` is a separator. Lookups do not depend on the difference:
  an extension that differs between the two contains `\` or `:`, and no such extension
  is registered.
- The sort goes through LINQ `OrderBy`/`OrderByDescending`. It is a stable sort, modelled
  as a stable insertion sort in `RowOrder`. The string comparer is a parameter `le` that
  is assumed to be a total preorder. `Ordinal.Le` is one concrete instance: ordinal
  (char-code) comparison.
- Each `async void` operation is split at its `await` into a `Begin…` and an `End…`
  transition.
  - An exception inside the awaited work is rethrown after the `await`. The rest of the
    method never runs, so the `End…` transition leaves the view as it was and the busy
    flag stays set.
  - Work queued with `EditorApplication.delayCall` that only rebuilds the tree is applied
    at once.
  - A queued refresh is a `reloadScheduled` flag. `RunScheduledReload` consumes it.
- The Drive client (list, delete, download) is not modelled. Its results enter as
  parameters: a fetched file list, a completion `Outcome`, or the set of file ids whose
  deletion throws.
- `Scenarios` holds concrete examples. One of them shows the finding below.

Behaviour of the code that a reader might not expect, which the model keeps:

- A multi-file delete stops at the first exception and leaves `IsDeletingFile` set, so
  the window stays greyed out. Later files in the selection are not attempted.
- A refresh keeps the current rows when the listing is null or empty. It does not clear
  the rows first.
- A refresh does not re-apply the current sort.
- In the newer view a sort renumbers the rows' ids, but the tree's selection keeps the
  old ids (lines 186-191 of `Viewer/Scripts/FileTreeView.cs` never touch it). After a sort
  the same ids stay selected, so the selection silently moves to other files.
- The view itself does not reject a refresh while busy. Only the window's disabled
  control group (`Viewer/Scripts/FileViewerWindow.cs` line 24) prevents one.
- Listing the files of one folder is not modelled. The window calls
  `ReloadFilesInFolderAsync`, which the view does not define.
- Download is one call. There is no separate export path for Google-native documents.

## Model

| member | source | states |
|---|---|---|
| Dictionaries.ToDictionary | Assets/GoogleDriveViewer/Editor/Common/Scripts/Settings/MediaSettings.cs:46-57 | building a dictionary from a sequence succeeds exactly when the key column has no duplicate, and otherwise throws an ArgumentException; on success the key set is the set of keys in the sequence, and every element's key maps to that element's value |
| Paths.GetExtension | Assets/GoogleDriveViewer/Editor/Common/Scripts/Settings/MediaSettings.cs:74 | the extension of a path is either empty or a `.` followed by no stop character, and it is always a suffix of the path |
| Paths.ExtensionOfAppended | Assets/GoogleDriveViewer/Editor/Common/Scripts/Settings/MediaSettings.cs:74 | a well-formed extension appended to any stem is exactly what the extension lookup returns for the resulting path |
| Paths.NoExtensionMeansNoSuffix | Assets/GoogleDriveViewer/Editor/Common/Scripts/Settings/MediaSettings.cs:74 | when a path has no extension, none of its suffixes is a well-formed extension |
| MediaSettings.TableIsWellFormed | Assets/GoogleDriveViewer/Editor/Common/Scripts/Settings/MediaSettings.cs:35-57 | each column of the binding table (media, local MIME, remote MIME, extension) has distinct entries, so all six static dictionaries are built without an exception; UNKNOWN has no binding; every bound extension is well-formed and holds no invalid path character |
| MediaSettings.GetExtensionFromMedia | Assets/GoogleDriveViewer/Editor/Common/Scripts/Settings/MediaSettings.cs:59-70 | succeeds exactly for bound media kinds and returns the extension of that kind's row; for any other kind it throws NotSupportedException "unknown EMediaType : <kind>" |
| MediaSettings.GetMediaFromPath | Assets/GoogleDriveViewer/Editor/Common/Scripts/Settings/MediaSettings.cs:72-80 | the kind of a path is the kind of the row whose extension equals the path's extension, and it is UNKNOWN exactly when no row has that extension; an unregistered extension gives UNKNOWN rather than an exception (the ArgumentException that `Path.GetExtension` throws for invalid path characters is not modelled) |
| MediaSettings.GetLocalMimeFromMedia | Assets/GoogleDriveViewer/Editor/Common/Scripts/Settings/MediaSettings.cs:83-94 | succeeds exactly for bound kinds and returns that row's local MIME type; otherwise throws NotSupportedException naming the kind |
| MediaSettings.GetMediaFromLocalMime | Assets/GoogleDriveViewer/Editor/Common/Scripts/Settings/MediaSettings.cs:97-108 | succeeds exactly for a local MIME type in the table and returns its row's kind; otherwise throws NotSupportedException "unknown MimeType : <mime>" |
| MediaSettings.GetRemoteMimeFromMedia | Assets/GoogleDriveViewer/Editor/Common/Scripts/Settings/MediaSettings.cs:111-122 | succeeds exactly for bound kinds and returns that row's remote (Drive) MIME type; otherwise throws NotSupportedException naming the kind |
| MediaSettings.GetMediaFromRemoteMime | Assets/GoogleDriveViewer/Editor/Common/Scripts/Settings/MediaSettings.cs:125-136 | succeeds exactly for a remote MIME type in the table and returns its row's kind; otherwise throws NotSupportedException naming the MIME type |
| MediaSettings.LocalMimeRoundTrip | Assets/GoogleDriveViewer/Editor/Common/Scripts/Settings/MediaSettings.cs:83-108 | the two local MIME lookups are inverse in both directions: kind to MIME to kind, and MIME to kind to MIME |
| MediaSettings.RemoteMimeRoundTrip | Assets/GoogleDriveViewer/Editor/Common/Scripts/Settings/MediaSettings.cs:111-136 | the two remote MIME lookups are inverse in both directions |
| MediaSettings.ExtensionRoundTrip | Assets/GoogleDriveViewer/Editor/Common/Scripts/Settings/MediaSettings.cs:59-80 | for a bound kind, any file name ending in that kind's extension resolves back to the kind |
| MediaSettings.ExtensionMatchIsCaseSensitive | Assets/GoogleDriveViewer/Editor/Common/Scripts/Settings/MediaSettings.cs:72-80 | "x.png" resolves to PNG but "x.PNG" resolves to UNKNOWN, because the dictionary uses ordinal string keys |
| MediaSettings.UnregisteredExtensionIsUnknown | Assets/GoogleDriveViewer/Editor/Common/Scripts/Settings/MediaSettings.cs:72-80 | paths ending in ".txt" or ".PNG" resolve to UNKNOWN instead of throwing |
| MediaSettings.RegisteredExtensions | Assets/GoogleDriveViewer/Editor/Common/Scripts/Settings/MediaSettings.cs:35-44 | the only registered extensions are .png, .jpg, .mp4, .mp3, .zip and .xlsx |
| MediaSettings.LocalAndRemoteMimeDifferOnlyForExcel | Assets/GoogleDriveViewer/Editor/Common/Scripts/Settings/MediaSettings.cs:35-44 | for every bound kind, the upload and download MIME types agree exactly when the kind is not EXCEL; for EXCEL they are the OOXML spreadsheet type and the Google spreadsheet type |
| LegacyMediaSettings.GetMediaType | Assets/GoogleDriveViewer/Editor/Common/Scripts/MediaSettings.cs:39-47 | ".png", ".mp4" and ".xlsx" resolve to PNG, MP4 and EXCEL; the result is UNKNOWN exactly when the extension is none of the three |
| LegacyMediaSettings.GetContentType | Assets/GoogleDriveViewer/Editor/Common/Scripts/MediaSettings.cs:49-60 | among the declared kinds, succeeds exactly for those other than UNKNOWN, with the listed content types; UNKNOWN throws NotSupportedException "unknown type : UNKNOWN" |
| LegacyMediaSettings.GetMimeType | Assets/GoogleDriveViewer/Editor/Common/Scripts/MediaSettings.cs:62-73 | among the declared kinds, succeeds exactly for those other than UNKNOWN, giving the Google photo, video and spreadsheet types; UNKNOWN throws NotSupportedException |
| LegacyMediaSettings.LookupsDefinedExactlyOnResolvableKinds | Assets/GoogleDriveViewer/Editor/Common/Scripts/MediaSettings.cs:17-47 | the content-type and MIME lookups succeed on the same kinds, and these are exactly the kinds that some path resolves to other than UNKNOWN |
| LegacyMediaSettings.ExcelContentTypeLacksPrefix | Assets/GoogleDriveViewer/Editor/Common/Scripts/MediaSettings.cs:21 | the EXCEL content type "vnd.ms-excel" lacks the "application/" prefix of a MIME type |
| EarliestMediaSettings.GetContentType | Assets/GoogleDriveViewer/Editor/MediaSettings.cs:32-48 | the three declared values give "image/png", "video/mp4" and "application/vnd.ms-excel"; the result is "" exactly for an undeclared enum value, which falls through the switch |
| EarliestMediaSettings.GetMimeType | Assets/GoogleDriveViewer/Editor/MediaSettings.cs:60-70 | declared values give the Google photo, video and spreadsheet types; a value missing from the dictionary throws NotSupportedException with the default message |
| EarliestMediaSettings.MimeTypeTotalOnDeclaredValues | Assets/GoogleDriveViewer/Editor/MediaSettings.cs:24-70 | the MIME lookup succeeds exactly on declared values, and it fails exactly where the content-type switch answers "" |
| TreeRows.RegisterFiles | Assets/GoogleDriveViewer/Editor/Viewer/Scripts/FileTreeView.cs:120-143 | one row per fetched file, in order: the rows show exactly the fetched files, and row i has id i |
| TreeRows.Renumber | Assets/GoogleDriveViewer/Editor/Viewer/Scripts/FileTreeView.cs:186-191 | renumbering keeps the files shown and their order, and makes every id equal its position |
| TreeRows.RowsAreDeterminedByFiles | Assets/GoogleDriveViewer/Editor/Viewer/Scripts/FileTreeView.cs:120-143 | two row lists whose ids are their positions and that show the same files are equal |
| TreeRows.RenumberIsRegister | Assets/GoogleDriveViewer/Editor/Viewer/Scripts/FileTreeView.cs:184-191 | renumbering sorted rows gives what registering the sorted files would give; registering the files of position-numbered rows gives those rows back |
| TreeRows.BuildRootChildren | Assets/GoogleDriveViewer/Editor/Viewer/Scripts/FileTreeView.cs:107-118 | a null row list becomes an empty list; a non-null list is used as it is |
| TreeRows.FilesOfPermutation | Assets/GoogleDriveViewer/Editor/Viewer/Scripts/FileTreeView.cs:184 | a permutation of the rows is a permutation of the files they show |
| RowOrder.ColumnAt | Assets/GoogleDriveViewer/Editor/Viewer/Scripts/FileTreeView.cs:169-182 | header indices 0, 1 and 2 select the name, id and MIME-type columns; any other index throws ArgumentOutOfRangeException("index", index) |
| RowOrder.DirectionIsTotalPreorder | Assets/GoogleDriveViewer/Editor/Viewer/Scripts/FileTreeView.cs:172 | the descending order, which is the comparer with its arguments swapped, is a total preorder whenever the ascending one is |
| RowOrder.SortRows | Assets/GoogleDriveViewer/Editor/Viewer/Scripts/FileTreeView.cs:172-178 | the sort returns a permutation of its input that is ordered by the key and keeps rows with equal keys in their input order |
| RowOrder.OrderRows | Assets/GoogleDriveViewer/Editor/Viewer/Scripts/FileTreeView.cs:168-182 | `OrderBy` or `OrderByDescending` on one column returns a permutation that is sorted in the chosen direction and stable |
| RowOrder.StableSortIsUnique | Assets/GoogleDriveViewer/Editor/Viewer/Scripts/FileTreeView.cs:168-184 | two sorted arrangements with the same order inside every group of equal keys are equal, so the stable sort's result is fully determined |
| RowOrder.OrderRowsIsIdempotent | Assets/GoogleDriveViewer/Editor/Viewer/Scripts/FileTreeView.cs:168-184 | sorting rows that are already sorted changes nothing, and sorting twice on one column equals sorting once |
| RowOrder.SortedIgnoresIds | Assets/GoogleDriveViewer/Editor/Viewer/Scripts/FileTreeView.cs:186-191 | whether rows are sorted depends only on the files they show, not on their ids |
| RowOrder.TiesIgnoreIds | Assets/GoogleDriveViewer/Editor/Viewer/Scripts/FileTreeView.cs:186-191 | the files in each group of equal keys do not depend on the row ids |
| Ordinal.LeIsTotalPreorder | Assets/GoogleDriveViewer/Editor/Viewer/Scripts/FileTreeView.cs:172 | ordinal string comparison is total and transitive, so it is a valid comparer for the sort |
| DriveApi.GetFileURL | Assets/GoogleDriveViewer/Editor/Common/Scripts/DriveAPI.cs:19-22 | the link starts with "https://drive.google.com/open?id=" and the file id can be read back from what follows |
| DriveApi.FileUrlIsInjective | Assets/GoogleDriveViewer/Editor/Common/Scripts/DriveAPI.cs:19-22 | distinct file ids get distinct links |
| FileTreeView.Create | Assets/GoogleDriveViewer/Editor/Viewer/Scripts/FileTreeView.cs:46-58 | a new view has no rows, no selection, no busy flag and no queued refresh |
| FileTreeView.ClearTreeItems | Assets/GoogleDriveViewer/Editor/Viewer/Scripts/FileTreeView.cs:145-157 | removes every row and changes nothing else |
| FileTreeView.BeginReload | Assets/GoogleDriveViewer/Editor/Viewer/Scripts/FileTreeView.cs:60-64 | starting a refresh sets IsGettingFile, which disables the controls, and changes nothing else |
| FileTreeView.RunScheduledReload | Assets/GoogleDriveViewer/Editor/Viewer/Scripts/FileTreeView.cs:280-283 | a queued refresh is consumed and started; without one the view is unchanged |
| FileTreeView.EndReload | Assets/GoogleDriveViewer/Editor/Viewer/Scripts/FileTreeView.cs:64-76 | a failed listing leaves the view as it was. A successful one clears IsGettingFile and the selection. A non-empty list replaces the rows with position-numbered rows for exactly those files. A null or empty list keeps the old rows |
| FileTreeView.FailedReloadKeepsControlsDisabled | Assets/GoogleDriveViewer/Editor/Viewer/Scripts/FileTreeView.cs:60-77 | when the listing throws, the refresh never finishes and the controls stay disabled |
| FileTreeView.SortByHeader | Assets/GoogleDriveViewer/Editor/Viewer/Scripts/FileTreeView.cs:160-194 | succeeds exactly for header indices 0 to 2, and otherwise throws ArgumentOutOfRangeException. The rows become a permutation of the same files, sorted in the chosen direction. Files with equal keys keep their relative order. The ids are renumbered to positions. Nothing but the rows changes |
| FileTreeView.RenumberedOrder | Assets/GoogleDriveViewer/Editor/Viewer/Scripts/FileTreeView.cs:184-191 | renumbering after the sort keeps the sorted order and the order within every group of equal keys |
| FileTreeView.SortByHeaderIsIdempotent | Assets/GoogleDriveViewer/Editor/Viewer/Scripts/FileTreeView.cs:160-194 | clicking the same header in the same direction twice gives the same view as clicking it once |
| FileTreeView.RowAt | Assets/GoogleDriveViewer/Editor/Viewer/Scripts/FileTreeView.cs:204 | `GetRows()[id]` succeeds exactly for an id inside the row list, and otherwise throws the list indexer's ArgumentOutOfRangeException, which carries no actual value; while ids are positions, the row found carries that id |
| FileTreeView.OpenFileUrl | Assets/GoogleDriveViewer/Editor/Viewer/Scripts/FileTreeView.cs:202-207 | "open file" succeeds exactly for an id inside the row list, and opens the Drive link of the file that carries that id |
| FileTreeView.CopyFileId | Assets/GoogleDriveViewer/Editor/Viewer/Scripts/FileTreeView.cs:214-218 | "copy id" succeeds exactly for an id inside the row list, and copies the Drive id of the file that carries that id |
| FileTreeView.CopyMimeType | Assets/GoogleDriveViewer/Editor/Viewer/Scripts/FileTreeView.cs:219-223 | "copy MIME type" succeeds exactly for an id inside the row list, and copies the MIME type of the file that carries that id |
| FileTreeView.BeginDownload | Assets/GoogleDriveViewer/Editor/Viewer/Scripts/FileTreeView.cs:242-250 | a download starts exactly when the id is in range, the row's MIME type is a known remote type, and the file name holds no character that `Path.Combine` rejects on Windows. Otherwise it throws, in that order, the indexer's ArgumentOutOfRangeException, a NotSupportedException or an ArgumentException, before any flag is set. On start, IsDownloadingFile is set, and the saved name is the file name plus the extension bound to its kind, so it resolves back to that kind |
| FileTreeView.EndDownload | Assets/GoogleDriveViewer/Editor/Viewer/Scripts/FileTreeView.cs:252-254 | a completed download clears IsDownloadingFile and nothing else; a failed one leaves the view as it was, with the flag still set |
| FileTreeView.DecimalString | Assets/GoogleDriveViewer/Editor/Viewer/Scripts/FileTreeView.cs:290 | the count is written as a non-empty string of decimal digits whose value is the count, with a leading zero exactly when the count is zero (and then "0") |
| FileTreeView.DecimalStringIsCanonical | Assets/GoogleDriveViewer/Editor/Viewer/Scripts/FileTreeView.cs:290 | every digit string without a redundant leading zero is the written form of its value, so the written form of a count is unique |
| FileTreeView.RowsAt | Assets/GoogleDriveViewer/Editor/Viewer/Scripts/FileTreeView.cs:292-303 | looking up a list of ids succeeds exactly when every id is in range, and returns the row at each id in order; otherwise some id is out of range, every id before it is in range, and the indexer's exception is thrown |
| FileTreeView.DeleteDialogLines | Assets/GoogleDriveViewer/Editor/Viewer/Scripts/FileTreeView.cs:286-305 | the dialog is a count line, then the names of at most the first three selected files, then an "and n more files" line exactly when more than three are selected. It fails exactly when one of the first three ids is out of range, and later ids are never looked up |
| FileTreeView.GetDeleteDialogMessage | Assets/GoogleDriveViewer/Editor/Viewer/Scripts/FileTreeView.cs:286-305 | the loop with its early exit builds exactly the newline-terminated lines of the dialog, or throws the same exception the line list describes |
| FileTreeView.DialogFailsOnBadId | Assets/GoogleDriveViewer/Editor/Viewer/Scripts/FileTreeView.cs:292-300 | an out-of-range id among the first three selected makes the message throw the indexer's exception, whatever the other ids are |
| FileTreeView.DialogLinesAre | Assets/GoogleDriveViewer/Editor/Viewer/Scripts/FileTreeView.cs:286-305 | any line list with the dialog's shape is the dialog, so the shape determines the message |
| FileTreeView.DeleteDialogCounts | Assets/GoogleDriveViewer/Editor/Viewer/Scripts/FileTreeView.cs:290-298 | the number in the first line is the number of selected files; exactly three selected files give four lines, and more give five |
| FileTreeView.BeginDelete | Assets/GoogleDriveViewer/Editor/Viewer/Scripts/FileTreeView.cs:226-237 | the menu item fails exactly when the dialog message throws. A declined dialog changes nothing. A confirmed one sets IsDeletingFile and disables the controls |
| FileTreeView.TryDeleteFiles | Assets/GoogleDriveViewer/Editor/Viewer/Scripts/FileTreeView.cs:271-284 | the delete requests go out in selection order, one for each id's Drive file. The loop completes exactly when every id is in range and its file can be deleted. Otherwise it stops at the first failing id: a request was sent for every id before it, and also for the failing id itself when that id is in range and its remote delete threw; an id outside the list throws the indexer's exception before any request for it |
| FileTreeView.DeleteSelected | Assets/GoogleDriveViewer/Editor/Viewer/Scripts/FileTreeView.cs:226-284 | the delete item from end to end: when the dialog message throws, nothing is requested. A declined dialog changes nothing. A confirmed one requests the deletion of the selected rows' files, in selection order. When every selected row is deletable, all of them are requested, IsDeletingFile ends cleared and a refresh is queued. Otherwise the requests stop at the first failing selected row: every row before it was requested, and the failing row too when its id is in range and its remote delete threw. IsDeletingFile then stays set and the controls stay disabled |
| FileTreeView.EndDelete | Assets/GoogleDriveViewer/Editor/Viewer/Scripts/FileTreeView.cs:264-268 | a completed delete clears IsDeletingFile and queues a refresh; an aborted one leaves the view as it was |
| FileTreeView.FailedDeleteKeepsControlsDisabled | Assets/GoogleDriveViewer/Editor/Viewer/Scripts/FileTreeView.cs:261-269 | when a delete throws, the controls stay disabled |
| FileTreeView.TransitionsKeepIdsAreIndices | Assets/GoogleDriveViewer/Editor/Viewer/Scripts/FileTreeView.cs:120-191 | every transition of the newer view keeps each row's id equal to its position, which is what `GetRows()[id]` relies on |
| LegacyFileTreeView.Create | Assets/GoogleDriveViewer/Editor/FileTreeView.cs:43-55 | a new view has no rows, no selection and no queued refresh |
| LegacyFileTreeView.ClearTreeItems | Assets/GoogleDriveViewer/Editor/FileTreeView.cs:129-137 | removes every row and changes nothing else |
| LegacyFileTreeView.ReloadFiles | Assets/GoogleDriveViewer/Editor/FileTreeView.cs:57-64 | the synchronous refresh throws exactly when the listing throws. A non-empty list replaces the rows with position-numbered rows for those files. A null or empty list changes nothing. The selection is kept |
| LegacyFileTreeView.ReloadFilesIsIdempotent | Assets/GoogleDriveViewer/Editor/FileTreeView.cs:57-64 | refreshing again with the same listing gives the same view as refreshing once |
| LegacyFileTreeView.RunScheduledReload | Assets/GoogleDriveViewer/Editor/FileTreeView.cs:210-213 | the queued refresh is used up whether or not it throws, and the selection is kept. When the listing throws, the rows stay as they were and the exception escapes to the editor; otherwise the result is that of the refresh. Without a queued refresh the view is unchanged |
| LegacyFileTreeView.SortByHeader | Assets/GoogleDriveViewer/Editor/FileTreeView.cs:140-166 | succeeds exactly for header indices 0 to 2. The rows become a permutation of themselves, ids included, sorted in the chosen direction and stable. Nothing else changes |
| LegacyFileTreeView.SortKeepsIdsAPermutation | Assets/GoogleDriveViewer/Editor/FileTreeView.cs:164-165 | after a sort the ids are still a permutation of 0..n-1 |
| LegacyFileTreeView.ContextClickedItem | Assets/GoogleDriveViewer/Editor/FileTreeView.cs:173-194 | the context menu opens exactly when something is selected, and acts on the clicked id |
| LegacyFileTreeView.DeleteRow | Assets/GoogleDriveViewer/Editor/FileTreeView.cs:199-213 | the dialog names the file and its id. A declined dialog changes nothing. A confirmed one deletes that file, clears the rows and queues a refresh. A failing remote delete throws |
| LegacyFileTreeView.TryDeleteFileAsWritten | Assets/GoogleDriveViewer/Editor/FileTreeView.cs:196-214 | as written: the clicked id is used as a position in the displayed rows, and an id past the end throws the indexer's ArgumentOutOfRangeException |
| LegacyFileTreeView.FindRow | Assets/GoogleDriveViewer/Editor/FileTreeView.cs:198 | finds a row that carries the id, and finds none exactly when no row has it |
| LegacyFileTreeView.TryDeleteFile | Assets/GoogleDriveViewer/Editor/FileTreeView.cs:196-214 | corrected: the prompt and the delete act on the row that carries the clicked id; with no such row it fails with a null reference |
| LegacyFileTreeView.AsWrittenAgreesWhileIdsAreIndices | Assets/GoogleDriveViewer/Editor/FileTreeView.cs:198 | until the first sort, while ids are positions, the code as written and the corrected lookup behave identically |
| LegacyFileTreeView.SortDoesNotChangeWhatAnIdDeletes | Assets/GoogleDriveViewer/Editor/FileTreeView.cs:140-214 | with the corrected lookup, sorting does not change which row an id finds, as long as the ids are a permutation of the positions, which a fresh listing gives and every sort keeps. So after any number of sorts the prompt and the deleted file are those of the row that had the id before, and an id no row carries fails the same way |
| Scenarios.SortExample | Assets/GoogleDriveViewer/Editor/Viewer/Scripts/FileTreeView.cs:172 | rows for b, a, c sorted by name in descending order come out as c, b, a with their old ids |
| Scenarios.SortByNameDescending | Assets/GoogleDriveViewer/Editor/Viewer/Scripts/FileTreeView.cs:160-194 | after fetching b, a, c, a descending name sort shows c, b, a with ids 0, 1, 2 |
| Scenarios.LegacyDeleteAfterSortHitsWrongFile | Assets/GoogleDriveViewer/Editor/FileTreeView.cs:198 | in the earlier view, fetching a and b, sorting by name in descending order and deleting id 0 (file a) deletes file b as written, and file a with the corrected lookup |
| Scenarios.DeleteDialogOfFour | Assets/GoogleDriveViewer/Editor/Viewer/Scripts/FileTreeView.cs:286-305 | four selected files give the count line, three name lines and "他1個のファイル" |
| Scenarios.DeleteDialogOfThree | Assets/GoogleDriveViewer/Editor/Viewer/Scripts/FileTreeView.cs:286-305 | three selected files give the count line and three name lines in selection order, with no trailer |

## Left out

- Google Drive client calls: authorisation, listing, deleting, downloading and uploading are network I/O. Their results are parameters of the transitions.
- Threads: `Task.Run` and the main-thread hop of `delayCall` are not modelled. Each `await` is a pair of transitions, and a queued refresh is a flag.
- Drawing: `RowGUI`, `GenericMenu`, `Process.Start`, the clipboard, `Debug.Log`, `AssetDatabase.Refresh` and the `SessionState` record of the sort column are not modelled. The menu actions return the string they would open or copy.
- Save path: the download folder is not modelled. `Path.Combine` is modelled only by its check on the file name. The folder is taken to hold no invalid character.
- FileTreeView.BeginDownload: the invalid path characters are those of Windows. On macOS and Linux only the null character is rejected.
- The uploader windows, the viewer window's layout, the settings constants and the listing page size of 100 are not modelled.
- Folder listing: the window calls `ReloadFilesInFolderAsync`, which the view does not define.
- RowOrder.OrderRows: the culture-sensitive string comparison of .NET is an abstract total preorder `le`. `Ordinal.Le` is one instance, used in the examples.
- Paths.GetExtension, MediaSettings.GetMediaFromPath: the invalid-path-character check of `Path.GetExtension` is not modelled. The uploader windows pass paths of existing files, which cannot hold such characters.
- The message text of exceptions thrown by .NET itself is not modelled, apart from the default NotSupportedException message, the invalid-path-character message of `Path.Combine`, and the duplicate-key message of `ToDictionary`'s ArgumentException. The list indexer's exception is modelled by its parameter name and its missing actual value.
- LegacyFileTreeView: its multi-file `TryDeleteFiles` (lines 216-237) is commented out of the menu and never called, so it is not modelled.
- EarliestMediaSettings: its `MediaToContentType` dictionary is not modelled. `GetContentType` no longer reads it.
- MediaSettings.GetExtensionFromMedia: undeclared enum values cast into `EMediaType` are not modelled. They behave like UNKNOWN, which is not bound.
- LegacyMediaSettings.GetContentType: undeclared enum values cast into `EMediaType`, such as `(EMediaType)7`, are not modelled. They are not UNKNOWN, yet they throw NotSupportedException as UNKNOWN does, because no dictionary holds them.
- LegacyMediaSettings.GetMimeType: undeclared enum values cast into `EMediaType` are not modelled, for the same reason. They throw NotSupportedException.
- FileTreeView.SortByHeader: the error path assumes that `IsSortedAscending`, called on the header before the `switch`, accepts any column index. Unity's header is not part of this model. If it rejects an index outside its three columns with its own ArgumentOutOfRangeException, the `switch` default cannot be reached.
- LegacyFileTreeView.SortByHeader: the error path makes the same assumption about `IsSortedAscending`.
- FileTreeView.SortByHeader: the order inside groups of equal keys is stated for the files shown, not for the rows, because the ids are renumbered.

## Findings

| source | as written | input that shows it | evidently intended | confidence | as-written member | corrected member |
|---|---|---|---|---|---|---|
| Assets/GoogleDriveViewer/Editor/FileTreeView.cs:198 | the clicked item's id is used as a position in the displayed rows, but the sort at lines 164-165 reorders the rows without renumbering their ids | fetch files a and b (ids 0 and 1), sort by name in descending order, then delete the item with id 0 (file a): the prompt names file b and file b is deleted | delete the file of the clicked item, which the newer view achieves by renumbering after each sort | not executed | LegacyFileTreeView.TryDeleteFileAsWritten | LegacyFileTreeView.TryDeleteFile |
