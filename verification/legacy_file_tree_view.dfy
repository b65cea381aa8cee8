/** The earlier file list (`Editor/FileTreeView.cs`) without its drawing. It fetches
    synchronously, has no busy flags, sorts without renumbering the rows, and deletes
    one file at a time from the context menu.

    Its `TryDeleteFile` looks the clicked item up as `GetRows()[id]`, a position, while
    `id` is the item's id. Ids are positions only until the first sort, so the model
    keeps both: `TryDeleteFileAsWritten` indexes by position as the code does, and
    `TryDeleteFile` finds the row that carries the clicked id, which is what the menu
    evidently means.
 */
module LegacyFileTreeView {
  import opened Wrappers
  import opened TreeRows
  import opened RowOrder

  datatype View = View(
    items: seq<Row>,        // CurrentBindingItems, which are also the displayed rows
    selection: seq<int>,    // ids of the selected rows
    reloadScheduled: bool)  // a ReloadFiles queued with delayCall

  /** A new view: the constructor's `Reload()` turns the null list into an empty one. */
  function Create(): (v: View)
    ensures v.items == [] && v.selection == [] && !v.reloadScheduled
  {
    View(BuildRootChildren(None), [], false)
  }

  /** Drops every row; nothing else changes. */
  function ClearTreeItems(v: View): (r: View)
    ensures r.items == [] && r.(items := v.items) == v
  {
    v.(items := [])
  }

  /** `ReloadFiles`: the listing runs synchronously, so an exception from it reaches the
      caller and changes nothing. A non-empty list replaces the rows, numbered by
      position; a null or empty one keeps them. The selection is left alone. */
  function ReloadFiles(v: View, fetched: Result<Option<seq<DriveFile>>>): (r: Result<View>)
    ensures r.Success? <==> fetched.Success?
    ensures r.Failure? ==> r.error == fetched.error
    ensures r.Success? && fetched.value.Some? && |fetched.value.value| > 0 ==>
      && Files(r.value.items) == fetched.value.value
      && IdsAreIndices(r.value.items)
      && r.value.(items := v.items) == v
    ensures r.Success? && (fetched.value.None? || |fetched.value.value| == 0) ==> r.value == v
  {
    match fetched
    case Failure(e) => Failure(e)
    case Success(files) =>
      if files.Some? && |files.value| > 0 then Success(v.(items := RegisterFiles(files.value)))
      else Success(v)
  }

  /** Listing the same files again changes nothing: a refresh is idempotent. */
  lemma ReloadFilesIsIdempotent(v: View, fetched: Result<Option<seq<DriveFile>>>)
    ensures ReloadFiles(v, fetched).Success? ==>
      ReloadFiles(ReloadFiles(v, fetched).value, fetched) == ReloadFiles(v, fetched)
  {
  }

  /** The view after an editor update, and the exception the update's callback threw,
      if any. */
  datatype Update = Update(view: View, thrown: Option<Exception>)

  /** The editor's next update runs a queued `ReloadFiles`, if there is one. The queued
      callback is used up whether or not it throws; when the listing throws, the rows
      stay as they were and the exception escapes to the editor. */
  function RunScheduledReload(v: View, fetched: Result<Option<seq<DriveFile>>>): (r: Update)
    ensures !r.view.reloadScheduled
    ensures r.view.selection == v.selection
    ensures !v.reloadScheduled ==> r == Update(v, None)
    ensures v.reloadScheduled && fetched.Failure? ==>
      r.view.items == v.items && r.thrown == Some(fetched.error)
    ensures v.reloadScheduled && fetched.Success? ==>
      r.thrown.None? && Success(r.view) == ReloadFiles(v.(reloadScheduled := false), fetched)
  {
    if !v.reloadScheduled then Update(v, None)
    else
      match ReloadFiles(v.(reloadScheduled := false), fetched)
      case Failure(e) => Update(v.(reloadScheduled := false), Some(e))
      case Success(w) => Update(w, None)
  }

  /** The header changed its sort column or direction: the rows, ids included, are
      stably sorted on column `index`; nothing renumbers them. Any other index throws. */
  function SortByHeader(v: View, index: int, ascending: bool, le: (string, string) -> bool): (r: Result<View>)
    requires TotalPreorder(le)
    ensures r.Success? <==> 0 <= index < 3
    ensures r.Failure? ==> r.error == ArgumentOutOfRange("index", Some(index))
    ensures r.Success? ==> r.value.(items := v.items) == v
    ensures r.Success? ==> multiset(r.value.items) == multiset(v.items)
    ensures r.Success? ==> Sorted(r.value.items, ColumnAt(index).value, Direction(le, ascending))
    ensures r.Success? ==> Stable(r.value.items, v.items, ColumnAt(index).value, Direction(le, ascending))
  {
    match ColumnAt(index)
    case Failure(e) => Failure(e)
    case Success(c) => Success(v.(items := OrderRows(v.items, c, ascending, le)))
  }

  /** Each row's id is unique and the ids are exactly 0..n-1, in some order. */
  ghost predicate IdsArePermutationOfIndices(rows: seq<Row>) {
    && (forall i, j :: 0 <= i < j < |rows| ==> rows[i].id != rows[j].id)
    && (forall i :: 0 <= i < |rows| ==> 0 <= rows[i].id < |rows|)
  }

  /** Sorting moves rows with their ids, so the ids stay a permutation of the
      positions, but they need no longer equal them. */
  lemma SortKeepsIdsAPermutation(v: View, index: int, ascending: bool, le: (string, string) -> bool)
    requires TotalPreorder(le)
    requires 0 <= index < 3
    requires IdsArePermutationOfIndices(v.items)
    ensures IdsArePermutationOfIndices(SortByHeader(v, index, ascending, le).value.items)
  {
    var a := v.items;
    var b := SortByHeader(v, index, ascending, le).value.items;
    assert |b| == |multiset(b)| == |multiset(a)| == |a|;
    forall i | 0 <= i < |b|
      ensures exists p :: 0 <= p < |a| && a[p] == b[i]
    {
      assert b[i] in multiset(a);
    }
    forall i, j | 0 <= i < j < |b|
      ensures b[i].id != b[j].id
    {
      var p :| 0 <= p < |a| && a[p] == b[i];
      var q :| 0 <= q < |a| && a[q] == b[j];
      if p == q {
        MultisetCountOfDuplicate(b, i, j);
        RowsWithDistinctIdsOccurOnce(a, p);
        assert false;
      }
    }
  }

  lemma MultisetCountOfDuplicate(s: seq<Row>, i: int, j: int)
    requires 0 <= i < j < |s| && s[i] == s[j]
    ensures multiset(s)[s[i]] >= 2
  {
    assert s == s[..i] + [s[i]] + s[i + 1..j] + [s[j]] + s[j + 1..];
  }

  lemma RowsWithDistinctIdsOccurOnce(s: seq<Row>, p: int)
    requires 0 <= p < |s|
    requires forall i, j :: 0 <= i < j < |s| ==> s[i].id != s[j].id
    ensures multiset(s)[s[p]] == 1
  {
    assert s == s[..p] + [s[p]] + s[p + 1..];
    assert forall i :: 0 <= i < |s| && i != p ==> s[i] != s[p];
    assert s[p] !in s[..p];
    assert s[p] !in s[p + 1..];
  }

  /** `ContextClickedItem`: with nothing selected no menu opens; otherwise the menu
      offers to delete the clicked item, whatever else is selected. */
  function ContextClickedItem(v: View, id: int): (r: Option<int>)
    ensures r.None? <==> |v.selection| == 0
    ensures r.Some? ==> r.value == id
  {
    if |v.selection| == 0 then None else Some(id)
  }

  /** The confirmation text: "delete file '<name>'? (file id: <id>)". */
  function DeletePrompt(row: Row): string {
    "ファイル '" + row.fileName + "'を削除しますか? \n(ファイルID :" + row.fileId + ")"
  }

  /** What one delete from the menu did: the prompt shown, the view after it, and the
      file whose deletion was requested, if any. */
  datatype Deletion = Deletion(prompt: string, view: View, deletedFileId: Option<string>)

  /** The delete step once the row is chosen: a declined dialog changes nothing; a
      confirmed one deletes that row's file (the request may throw, which reaches the
      caller), clears the rows and queues a fetch. */
  function DeleteRow(v: View, item: Row, confirmed: bool, remoteFails: bool): (r: Result<Deletion>)
    ensures r.Failure? <==> confirmed && remoteFails
    ensures r.Failure? ==> r.error == RemoteFailure
    ensures r.Success? ==> r.value.prompt == DeletePrompt(item)
    ensures r.Success? && !confirmed ==> r.value.view == v && r.value.deletedFileId.None?
    ensures r.Success? && confirmed ==>
      && r.value.deletedFileId == Some(item.fileId)
      && r.value.view.items == [] && r.value.view.reloadScheduled
      && r.value.view.selection == v.selection
  {
    if !confirmed then Success(Deletion(DeletePrompt(item), v, None))
    else if remoteFails then Failure(RemoteFailure)
    else Success(Deletion(DeletePrompt(item), ClearTreeItems(v).(reloadScheduled := true), Some(item.fileId)))
  }

  /** `TryDeleteFile` as written: the clicked id is used as a position in the displayed
      rows. */
  function TryDeleteFileAsWritten(v: View, id: int, confirmed: bool, remoteFails: bool): (r: Result<Deletion>)
    ensures !(0 <= id < |v.items|) ==> r == Failure(IndexerOutOfRange)
    ensures 0 <= id < |v.items| ==> r == DeleteRow(v, v.items[id], confirmed, remoteFails)
  {
    if 0 <= id < |v.items| then DeleteRow(v, v.items[id], confirmed, remoteFails)
    else Failure(IndexerOutOfRange)
  }

  /** The first row carrying id `id` (`FindItem`), or null. */
  function FindRow(rows: seq<Row>, id: int): (r: Option<Row>)
    ensures r.None? <==> forall row :: row in rows ==> row.id != id
    ensures r.Some? ==> r.value in rows && r.value.id == id
  {
    if |rows| == 0 then None
    else if rows[0].id == id then Some(rows[0])
    else FindRow(rows[1..], id)
  }

  /** `TryDeleteFile` as the menu means it: the prompt and the deletion are for the row
      that carries the clicked id, wherever sorting has put it. */
  function TryDeleteFile(v: View, id: int, confirmed: bool, remoteFails: bool): (r: Result<Deletion>)
    ensures (forall row :: row in v.items ==> row.id != id) ==> r == Failure(NullReference)
    ensures r.Success? ==> exists row :: row in v.items && row.id == id && r.value.prompt == DeletePrompt(row)
    ensures r.Success? && confirmed ==>
      exists row :: row in v.items && row.id == id && r.value.deletedFileId == Some(row.fileId)
  {
    match FindRow(v.items, id)
    case None => Failure(NullReference)
    case Some(item) => DeleteRow(v, item, confirmed, remoteFails)
  }

  /** While ids equal positions (until the first sort) the code as written does what is
      meant. */
  lemma AsWrittenAgreesWhileIdsAreIndices(v: View, id: int, confirmed: bool, remoteFails: bool)
    requires IdsAreIndices(v.items)
    requires 0 <= id < |v.items|
    ensures TryDeleteFileAsWritten(v, id, confirmed, remoteFails) == TryDeleteFile(v, id, confirmed, remoteFails)
  {
    FindRowOfIndex(v.items, id, 0);
  }

  lemma FindRowOfIndex(rows: seq<Row>, id: int, offset: int)
    requires forall i :: 0 <= i < |rows| ==> rows[i].id == i + offset
    requires offset <= id < offset + |rows|
    ensures FindRow(rows, id) == Some(rows[id - offset])
  {
    if rows[0].id != id {
      FindRowOfIndex(rows[1..], id, offset + 1);
    }
  }

  /** Sorting does not change what deleting a given id does, once the row is looked up
      by its id: the same row is found, so the same prompt is shown and the same file
      deleted. The ids need only be a permutation of the positions, which every sort
      keeps (`SortKeepsIdsAPermutation`), so this holds across any number of sorts. */
  lemma SortDoesNotChangeWhatAnIdDeletes(v: View, index: int, ascending: bool, le: (string, string) -> bool,
                                         id: int, confirmed: bool, remoteFails: bool)
    requires TotalPreorder(le)
    requires 0 <= index < 3
    requires IdsArePermutationOfIndices(v.items)
    ensures FindRow(SortByHeader(v, index, ascending, le).value.items, id) == FindRow(v.items, id)
    ensures IdsAreIndices(v.items) && 0 <= id < |v.items| ==>
      FindRow(SortByHeader(v, index, ascending, le).value.items, id) == Some(v.items[id])
    ensures var after := TryDeleteFile(SortByHeader(v, index, ascending, le).value, id, confirmed, remoteFails);
      var before := TryDeleteFile(v, id, confirmed, remoteFails);
      && after.Success? == before.Success?
      && (after.Failure? ==> after.error == before.error)
      && (after.Success? ==> after.value.prompt == before.value.prompt && after.value.deletedFileId == before.value.deletedFileId)
  {
    var w := SortByHeader(v, index, ascending, le).value;
    SortKeepsIdsAPermutation(v, index, ascending, le);
    FindRowOfPermutation(v.items, w.items, id);
    SameRowSameDeletion(v, w, id, confirmed, remoteFails);
    if IdsAreIndices(v.items) && 0 <= id < |v.items| {
      FindRowOfIndex(v.items, id, 0);
    }
  }

  /** Two views in which an id finds the same row delete it in the same way. */
  lemma SameRowSameDeletion(v: View, w: View, id: int, confirmed: bool, remoteFails: bool)
    requires FindRow(w.items, id) == FindRow(v.items, id)
    ensures var after := TryDeleteFile(w, id, confirmed, remoteFails);
      var before := TryDeleteFile(v, id, confirmed, remoteFails);
      && after.Success? == before.Success?
      && (after.Failure? ==> after.error == before.error)
      && (after.Success? ==> after.value.prompt == before.value.prompt && after.value.deletedFileId == before.value.deletedFileId)
  {
  }

  /** Rows with distinct ids are found by id in the same way in any arrangement. */
  lemma FindRowOfPermutation(a: seq<Row>, b: seq<Row>, id: int)
    requires multiset(a) == multiset(b)
    requires forall i, j :: 0 <= i < j < |a| ==> a[i].id != a[j].id
    requires forall i, j :: 0 <= i < j < |b| ==> b[i].id != b[j].id
    ensures FindRow(b, id) == FindRow(a, id)
  {
    match FindRow(a, id)
    case Some(row) =>
      assert row in multiset(b);
      FindRowOfUniqueId(a, row);
      FindRowOfUniqueId(b, row);
    case None =>
      forall row | row in b
        ensures row.id != id
      {
        assert row in multiset(a);
      }
  }

  lemma FindRowOfUniqueId(rows: seq<Row>, row: Row)
    requires forall i, j :: 0 <= i < j < |rows| ==> rows[i].id != rows[j].id
    requires row in rows
    ensures FindRow(rows, row.id) == Some(row)
  {
    var found := FindRow(rows, row.id).value;
    var i :| 0 <= i < |rows| && rows[i] == found;
    var j :| 0 <= j < |rows| && rows[j] == row;
    assert i == j;
  }
}
