/** Rows of the file list: each row is a `FileTreeViewItem` carrying a tree-view id and a
    copy of one Drive file's name, id and MIME type.
 */
module TreeRows {
  import opened Wrappers

  /** The metadata of a Drive file as the client library lists it. */
  datatype DriveFile = DriveFile(name: string, id: string, mimeType: string)

  /** A `FileTreeViewItem`: the tree-view id plus the copied file fields. */
  datatype Row = Row(id: int, fileName: string, fileId: string, mimeType: string)

  /** The file a row shows. */
  function FileOf(row: Row): DriveFile {
    DriveFile(row.fileName, row.fileId, row.mimeType)
  }

  /** The files the rows show, in display order. */
  function Files(rows: seq<Row>): seq<DriveFile> {
    seq(|rows|, i requires 0 <= i < |rows| => FileOf(rows[i]))
  }

  /** Each row's id is its position in the list. */
  predicate IdsAreIndices(rows: seq<Row>) {
    forall i :: 0 <= i < |rows| ==> rows[i].id == i
  }

  lemma FilesOfAppend(a: seq<Row>, b: seq<Row>)
    ensures Files(a + b) == Files(a) + Files(b)
  {
  }

  /** One row per file, in order: row i has id i and shows `files[i]`. */
  function RegisterFiles(files: seq<DriveFile>): (rows: seq<Row>)
    ensures |rows| == |files|
    ensures IdsAreIndices(rows)
    ensures Files(rows) == files
  {
    if |files| == 0 then []
    else
      var n := |files| - 1;
      var front := RegisterFiles(files[..n]);
      var row := Row(n, files[n].name, files[n].id, files[n].mimeType);
      FilesOfAppend(front, [row]);
      assert files == files[..n] + [files[n]];
      front + [row]
  }

  /** The same rows in the same order with ids reassigned 0..n-1. */
  function Renumber(rows: seq<Row>): (r: seq<Row>)
    ensures |r| == |rows|
    ensures IdsAreIndices(r)
    ensures Files(r) == Files(rows)
  {
    if |rows| == 0 then []
    else
      var n := |rows| - 1;
      var front := Renumber(rows[..n]);
      FilesOfAppend(front, [rows[n].(id := n)]);
      FilesOfAppend(rows[..n], [rows[n]]);
      assert rows == rows[..n] + [rows[n]];
      front + [rows[n].(id := n)]
  }

  /** Rows numbered by position are determined by the files they show. */
  lemma RowsAreDeterminedByFiles(a: seq<Row>, b: seq<Row>)
    requires IdsAreIndices(a) && IdsAreIndices(b)
    requires Files(a) == Files(b)
    ensures a == b
  {
    assert |a| == |Files(a)| == |Files(b)| == |b|;
    forall i | 0 <= i < |a|
      ensures a[i] == b[i]
    {
      assert FileOf(a[i]) == Files(a)[i] == Files(b)[i] == FileOf(b[i]);
    }
  }

  /** Renumbering gives exactly the rows that registering the displayed files would
      give, and registering the files of position-numbered rows gives them back. */
  lemma RenumberIsRegister(rows: seq<Row>)
    ensures Renumber(rows) == RegisterFiles(Files(rows))
    ensures IdsAreIndices(rows) ==> RegisterFiles(Files(rows)) == rows
  {
    RowsAreDeterminedByFiles(Renumber(rows), RegisterFiles(Files(rows)));
    if IdsAreIndices(rows) {
      RowsAreDeterminedByFiles(rows, RegisterFiles(Files(rows)));
    }
  }

  /** The row list `BuildRoot` hands to the tree: a null list becomes a fresh empty one,
      and a non-null list (empty or not) is used as it is. */
  function BuildRootChildren(items: Option<seq<Row>>): (children: seq<Row>)
    ensures items.None? ==> children == []
    ensures items.Some? ==> children == items.value
  {
    match items
    case None => []
    case Some(rows) => rows
  }

  /** A permutation of rows permutes the files they show. */
  lemma FilesOfPermutation(a: seq<Row>, b: seq<Row>)
    requires multiset(a) == multiset(b)
    ensures multiset(Files(a)) == multiset(Files(b))
    decreases |a|
  {
    if |a| == 0 {
      assert |b| == |multiset(b)| == 0;
    } else {
      var x := a[0];
      assert x in multiset(b);
      var j :| 0 <= j < |b| && b[j] == x;
      var rest := b[..j] + b[j + 1..];
      assert b == b[..j] + [x] + b[j + 1..];
      assert a == [x] + a[1..];
      assert multiset(b) == multiset(b[..j]) + multiset{x} + multiset(b[j + 1..]);
      assert multiset(a) == multiset{x} + multiset(a[1..]);
      assert multiset(rest) == multiset(b[..j]) + multiset(b[j + 1..]);
      assert multiset(rest) == multiset(b) - multiset{x};
      assert multiset(a[1..]) == multiset(a) - multiset{x};
      FilesOfPermutation(a[1..], rest);
      FilesOfAppend([x], a[1..]);
      FilesOfAppend(b[..j], [x]);
      FilesOfAppend(b[..j] + [x], b[j + 1..]);
      FilesOfAppend(b[..j], b[j + 1..]);
    }
  }
}
