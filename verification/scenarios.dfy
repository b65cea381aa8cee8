/** Worked examples on concrete file lists, with ordinal string comparison standing in
    for the editor's culture-sensitive comparer. */
module Scenarios {
  import opened Wrappers
  import opened TreeRows
  import opened RowOrder
  import Ordinal
  import FileTreeView
  import LegacyFileTreeView

  const FileA: DriveFile := DriveFile("a", "id-a", "image/png")
  const FileB: DriveFile := DriveFile("b", "id-b", "image/png")
  const FileC: DriveFile := DriveFile("c", "id-c", "image/png")
  const FileD: DriveFile := DriveFile("d", "id-d", "image/png")

  function RowOf(id: int, f: DriveFile): Row {
    Row(id, f.name, f.id, f.mimeType)
  }

  lemma OrdinalFacts()
    ensures Ordinal.Le("a", "b") && Ordinal.Le("b", "c") && !Ordinal.Le("c", "b") && !Ordinal.Le("b", "a")
  {
    assert "a"[0] != "b"[0] && "b"[0] != "c"[0];
  }

  /** Registering rows from a list: the rows are determined by their files. */
  lemma Registered(files: seq<DriveFile>, rows: seq<Row>)
    requires IdsAreIndices(rows) && Files(rows) == files
    ensures RegisterFiles(files) == rows && Renumber(rows) == rows
  {
    RowsAreDeterminedByFiles(RegisterFiles(files), rows);
    RenumberIsRegister(rows);
  }

  /** Insertion sort by name, descending, on b, a, c. */
  lemma SortExample()
    ensures TotalPreorder(Ordinal.Le)
    ensures TotalPreorder(Direction(Ordinal.Le, false))
    ensures OrderRows([RowOf(0, FileB), RowOf(1, FileA), RowOf(2, FileC)], FileNameColumn, false, Ordinal.Le)
         == [RowOf(2, FileC), RowOf(0, FileB), RowOf(1, FileA)]
  {
    Ordinal.LeIsTotalPreorder();
    DirectionIsTotalPreorder(Ordinal.Le, false);
    var d := Direction(Ordinal.Le, false);
    var b, a, c := RowOf(0, FileB), RowOf(1, FileA), RowOf(2, FileC);
    SortExampleFirstTwo();
    SortExampleLast();
    assert [b, a, c][..2] == [b, a];
    assert SortRows([b, a, c], FileNameColumn, d) == Insert(c, SortRows([b, a], FileNameColumn, d), FileNameColumn, d);
  }

  /** The first two steps of the example: b, then a after it. */
  lemma SortExampleFirstTwo()
    ensures TotalPreorder(Direction(Ordinal.Le, false))
    ensures SortRows([RowOf(0, FileB), RowOf(1, FileA)], FileNameColumn, Direction(Ordinal.Le, false))
         == [RowOf(0, FileB), RowOf(1, FileA)]
  {
    Ordinal.LeIsTotalPreorder();
    DirectionIsTotalPreorder(Ordinal.Le, false);
    OrdinalFacts();
    var d := Direction(Ordinal.Le, false);
    var b, a := RowOf(0, FileB), RowOf(1, FileA);
    assert d(SortKey(FileNameColumn, b), SortKey(FileNameColumn, a));
    assert SortRows([], FileNameColumn, d) == [];
    assert [b][..0] == [];
    assert SortRows([b], FileNameColumn, d) == [b];
    assert [b, a][..1] == [b];
    assert Insert(a, [b], FileNameColumn, d) == [b, a];
  }

  /** The last step of the example: c goes in front of b, a. */
  lemma SortExampleLast()
    ensures Insert(RowOf(2, FileC), [RowOf(0, FileB), RowOf(1, FileA)], FileNameColumn, Direction(Ordinal.Le, false))
         == [RowOf(2, FileC), RowOf(0, FileB), RowOf(1, FileA)]
  {
    OrdinalFacts();
    var d := Direction(Ordinal.Le, false);
    var b, c := RowOf(0, FileB), RowOf(2, FileC);
    assert !d(SortKey(FileNameColumn, b), SortKey(FileNameColumn, c));
  }

  /** Rows fetched as b, a, c and sorted by name, descending, come out as c, b, a with
      ids 0, 1, 2 in that order. */
  lemma SortByNameDescending()
    ensures TotalPreorder(Ordinal.Le)
    ensures var v := FileTreeView.EndReload(FileTreeView.BeginReload(FileTreeView.Create()),
                                            Success(Some([FileB, FileA, FileC])));
      FileTreeView.SortByHeader(v, 0, false, Ordinal.Le)
      == Success(v.(items := [RowOf(0, FileC), RowOf(1, FileB), RowOf(2, FileA)]))
  {
    Ordinal.LeIsTotalPreorder();
    var v := FileTreeView.EndReload(FileTreeView.BeginReload(FileTreeView.Create()), Success(Some([FileB, FileA, FileC])));
    FetchedBAC();
    SortExample();
    RenumberedCBA();
    assert FileTreeView.SortByHeader(v, 0, false, Ordinal.Le)
        == Success(v.(items := Renumber([RowOf(2, FileC), RowOf(0, FileB), RowOf(1, FileA)])));
  }

  lemma FetchedBAC()
    ensures FileTreeView.EndReload(FileTreeView.BeginReload(FileTreeView.Create()), Success(Some([FileB, FileA, FileC])))
         == FileTreeView.View([RowOf(0, FileB), RowOf(1, FileA), RowOf(2, FileC)], [], false, false, false, false)
  {
    Registered([FileB, FileA, FileC], [RowOf(0, FileB), RowOf(1, FileA), RowOf(2, FileC)]);
  }

  lemma RenumberedCBA()
    ensures Renumber([RowOf(2, FileC), RowOf(0, FileB), RowOf(1, FileA)])
         == [RowOf(0, FileC), RowOf(1, FileB), RowOf(2, FileA)]
  {
    var sorted := [RowOf(2, FileC), RowOf(0, FileB), RowOf(1, FileA)];
    var renumbered := [RowOf(0, FileC), RowOf(1, FileB), RowOf(2, FileA)];
    assert Files(sorted) == Files(renumbered);
    RowsAreDeterminedByFiles(Renumber(sorted), renumbered);
  }

  /** Two rows a, b sorted by name, descending: b (id 1) now sits at position 0. */
  lemma LegacySortExample()
    ensures TotalPreorder(Ordinal.Le)
    ensures OrderRows([RowOf(0, FileA), RowOf(1, FileB)], FileNameColumn, false, Ordinal.Le)
         == [RowOf(1, FileB), RowOf(0, FileA)]
  {
    Ordinal.LeIsTotalPreorder();
    DirectionIsTotalPreorder(Ordinal.Le, false);
    OrdinalFacts();
    var d := Direction(Ordinal.Le, false);
    var a, b := RowOf(0, FileA), RowOf(1, FileB);
    assert !d(SortKey(FileNameColumn, a), SortKey(FileNameColumn, b));
    assert [a][..0] == [];
    assert SortRows([a], FileNameColumn, d) == [a];
    assert [a, b][..1] == [a];
    assert Insert(b, [a], FileNameColumn, d) == [b, a];
  }

  /** In the earlier file list, fetch a and b, sort by name descending, and delete the
      item with id 0 (file a): the code as written asks about and deletes file b, the
      row now at position 0, while the lookup by id deletes file a. */
  lemma LegacyDeleteAfterSortHitsWrongFile()
    ensures TotalPreorder(Ordinal.Le)
    ensures var v := LegacyFileTreeView.ReloadFiles(LegacyFileTreeView.Create(), Success(Some([FileA, FileB])));
      && v.Success?
      && LegacyFileTreeView.SortByHeader(v.value, 0, false, Ordinal.Le).Success?
      && var sorted := LegacyFileTreeView.SortByHeader(v.value, 0, false, Ordinal.Le).value;
         && LegacyFileTreeView.TryDeleteFileAsWritten(sorted, 0, true, false).Success?
         && LegacyFileTreeView.TryDeleteFileAsWritten(sorted, 0, true, false).value.deletedFileId == Some("id-b")
         && LegacyFileTreeView.TryDeleteFile(sorted, 0, true, false).Success?
         && LegacyFileTreeView.TryDeleteFile(sorted, 0, true, false).value.deletedFileId == Some("id-a")
  {
    Ordinal.LeIsTotalPreorder();
    var fetched := [RowOf(0, FileA), RowOf(1, FileB)];
    Registered([FileA, FileB], fetched);
    var v := LegacyFileTreeView.ReloadFiles(LegacyFileTreeView.Create(), Success(Some([FileA, FileB])));
    assert v == Success(LegacyFileTreeView.View(fetched, [], false));
    LegacySortExample();
    var sorted := LegacyFileTreeView.SortByHeader(v.value, 0, false, Ordinal.Le).value;
    assert sorted.items == [RowOf(1, FileB), RowOf(0, FileA)];
    assert LegacyFileTreeView.FindRow(sorted.items, 0) == Some(RowOf(0, FileA));
  }

  lemma DialogLiterals()
    ensures FileTreeView.CountLine(4) == "4個のファイルを削除しますか?"
    ensures FileTreeView.CountLine(3) == "3個のファイルを削除しますか?"
    ensures FileTreeView.MoreFilesLine(1) == "他1個のファイル"
    ensures FileTreeView.NameLine("a") == "・a" && FileTreeView.NameLine("b") == "・b"
    ensures FileTreeView.NameLine("c") == "・c"
  {
    SmallCounts();
  }

  /** The counts used in the dialog examples are written as one digit. */
  lemma SmallCounts()
    ensures FileTreeView.DecimalString(1) == "1"
    ensures FileTreeView.DecimalString(3) == "3"
    ensures FileTreeView.DecimalString(4) == "4"
  {
    assert FileTreeView.DecimalString(1) == [FileTreeView.DigitChar(1)];
    assert FileTreeView.DecimalString(3) == [FileTreeView.DigitChar(3)];
    assert FileTreeView.DecimalString(4) == [FileTreeView.DigitChar(4)];
  }

  /** Four selected files: the dialog asks about 4 files, names the first three and
      reports 1 more. */
  lemma DeleteDialogOfFour()
    ensures FileTreeView.DeleteDialogLines(RegisterFiles([FileA, FileB, FileC, FileD]), [0, 1, 2, 3])
         == Success(["4個のファイルを削除しますか?", "・a", "・b", "・c", "他1個のファイル"])
  {
    var rows := [RowOf(0, FileA), RowOf(1, FileB), RowOf(2, FileC), RowOf(3, FileD)];
    Registered([FileA, FileB, FileC, FileD], rows);
    DialogLiterals();
    var lines := FileTreeView.DeleteDialogLines(rows, [0, 1, 2, 3]).value;
    assert |lines| == 5;
    assert lines[1] == FileTreeView.NameLine(rows[0].fileName);
    assert lines[2] == FileTreeView.NameLine(rows[1].fileName);
    assert lines[3] == FileTreeView.NameLine(rows[2].fileName);
    assert lines[0] == FileTreeView.CountLine(4) && lines[4] == FileTreeView.MoreFilesLine(1);
    assert lines == [FileTreeView.CountLine(4), FileTreeView.NameLine("a"), FileTreeView.NameLine("b"),
                     FileTreeView.NameLine("c"), FileTreeView.MoreFilesLine(1)];
  }

  /** Three selected files, in selection order 2, 0, 1: all three are named, in that
      order, with no trailing line. */
  lemma DeleteDialogOfThree()
    ensures FileTreeView.DeleteDialogLines(RegisterFiles([FileA, FileB, FileC, FileD]), [2, 0, 1])
         == Success(["3個のファイルを削除しますか?", "・c", "・a", "・b"])
  {
    var rows := [RowOf(0, FileA), RowOf(1, FileB), RowOf(2, FileC), RowOf(3, FileD)];
    Registered([FileA, FileB, FileC, FileD], rows);
    DialogLiterals();
    var lines := FileTreeView.DeleteDialogLines(rows, [2, 0, 1]).value;
    assert |lines| == 4;
    assert lines[1] == FileTreeView.NameLine(rows[2].fileName);
    assert lines[2] == FileTreeView.NameLine(rows[0].fileName);
    assert lines[3] == FileTreeView.NameLine(rows[1].fileName);
    assert lines[0] == FileTreeView.CountLine(3);
    assert lines == [FileTreeView.CountLine(3), FileTreeView.NameLine("c"), FileTreeView.NameLine("a"),
                     FileTreeView.NameLine("b")];
  }
}
