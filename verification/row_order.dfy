/** Column sorting of rows as LINQ's `OrderBy` / `OrderByDescending` perform it: a stable
    sort by one string column. The string comparer is a parameter `le`, assumed only to
    be a total preorder (the shape of .NET's culture-sensitive default comparer, under
    which distinct strings may compare equal).
 */
module RowOrder {
  import opened Wrappers
  import opened TreeRows

  /** `le` is total and transitive; ties between distinct strings are allowed. */
  ghost predicate TotalPreorder(le: (string, string) -> bool) {
    && (forall a, b :: le(a, b) || le(b, a))
    && (forall a, b, c :: le(a, b) && le(b, c) ==> le(a, c))
  }

  /** The sortable columns: 0 = Name, 1 = Id, 2 = MimeType. */
  datatype SortColumn = FileNameColumn | FileIdColumn | MimeTypeColumn

  function ColumnIndex(c: SortColumn): int {
    match c
    case FileNameColumn => 0
    case FileIdColumn => 1
    case MimeTypeColumn => 2
  }

  /** The column at header index `index`; any other index throws
      `ArgumentOutOfRangeException`. */
  function ColumnAt(index: int): (r: Result<SortColumn>)
    ensures r.Success? <==> 0 <= index < 3
    ensures r.Success? ==> ColumnIndex(r.value) == index
    ensures r.Failure? ==> r.error == ArgumentOutOfRange("index", Some(index))
  {
    if index == 0 then Success(FileNameColumn)
    else if index == 1 then Success(FileIdColumn)
    else if index == 2 then Success(MimeTypeColumn)
    else Failure(ArgumentOutOfRange("index", Some(index)))
  }

  /** The sort key of a row: FileName, FileId or MimeType. */
  function SortKey(c: SortColumn, row: Row): string {
    match c
    case FileNameColumn => row.fileName
    case FileIdColumn => row.fileId
    case MimeTypeColumn => row.mimeType
  }

  /** The comparer for the requested direction: `le` itself, or `le` with its arguments
      swapped for a descending sort. */
  function Direction(le: (string, string) -> bool, ascending: bool): (string, string) -> bool {
    if ascending then le else (a: string, b: string) => le(b, a)
  }

  lemma DirectionIsTotalPreorder(le: (string, string) -> bool, ascending: bool)
    requires TotalPreorder(le)
    ensures TotalPreorder(Direction(le, ascending))
  {
  }

  /** Keys `a` and `b` compare equal. */
  predicate Tied(le: (string, string) -> bool, a: string, b: string) {
    le(a, b) && le(b, a)
  }

  /** The rows are in order of column `c` under `le`. */
  ghost predicate Sorted(rows: seq<Row>, c: SortColumn, le: (string, string) -> bool) {
    forall i, j :: 0 <= i < j < |rows| ==> le(SortKey(c, rows[i]), SortKey(c, rows[j]))
  }

  /** The rows whose key ties with `k`, in their order in `rows`. */
  function Ties(rows: seq<Row>, c: SortColumn, le: (string, string) -> bool, k: string): seq<Row> {
    if |rows| == 0 then []
    else (if Tied(le, SortKey(c, rows[0]), k) then [rows[0]] else []) + Ties(rows[1..], c, le, k)
  }

  /** `out` keeps the relative order of every group of rows with equal keys in `original`. */
  ghost predicate Stable(out: seq<Row>, original: seq<Row>, c: SortColumn, le: (string, string) -> bool) {
    forall k :: Ties(out, c, le, k) == Ties(original, c, le, k)
  }

  /** Inserts `x` into sorted rows after every row whose key may precede it. */
  function Insert(x: Row, sorted: seq<Row>, c: SortColumn, le: (string, string) -> bool): seq<Row> {
    if |sorted| == 0 then [x]
    else if le(SortKey(c, sorted[0]), SortKey(c, x)) then
      [sorted[0]] + Insert(x, sorted[1..], c, le)
    else [x] + sorted
  }

  /** Insertion sort by column `c` under `le`: a stable sorted permutation. */
  function SortRows(rows: seq<Row>, c: SortColumn, le: (string, string) -> bool): (r: seq<Row>)
    requires TotalPreorder(le)
    ensures multiset(r) == multiset(rows)
    ensures Sorted(r, c, le)
    ensures Stable(r, rows, c, le)
  {
    if |rows| == 0 then []
    else
      var n := |rows| - 1;
      var sorted := SortRows(rows[..n], c, le);
      InsertStep(rows[..n], rows[n], sorted, c, le);
      assert rows == rows[..n] + [rows[n]];
      Insert(rows[n], sorted, c, le)
  }

  /** Inserting the next input row into a stable sort of the rows before it gives a
      stable sort of the longer input. */
  lemma InsertStep(front: seq<Row>, x: Row, sorted: seq<Row>, c: SortColumn, le: (string, string) -> bool)
    requires TotalPreorder(le)
    requires multiset(sorted) == multiset(front)
    requires Sorted(sorted, c, le) && Stable(sorted, front, c, le)
    ensures multiset(Insert(x, sorted, c, le)) == multiset(front + [x])
    ensures Sorted(Insert(x, sorted, c, le), c, le)
    ensures Stable(Insert(x, sorted, c, le), front + [x], c, le)
  {
    InsertPermutes(x, sorted, c, le);
    InsertKeepsSorted(x, sorted, c, le);
    forall k | true
      ensures Ties(Insert(x, sorted, c, le), c, le, k) == Ties(front + [x], c, le, k)
    {
      InsertKeepsTies(x, sorted, c, le, k);
      TiesOfAppend(front, x, c, le, k);
    }
  }

  /** `OrderBy` (ascending) or `OrderByDescending` on column `c` with comparer `le`. */
  function OrderRows(rows: seq<Row>, c: SortColumn, ascending: bool, le: (string, string) -> bool): (r: seq<Row>)
    requires TotalPreorder(le)
    ensures multiset(r) == multiset(rows)
    ensures Sorted(r, c, Direction(le, ascending))
    ensures Stable(r, rows, c, Direction(le, ascending))
  {
    DirectionIsTotalPreorder(le, ascending);
    SortRows(rows, c, Direction(le, ascending))
  }

  lemma TiesOfAppend(rows: seq<Row>, x: Row, c: SortColumn, le: (string, string) -> bool, k: string)
    ensures Ties(rows + [x], c, le, k) == Ties(rows, c, le, k) + (if Tied(le, SortKey(c, x), k) then [x] else [])
  {
    if |rows| > 0 {
      assert (rows + [x])[1..] == rows[1..] + [x];
      TiesOfAppend(rows[1..], x, c, le, k);
    }
  }

  lemma TiesMembers(rows: seq<Row>, c: SortColumn, le: (string, string) -> bool, k: string, y: Row)
    ensures y in Ties(rows, c, le, k) <==> y in rows && Tied(le, SortKey(c, y), k)
  {
    if |rows| > 0 {
      TiesMembers(rows[1..], c, le, k, y);
      assert rows == [rows[0]] + rows[1..];
    }
  }

  lemma InsertPermutes(x: Row, sorted: seq<Row>, c: SortColumn, le: (string, string) -> bool)
    ensures multiset(Insert(x, sorted, c, le)) == multiset(sorted) + multiset{x}
  {
    if |sorted| > 0 {
      assert sorted == [sorted[0]] + sorted[1..];
      InsertPermutes(x, sorted[1..], c, le);
    }
  }

  lemma InsertKeepsSorted(x: Row, sorted: seq<Row>, c: SortColumn, le: (string, string) -> bool)
    requires TotalPreorder(le)
    requires Sorted(sorted, c, le)
    ensures Sorted(Insert(x, sorted, c, le), c, le)
  {
    if |sorted| > 0 {
      var head := sorted[0];
      if le(SortKey(c, head), SortKey(c, x)) {
        InsertKeepsSorted(x, sorted[1..], c, le);
        InsertPermutes(x, sorted[1..], c, le);
        var rest := Insert(x, sorted[1..], c, le);
        forall j | 0 <= j < |rest|
          ensures le(SortKey(c, head), SortKey(c, rest[j]))
        {
          assert rest[j] in multiset(sorted[1..]) + multiset{x};
        }
      }
    }
  }

  lemma InsertKeepsTies(x: Row, sorted: seq<Row>, c: SortColumn, le: (string, string) -> bool, k: string)
    requires TotalPreorder(le)
    requires Sorted(sorted, c, le)
    ensures Ties(Insert(x, sorted, c, le), c, le, k)
         == Ties(sorted, c, le, k) + (if Tied(le, SortKey(c, x), k) then [x] else [])
  {
    if |sorted| > 0 {
      if le(SortKey(c, sorted[0]), SortKey(c, x)) {
        SortedTail(sorted, c, le);
        InsertKeepsTies(x, sorted[1..], c, le, k);
        TiesAfterHead(x, sorted, c, le, k);
      } else {
        if Tied(le, SortKey(c, x), k) {
          NothingAfterTies(x, sorted, c, le, k);
        }
        assert ([x] + sorted)[1..] == sorted;
      }
    }
  }

  lemma SortedTail(rows: seq<Row>, c: SortColumn, le: (string, string) -> bool)
    requires |rows| > 0 && Sorted(rows, c, le)
    ensures Sorted(rows[1..], c, le)
  {
    forall i, j | 0 <= i < j < |rows| - 1
      ensures le(SortKey(c, rows[1..][i]), SortKey(c, rows[1..][j]))
    {
      assert rows[1..][i] == rows[i + 1] && rows[1..][j] == rows[j + 1];
    }
  }

  /** The step of `InsertKeepsTies` where `x` goes after the head. */
  lemma TiesAfterHead(x: Row, sorted: seq<Row>, c: SortColumn, le: (string, string) -> bool, k: string)
    requires |sorted| > 0 && le(SortKey(c, sorted[0]), SortKey(c, x))
    requires Ties(Insert(x, sorted[1..], c, le), c, le, k)
          == Ties(sorted[1..], c, le, k) + (if Tied(le, SortKey(c, x), k) then [x] else [])
    ensures Ties(Insert(x, sorted, c, le), c, le, k)
         == Ties(sorted, c, le, k) + (if Tied(le, SortKey(c, x), k) then [x] else [])
  {
    var head := sorted[0];
    var rest := Insert(x, sorted[1..], c, le);
    var h := if Tied(le, SortKey(c, head), k) then [head] else [];
    var t := if Tied(le, SortKey(c, x), k) then [x] else [];
    var ins := [head] + rest;
    assert Insert(x, sorted, c, le) == ins;
    assert ins[0] == head && ins[1..] == rest;
    assert Ties(ins, c, le, k) == h + Ties(rest, c, le, k);
    assert Ties(sorted, c, le, k) == h + Ties(sorted[1..], c, le, k);
    assert h + (Ties(sorted[1..], c, le, k) + t) == (h + Ties(sorted[1..], c, le, k)) + t;
  }

  /** When `x` sorts strictly before the first of some sorted rows, no row ties with a
      key that ties with `x`. */
  lemma NothingAfterTies(x: Row, sorted: seq<Row>, c: SortColumn, le: (string, string) -> bool, k: string)
    requires TotalPreorder(le)
    requires Sorted(sorted, c, le)
    requires |sorted| > 0 && !le(SortKey(c, sorted[0]), SortKey(c, x))
    requires Tied(le, SortKey(c, x), k)
    ensures Ties(sorted, c, le, k) == []
  {
    var hk := SortKey(c, sorted[0]);
    forall y | y in sorted
      ensures !Tied(le, SortKey(c, y), k)
    {
      var j :| 0 <= j < |sorted| && sorted[j] == y;
      var yk := SortKey(c, y);
      assert le(hk, yk) by {
        if j == 0 { assert le(hk, hk) || le(hk, hk); }
      }
    }
    NoTies(sorted, c, le, k);
  }

  lemma NoTies(rows: seq<Row>, c: SortColumn, le: (string, string) -> bool, k: string)
    requires forall y :: y in rows ==> !Tied(le, SortKey(c, y), k)
    ensures Ties(rows, c, le, k) == []
  {
    if |rows| > 0 {
      NoTies(rows[1..], c, le, k);
    }
  }

  /** A sorted, stable arrangement is unique: any two of them are equal. So `OrderRows`
      is exactly what a stable `OrderBy` / `OrderByDescending` produces. */
  lemma {:induction false} StableSortIsUnique(a: seq<Row>, b: seq<Row>, c: SortColumn, le: (string, string) -> bool)
    requires TotalPreorder(le)
    requires Sorted(a, c, le) && Sorted(b, c, le)
    requires forall k :: Ties(a, c, le, k) == Ties(b, c, le, k)
    ensures a == b
    decreases |a|
  {
    if |a| == 0 || |b| == 0 {
      if |a| > 0 || |b| > 0 {
        var y := if |a| > 0 then a[0] else b[0];
        var k := SortKey(c, y);
        TiesMembers(a, c, le, k, y);
        TiesMembers(b, c, le, k, y);
        assert false;
      }
    } else {
      HeadsAgree(a, b, c, le);
      forall k' | true
        ensures Ties(a[1..], c, le, k') == Ties(b[1..], c, le, k')
      {
        TailTies(a, b, c, le, k');
      }
      SortedTail(a, c, le);
      SortedTail(b, c, le);
      StableSortIsUnique(a[1..], b[1..], c, le);
      assert a == [a[0]] + a[1..] && b == [b[0]] + b[1..];
    }
  }

  /** Two sorted, stable arrangements start with the same row: each one's first row is
      the first of its tie group in both. */
  lemma HeadsAgree(a: seq<Row>, b: seq<Row>, c: SortColumn, le: (string, string) -> bool)
    requires TotalPreorder(le)
    requires Sorted(a, c, le) && Sorted(b, c, le)
    requires |a| > 0 && |b| > 0
    requires forall k :: Ties(a, c, le, k) == Ties(b, c, le, k)
    ensures a[0] == b[0]
  {
    var x, y := a[0], b[0];
    var k := SortKey(c, x);
    TiesMembers(a, c, le, k, x);
    TiesMembers(b, c, le, k, x);
    var j :| 0 <= j < |b| && b[j] == x;
    assert le(SortKey(c, y), k);
    TiesMembers(b, c, le, SortKey(c, y), y);
    TiesMembers(a, c, le, SortKey(c, y), y);
    var i :| 0 <= i < |a| && a[i] == y;
    assert le(k, SortKey(c, y));
    assert Ties(a, c, le, k)[0] == x;
    assert Ties(b, c, le, k)[0] == y;
  }

  /** Dropping a shared first row keeps the tie groups equal. */
  lemma TailTies(a: seq<Row>, b: seq<Row>, c: SortColumn, le: (string, string) -> bool, k: string)
    requires |a| > 0 && |b| > 0 && a[0] == b[0]
    requires Ties(a, c, le, k) == Ties(b, c, le, k)
    ensures Ties(a[1..], c, le, k) == Ties(b[1..], c, le, k)
  {
    var h := if Tied(le, SortKey(c, a[0]), k) then [a[0]] else [];
    assert Ties(a, c, le, k) == h + Ties(a[1..], c, le, k);
    assert Ties(b, c, le, k) == h + Ties(b[1..], c, le, k);
    assert Ties(a[1..], c, le, k) == Ties(a, c, le, k)[|h|..];
    assert Ties(b[1..], c, le, k) == Ties(b, c, le, k)[|h|..];
  }

  /** Sorting rows that are already in order leaves them as they are, so sorting twice
      by the same column and direction is the same as sorting once. */
  lemma OrderRowsIsIdempotent(rows: seq<Row>, c: SortColumn, ascending: bool, le: (string, string) -> bool)
    requires TotalPreorder(le)
    ensures Sorted(rows, c, Direction(le, ascending)) ==> OrderRows(rows, c, ascending, le) == rows
    ensures OrderRows(OrderRows(rows, c, ascending, le), c, ascending, le) == OrderRows(rows, c, ascending, le)
  {
    DirectionIsTotalPreorder(le, ascending);
    var once := OrderRows(rows, c, ascending, le);
    StableSortIsUnique(OrderRows(once, c, ascending, le), once, c, Direction(le, ascending));
    if Sorted(rows, c, Direction(le, ascending)) {
      StableSortIsUnique(once, rows, c, Direction(le, ascending));
    }
  }

  /** Whether rows are in order depends only on the files they show, not on their ids. */
  lemma SortedIgnoresIds(a: seq<Row>, b: seq<Row>, c: SortColumn, le: (string, string) -> bool)
    requires Files(a) == Files(b)
    requires Sorted(a, c, le)
    ensures Sorted(b, c, le)
  {
    assert |a| == |Files(a)| == |Files(b)| == |b|;
    forall i, j | 0 <= i < j < |b|
      ensures le(SortKey(c, b[i]), SortKey(c, b[j]))
    {
      assert FileOf(a[i]) == Files(a)[i] == Files(b)[i] == FileOf(b[i]);
      assert FileOf(a[j]) == Files(a)[j] == Files(b)[j] == FileOf(b[j]);
    }
  }

  /** Rows showing the same files have tie groups showing the same files: renumbering
      does not disturb stability. */
  lemma {:induction false} TiesIgnoreIds(a: seq<Row>, b: seq<Row>, c: SortColumn, le: (string, string) -> bool, k: string)
    requires Files(a) == Files(b)
    ensures Files(Ties(a, c, le, k)) == Files(Ties(b, c, le, k))
  {
    assert |a| == |Files(a)| == |Files(b)| == |b|;
    if |a| > 0 {
      assert FileOf(a[0]) == Files(a)[0] == Files(b)[0] == FileOf(b[0]);
      assert SortKey(c, a[0]) == SortKey(c, b[0]);
      FilesOfTail(a);
      FilesOfTail(b);
      TiesIgnoreIds(a[1..], b[1..], c, le, k);
      var ha := if Tied(le, SortKey(c, a[0]), k) then [a[0]] else [];
      var hb := if Tied(le, SortKey(c, b[0]), k) then [b[0]] else [];
      assert Files(ha) == Files(hb);
      assert Ties(a, c, le, k) == ha + Ties(a[1..], c, le, k);
      assert Ties(b, c, le, k) == hb + Ties(b[1..], c, le, k);
      FilesOfAppend(ha, Ties(a[1..], c, le, k));
      FilesOfAppend(hb, Ties(b[1..], c, le, k));
    }
  }

  lemma FilesOfTail(rows: seq<Row>)
    requires |rows| > 0
    ensures Files(rows[1..]) == Files(rows)[1..]
  {
  }

}
