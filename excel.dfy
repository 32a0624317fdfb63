/** The spreadsheet store: a table is a column list and a sequence of rows, and saving is a chain of
    whole-table transformations (projection, column union, concatenation, keep-last deduplication,
    filling of missing cells). Reading and writing the file itself are not modelled; the file's state
    before a save is a parameter and the table written is the result. */
module ExcelStore {
  import opened Values
  import opened Wrappers

  /** A row maps column names to cells; `Null` is a missing cell. */
  type Row = map<string, Value>

  datatype Table = Table(columns: seq<string>, rows: seq<Row>)

  /** `pd.DataFrame()`. */
  const EmptyTable: Table := Table([], [])

  /** The spreadsheet at the output path before a save. */
  datatype FileState = Absent | Unreadable | Readable(table: Table)

  /** `str(Path('output') / 'resume_data.xlsx')`. */
  const DefaultPath: string := "output/resume_data.xlsx"

  predicate Distinct<T(==)>(s: seq<T>) {
    forall i, j :: 0 <= i < j < |s| ==> s[i] != s[j]
  }

  /** Every row has exactly the table's columns, and no column is listed twice. */
  ghost predicate WellFormed(t: Table) {
    Distinct(t.columns) && forall i :: 0 <= i < |t.rows| ==> forall c :: c in t.rows[i] <==> c in t.columns
  }

  // ---------------------------------------------------------------------------------------------
  // Projection: `df[[c for c in selected_columns if c in df.columns]]`

  /** `[c for c in selected if c in columns]`. */
  function Present(selected: seq<string>, columns: seq<string>): (r: seq<string>)
    ensures forall c :: c in r <==> c in selected && c in columns
    ensures |r| <= |selected|
  {
    if selected == [] then []
    else (if selected[0] in columns then [selected[0]] else []) + Present(selected[1..], columns)
  }

  /** The row's cells in the columns `cols`. */
  function Restrict(row: Row, cols: seq<string>): Row {
    map c | c in row && c in cols :: row[c]
  }

  /** Restricting to the selected columns that exist, when a non-empty selection is given. */
  function Project(t: Table, selected: Option<seq<string>>): Table {
    if selected.None? || selected.value == [] then t
    else
      var cols := Present(selected.value, t.columns);
      Table(cols, seq(|t.rows|, i requires 0 <= i < |t.rows| => Restrict(t.rows[i], cols)))
  }

  // ---------------------------------------------------------------------------------------------
  // Column union: `list(dict.fromkeys(existing.columns + new.columns))`

  /** The elements of `s` in order of first occurrence. */
  function Dedup(s: seq<string>): (r: seq<string>)
    ensures Distinct(r)
    ensures forall c :: c in r <==> c in s
    ensures |r| <= |s|
  {
    if s == [] then []
    else
      var d := Dedup(s[..|s| - 1]);
      assert forall c :: c in s <==> c in s[..|s| - 1] || c == s[|s| - 1];
      if s[|s| - 1] in d then d else d + [s[|s| - 1]]
  }

  /** `reindex(columns=cols)` on one row: exactly the columns `cols`, missing cells `Null`. */
  function Fit(row: Row, cols: seq<string>): Row {
    map c | c in cols :: Get(row, c, Null)
  }

  function Reindex(t: Table, cols: seq<string>): Table {
    Table(cols, seq(|t.rows|, i requires 0 <= i < |t.rows| => Fit(t.rows[i], cols)))
  }

  /** `pd.concat([a, b], ignore_index=True)` of two tables with the same columns. */
  function Concat(a: Table, b: Table): Table {
    Table(a.columns, a.rows + b.rows)
  }

  // ---------------------------------------------------------------------------------------------
  // `drop_duplicates(subset=..., keep='last')`

  /** The cells of `row` in the key columns. */
  function KeyOf(row: Row, subset: seq<string>): (r: seq<Value>)
    ensures |r| == |subset|
  {
    if subset == [] then [] else [Get(row, subset[0], Null)] + KeyOf(row, subset[1..])
  }

  /** A later row has the same key as row `i`. */
  predicate KeyLater(rows: seq<Row>, subset: seq<string>, i: int)
    requires 0 <= i < |rows|
  {
    exists j :: i < j < |rows| && KeyOf(rows[j], subset) == KeyOf(rows[i], subset)
  }

  /** The rows of which no later row has the same key, in their order. */
  function KeepLast(rows: seq<Row>, subset: seq<string>): (r: seq<Row>)
    ensures |r| <= |rows|
  {
    if rows == [] then []
    else (if KeyLater(rows, subset, 0) then [] else [rows[0]]) + KeepLast(rows[1..], subset)
  }

  /** The deduplication step: by `resume_id` when that column exists, else by `file_name` and
      `upload_date` when both exist, else none. */
  function DedupKey(columns: seq<string>): Option<seq<string>> {
    if "resume_id" in columns then Some(["resume_id"])
    else if "file_name" in columns && "upload_date" in columns then Some(["file_name", "upload_date"])
    else None
  }

  function DropDuplicates(t: Table): Table {
    match DedupKey(t.columns)
    case Some(subset) => Table(t.columns, KeepLast(t.rows, subset))
    case None => t
  }

  // ---------------------------------------------------------------------------------------------
  // `fillna('Not Found')`

  function FillCell(v: Value): Value {
    if v.Null? then Str(NotFound) else v
  }

  function FillRow(row: Row): Row {
    map c | c in row :: FillCell(row[c])
  }

  function FillNa(t: Table): Table {
    Table(t.columns, seq(|t.rows|, i requires 0 <= i < |t.rows| => FillRow(t.rows[i])))
  }

  // ---------------------------------------------------------------------------------------------
  // `save_to_excel` and `load_from_excel`

  /** The table a merge starts from: the file's contents, or an empty table when the file is absent
      or cannot be read. */
  function ExistingTable(file: FileState): Table {
    match file
    case Readable(t) => t
    case _ => EmptyTable
  }

  /** The merged table: existing rows then new rows over the union of columns, deduplicated and with
      every missing cell filled. */
  function Merged(existing: Table, incoming: Table): Table {
    var cols := Dedup(existing.columns + incoming.columns);
    FillNa(DropDuplicates(Concat(Reindex(existing, cols), Reindex(incoming, cols))))
  }

  /** The table `save_to_excel(df, out_path, selected_columns, merge)` writes. */
  function SavedTable(df: Table, selected: Option<seq<string>>, merge: bool, file: FileState): Table {
    var incoming := Project(df, selected);
    if merge then Merged(ExistingTable(file), incoming) else FillNa(incoming)
  }

  /** The path `save_to_excel` writes to and returns. */
  function SavePath(outPath: Option<string>): (r: string)
    ensures outPath.None? ==> r == DefaultPath
    ensures outPath.Some? ==> r == outPath.value
  {
    if outPath.None? then DefaultPath else outPath.value
  }

  datatype LoadOutcome = NoFile | Loaded(table: Table) | ReadError

  /** `load_from_excel`: `None` when there is no file; reading a file that is there but unreadable
      raises. */
  function Load(file: FileState): (r: LoadOutcome)
    ensures r.NoFile? <==> file.Absent?
    ensures file.Readable? ==> r == Loaded(file.table)
  {
    match file
    case Absent => NoFile
    case Unreadable => ReadError
    case Readable(t) => Loaded(t)
  }

  // ---------------------------------------------------------------------------------------------
  // Properties: projection

  /** An independent definition of the kept selection, built from the end of the selection. */
  function Filter(selected: seq<string>, columns: seq<string>): seq<string> {
    if selected == [] then []
    else
      var init := Filter(selected[..|selected| - 1], columns);
      if selected[|selected| - 1] in columns then init + [selected[|selected| - 1]] else init
  }

  /** Extending the selection by one column extends the kept columns by it, when the table has it. */
  lemma {:induction false} PresentSnoc(selected: seq<string>, x: string, columns: seq<string>)
    ensures Present(selected + [x], columns) == Present(selected, columns) + (if x in columns then [x] else [])
  {
    if selected == [] {
      assert selected + [x] == [x];
    } else {
      var rest := selected[1..];
      assert selected + [x] == [selected[0]] + (rest + [x]);
      PresentSnoc(rest, x, columns);
      var h := if selected[0] in columns then [selected[0]] else [];
      assert Present(selected + [x], columns) == h + Present(rest + [x], columns);
      assert Present(selected, columns) == h + Present(rest, columns);
    }
  }

  /** The projected columns are the selected columns the table has, in selection order. */
  lemma {:induction false} PresentOrder(selected: seq<string>, columns: seq<string>)
    ensures Present(selected, columns) == Filter(selected, columns)
    decreases |selected|
  {
    if selected != [] {
      var init := selected[..|selected| - 1];
      PresentOrder(init, columns);
      PresentSnoc(init, selected[|selected| - 1], columns);
      assert init + [selected[|selected| - 1]] == selected;
    }
  }

  /** With a non-empty selection, the projection has the selected existing columns and each row has
      exactly those of its cells; with none, the table is unchanged. */
  lemma ProjectFacts(t: Table, selected: Option<seq<string>>)
    ensures var p := Project(t, selected);
      && |p.rows| == |t.rows|
      && (selected.None? || selected.value == [] ==> p == t)
      && (selected.Some? && selected.value != [] ==>
            (forall c :: c in p.columns <==> c in selected.value && c in t.columns)
            && forall i, c :: 0 <= i < |p.rows| ==> (c in p.rows[i] <==> c in t.rows[i] && c in p.columns))
  {
  }

  /** A projection of a well-formed table by a selection without repeats is well-formed. */
  lemma ProjectWellFormed(t: Table, selected: Option<seq<string>>)
    requires WellFormed(t)
    requires selected.Some? ==> Distinct(selected.value)
    ensures WellFormed(Project(t, selected))
  {
    if selected.Some? && selected.value != [] {
      PresentDistinct(selected.value, t.columns);
    }
  }

  lemma {:induction false} PresentDistinct(selected: seq<string>, columns: seq<string>)
    requires Distinct(selected)
    ensures Distinct(Present(selected, columns))
  {
    if selected != [] {
      PresentDistinct(selected[1..], columns);
      assert selected[0] !in selected[1..];
    }
  }

  // ---------------------------------------------------------------------------------------------
  // Properties: column union

  /** The union keeps the first list's distinct columns in front, in their order. */
  lemma {:induction false} DedupPrefix(a: seq<string>, b: seq<string>)
    ensures |Dedup(a)| <= |Dedup(a + b)| && Dedup(a + b)[..|Dedup(a)|] == Dedup(a)
    decreases |b|
  {
    if b == [] {
      assert a + b == a;
    } else {
      var b' := b[..|b| - 1];
      DedupPrefix(a, b');
      assert (a + b)[..|a + b| - 1] == a + b';
    }
  }

  /** A list without repeats is its own union. */
  lemma {:induction false} DedupDistinct(s: seq<string>)
    requires Distinct(s)
    ensures Dedup(s) == s
  {
    if s != [] {
      var init := s[..|s| - 1];
      DedupDistinct(init);
      assert s[|s| - 1] !in init;
      assert init + [s[|s| - 1]] == s;
    }
  }

  /** The merge columns: the existing columns (without repeats) first, then each new column the
      existing ones lack, no column twice. */
  lemma MergeColumns(existing: seq<string>, incoming: seq<string>)
    requires Distinct(existing)
    ensures var cols := Dedup(existing + incoming);
      && Distinct(cols)
      && (forall c :: c in cols <==> c in existing || c in incoming)
      && |existing| <= |cols| && cols[..|existing|] == existing
  {
    DedupDistinct(existing);
    DedupPrefix(existing, incoming);
  }

  // ---------------------------------------------------------------------------------------------
  // Properties: reindex and fill

  /** A reindexed table is well-formed whenever its columns have no repeats. */
  lemma ReindexWellFormed(t: Table, cols: seq<string>)
    requires Distinct(cols)
    ensures WellFormed(Reindex(t, cols))
  {
  }

  /** Reindexing keeps each present cell in the new columns and marks the others missing. */
  lemma ReindexCells(t: Table, cols: seq<string>, i: int, c: string)
    requires 0 <= i < |t.rows| && c in cols
    ensures var r := Reindex(t, cols).rows[i];
      c in r && r[c] == if c in t.rows[i] then t.rows[i][c] else Null
  {
  }

  /** After filling, no cell is missing; present cells are unchanged; rows and columns stay. */
  lemma FillNaFacts(t: Table)
    ensures var f := FillNa(t);
      && f.columns == t.columns && |f.rows| == |t.rows|
      && (forall i, c :: 0 <= i < |f.rows| ==> (c in f.rows[i] <==> c in t.rows[i]))
      && (forall i, c :: 0 <= i < |f.rows| && c in f.rows[i] ==> !f.rows[i][c].Null?)
      && (forall i, c :: 0 <= i < |f.rows| && c in t.rows[i] && !t.rows[i][c].Null? ==> f.rows[i][c] == t.rows[i][c])
      && (forall i, c :: 0 <= i < |f.rows| && c in t.rows[i] && t.rows[i][c].Null? ==> f.rows[i][c] == Str(NotFound))
  {
  }

  /** Filling twice is filling once. */
  lemma FillNaIdempotent(t: Table)
    ensures FillNa(FillNa(t)) == FillNa(t)
  {
    var f := FillNa(t);
    forall i | 0 <= i < |f.rows| ensures FillRow(f.rows[i]) == f.rows[i] {
      assert forall c :: c in f.rows[i] ==> FillCell(f.rows[i][c]) == f.rows[i][c];
    }
  }

  // ---------------------------------------------------------------------------------------------
  // Properties: keep-last deduplication

  /** Each kept row is an input row that no later row shares a key with, and every such input row is
      kept. */
  lemma {:induction false} KeepLastMembers(rows: seq<Row>, subset: seq<string>)
    ensures forall x :: x in KeepLast(rows, subset) <==>
      exists i :: 0 <= i < |rows| && rows[i] == x && !KeyLater(rows, subset, i)
  {
    if rows != [] {
      var tail := rows[1..];
      KeepLastMembers(tail, subset);
      forall i | 1 <= i < |rows| ensures KeyLater(rows, subset, i) == KeyLater(tail, subset, i - 1) {
        if KeyLater(rows, subset, i) {
          var j :| i < j < |rows| && KeyOf(rows[j], subset) == KeyOf(rows[i], subset);
          assert tail[j - 1] == rows[j];
        }
        if KeyLater(tail, subset, i - 1) {
          var j :| i - 1 < j < |tail| && KeyOf(tail[j], subset) == KeyOf(tail[i - 1], subset);
          assert rows[j + 1] == tail[j];
        }
      }
      forall x | exists i :: 0 <= i < |rows| && rows[i] == x && !KeyLater(rows, subset, i)
        ensures x in KeepLast(rows, subset)
      {
        var i :| 0 <= i < |rows| && rows[i] == x && !KeyLater(rows, subset, i);
        if i > 0 { assert tail[i - 1] == x; }
      }
      forall x | x in KeepLast(rows, subset)
        ensures exists i :: 0 <= i < |rows| && rows[i] == x && !KeyLater(rows, subset, i)
      {
        if x !in KeepLast(tail, subset) {
          assert x == rows[0] && !KeyLater(rows, subset, 0);
        } else {
          var i :| 0 <= i < |tail| && tail[i] == x && !KeyLater(tail, subset, i);
          assert rows[i + 1] == x;
        }
      }
    }
  }

  /** No two kept rows share a key. */
  lemma {:induction false} KeepLastUnique(rows: seq<Row>, subset: seq<string>)
    ensures var r := KeepLast(rows, subset);
      forall p, q :: 0 <= p < q < |r| ==> KeyOf(r[p], subset) != KeyOf(r[q], subset)
  {
    if rows != [] {
      var tail := rows[1..];
      KeepLastUnique(tail, subset);
      KeepLastMembers(tail, subset);
      var r := KeepLast(rows, subset);
      if !KeyLater(rows, subset, 0) {
        assert r == [rows[0]] + KeepLast(tail, subset);
        forall q | 0 < q < |r| ensures KeyOf(r[0], subset) != KeyOf(r[q], subset) {
          assert r[q] in KeepLast(tail, subset);
          var i :| 0 <= i < |tail| && tail[i] == r[q] && !KeyLater(tail, subset, i);
          assert rows[i + 1] == r[q];
        }
      }
    }
  }

  /** The last row with a given key. */
  predicate IsLastWithKey(rows: seq<Row>, subset: seq<string>, i: int, key: seq<Value>) {
    0 <= i < |rows| && KeyOf(rows[i], subset) == key && forall j :: i < j < |rows| ==> KeyOf(rows[j], subset) != key
  }

  /** Every key of the input survives, carried by the last input row with that key. */
  lemma KeepLastKeepsLast(rows: seq<Row>, subset: seq<string>, i: int)
    requires 0 <= i < |rows|
    ensures exists j :: i <= j && IsLastWithKey(rows, subset, j, KeyOf(rows[i], subset)) && rows[j] in KeepLast(rows, subset)
  {
    var key := KeyOf(rows[i], subset);
    var j := LastIndexWithKey(rows, subset, i);
    KeepLastMembers(rows, subset);
    assert !KeyLater(rows, subset, j);
  }

  /** The index of the last row with the key of row `i`. */
  function LastIndexWithKey(rows: seq<Row>, subset: seq<string>, i: int): (j: int)
    requires 0 <= i < |rows|
    ensures i <= j && IsLastWithKey(rows, subset, j, KeyOf(rows[i], subset))
    decreases |rows| - i
  {
    if KeyLater(rows, subset, i) then
      var k :| i < k < |rows| && KeyOf(rows[k], subset) == KeyOf(rows[i], subset);
      LastIndexWithKey(rows, subset, k)
    else i
  }

  /** In the concatenation of existing and new rows, a key that occurs among the new rows survives in a
      new row: new data wins over old. */
  lemma NewRowsWin(earlier: seq<Row>, incoming: seq<Row>, subset: seq<string>, i: int)
    requires 0 <= i < |incoming|
    ensures exists j :: (i <= j < |incoming| && KeyOf(incoming[j], subset) == KeyOf(incoming[i], subset)
      && (forall k :: j < k < |incoming| ==> KeyOf(incoming[k], subset) != KeyOf(incoming[i], subset))
      && incoming[j] in KeepLast(earlier + incoming, subset))
  {
    var rows := earlier + incoming;
    assert rows[|earlier| + i] == incoming[i];
    KeepLastKeepsLast(rows, subset, |earlier| + i);
    var j :| |earlier| + i <= j && IsLastWithKey(rows, subset, j, KeyOf(incoming[i], subset)) && rows[j] in KeepLast(rows, subset);
    assert rows[j] == incoming[j - |earlier|];
    forall k | j - |earlier| < k < |incoming| ensures KeyOf(incoming[k], subset) != KeyOf(incoming[i], subset) {
      assert rows[|earlier| + k] == incoming[k];
    }
  }

  // ---------------------------------------------------------------------------------------------
  // Properties: the save

  /** Whatever the file held, a merging save writes a well-formed table whose every cell is filled. */
  lemma MergedWellFormed(existing: Table, incoming: Table)
    ensures var m := Merged(existing, incoming);
      && WellFormed(m)
      && (forall c :: c in m.columns <==> c in existing.columns || c in incoming.columns)
      && forall i, c :: 0 <= i < |m.rows| && c in m.rows[i] ==> !m.rows[i][c].Null?
  {
    var cols := Dedup(existing.columns + incoming.columns);
    var c := Concat(Reindex(existing, cols), Reindex(incoming, cols));
    var d := DropDuplicates(c);
    assert WellFormed(c);
    if DedupKey(c.columns).Some? {
      KeepLastMembers(c.rows, DedupKey(c.columns).value);
      forall i | 0 <= i < |d.rows| ensures forall k :: k in d.rows[i] <==> k in cols {
        assert d.rows[i] in KeepLast(c.rows, DedupKey(c.columns).value);
      }
    }
    assert WellFormed(d);
    FillNaFacts(d);
  }

  /** Every row carries a `resume_id`, as the rows the application builds do. */
  predicate HasIds(rows: seq<Row>) {
    forall i :: 0 <= i < |rows| ==> "resume_id" in rows[i] && !rows[i]["resume_id"].Null?
  }

  /** A merge of rows that all carry a `resume_id` leaves exactly one row per id. */
  lemma MergedUniqueIds(existing: Table, incoming: Table)
    requires "resume_id" in existing.columns || "resume_id" in incoming.columns
    requires HasIds(existing.rows) && HasIds(incoming.rows)
    ensures var m := Merged(existing, incoming);
      HasIds(m.rows) && forall p, q :: 0 <= p < q < |m.rows| ==> m.rows[p]["resume_id"] != m.rows[q]["resume_id"]
  {
    var cols := Dedup(existing.columns + incoming.columns);
    var c := Concat(Reindex(existing, cols), Reindex(incoming, cols));
    assert "resume_id" in cols;
    ReindexKeepsIds(existing, cols);
    ReindexKeepsIds(incoming, cols);
    assert HasIds(c.rows);
    var r := KeepLast(c.rows, ["resume_id"]);
    assert DropDuplicates(c) == Table(cols, r);
    KeptIdsDistinct(c.rows);
    var m := Merged(existing, incoming);
    assert m == FillNa(Table(cols, r));
  }

  /** Keeping the last row per `resume_id` leaves rows with pairwise different ids. */
  lemma KeptIdsDistinct(rows: seq<Row>)
    requires HasIds(rows)
    ensures var r := KeepLast(rows, ["resume_id"]);
      HasIds(r) && forall p, q :: 0 <= p < q < |r| ==> r[p]["resume_id"] != r[q]["resume_id"]
  {
    var key: seq<string> := ["resume_id"];
    KeepLastUnique(rows, key);
    assert forall p, q :: 0 <= p < q < |KeepLast(rows, key)| ==>
      KeyOf(KeepLast(rows, key)[p], key) != KeyOf(KeepLast(rows, key)[q], key);
    var r: seq<Row> := KeepLast(rows, key);
    KeepLastMembers(rows, key);
    forall p: int | 0 <= p < |r| ensures "resume_id" in r[p] && !r[p]["resume_id"].Null? {
      assert r[p] in r;
      var i :| 0 <= i < |rows| && rows[i] == r[p] && !KeyLater(rows, key, i);
    }
    forall p, q | 0 <= p < q < |r| ensures r[p]["resume_id"] != r[q]["resume_id"] {
      assert KeyOf(r[p], key) != KeyOf(r[q], key);
      assert KeyOf(r[p], key) == [r[p]["resume_id"]];
      assert KeyOf(r[q], key) == [r[q]["resume_id"]];
    }
  }

  /** Reindexing to columns that include `resume_id` keeps every row's id. */
  lemma ReindexKeepsIds(t: Table, cols: seq<string>)
    requires "resume_id" in cols && HasIds(t.rows)
    ensures HasIds(Reindex(t, cols).rows)
    ensures forall i :: 0 <= i < |t.rows| ==> Reindex(t, cols).rows[i]["resume_id"] == t.rows[i]["resume_id"]
  {
  }

  /** Without a `resume_id` column and without both `file_name` and `upload_date`, a merge drops no
      row: the existing rows come first, then the new ones, each over the merged columns. */
  lemma MergedKeepsAllRows(existing: Table, incoming: Table)
    requires var cols := existing.columns + incoming.columns;
      "resume_id" !in cols && ("file_name" !in cols || "upload_date" !in cols)
    ensures var m := Merged(existing, incoming);
      && |m.rows| == |existing.rows| + |incoming.rows|
      && (forall i :: 0 <= i < |existing.rows| ==> m.rows[i] == FillRow(Fit(existing.rows[i], m.columns)))
      && forall i :: 0 <= i < |incoming.rows| ==>
           m.rows[|existing.rows| + i] == FillRow(Fit(incoming.rows[i], m.columns))
  {
    MergedWithoutKey(existing, incoming);
    ConcatFilledRows(existing, incoming, Dedup(existing.columns + incoming.columns), Merged(existing, incoming));
  }

  /** Concatenating two reindexed tables and filling them keeps every row of each, in order. */
  lemma ConcatFilledRows(existing: Table, incoming: Table, cols: seq<string>, m: Table)
    requires m == FillNa(Concat(Reindex(existing, cols), Reindex(incoming, cols)))
    ensures m.columns == cols && |m.rows| == |existing.rows| + |incoming.rows|
    ensures forall i :: 0 <= i < |existing.rows| ==> m.rows[i] == FillRow(Fit(existing.rows[i], cols))
    ensures forall i :: 0 <= i < |incoming.rows| ==> m.rows[|existing.rows| + i] == FillRow(Fit(incoming.rows[i], cols))
  {
    var e := Reindex(existing, cols);
    var n := Reindex(incoming, cols);
    assert |e.rows| == |existing.rows|;
    forall i | 0 <= i < |incoming.rows|
      ensures m.rows[|existing.rows| + i] == FillRow(Fit(incoming.rows[i], cols))
    {
      assert Concat(e, n).rows[|e.rows| + i] == n.rows[i];
    }
  }

  /** Without a deduplication key, a merge only concatenates and fills. */
  lemma MergedWithoutKey(existing: Table, incoming: Table)
    requires DedupKey(existing.columns + incoming.columns).None?
    ensures var cols := Dedup(existing.columns + incoming.columns);
      Merged(existing, incoming) == FillNa(Concat(Reindex(existing, cols), Reindex(incoming, cols)))
  {
    var cols := Dedup(existing.columns + incoming.columns);
    DedupKeyOfUnion(existing.columns + incoming.columns);
    var c := Concat(Reindex(existing, cols), Reindex(incoming, cols));
    assert c.columns == cols;
    assert DropDuplicates(c) == c;
  }

  /** The union of the columns has the same deduplication key as the columns it joins. */
  lemma DedupKeyOfUnion(cols: seq<string>)
    ensures DedupKey(Dedup(cols)) == DedupKey(cols)
  {
    var d := Dedup(cols);
    assert "resume_id" in d <==> "resume_id" in cols;
    assert "file_name" in d <==> "file_name" in cols;
    assert "upload_date" in d <==> "upload_date" in cols;
  }

  /** In a merge keyed by `resume_id`, each new row's id is carried in the output by the last new row
      with that id: an existing row never replaces new data. */
  lemma MergedIncomingWins(existing: Table, incoming: Table, i: int)
    requires "resume_id" in existing.columns || "resume_id" in incoming.columns
    requires 0 <= i < |incoming.rows|
    ensures var m := Merged(existing, incoming); var id := Get(incoming.rows[i], "resume_id", Null);
      exists j :: i <= j < |incoming.rows| && Get(incoming.rows[j], "resume_id", Null) == id
        && (forall k :: j < k < |incoming.rows| ==> Get(incoming.rows[k], "resume_id", Null) != id)
        && FillRow(Fit(incoming.rows[j], m.columns)) in m.rows
  {
    var cols := Dedup(existing.columns + incoming.columns);
    var e := Reindex(existing, cols);
    var n := Reindex(incoming, cols);
    var key: seq<string> := ["resume_id"];
    NewRowsWin(e.rows, n.rows, key, i);
    var j :| i <= j < |n.rows| && KeyOf(n.rows[j], key) == KeyOf(n.rows[i], key)
      && (forall k :: j < k < |n.rows| ==> KeyOf(n.rows[k], key) != KeyOf(n.rows[i], key))
      && n.rows[j] in KeepLast(e.rows + n.rows, key);
    LastIdOfReindexed(incoming, cols, i, j);
    NewRowKept(existing, incoming, j);
  }

  /** A reindexed new row that survives the keep-last step appears, filled, in the merge. */
  lemma NewRowKept(existing: Table, incoming: Table, j: int)
    requires "resume_id" in existing.columns || "resume_id" in incoming.columns
    requires 0 <= j < |incoming.rows|
    requires var cols := Dedup(existing.columns + incoming.columns);
      Reindex(incoming, cols).rows[j] in KeepLast(Reindex(existing, cols).rows + Reindex(incoming, cols).rows, ["resume_id"])
    ensures var m := Merged(existing, incoming); FillRow(Fit(incoming.rows[j], m.columns)) in m.rows
  {
    var cols := Dedup(existing.columns + incoming.columns);
    var e := Reindex(existing, cols);
    var n := Reindex(incoming, cols);
    var key: seq<string> := ["resume_id"];
    assert "resume_id" in cols;
    assert DropDuplicates(Concat(e, n)) == Table(cols, KeepLast(e.rows + n.rows, key));
    var r := KeepLast(e.rows + n.rows, key);
    var p :| 0 <= p < |r| && r[p] == n.rows[j];
    assert Merged(existing, incoming).rows[p] == FillRow(n.rows[j]);
  }

  /** The last reindexed row with a given `resume_id` key is the last original row with that id. */
  lemma LastIdOfReindexed(incoming: Table, cols: seq<string>, i: int, j: int)
    requires "resume_id" in cols && 0 <= i <= j < |incoming.rows|
    requires var n := Reindex(incoming, cols).rows; var key: seq<string> := ["resume_id"];
      KeyOf(n[j], key) == KeyOf(n[i], key) && forall k :: j < k < |n| ==> KeyOf(n[k], key) != KeyOf(n[i], key)
    ensures var id := Get(incoming.rows[i], "resume_id", Null);
      Get(incoming.rows[j], "resume_id", Null) == id
      && forall k :: j < k < |incoming.rows| ==> Get(incoming.rows[k], "resume_id", Null) != id
  {
    var n := Reindex(incoming, cols).rows;
    IdKey(n[j], incoming.rows[j], cols);
    IdKey(n[i], incoming.rows[i], cols);
    forall k | j < k < |incoming.rows|
      ensures Get(incoming.rows[k], "resume_id", Null) != Get(incoming.rows[i], "resume_id", Null)
    {
      IdKey(n[k], incoming.rows[k], cols);
    }
  }

  /** On a row reindexed to columns holding `resume_id`, the key is the original row's id. */
  lemma IdKey(fitted: Row, row: Row, cols: seq<string>)
    requires "resume_id" in cols && fitted == Fit(row, cols)
    ensures KeyOf(fitted, ["resume_id"]) == [Get(row, "resume_id", Null)]
  {
    assert ["resume_id"][1..] == [];
  }

  /** An absent file and an unreadable one both merge as an empty table. */
  lemma UnreadableIsEmpty(df: Table, selected: Option<seq<string>>)
    ensures SavedTable(df, selected, true, Absent) == SavedTable(df, selected, true, Unreadable)
    ensures SavedTable(df, selected, true, Absent) == Merged(EmptyTable, Project(df, selected))
  {
  }

  /** An overwriting save writes the projected rows, in order and with missing cells filled, whatever
      the file held. */
  lemma OverwriteIgnoresFile(df: Table, selected: Option<seq<string>>, f1: FileState, f2: FileState)
    ensures SavedTable(df, selected, false, f1) == SavedTable(df, selected, false, f2)
    ensures var s := SavedTable(df, selected, false, f1); var p := Project(df, selected);
      && s.columns == p.columns && |s.rows| == |p.rows|
      && (forall i :: 0 <= i < |p.rows| ==> s.rows[i] == FillRow(p.rows[i]))
      && (forall i, c :: 0 <= i < |s.rows| && c in s.rows[i] ==> !s.rows[i][c].Null?)
      && (forall i, c :: 0 <= i < |s.rows| && c in p.rows[i] && !p.rows[i][c].Null? ==> s.rows[i][c] == p.rows[i][c])
  {
  }
}
