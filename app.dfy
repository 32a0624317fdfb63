/** The application's pipeline: one uploaded file to one validated record, a batch of uploads into
    the session table, and the confirmed deletion of selected rows. The extractors the pipeline calls
    are parameters, each of which may raise. */
module App {
  import opened Text
  import opened Values
  import opened Wrappers
  import opened Validators
  import opened Helpers
  import opened ExcelStore

  // ---------------------------------------------------------------------------------------------
  // The file extension: `Path(file.name).suffix.lower()`

  /** The index of the last `c` in `s`, or -1 when there is none (`str.rfind`). */
  function RFind(s: string, c: char): (r: int)
    ensures -1 <= r < |s|
    ensures r >= 0 ==> s[r] == c && forall j :: r < j < |s| ==> s[j] != c
    ensures r == -1 ==> forall j :: 0 <= j < |s| ==> s[j] != c
  {
    if s == [] then -1 else if s[|s| - 1] == c then |s| - 1 else RFind(s[..|s| - 1], c)
  }

  /** `Path(name).name`: the text after the last '/'. */
  function BaseName(name: string): string {
    name[RFind(name, '/') + 1..]
  }

  /** `Path(name).suffix`: from the last '.' of the final component, when that dot is neither its first
      nor its last character; otherwise empty. */
  function Suffix(name: string): string {
    var n := BaseName(name);
    var i := RFind(n, '.');
    if 0 < i < |n| - 1 then n[i..] else ""
  }

  datatype FileKind = PdfFile | DocxFile | Unsupported

  function KindOf(name: string): (k: FileKind)
    ensures k == PdfFile <==> Lower(Suffix(name)) == ".pdf"
    ensures k == DocxFile <==> Lower(Suffix(name)) in [".docx", ".doc"]
  {
    var ext := Lower(Suffix(name));
    if ext == ".pdf" then PdfFile else if ext == ".docx" || ext == ".doc" then DocxFile else Unsupported
  }

  // ---------------------------------------------------------------------------------------------
  // `process_single_resume(file, file_content)`

  /** The components the pipeline calls: the vision extractor (`extract_with_openai_vision(content,
      file_type)`), the two text extractors, and the language-model extractor. */
  datatype Extractors = Extractors(
    vision: (Bytes, string) -> Outcome<Record>,
    pdfText: Bytes -> Outcome<string>,
    docxText: Bytes -> Outcome<string>,
    langChain: string -> Outcome<Record>)

  /** One uploaded file: its name and bytes, with the id and the timestamp the pipeline gives it. */
  datatype Upload = Upload(name: string, content: Bytes, id: string, stamp: string)

  /** The fields the pipeline adds to every record. */
  function Base(u: Upload): Record {
    map["resume_id" := Str(u.id), "file_name" := Str(u.name), "upload_date" := Str(u.stamp)]
  }

  /** The final step: no record from an empty AI result, otherwise the validated merge in which the
      AI's fields override the pipeline's. */
  function Finish(u: Upload, ai: Record): Option<Record> {
    if ai == map[] then None else Some(Validated(Base(u) + ai))
  }

  /** The text route: too little text gives no record, otherwise the cleaned text goes to the
      language-model extractor. */
  function FromText(u: Upload, text: Outcome<string>, x: Extractors): Option<Record> {
    match text
    case Raises => None
    case Gives(t) =>
      if t == "" || |Strip(t)| < 50 then None
      else
        match x.langChain(CleanText(t))
        case Raises => None
        case Gives(ai) => Finish(u, ai)
  }

  /** The vision route first; an empty vision result falls back to the text route. */
  function ProcessSingleResume(u: Upload, x: Extractors): Option<Record> {
    match KindOf(u.name)
    case Unsupported => None
    case PdfFile =>
      (match x.vision(u.content, "pdf")
       case Raises => None
       case Gives(ai) => if ai != map[] then Finish(u, ai) else FromText(u, x.pdfText(u.content), x))
    case DocxFile =>
      (match x.vision(u.content, "docx")
       case Raises => None
       case Gives(ai) => if ai != map[] then Finish(u, ai) else FromText(u, x.docxText(u.content), x))
  }

  // ---------------------------------------------------------------------------------------------
  // Properties of one file

  lemma {:induction false} RFindLower(s: string, c: char)
    requires LowerChar(c) == c && forall d :: LowerChar(d) == c ==> d == c
    ensures RFind(Lower(s), c) == RFind(s, c)
  {
    if s != [] {
      var init := s[..|s| - 1];
      assert Lower(s)[..|s| - 1] == Lower(init);
      RFindLower(init, c);
    }
  }

  /** The suffix of a lower-cased name is the lower-cased suffix. */
  lemma SuffixLower(name: string)
    ensures Suffix(Lower(name)) == Lower(Suffix(name))
  {
    BaseNameLower(name);
    var n := BaseName(name);
    RFindLower(n, '.');
    var k := RFind(n, '.');
    if 0 < k < |n| - 1 {
      LowerFrom(n, k);
    } else {
      assert Lower(Suffix(name)) == Lower("");
    }
  }

  /** The final component of a lower-cased name is the lower-cased final component. */
  lemma BaseNameLower(name: string)
    ensures BaseName(Lower(name)) == Lower(BaseName(name))
  {
    RFindLower(name, '/');
    LowerFrom(name, RFind(name, '/') + 1);
  }

  lemma LowerFrom(s: string, k: nat)
    requires k <= |s|
    ensures Lower(s)[k..] == Lower(s[k..])
  {
  }

  /** Two names that differ only in letter case are handled as the same kind of file. */
  lemma KindIgnoresCase(n1: string, n2: string)
    requires Lower(n1) == Lower(n2)
    ensures KindOf(n1) == KindOf(n2)
  {
    SuffixLower(n1);
    SuffixLower(n2);
    LowerIdempotent(Suffix(n1));
    LowerIdempotent(Suffix(n2));
    assert Lower(Suffix(n1)) == Suffix(Lower(n1));
  }

  lemma LowerIdempotent(s: string)
    ensures Lower(Lower(s)) == Lower(s)
  {
  }

  /** A file that is neither a PDF nor a Word document gives no record. */
  lemma UnsupportedGivesNone(u: Upload, x: Extractors)
    requires Lower(Suffix(u.name)) !in [".pdf", ".docx", ".doc"]
    ensures ProcessSingleResume(u, x) == None
  {
  }

  /** A non-empty vision result is the AI result: the text extractors and the language model are
      never consulted. */
  lemma VisionFirst(u: Upload, x: Extractors, pdfText: Bytes -> Outcome<string>, docxText: Bytes -> Outcome<string>,
                    langChain: string -> Outcome<Record>)
    requires KindOf(u.name) != Unsupported
    requires var ai := x.vision(u.content, if KindOf(u.name) == PdfFile then "pdf" else "docx");
      ai.Gives? && ai.value != map[]
    ensures var y := x.(pdfText := pdfText, docxText := docxText, langChain := langChain);
      ProcessSingleResume(u, y) == ProcessSingleResume(u, x)
    ensures ProcessSingleResume(u, x) ==
      Finish(u, x.vision(u.content, if KindOf(u.name) == PdfFile then "pdf" else "docx").value)
  {
  }

  /** With an empty vision result, a text that strips to fewer than 50 characters gives no record,
      whatever the language model would say. */
  lemma ShortTextGivesNone(u: Upload, x: Extractors)
    requires KindOf(u.name) != Unsupported
    requires x.vision(u.content, if KindOf(u.name) == PdfFile then "pdf" else "docx") == Gives(map[])
    requires var t := if KindOf(u.name) == PdfFile then x.pdfText(u.content) else x.docxText(u.content);
      t.Gives? && |Strip(t.value)| < 50
    ensures ProcessSingleResume(u, x) == None
  {
  }

  /** With an empty vision result and enough text, the record is the language model's answer on the
      cleaned text, or none when that answer is empty. */
  lemma TextRoute(u: Upload, x: Extractors)
    requires KindOf(u.name) != Unsupported
    requires x.vision(u.content, if KindOf(u.name) == PdfFile then "pdf" else "docx") == Gives(map[])
    requires var t := if KindOf(u.name) == PdfFile then x.pdfText(u.content) else x.docxText(u.content);
      t.Gives? && |Strip(t.value)| >= 50 && x.langChain(CleanText(t.value)).Gives?
    ensures var t := if KindOf(u.name) == PdfFile then x.pdfText(u.content) else x.docxText(u.content);
      var ai := x.langChain(CleanText(t.value)).value;
      ProcessSingleResume(u, x) == Finish(u, ai)
  {
    var t := if KindOf(u.name) == PdfFile then x.pdfText(u.content) else x.docxText(u.content);
    FromTextEnough(u, t, x);
  }

  lemma FromTextEnough(u: Upload, t: Outcome<string>, x: Extractors)
    requires t.Gives? && |Strip(t.value)| >= 50 && x.langChain(CleanText(t.value)).Gives?
    ensures FromText(u, t, x) == Finish(u, x.langChain(CleanText(t.value)).value)
  {
    assert t.value != "";
  }

  /** A component that raises gives no record: the vision extractor, or, after an empty vision result,
      the text extractor or the language model. */
  lemma RaisingGivesNone(u: Upload, x: Extractors)
    requires KindOf(u.name) != Unsupported
    requires var v := x.vision(u.content, if KindOf(u.name) == PdfFile then "pdf" else "docx");
      var t := if KindOf(u.name) == PdfFile then x.pdfText(u.content) else x.docxText(u.content);
      v.Raises? || (v == Gives(map[]) && (t.Raises? || (t.value != "" && x.langChain(CleanText(t.value)).Raises?)))
    ensures ProcessSingleResume(u, x) == None
  {
  }

  /** Every record the pipeline gives has exactly the schema's keys. */
  lemma RecordHasSchema(u: Upload, x: Extractors)
    requires ProcessSingleResume(u, x).Some?
    ensures forall k :: k in ProcessSingleResume(u, x).value <==> k in Keys
  {
  }

  /** The AI result's `resume_id`, `file_name` and `upload_date` override the pipeline's; without them
      the record carries the generated id, the upload's name and its timestamp. */
  lemma AiOverridesBase(u: Upload, ai: Record, k: string)
    requires ai != map[]
    requires k in ["resume_id", "file_name", "upload_date"]
    ensures var r := Finish(u, ai);
      r.Some? && k in r.value
      && r.value[k] == CleanValue(k, if k in ai then ai[k] else Base(u)[k])
    ensures var r := Finish(u, ai);
      k !in ai ==> r.value[k] == Str(Strip(if k == "resume_id" then u.id else if k == "file_name" then u.name else u.stamp))
  {
    assert k in Keys;
  }

  // ---------------------------------------------------------------------------------------------
  // `process_resumes(uploaded_files)` and the confirmed delete

  /** The pipeline applied to one upload. */
  function Pipeline(x: Extractors): Upload -> Option<Record> {
    u => ProcessSingleResume(u, x)
  }

  /** The records of the uploads that gave one under `process`, in upload order. */
  function Successes(uploads: seq<Upload>, process: Upload -> Option<Record>): seq<Record> {
    if uploads == [] then []
    else
      var r := process(uploads[|uploads| - 1]);
      Successes(uploads[..|uploads| - 1], process) + (if r.Some? then [r.value] else [])
  }

  /** `pd.DataFrame(records)`: the records have the schema's keys, so the columns are the schema. */
  function RecordsTable(records: seq<Record>): Table {
    Table(Keys, records)
  }

  /** `pd.concat([a, b], ignore_index=True)` of two tables: the union of the columns, rows of `a` then
      rows of `b`, cells a table lacks missing. */
  function ConcatUnion(a: Table, b: Table): Table {
    var cols := Dedup(a.columns + b.columns);
    Concat(Reindex(a, cols), Reindex(b, cols))
  }

  /** `DataFrame.empty`: no rows or no columns. */
  predicate IsEmpty(t: Table) {
    t.rows == [] || t.columns == []
  }

  /** The session table after a batch: unchanged without a new record; the new records alone over an
      empty table; otherwise the old rows followed by the new ones. */
  function Appended(data: Table, records: seq<Record>): Table {
    if records == [] then data
    else if IsEmpty(data) then RecordsTable(records)
    else ConcatUnion(data, RecordsTable(records))
  }

  /** `resume_id` of a row, missing when the row has none. */
  function IdOf(row: Row): Value {
    Get(row, "resume_id", Null)
  }

  /** `data[~data['resume_id'].isin(ids)]`: the rows whose id is not selected, in order. */
  function Kept(rows: seq<Row>, ids: seq<Value>): seq<Row> {
    if rows == [] then []
    else Kept(rows[..|rows| - 1], ids) + (if IdOf(rows[|rows| - 1]) in ids then [] else [rows[|rows| - 1]])
  }

  /** The rows whose id is selected, in order: the ones a delete removes. */
  function Removed(rows: seq<Row>, ids: seq<Value>): seq<Row> {
    if rows == [] then []
    else Removed(rows[..|rows| - 1], ids) + (if IdOf(rows[|rows| - 1]) in ids then [rows[|rows| - 1]] else [])
  }

  lemma SuccessesPrefix(uploads: seq<Upload>, process: Upload -> Option<Record>, i: int)
    requires 0 <= i < |uploads|
    ensures var r := process(uploads[i]);
      Successes(uploads[..i + 1], process) == Successes(uploads[..i], process) + (if r.Some? then [r.value] else [])
  {
    assert uploads[..i + 1][..i] == uploads[..i];
  }

  /** The loop of `process_resumes`: each upload through the pipeline, in order, keeping the records
      that came back. */
  method CollectRecords(uploads: seq<Upload>, x: Extractors) returns (records: seq<Record>)
    ensures records == Successes(uploads, Pipeline(x))
  {
    records := [];
    var i := 0;
    while i < |uploads|
      invariant 0 <= i <= |uploads|
      invariant records == Successes(uploads[..i], Pipeline(x))
    {
      var r := Pipeline(x)(uploads[i]);
      SuccessesPrefix(uploads, Pipeline(x), i);
      if r.Some? {
        records := records + [r.value];
      }
      i := i + 1;
    }
    assert uploads[..i] == uploads;
  }

  /** The application's state: the in-memory table `processed_data` and the Excel file it is saved to. */
  class Session {
    var data: Table
    var file: FileState

    constructor(data: Table, file: FileState)
      ensures this.data == data && this.file == file
    {
      this.data := data;
      this.file := file;
    }

    /** `process_resumes`: each upload in order through the pipeline, the records that came back
        appended to the table, and the table saved in overwrite mode; nothing at all changes when no
        upload gave a record. */
    method ProcessResumes(uploads: seq<Upload>, x: Extractors) returns (records: seq<Record>)
      modifies this
      ensures records == Successes(uploads, Pipeline(x))
      ensures data == Appended(old(data), records)
      ensures file == if records == [] then old(file) else Readable(SavedTable(data, None, false, old(file)))
    {
      records := CollectRecords(uploads, x);
      if records != [] {
        var newData := RecordsTable(records);
        if IsEmpty(data) {
          data := newData;
        } else {
          data := ConcatUnion(data, newData);
        }
        file := Readable(SavedTable(data, None, false, file));
      }
    }

    /** The confirmed delete: the rows whose `resume_id` is selected go, the table is saved in
        overwrite mode, and the number of rows that went is returned. The page that offers the delete
        shows it only when the table has a `resume_id` column. */
    method ConfirmDelete(ids: seq<Value>) returns (count: int)
      requires "resume_id" in data.columns
      modifies this
      ensures data == Table(old(data).columns, Kept(old(data).rows, ids))
      ensures file == Readable(SavedTable(data, None, false, old(file)))
      ensures count == |old(data).rows| - |data.rows|
    {
      var before := |data.rows|;
      data := Table(data.columns, Kept(data.rows, ids));
      file := Readable(SavedTable(data, None, false, file));
      count := before - |data.rows|;
    }
  }

  // ---------------------------------------------------------------------------------------------
  // Properties of the batch and the delete

  /** Processing two batches one after the other collects the same records, in the same order, as
      processing them as one batch. */
  lemma {:induction false} SuccessesConcat(u1: seq<Upload>, u2: seq<Upload>, process: Upload -> Option<Record>)
    ensures Successes(u1 + u2, process) == Successes(u1, process) + Successes(u2, process)
    decreases |u2|
  {
    if u2 != [] {
      var init := u2[..|u2| - 1];
      assert (u1 + u2)[..|u1 + u2| - 1] == u1 + init;
      var last := u2[|u2| - 1];
      assert (u1 + u2)[|u1 + u2| - 1] == last;
      SuccessesConcat(u1, init, process);
      var tail := if process(last).Some? then [process(last).value] else [];
      assert Successes(u1 + u2, process) == Successes(u1 + init, process) + tail;
      assert Successes(u2, process) == Successes(init, process) + tail;
    } else {
      assert u1 + u2 == u1;
    }
  }

  /** A single upload contributes its record, or nothing when it gave none. */
  lemma SuccessesOne(u: Upload, process: Upload -> Option<Record>)
    ensures Successes([u], process) == if process(u).Some? then [process(u).value] else []
  {
    assert [u][..0] == [];
  }

  /** Every collected record came from some upload, and every upload that gave a record is collected. */
  lemma {:induction false} SuccessesFrom(uploads: seq<Upload>, process: Upload -> Option<Record>)
    ensures |Successes(uploads, process)| <= |uploads|
    ensures forall r :: r in Successes(uploads, process) <==>
      exists i :: 0 <= i < |uploads| && process(uploads[i]) == Some(r)
  {
    if uploads != [] {
      var init := uploads[..|uploads| - 1];
      var last := uploads[|uploads| - 1];
      SuccessesFrom(init, process);
      forall r | (exists i :: 0 <= i < |uploads| && process(uploads[i]) == Some(r))
        ensures r in Successes(uploads, process)
      {
        var i :| 0 <= i < |uploads| && process(uploads[i]) == Some(r);
        if i < |init| {
          assert init[i] == uploads[i];
        }
      }
      forall r | r in Successes(uploads, process)
        ensures exists i :: 0 <= i < |uploads| && process(uploads[i]) == Some(r)
      {
        if r in Successes(init, process) {
          var i :| 0 <= i < |init| && process(init[i]) == Some(r);
          assert uploads[i] == init[i];
        } else {
          assert process(last) == Some(r);
        }
      }
    }
  }

  /** Every record a batch collects has exactly the schema's keys. */
  lemma BatchHasSchema(uploads: seq<Upload>, x: Extractors)
    ensures forall r :: r in Successes(uploads, Pipeline(x)) ==> forall k :: k in r <==> k in Keys
  {
    SuccessesFrom(uploads, Pipeline(x));
    forall r | r in Successes(uploads, Pipeline(x)) ensures forall k :: k in r <==> k in Keys {
      var i :| 0 <= i < |uploads| && Pipeline(x)(uploads[i]) == Some(r);
      RecordHasSchema(uploads[i], x);
    }
  }

  /** Appending to a non-empty table keeps every old row first, in order, and puts the new records
      after them, each over the union of the columns. */
  lemma AppendedRows(data: Table, records: seq<Record>)
    requires records != [] && !IsEmpty(data)
    ensures var t := Appended(data, records);
      && (forall c :: c in t.columns <==> c in data.columns || c in Keys)
      && |t.rows| == |data.rows| + |records|
      && (forall i :: 0 <= i < |data.rows| ==> t.rows[i] == Fit(data.rows[i], t.columns))
      && forall j :: 0 <= j < |records| ==> t.rows[|data.rows| + j] == Fit(records[j], t.columns)
  {
  }

  /** Over a table with the schema's columns, the new records are appended unchanged. */
  lemma AppendedOverSchema(data: Table, records: seq<Record>)
    requires records != [] && WellFormed(data) && data.columns == Keys
    requires forall j :: 0 <= j < |records| ==> forall k :: k in records[j] <==> k in Keys
    ensures Appended(data, records).rows == data.rows + records
  {
    if !IsEmpty(data) {
      var cols := Dedup(data.columns + Keys);
      assert forall c :: c in cols <==> c in Keys;
      ReindexSameKeys(data, cols);
      ReindexSameKeys(RecordsTable(records), cols);
      assert Appended(data, records) == Concat(Reindex(data, cols), Reindex(RecordsTable(records), cols));
    }
  }

  /** Reindexing rows that already have exactly the schema's keys to columns that are the schema
      changes no row. */
  lemma ReindexSameKeys(t: Table, cols: seq<string>)
    requires forall c :: c in cols <==> c in Keys
    requires forall i :: 0 <= i < |t.rows| ==> forall c :: c in t.rows[i] <==> c in Keys
    ensures Reindex(t, cols).rows == t.rows
  {
    forall i | 0 <= i < |t.rows| ensures Reindex(t, cols).rows[i] == t.rows[i] {
      FitSameKeys(t.rows[i], cols);
    }
  }

  lemma FitSameKeys(row: Row, cols: seq<string>)
    requires forall c :: c in cols <==> c in Keys
    requires forall c :: c in row <==> c in Keys
    ensures Fit(row, cols) == row
  {
  }

  /** A delete keeps exactly the rows whose id is not selected and removes exactly the others; the
      two parts account for every row. */
  lemma {:induction false} KeptRemoved(rows: seq<Row>, ids: seq<Value>)
    ensures |Kept(rows, ids)| + |Removed(rows, ids)| == |rows|
    ensures forall r :: r in Kept(rows, ids) <==> r in rows && IdOf(r) !in ids
    ensures forall r :: r in Removed(rows, ids) <==> r in rows && IdOf(r) in ids
  {
    if rows != [] {
      var init := rows[..|rows| - 1];
      KeptRemoved(init, ids);
      assert rows == init + [rows[|rows| - 1]];
    }
  }

  /** The delete keeps the surviving rows in their order: deleting from two blocks of rows is
      deleting from each. */
  lemma {:induction false} KeptConcat(a: seq<Row>, b: seq<Row>, ids: seq<Value>)
    ensures Kept(a + b, ids) == Kept(a, ids) + Kept(b, ids)
    decreases |b|
  {
    if b != [] {
      var init := b[..|b| - 1];
      assert (a + b)[..|a + b| - 1] == a + init;
      var last := b[|b| - 1];
      assert (a + b)[|a + b| - 1] == last;
      KeptConcat(a, init, ids);
      var tail := if IdOf(last) in ids then [] else [last];
      assert Kept(a + b, ids) == Kept(a + init, ids) + tail;
      assert Kept(b, ids) == Kept(init, ids) + tail;
    } else {
      assert a + b == a;
    }
  }

  /** Confirming the same delete twice removes nothing the second time. */
  lemma KeptIdempotent(rows: seq<Row>, ids: seq<Value>)
    ensures Kept(Kept(rows, ids), ids) == Kept(rows, ids)
  {
    KeptRemoved(rows, ids);
    KeptAll(Kept(rows, ids), ids);
  }

  /** Rows none of whose ids is selected are all kept. */
  lemma {:induction false} KeptAll(rows: seq<Row>, ids: seq<Value>)
    requires forall r :: r in rows ==> IdOf(r) !in ids
    ensures Kept(rows, ids) == rows
  {
    if rows != [] {
      var init := rows[..|rows| - 1];
      assert forall r :: r in init ==> r in rows;
      KeptAll(init, ids);
      assert rows == init + [rows[|rows| - 1]];
    }
  }

  /** The number a delete reports is the number of rows whose id was selected. */
  lemma DeleteCount(rows: seq<Row>, ids: seq<Value>)
    ensures |rows| - |Kept(rows, ids)| == |Removed(rows, ids)|
  {
    KeptRemoved(rows, ids);
  }
}
