/** Text extraction from a Word document: the signature check, then the document's non-blank
    paragraphs, header and footer paragraphs, table rows and stray XML text nodes, one segment per
    line. Opening the document is a parameter. */
module DocxParser {
  import opened Text
  import opened Values
  import opened Wrappers

  /** A section's header and footer, each given by its paragraph texts; `None` when it is absent. */
  datatype Section = Section(header: Option<seq<string>>, footer: Option<seq<string>>)

  /** A table cell is its paragraph texts; a row its cells; a table its rows. */
  type Cell = seq<string>
  type TableRow = seq<Cell>
  type DocTable = seq<TableRow>

  /** An opened document: body paragraph texts, sections, tables and the text of every `w:t` node of
      its body (`None` for a node without text); `textNodes` is `None` when reading the XML fails. */
  datatype Document = Document(paragraphs: seq<string>, sections: seq<Section>, tables: seq<DocTable>,
                               textNodes: Option<seq<Option<string>>>)

  /** `content.startswith(b'PK')`, the signature of a ZIP archive. */
  predicate IsZip(content: Bytes) {
    |content| >= 2 && content[0] == 0x50 && content[1] == 0x4B
  }

  // ---------------------------------------------------------------------------------------------
  // The segments, as functions of the document

  /** The header paragraphs, then the footer paragraphs, of one section. */
  function SectionLines(s: Section): seq<string> {
    (if s.header.Some? then StrippedNonBlank(s.header.value) else [])
    + (if s.footer.Some? then StrippedNonBlank(s.footer.value) else [])
  }

  function SectionsLines(sections: seq<Section>): seq<string> {
    if sections == [] then []
    else SectionsLines(sections[..|sections| - 1]) + SectionLines(sections[|sections| - 1])
  }

  /** The non-empty cells of a row, each its paragraphs joined by a space. */
  function CellTexts(row: TableRow): seq<string> {
    if row == [] then []
    else
      var paras := StrippedNonBlank(row[|row| - 1]);
      CellTexts(row[..|row| - 1]) + (if paras != [] then [Join(paras, " ")] else [])
  }

  /** A row's segment: its non-empty cells joined by " | ", or none when every cell is blank. */
  function RowLine(row: TableRow): Option<string> {
    var cells := CellTexts(row);
    if cells == [] then None else Some(Join(cells, " | "))
  }

  function RowsLines(rows: seq<TableRow>): seq<string> {
    if rows == [] then []
    else
      var r := RowLine(rows[|rows| - 1]);
      RowsLines(rows[..|rows| - 1]) + (if r.Some? then [r.value] else [])
  }

  function TablesLines(tables: seq<DocTable>): seq<string> {
    if tables == [] then [] else TablesLines(tables[..|tables| - 1]) + RowsLines(tables[|tables| - 1])
  }

  /** `all_texts`: the stripped text of each node that has one. */
  function NodeTexts(nodes: seq<Option<string>>): seq<string> {
    if nodes == [] then []
    else
      var n := nodes[|nodes| - 1];
      NodeTexts(nodes[..|nodes| - 1]) + (if n.Some? && n.value != "" then [Strip(n.value)] else [])
  }

  /** `new_texts`: the node texts longer than one character whose lower case does not occur in
      `existing`. */
  function NewTexts(texts: seq<string>, existing: string): seq<string> {
    if texts == [] then []
    else
      var t := texts[|texts| - 1];
      NewTexts(texts[..|texts| - 1], existing)
      + (if t != "" && !IsSubstring(Lower(t), existing) && |Strip(t)| > 1 then [t] else [])
  }

  /** Every segment of the document, in output order: paragraphs, headers and footers, table rows, then
      the node texts not already covered by the lower-cased space-joined earlier segments. */
  function Segments(doc: Document): seq<string> {
    var before := StrippedNonBlank(doc.paragraphs) + SectionsLines(doc.sections) + TablesLines(doc.tables);
    before + (if doc.textNodes.Some? then NewTexts(NodeTexts(doc.textNodes.value), Lower(Join(before, " "))) else [])
  }

  /** `extract_text_from_docx(file_content)`, with `open` the document library: `None` when it
      raises. */
  function DocxText(content: Bytes, open: Bytes -> Option<Document>): string {
    if |content| == 0 || !IsZip(content) then ""
    else
      match open(content)
      case None => ""
      case Some(doc) => Join(Segments(doc), "\n")
  }

  // ---------------------------------------------------------------------------------------------
  // Properties

  /** Empty input and input without the ZIP signature give the empty text before the document
      library is called; so does a document the library cannot open. */
  lemma RejectsNonZip(content: Bytes, open: Bytes -> Option<Document>)
    requires !IsZip(content) || open(content).None?
    ensures DocxText(content, open) == ""
  {
  }

  /** The kept paragraphs are exactly the stripped texts of the non-blank ones, each already stripped. */
  lemma {:induction false} NonBlankMembers(paras: seq<string>)
    ensures forall t :: t in StrippedNonBlank(paras) <==> t != "" && exists i :: 0 <= i < |paras| && Strip(paras[i]) == t
    ensures forall t :: t in StrippedNonBlank(paras) ==> Strip(t) == t
  {
    if paras != [] {
      var rest := paras[1..];
      NonBlankMembers(rest);
      StripIdempotent(paras[0]);
      forall t | t != "" && exists i :: 0 <= i < |paras| && Strip(paras[i]) == t
        ensures t in StrippedNonBlank(paras)
      {
        var i :| 0 <= i < |paras| && Strip(paras[i]) == t;
        if i > 0 {
          assert rest[i - 1] == paras[i];
        }
      }
      forall t | t in StrippedNonBlank(paras)
        ensures exists i :: 0 <= i < |paras| && Strip(paras[i]) == t
      {
        if t in StrippedNonBlank(rest) {
          var i :| 0 <= i < |rest| && Strip(rest[i]) == t;
          assert paras[i + 1] == rest[i];
        } else {
          assert Strip(paras[0]) == t;
        }
      }
    }
  }

  /** A row yields no segment exactly when every one of its cells is blank. */
  lemma {:induction false} RowLineNone(row: TableRow)
    ensures RowLine(row).None? <==> forall j :: 0 <= j < |row| ==> StrippedNonBlank(row[j]) == []
  {
    CellTextsEmpty(row);
  }

  lemma CellTextsEmpty(row: TableRow)
    ensures CellTexts(row) == [] <==> forall j :: 0 <= j < |row| ==> StrippedNonBlank(row[j]) == []
  {
    if CellTexts(row) == [] {
      forall j | 0 <= j < |row| ensures StrippedNonBlank(row[j]) == [] {
        if StrippedNonBlank(row[j]) != [] {
          NonBlankCellCounts(row, j);
        }
      }
    } else {
      var j := SomeNonBlank(row);
    }
  }

  /** A non-blank cell gives its row a cell segment. */
  lemma {:induction false} NonBlankCellCounts(row: TableRow, j: int)
    requires 0 <= j < |row| && StrippedNonBlank(row[j]) != []
    ensures CellTexts(row) != []
  {
    var n := |row| - 1;
    var paras := StrippedNonBlank(row[n]);
    var tail := if paras != [] then [Join(paras, " ")] else [];
    assert CellTexts(row) == CellTexts(row[..n]) + tail;
    if j == n {
      assert tail != [];
    } else if paras == [] {
      assert row[..n][j] == row[j];
      NonBlankCellCounts(row[..n], j);
    }
  }

  /** A row with a cell segment has a non-blank cell. */
  lemma {:induction false} SomeNonBlank(row: TableRow) returns (j: int)
    requires CellTexts(row) != []
    ensures 0 <= j < |row| && StrippedNonBlank(row[j]) != []
  {
    var n := |row| - 1;
    var paras := StrippedNonBlank(row[n]);
    assert CellTexts(row) == CellTexts(row[..n]) + (if paras != [] then [Join(paras, " ")] else []);
    if paras != [] {
      j := n;
    } else {
      j := SomeNonBlank(row[..n]);
      assert row[..n][j] == row[j];
    }
  }

  /** A row whose only non-blank cell is `cell` yields that cell's paragraphs joined by a space. */
  lemma OneCellRow(cell: Cell)
    requires StrippedNonBlank(cell) != []
    ensures RowLine([cell]) == Some(Join(StrippedNonBlank(cell), " "))
  {
    assert [cell][..0] == [];
    var line := Join(StrippedNonBlank(cell), " ");
    assert CellTexts([cell]) == [line];
    assert Join([line], " | ") == line;
  }

  /** An added node text is longer than one character, does not occur (in lower case) in the earlier
      text, and is the stripped text of one of the nodes; every node text with those properties is
      added. */
  lemma {:induction false} NewTextsMembers(texts: seq<string>, existing: string)
    ensures forall t :: t in NewTexts(texts, existing) <==>
      t in texts && |Strip(t)| > 1 && !IsSubstring(Lower(t), existing)
  {
    if texts != [] {
      var init := texts[..|texts| - 1];
      NewTextsMembers(init, existing);
      assert texts == init + [texts[|texts| - 1]];
    }
  }

  /** The earlier text is computed once, before filtering: a text that occurs in two nodes and not
      earlier is added twice. */
  lemma RepeatedNodeAddedTwice()
    ensures NewTexts(NodeTexts([Some("Python"), Some("Python")]), "") == ["Python", "Python"]
  {
    var nodes := [Some("Python"), Some("Python")];
    assert nodes[..1][..0] == [];
    assert Strip("Python") == "Python" by {
      StripNoop("Python");
    }
    assert NodeTexts(nodes) == ["Python", "Python"];
    var texts := ["Python", "Python"];
    assert texts[..1][..0] == [];
    assert Lower("Python") == "python";
    assert !IsSubstring("python", "");
  }

  /** When reading the XML fails, the text consists of the paragraphs, the headers and footers and the
      table rows only. */
  lemma XmlFailureAddsNothing(doc: Document)
    requires doc.textNodes.None?
    ensures Segments(doc) == StrippedNonBlank(doc.paragraphs) + SectionsLines(doc.sections) + TablesLines(doc.tables)
  {
  }

  /** A document with nothing but body paragraphs gives its non-blank paragraphs, stripped, one per
      line. */
  lemma ParagraphsOnly(content: Bytes, open: Bytes -> Option<Document>)
    requires IsZip(content) && open(content).Some?
    requires var doc := open(content).value; doc.sections == [] && doc.tables == [] && doc.textNodes == Some([])
    ensures DocxText(content, open) == Join(StrippedNonBlank(open(content).value.paragraphs), "\n")
  {
    var doc := open(content).value;
    var body := StrippedNonBlank(doc.paragraphs);
    assert body + SectionsLines(doc.sections) + TablesLines(doc.tables) == body;
    assert NewTexts(NodeTexts([]), Lower(Join(body, " "))) == [];
    assert Segments(doc) == body;
  }

  // ---------------------------------------------------------------------------------------------
  // The imperative form

  lemma SectionsPrefix(sections: seq<Section>, i: int)
    requires 0 <= i < |sections|
    ensures SectionsLines(sections[..i + 1]) == SectionsLines(sections[..i]) + SectionLines(sections[i])
  {
    assert sections[..i + 1][..i] == sections[..i];
  }

  lemma CellsPrefix(row: TableRow, j: int)
    requires 0 <= j < |row|
    ensures var paras := StrippedNonBlank(row[j]);
      CellTexts(row[..j + 1]) == CellTexts(row[..j]) + (if paras != [] then [Join(paras, " ")] else [])
  {
    assert row[..j + 1][..j] == row[..j];
  }

  lemma RowsPrefix(rows: seq<TableRow>, r: int)
    requires 0 <= r < |rows|
    ensures var line := RowLine(rows[r]);
      RowsLines(rows[..r + 1]) == RowsLines(rows[..r]) + (if line.Some? then [line.value] else [])
  {
    assert rows[..r + 1][..r] == rows[..r];
  }

  lemma TablesPrefix(tables: seq<DocTable>, t: int)
    requires 0 <= t < |tables|
    ensures TablesLines(tables[..t + 1]) == TablesLines(tables[..t]) + RowsLines(tables[t])
  {
    assert tables[..t + 1][..t] == tables[..t];
  }

  lemma NodesPrefix(nodes: seq<Option<string>>, i: int)
    requires 0 <= i < |nodes|
    ensures var n := nodes[i];
      NodeTexts(nodes[..i + 1]) == NodeTexts(nodes[..i]) + (if n.Some? && n.value != "" then [Strip(n.value)] else [])
  {
    assert nodes[..i + 1][..i] == nodes[..i];
  }

  /** The non-blank paragraph loop: `if para.text and para.text.strip(): text.append(para.text.strip())`. */
  method CollectParagraphs(paras: seq<string>) returns (out: seq<string>)
    ensures out == StrippedNonBlank(paras)
  {
    out := [];
    var i := 0;
    while i < |paras|
      invariant 0 <= i <= |paras|
      invariant out == StrippedNonBlank(paras[..i])
    {
      var t := Strip(paras[i]);
      StrippedNonBlankPrefix(paras, i);
      if paras[i] != "" && t != "" {
        out := out + [t];
      }
      i := i + 1;
    }
    assert paras[..i] == paras;
  }

  /** One section: its header paragraphs, then its footer paragraphs. */
  method CollectSection(s: Section) returns (part: seq<string>)
    ensures part == SectionLines(s)
  {
    part := [];
    if s.header.Some? {
      part := CollectParagraphs(s.header.value);
    }
    if s.footer.Some? {
      var f := CollectParagraphs(s.footer.value);
      part := part + f;
    }
  }

  /** The header and footer loop over the sections. */
  method CollectSections(sections: seq<Section>) returns (out: seq<string>)
    ensures out == SectionsLines(sections)
  {
    out := [];
    var i := 0;
    while i < |sections|
      invariant 0 <= i <= |sections|
      invariant out == SectionsLines(sections[..i])
    {
      var part := CollectSection(sections[i]);
      out := out + part;
      SectionsPrefix(sections, i);
      i := i + 1;
    }
    assert sections[..i] == sections;
  }

  /** One table row: the `cell_paras` loop inside the `row_text` loop. */
  method CollectRow(row: TableRow) returns (line: Option<string>)
    ensures line == RowLine(row)
  {
    var rowText: seq<string> := [];
    var j := 0;
    while j < |row|
      invariant 0 <= j <= |row|
      invariant rowText == CellTexts(row[..j])
    {
      var cellParas := CollectParagraphs(row[j]);
      if cellParas != [] {
        rowText := rowText + [Join(cellParas, " ")];
      }
      CellsPrefix(row, j);
      j := j + 1;
    }
    assert row[..j] == row;
    line := if rowText != [] then Some(Join(rowText, " | ")) else None;
  }

  /** The table loop and its row loop. */
  method CollectTables(tables: seq<DocTable>) returns (out: seq<string>)
    ensures out == TablesLines(tables)
  {
    out := [];
    var t := 0;
    while t < |tables|
      invariant 0 <= t <= |tables|
      invariant out == TablesLines(tables[..t])
    {
      var rows := tables[t];
      var done := out;
      var r := 0;
      while r < |rows|
        invariant 0 <= r <= |rows|
        invariant out == done + RowsLines(rows[..r])
      {
        var line := CollectRow(rows[r]);
        if line.Some? {
          out := out + [line.value];
        }
        RowsPrefix(rows, r);
        r := r + 1;
      }
      assert rows[..r] == rows;
      TablesPrefix(tables, t);
      t := t + 1;
    }
    assert tables[..t] == tables;
  }

  /** The `all_texts` loop over the XML text nodes. */
  method CollectNodes(nodes: seq<Option<string>>) returns (all: seq<string>)
    ensures all == NodeTexts(nodes)
  {
    all := [];
    var i := 0;
    while i < |nodes|
      invariant 0 <= i <= |nodes|
      invariant all == NodeTexts(nodes[..i])
    {
      var n := nodes[i];
      if n.Some? && n.value != "" {
        all := all + [Strip(n.value)];
      }
      NodesPrefix(nodes, i);
      i := i + 1;
    }
    assert nodes[..i] == nodes;
  }

  /** `extract_text_from_docx(file_content)`. */
  method ExtractTextFromDocx(content: Bytes, open: Bytes -> Option<Document>) returns (combined: string)
    ensures combined == DocxText(content, open)
  {
    if |content| == 0 || !IsZip(content) {
      return "";
    }
    var parsed := open(content);
    if parsed.None? {
      return "";
    }
    var doc := parsed.value;
    var text := CollectParagraphs(doc.paragraphs);
    var headers := CollectSections(doc.sections);
    text := text + headers;
    var rows := CollectTables(doc.tables);
    text := text + rows;
    if doc.textNodes.Some? {
      var all := CollectNodes(doc.textNodes.value);
      var newTexts := NewTexts(all, Lower(Join(text, " ")));
      text := text + newTexts;
    }
    assert text == Segments(doc);
    combined := Join(text, "\n");
  }
}
