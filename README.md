# Resume screener: a Dafny model of its extraction pipeline

The system is a Streamlit application that reads uploaded resumes (PDF or Word) and turns each into
one record with a fixed schema: contact details, education, experience and skills. It then keeps the
records in a session table that is saved to an Excel workbook. Rows can be deleted after
confirmation.

Each file goes through these steps:

1. The vision extractor renders up to three page images and sends them to a chat model that reads
   images. It parses the reply as a JSON object.
2. When that yields nothing, the text of the file is extracted:
   - for a PDF, pdfplumber, then PyPDF2, then OCR;
   - for a Word document, paragraphs, headers and footers, table rows and stray XML text nodes.
3. The extracted text is cleaned and given to a LangChain extractor. When the language model is
   missing or fails, that extractor falls back to regular-expression rules. It also uses the rules
   to backfill an answer that is all defaults.
4. The result is merged over the generated id, the file name and the upload timestamp.
5. The merged record is validated against the 22-key schema.

The project models each of these steps in Dafny:

- `app.dfy`: the pipeline, the batch loop and the confirmed delete.
- `vision.dfy`: the vision extractor.
- `pdf.dfy`: the PDF parser.
- `docx.dfy`: the DOCX parser.
- `langchain.dfy` and `rules.dfy`: the language-model extractor and its rule-based fallback.
- `validators.dfy`: the validators.
- `helpers.dfy`: the text helpers.
- `excel.dfy`: the Excel store.
- `text.dfy`, `values.dfy` and `patterns.dfy`: shared pieces. These are Python's `strip`, `lower`,
  `split` and `join`; Python values inside dictionaries; the year pattern.

Libraries, the network, the file system, the clock and `uuid` are parameters. Those are the document
libraries, the chat model, the OCR engine and the LibreOffice/docx2pdf converter. A call that can
raise returns an `Outcome` (`Raises` or `Gives(v)`).

Code that loops and appends in the source is a Dafny `method` with loop invariants. Each such method
is proved equal to a specification function, and the properties are lemmas about those functions:

- the PDF page loops;
- the DOCX paragraph, section, row, cell and node loops;
- the backfill loop;
- the validation loop;
- the name, degree and skills searches;
- the header loop of `split_into_sections`;
- the page rendering and the story building of the vision extractor.

The session table that the application updates in place is the class `App.Session`:

- its fields are the table and the state of the workbook file;
- `ProcessResumes` and `ConfirmDelete` modify those fields;
- their `ensures` state the new table and the new file exactly.

## Model

| member | source | states |
|---|---|---|
| Validators.FirstNumber | utils/validators.py:22 | the first match of `\d+(?:\.\d+)?`: none exactly when there is no digit; otherwise the leftmost maximal digit run, extended by a fraction only when a dot and a digit follow |
| Validators.NumberIn | utils/validators.py:22-23 | never negative, and 0.0 when the text has no digit |
| Validators.NumberInWhole | utils/validators.py:22-23 | a digit run after digit-free text, not followed by a point and a digit, reads as the value of those digits |
| Validators.NumberInFraction | utils/validators.py:22-23 | a digit run, a point and a digit run after digit-free text reads as that decimal, shown without surplus zeros |
| Validators.FirstNumberCounts | utils/validators.py:22-23 | "5 years 3 months" reads as 5.0: only the first number counts |
| Validators.SignIgnored | utils/validators.py:22-23 | "-3" reads as 3.0: a sign is not part of the pattern |
| Validators.BarePointEnds | utils/validators.py:22-23 | "3." reads as 3.0: a point needs a digit after it |
| Validators.FractionRead | utils/validators.py:22-23 | "2.50 yrs" reads as 2.5, shown as "2.5" |
| Validators.CoerceExperience | utils/validators.py:15-27 | always a float: an int converts to the same value, a float stays as it is, anything else is the first number of its text |
| Validators.CoerceYear | utils/validators.py:28-34 | always a string, empty exactly when the text has no 19xx/20xx, otherwise that first year (four characters) |
| Validators.CleanFieldsAt | utils/validators.py:12-37 | the record built over a key list has exactly those keys, each holding its cleaned value |
| Validators.Validated | utils/validators.py:5-38 | the result has exactly the 22 schema keys, each the cleaning of the input's value or of 'Not Found' |
| Validators.CleanEach | utils/validators.py:13-37 | the loop builds exactly the cleaned record over the keys seen |
| Validators.ValidateResumeData | utils/validators.py:5-38 | the method returns `Validated(data)` |
| Validators.CleanDefault | utils/validators.py:14 | a missing field is cleaned from 'Not Found' (0.0 for experience, '' for the year, 'Not Found' otherwise) |
| Validators.ValidatedDefaults | utils/validators.py:14 | a field missing from the input gets its default value |
| Validators.ValidatedExperience | utils/validators.py:15-27 | numbers keep their value as floats; non-numbers become their first digit run's value, never negative |
| Validators.ValidatedYear | utils/validators.py:28-34 | the year field is '' or the first 19xx/20xx of the input's text |
| Validators.CleanYear | utils/validators.py:28-37 | the trim after the year coercion changes nothing |
| Validators.ValidatedOthers | utils/validators.py:35-37 | every other string is stripped and every non-string passes through unchanged |
| Validators.CleanValueIdempotent | utils/validators.py:13-37 | cleaning a cleaned value changes nothing |
| Validators.ValidatedIdempotent | utils/validators.py:5-38 | validating a validated record gives the same record |
| Validators.CleanPhoneNumber | utils/validators.py:44-45 | exactly the '+' and digit characters of the input, in order |
| Validators.CleanPhoneNumberIdempotent | utils/validators.py:44-45 | cleaning a cleaned number changes nothing |
| Validators.EmailSplitUnique | utils/validators.py:41 | only the first '@' and the first '.' after it can split a whole match of the pattern |
| Validators.MatchesWholeIff | utils/validators.py:41-42 | the computed match agrees, in both directions, with the declarative description of the pattern |
| Validators.IsValidEmail | utils/validators.py:40-42 | true exactly when the whole string matches, or all of it but a final newline does (`$` before a trailing newline) |
| Patterns.FirstYear | extractors/langchain_extractor.py:145-147 | the leftmost `(19\|20)\d{2}`: a found year sits at the found position and nothing matches earlier; none means no position matches |
| Patterns.FirstYearOfYear | utils/validators.py:31-32 | a year string is its own first year, so the year coercion is idempotent |
| Text.StripFacts | utils/validators.py:35-36 | `strip()` gives a slice of the input that neither starts nor ends with whitespace, and only whitespace is cut |
| Text.StripNoop | utils/validators.py:35-36 | a string with no whitespace at either end is its own strip |
| Text.StripIdempotent | utils/validators.py:35-36 | strip is idempotent |
| Text.StripEmptyIffAllSpace | app.py:97 | a text strips to "" exactly when it is all whitespace |
| Text.SplitAt | extractors/langchain_extractor.py:158 | one piece more than the input has separators; no piece holds a separator; the pieces concatenated are the input without its separators; the first piece is empty exactly when the input is empty or starts with a separator |
| Text.SeparatorsCount | extractors/langchain_extractor.py:158 | every character is a separator or kept: the two counts add up to the length |
| Text.SplitAtCount | extractors/langchain_extractor.py:158 | the number of pieces is the number of separator characters plus one |
| Text.SplitAtRejoin | extractors/langchain_extractor.py:158 | the pieces interleaved with the input's separators, in order, give back the input: no piece is merged, shifted or lost |
| Text.Words | utils/helpers.py:9-10 | `str.split()` as an independent definition: non-empty words without whitespace, as many as the input has non-whitespace runs, concatenating to the input's non-whitespace characters |
| Text.WordsIsSplit | utils/helpers.py:9-10 | the words are the non-empty pieces of splitting at every whitespace character |
| Text.SortedSet | extractors/langchain_extractor.py:159 | the result is strictly ascending and holds exactly the input's elements |
| Text.Insert | extractors/langchain_extractor.py:159 | inserting keeps the list strictly ascending, with exactly the old elements plus the new one |
| Text.StrictlySortedDistinct | extractors/langchain_extractor.py:159 | a strictly ascending list has no repeated element |
| Text.FirstWhere | extractors/langchain_extractor.py:129-132 | the first index below the limit whose element passes, with none before it; none when no element in range passes |
| Text.StrippedNonBlank | parsers/docx_parser.py:59-61 | no kept text is empty, and there are no more kept texts than pieces |
| Text.StrippedNonBlankAppend | parsers/docx_parser.py:59-61 | filtering two lists of pieces one after the other is filtering their concatenation, keeping order |
| Helpers.ReplaceNewlines | utils/helpers.py:8 | the same length, each CR or LF replaced by a space and every other character in place |
| Helpers.Collapse | utils/helpers.py:9 | no two adjacent whitespace characters and only plain spaces as whitespace; empty exactly when the input is; starts with whitespace exactly when the input does; the other characters unchanged in order; the same words as the input |
| Helpers.WordsSkipSpaces | utils/helpers.py:10 | leading whitespace adds no word |
| Helpers.WordsTrailingSpace | utils/helpers.py:10 | trailing whitespace adds no word |
| Helpers.WordsStrip | utils/helpers.py:10 | stripping keeps the words |
| Helpers.WordsReplaceNewlines | utils/helpers.py:8 | turning CR and LF into spaces keeps the words |
| Helpers.JoinWords | utils/helpers.py:9-10 | a collapsed text without edge whitespace is its words joined by single spaces |
| Helpers.CollapseNoop | utils/helpers.py:9 | a text that is already collapsed is unchanged |
| Helpers.FilterOutStrip | utils/helpers.py:10 | strip removes whitespace only |
| Helpers.CleanText | utils/helpers.py:7-10 | no CR/LF, no whitespace run, no whitespace at either end, the input's other characters in order, the input's words, and exactly `' '.join(text.split())` |
| Helpers.CleanTextIdempotent | utils/helpers.py:7-10 | cleaning twice is cleaning once |
| Helpers.SafeHeaders | utils/helpers.py:34 | no more headers than given (what is kept is stated by the lemmas below) |
| Helpers.SafeHeadersMembers | utils/helpers.py:34 | a text is kept exactly when some entry with that text passes `safe_section` |
| Helpers.SafeHeadersAppend | utils/helpers.py:34 | the filter keeps the order: the headers of a concatenation are those of each part, in turn |
| Helpers.SafeHeadersAreSafe | utils/helpers.py:16-28 | every kept header passes `safe_section` |
| Helpers.SafeHeadersFound | utils/helpers.py:34-35 | a list with a safe header keeps at least one header |
| Helpers.SafeHeadersNone | utils/helpers.py:34-37 | a list without a safe header keeps nothing, which triggers the fallback |
| Helpers.AllSafeKept | utils/helpers.py:34 | a list of safe headers is kept whole |
| Helpers.LettersSafe | utils/helpers.py:16-28 | a word of two or more ASCII letters passes `safe_section` |
| Helpers.DefaultsAreSafe | utils/helpers.py:29-33 | the eleven default headers are all safe |
| Helpers.BoundariesDefault | utils/helpers.py:29-33 | without `next_sections` the boundaries are the eleven defaults |
| Helpers.BoundariesGiven | utils/helpers.py:34 | with a safe header given, the boundaries are exactly the safe given headers, in order |
| Helpers.BoundariesFallback | utils/helpers.py:35-37 | with headers given but none safe, the boundaries are Education and Experience |
| Helpers.BoundariesSafe | utils/helpers.py:29-37 | the boundaries are never empty and all safe |
| Helpers.ExtractSection | utils/helpers.py:12-52 | an unsafe section gives ""; otherwise the stripped body of the first match for the stripped section name and the safe boundaries, or "" without a match; the result never starts or ends with whitespace |
| Helpers.CanonicalAll | utils/helpers.py:61 | each header lower-cased and stripped, in order |
| Helpers.LowerWordCanonical | utils/helpers.py:60 | a lower-case word is its own canonical form |
| Helpers.HeadersCanonical | utils/helpers.py:55-57 | the ten headers are already canonical and pairwise different |
| Helpers.HeadersDistinct | utils/helpers.py:55-57 | no header occurs twice |
| Helpers.SectionsOf | utils/helpers.py:58-62 | the loop's map is the specification of rounds 0 to n |
| Helpers.SplitIntoSections | utils/helpers.py:54-62 | the method returns the specified map for the ten headers |
| Helpers.SectionsUpToStep | utils/helpers.py:59-61 | round i adds, on top of the earlier rounds, the lower-cased and stripped header as key with its section bounded by the later headers, lower-cased and stripped |
| Helpers.AssocFacts | utils/helpers.py:59-61 | storing distinct keys one after another leaves exactly those keys, each with the value stored for it |
| Helpers.SectionsUpToFacts | utils/helpers.py:58-61 | after round n the map holds exactly the first n headers, each with the section bounded by the headers after it |
| Helpers.SplitIntoSectionsFacts | utils/helpers.py:54-62 | exactly the ten headers as keys, each extracted with the later headers as boundaries |
| Helpers.SplitBoundaries | utils/helpers.py:61 | only the last header's empty list falls back to the defaults; every other header is bounded by the headers after it |
| RuleExtractor.Defaults | extractors/langchain_extractor.py:86-106 | the 19 keys: 'Not Found' everywhere and 0.0 experience |
| RuleExtractor.RunEndCovers | extractors/langchain_extractor.py:109 | any run of class characters from a position lies inside the maximal run from there |
| RuleExtractor.ShapeForced | extractors/langchain_extractor.py:109 | any email match at a position has its '@' where the local-part run ends, and its last dot inside the domain run |
| RuleExtractor.EmailEndAtSound | extractors/langchain_extractor.py:109 | what the engine picks at a position is a match there |
| RuleExtractor.EmailEndAtLongest | extractors/langchain_extractor.py:109 | every match at the position ends no later than the one picked |
| RuleExtractor.EmailEndAtCorrect | extractors/langchain_extractor.py:109 | the end picked at a position is a match, and the longest one |
| RuleExtractor.EmailFrom | extractors/langchain_extractor.py:109 | the leftmost match at or after k, longest there; none means no match from k on |
| RuleExtractor.FirstEmail | extractors/langchain_extractor.py:108-111 | `re.search`: the leftmost match and the longest one there, or none when nothing matches |
| RuleExtractor.HostFrom | extractors/langchain_extractor.py:119-124 | the leftmost case-insensitive occurrence of the host at or after k, or none |
| RuleExtractor.FirstUrl | extractors/langchain_extractor.py:118-124 | none exactly when the host does not occur; otherwise the leftmost occurrence plus the non-whitespace run after it |
| RuleExtractor.FirstUrlShape | extractors/langchain_extractor.py:118-124 | a found link starts with the host, in any case, and holds no whitespace |
| RuleExtractor.LongTokens | extractors/langchain_extractor.py:159 | exactly the stripped pieces of length at least two |
| RuleExtractor.SkillTokens | extractors/langchain_extractor.py:156-161 | strictly ascending, and exactly the stripped separator-split pieces of length at least two |
| RuleExtractor.NameLine | extractors/langchain_extractor.py:126-132 | the first of the first ten lines that passes the name test, or none when none of them passes |
| RuleExtractor.DegreeEntry | extractors/langchain_extractor.py:135-144 | the first table entry whose key occurs in the lowered text, or none when no key occurs |
| RuleExtractor.SkillsLine | extractors/langchain_extractor.py:150-155 | the first line that starts with the word "skills", or none |
| RuleExtractor.Fill | extractors/langchain_extractor.py:86-161 | exactly the 19 keys; each of the eight rule fields holds what its rule found or 'Not Found'; every other field keeps its default |
| RuleExtractor.RuleSetKeysInSchema | extractors/langchain_extractor.py:86-106 | every field a rule sets is a schema key |
| RuleExtractor.SetIfFacts | extractors/langchain_extractor.py:110-111 | setting a field already present keeps the key set and every other field |
| RuleExtractor.SetContactsFacts | extractors/langchain_extractor.py:108-124 | the contact rules keep the key set, set their four fields and leave the others alone |
| RuleExtractor.SetProfileFacts | extractors/langchain_extractor.py:126-161 | the profile rules keep the key set, set their four fields and leave the others alone |
| RuleExtractor.AssembleFacts | extractors/langchain_extractor.py:108-161 | assembling keeps the key set and sets each rule field to its finding when there is one |
| RuleExtractor.AssembleKeepsOther | extractors/langchain_extractor.py:108-161 | one field outside the eight rule fields is left alone |
| RuleExtractor.AssembleKeepsOthers | extractors/langchain_extractor.py:108-161 | every field outside the eight rule fields is left alone |
| RuleExtractor.DefaultsRuleFields | extractors/langchain_extractor.py:86-106 | the eight rule fields are among the defaults, all 'Not Found' |
| RuleExtractor.ExperienceKeyFacts | extractors/langchain_extractor.py:97 | `total_experience_years` is a schema field that no rule sets |
| RuleExtractor.RuleRecordShape | extractors/langchain_extractor.py:81-163 | all 19 keys for any text, including none; only rule fields can leave their defaults, so experience is always 0.0 |
| RuleExtractor.FindName | extractors/langchain_extractor.py:127-132 | the loop finds exactly the specified name line |
| RuleExtractor.FindDegree | extractors/langchain_extractor.py:140-144 | the loop finds exactly the first matching table entry |
| RuleExtractor.FindSkillsSection | extractors/langchain_extractor.py:150-155 | the loop finds the window of up to ten lines from the first skills header |
| RuleExtractor.SkillsWindowNonEmpty | extractors/langchain_extractor.py:154 | the window always holds the header line, so it is never empty |
| RuleExtractor.FindSkills | extractors/langchain_extractor.py:149-161 | the sorted distinct tokens of the window, when it has any |
| RuleExtractor.RunRules | extractors/langchain_extractor.py:108-161 | the method computes exactly the findings of the eight searches |
| RuleExtractor.ExtractWithRules | extractors/langchain_extractor.py:81-163 | the method returns the specified rule record |
| LangChainExtractor.PromptText | extractors/langchain_extractor.py:63 | the first min(n, 12000) characters of the text |
| LangChainExtractor.BackfilledKeys | extractors/langchain_extractor.py:71-73 | the backfill never adds or drops a key |
| LangChainExtractor.BackfilledFields | extractors/langchain_extractor.py:71-73 | a field that looks like a default, or is falsy, and that the rules produced takes the rules' value; every other field keeps its value |
| LangChainExtractor.BackfilledIdempotent | extractors/langchain_extractor.py:69-73 | backfilling twice from the same rules changes nothing more |
| LangChainExtractor.BackfilledOverDefaults | extractors/langchain_extractor.py:68-73 | over an all-default answer, every shared field takes the rules' value |
| LangChainExtractor.ShortTextEmpty | extractors/langchain_extractor.py:50-51 | no text, or text stripping to under 20 characters, gives {} whatever the model says |
| LangChainExtractor.FallbackIsRules | extractors/langchain_extractor.py:52-54 | without the library, or when the chain raises, the result is the rule record |
| LangChainExtractor.RealAnswerKept | extractors/langchain_extractor.py:66-74 | an answer with a real value is returned unchanged |
| LangChainExtractor.AllDefaultAnswerIsRules | extractors/langchain_extractor.py:68-74 | a full-schema answer of defaults only becomes exactly the rule record |
| LangChainExtractor.SameKeysDefaultsAnswer | extractors/langchain_extractor.py:68-73 | over rule output with the same keys, an all-default answer is replaced by the rule output |
| LangChainExtractor.AnswerSeesPrefix | extractors/langchain_extractor.py:62-65 | texts that agree on their first 12000 characters get the same kept answer |
| LangChainExtractor.Backfill | extractors/langchain_extractor.py:71-73 | the loop, in any iteration order of the rule dictionary, computes the backfilled record |
| LangChainExtractor.ExtractWithLangChain | extractors/langchain_extractor.py:49-78 | the method returns the specified record: the guard, the fallback, the kept answer or its backfill |
| PdfParser.AccumulateAppend | parsers/pdf_parser.py:22-25 | accumulating two runs of pages is accumulating each, in order |
| PdfParser.AccumulateOne | parsers/pdf_parser.py:24-25 | a page with text adds it and a newline; a page without text adds nothing |
| PdfParser.AccumulateEmpty | parsers/pdf_parser.py:22-25 | the text is empty exactly when no page has text, and otherwise ends with a newline |
| PdfParser.FirstStrategyWins | parsers/pdf_parser.py:20-30 | pdfplumber's text, when accepted, is the result whatever PyPDF2 and OCR would give |
| PdfParser.SecondExtendsFirst | parsers/pdf_parser.py:34-39 | PyPDF2 appends to pdfplumber's text, even after pdfplumber raised partway |
| PdfParser.SecondStrategyWins | parsers/pdf_parser.py:34-44 | when PyPDF2's accumulated text is accepted, it is the result and OCR plays no part |
| PdfParser.OcrOnlyWhenShort | parsers/pdf_parser.py:47-56 | from 50 stripped characters on, including exactly 50, OCR cannot change the result |
| PdfParser.OcrFallback | parsers/pdf_parser.py:47-56 | below 50, the OCR text is chosen when it strips to more than 20 characters, else the accumulated text; failed OCR means the accumulated text |
| PdfParser.ResultIsCandidate | parsers/pdf_parser.py:13-56 | the result is the first text, the combined text or the OCR text |
| PdfParser.AddPages | parsers/pdf_parser.py:22-25 | the page loop appends exactly the accumulation of the pages |
| PdfParser.ExtractTextWithOcr | parsers/pdf_parser.py:61-78 | the recognised pages accumulated, or "" when recognition raises |
| PdfParser.ExtractTextFromPdf | parsers/pdf_parser.py:13-56 | the method returns the specified cascade result |
| DocxParser.RejectsNonZip | parsers/docx_parser.py:19-26 | empty input, input without the `PK` signature and a document the library cannot open all give "" |
| DocxParser.NonBlankMembers | parsers/docx_parser.py:30-33 | the kept paragraphs are exactly the stripped texts of the non-blank ones |
| DocxParser.RowLineNone | parsers/docx_parser.py:56-65 | a row gives no line exactly when all of its cells are blank |
| DocxParser.CellTextsEmpty | parsers/docx_parser.py:56-63 | a row has no cell segment exactly when every cell has no non-blank paragraph |
| DocxParser.NonBlankCellCounts | parsers/docx_parser.py:59-63 | a non-blank cell gives its row a segment |
| DocxParser.SomeNonBlank | parsers/docx_parser.py:59-63 | a row with a segment has a non-blank cell |
| DocxParser.OneCellRow | parsers/docx_parser.py:56-65 | a row whose only non-blank cell is c gives c's paragraphs joined by a space |
| DocxParser.NewTextsMembers | parsers/docx_parser.py:82-85 | an added node text is longer than one character, absent (lower-cased) from the earlier text, and a stripped node text; every such text is added |
| DocxParser.RepeatedNodeAddedTwice | parsers/docx_parser.py:82-83 | the earlier text is fixed before filtering, so a new text in two nodes is added twice |
| DocxParser.XmlFailureAddsNothing | parsers/docx_parser.py:69-87 | when reading the XML raises, the text is paragraphs, headers/footers and table rows only |
| DocxParser.ParagraphsOnly | parsers/docx_parser.py:28-95 | a document of body paragraphs only gives its stripped non-blank paragraphs, one per line |
| DocxParser.CollectParagraphs | parsers/docx_parser.py:29-33 | the loop keeps exactly the stripped non-blank paragraphs |
| DocxParser.CollectSection | parsers/docx_parser.py:38-47 | one section gives its header paragraphs, then its footer paragraphs |
| DocxParser.CollectSections | parsers/docx_parser.py:36-47 | the loop gives each section's lines in order |
| DocxParser.CollectRow | parsers/docx_parser.py:55-65 | the loop gives exactly the row's line, or none |
| DocxParser.CollectTables | parsers/docx_parser.py:52-66 | the loops give exactly the tables' row lines in order |
| DocxParser.CollectNodes | parsers/docx_parser.py:77-79 | the loop gives exactly the stripped texts of the nodes that have text |
| DocxParser.ExtractTextFromDocx | parsers/docx_parser.py:5-101 | the method returns the specified combined text |
| ExcelStore.Present | storage/excel_handler.py:11 | exactly the selected columns the table has, no more than selected |
| ExcelStore.PresentSnoc | storage/excel_handler.py:11 | one more selected column is kept exactly when the table has it |
| ExcelStore.PresentOrder | storage/excel_handler.py:11 | kept columns follow the selection order |
| ExcelStore.PresentDistinct | storage/excel_handler.py:11 | from a selection without repeats, the kept columns have no repeats |
| ExcelStore.ProjectFacts | storage/excel_handler.py:10-14 | with a selection, the kept columns and each row's cells in them; with none, the table unchanged |
| ExcelStore.ProjectWellFormed | storage/excel_handler.py:10-14 | a projection of a well-formed table is well-formed |
| ExcelStore.Dedup | storage/excel_handler.py:27 | `dict.fromkeys`: no repeats and exactly the input's columns |
| ExcelStore.DedupPrefix | storage/excel_handler.py:27 | the existing columns stay in front, in order |
| ExcelStore.DedupDistinct | storage/excel_handler.py:27 | a list without repeats is its own union |
| ExcelStore.MergeColumns | storage/excel_handler.py:26-29 | the existing columns first, then each new column they lack, none twice |
| ExcelStore.ReindexWellFormed | storage/excel_handler.py:28-29 | reindexing to columns without repeats gives a well-formed table |
| ExcelStore.ReindexCells | storage/excel_handler.py:28-29 | reindexing keeps present cells in the new columns and marks others missing |
| ExcelStore.FillNaFacts | storage/excel_handler.py:42 | after filling, no cell is missing, present cells are unchanged, rows and columns stay |
| ExcelStore.FillNaIdempotent | storage/excel_handler.py:42 | filling twice is filling once |
| ExcelStore.KeyOf | storage/excel_handler.py:36 | one key entry per subset column, the row's cell or missing |
| ExcelStore.KeepLast | storage/excel_handler.py:36 | `keep='last'` never adds rows |
| ExcelStore.KeepLastMembers | storage/excel_handler.py:36-39 | a kept row is an input row with no later row of the same key, and every such row is kept |
| ExcelStore.KeepLastUnique | storage/excel_handler.py:36-39 | no two kept rows share a key |
| ExcelStore.KeepLastKeepsLast | storage/excel_handler.py:36-39 | every input key survives, carried by its last row |
| ExcelStore.LastIndexWithKey | storage/excel_handler.py:36 | the last row with that key, at or after the given row |
| ExcelStore.NewRowsWin | storage/excel_handler.py:32-36 | a key among the new rows survives in a new row: new data wins |
| ExcelStore.MergedWellFormed | storage/excel_handler.py:16-44 | whatever the file held, the merge writes a well-formed table with every cell filled |
| ExcelStore.MergedUniqueIds | storage/excel_handler.py:34-36 | a merge of rows with ids leaves one row per `resume_id` |
| ExcelStore.KeptIdsDistinct | storage/excel_handler.py:36 | keeping the last row per id leaves pairwise different ids |
| ExcelStore.ReindexKeepsIds | storage/excel_handler.py:28-29 | reindexing to columns with `resume_id` keeps every row's id |
| ExcelStore.MergedKeepsAllRows | storage/excel_handler.py:32-42 | without `resume_id` and without both fallback keys, every row stays: each existing row, then each new one, in order and filled over the merged columns |
| ExcelStore.ConcatFilledRows | storage/excel_handler.py:32-42 | concatenating two reindexed tables and filling keeps every row of each, in order, each filled over the new columns |
| ExcelStore.MergedIncomingWins | storage/excel_handler.py:32-36 | each new row's id is carried in the merge by the last new row with that id, filled over the merged columns; no existing row stands in for it |
| ExcelStore.UnreadableIsEmpty | storage/excel_handler.py:17-24 | an absent file and an unreadable one merge as an empty table |
| ExcelStore.OverwriteIgnoresFile | storage/excel_handler.py:45-48 | overwriting writes the projected columns and each projected row in order, filled: no cell is missing and every present cell is kept, whatever the file held |
| ExcelStore.SavePath | storage/excel_handler.py:5-6 | the given path, or `output/resume_data.xlsx` without one |
| ExcelStore.Load | storage/excel_handler.py:51-56 | no table exactly when the file is absent; a readable file gives its table |
| App.RFind | app.py:89 | the last index of the character, with none after it, or -1 when absent |
| App.KindOf | app.py:89-128 | PDF exactly for the lower-cased suffix ".pdf"; Word exactly for ".docx" or ".doc" |
| App.RFindLower | app.py:89 | lower-casing does not move the last dot or slash |
| App.SuffixLower | app.py:89 | the lower-cased name's suffix is the lower-cased suffix |
| App.KindIgnoresCase | app.py:89 | names that differ only in letter case get the same kind |
| App.LowerIdempotent | app.py:89 | lower-casing twice is lower-casing once |
| App.UnsupportedGivesNone | app.py:125-128 | any other extension gives no record |
| App.VisionFirst | app.py:91-107 | a non-empty vision result is used; the text extractors and the model are never consulted |
| App.ShortTextGivesNone | app.py:94-99 | with no vision result, text stripping to under 50 characters gives no record |
| App.TextRoute | app.py:94-122 | with no vision result and enough text, the record comes from the model's answer on the cleaned text, or none when that is empty |
| App.FromTextEnough | app.py:100-101 | with enough text and a model answer, the text route finishes on that answer |
| App.RaisingGivesNone | app.py:143-146 | a raising vision extractor, text extractor or model gives no record |
| App.RecordHasSchema | app.py:135-141 | every record has exactly the 22 schema keys |
| App.AiOverridesBase | app.py:135-140 | the AI's id, file name and date override the generated ones; without them the record has the generated values |
| App.CollectRecords | app.py:209-220 | the loop collects exactly the successful records in upload order |
| App.Session.constructor | app.py:230-231 | the session starts with the given table and file |
| App.Session.ProcessResumes | app.py:202-236 | the successful records are appended and the table saved in overwrite mode; nothing changes when there are none |
| App.Session.ConfirmDelete | app.py:357-370 | the selected ids' rows go, columns stay, the table is saved, and the count is the rows removed |
| App.SuccessesConcat | app.py:209-220 | two batches in turn collect the same records as one batch |
| App.SuccessesOne | app.py:217-220 | one upload contributes its record or nothing |
| App.SuccessesFrom | app.py:209-220 | every record came from an upload, and every upload that gave one is collected |
| App.BatchHasSchema | app.py:209-227 | every collected record has exactly the schema's keys |
| App.AppendedRows | app.py:229-233 | old rows stay first in order; the new records follow over the union of columns |
| App.AppendedOverSchema | app.py:229-233 | over a table with the schema's columns, new records are appended unchanged |
| App.KeptRemoved | app.py:364-366 | unselected rows are kept and selected ones removed, accounting for every row |
| App.KeptConcat | app.py:364-366 | the delete keeps surviving rows in order, block by block |
| App.KeptIdempotent | app.py:364-366 | confirming the same delete twice removes nothing the second time |
| App.KeptAll | app.py:364-366 | rows with no selected id are all kept |
| App.DeleteCount | app.py:363-370 | the reported count is the number of rows with a selected id |
| VisionExtractor.NonBlankParagraphs | extractors/vision_extractor.py:214-215 | only paragraphs that are not blank, no more than given |
| VisionExtractor.Take | extractors/vision_extractor.py:213-220 | the first min(n, len) elements |
| VisionExtractor.Contents | extractors/vision_extractor.py:287-292 | the prompt, then one image entry per page image, in order |
| VisionExtractor.DropLeading | extractors/vision_extractor.py:307 | `lstrip('`')`: a suffix that does not start with the character, with only that character cut |
| VisionExtractor.DropTrailing | extractors/vision_extractor.py:307 | `rstrip('`')`: a prefix that does not end with the character, with only that character cut |
| VisionExtractor.FindFrom | extractors/vision_extractor.py:308 | the leftmost occurrence at or after k, or none |
| VisionExtractor.RenderedFacts | extractors/vision_extractor.py:53-58 | the images are the first pages' images in order, ending exactly at the first page that fails |
| VisionExtractor.PdfImagesFacts | extractors/vision_extractor.py:46-59 | at most `max_pages` images, each at its page's position; all of them when none fails; none when opening fails; the branch without pypdfium2 or PIL is modelled although the module cannot be imported then |
| VisionExtractor.AtMostThreePages | extractors/vision_extractor.py:278-292 | at most three images for any file and type, so at most four message entries |
| VisionExtractor.TypeIgnoresCase | extractors/vision_extractor.py:278 | the renderer depends only on the lower-cased type |
| VisionExtractor.DocxOnlyForDocx | extractors/vision_extractor.py:278-281 | only "docx", in any case, takes the Word path |
| VisionExtractor.LayoutFacts | extractors/vision_extractor.py:216-217 | each text becomes a paragraph item followed by a spacer |
| VisionExtractor.BlankIsStripEmpty | extractors/vision_extractor.py:215 | blank means `strip()` gives "" |
| VisionExtractor.StoryIsLayout | extractors/vision_extractor.py:213-220 | the story is the first `room` non-blank paragraphs each with a spacer, in order |
| VisionExtractor.StoryKeepsFirstParagraphs | extractors/vision_extractor.py:213-220 | at most 51 paragraphs: the first 51 non-blank ones when there are that many, else all of them, unstripped |
| VisionExtractor.UnfencedReplyStripped | extractors/vision_extractor.py:303-308 | a reply whose stripped text does not start with three backticks is only stripped, including one starting with one or two |
| VisionExtractor.DeleteFirstFacts | extractors/vision_extractor.py:308 | removing the first "json" deletes four characters at the leftmost occurrence and nothing else |
| VisionExtractor.DropLeadingRun | extractors/vision_extractor.py:307 | `lstrip` removes exactly the leading run of the character |
| VisionExtractor.DropTrailingRun | extractors/vision_extractor.py:307 | `rstrip` removes exactly the trailing run of the character |
| VisionExtractor.FenceCut | extractors/vision_extractor.py:307 | with three backticks on each side and a body that neither starts nor ends with one, exactly those backticks go |
| VisionExtractor.FenceStripped | extractors/vision_extractor.py:303 | a fenced reply is its own strip |
| VisionExtractor.FencedJsonGivesBody | extractors/vision_extractor.py:303-308 | the usual "```json … ```" reply gives its body, stripped |
| VisionExtractor.UntaggedFenceLosesFirstJson | extractors/vision_extractor.py:306-308 | in a fence with no language tag, the body's own first "json" is deleted |
| VisionExtractor.GuardsFirst | extractors/vision_extractor.py:260-275 | a failed guard gives {} before anything is rendered or sent |
| VisionExtractor.NoImagesNoRequest | extractors/vision_extractor.py:283-285 | without page images nothing is sent and the result is {} |
| VisionExtractor.ResultIsParsedObject | extractors/vision_extractor.py:287-314 | a non-empty result is exactly the parsed reply object, after a request with the prompt and every image |
| VisionExtractor.NonObjectGivesEmpty | extractors/vision_extractor.py:311-317 | a reply that parses to a non-object, or does not parse, gives {} |
| VisionExtractor.AsWrittenAgrees | extractors/vision_extractor.py:294-317 | the code as written and as intended agree whenever the chat call does not raise |
| VisionExtractor.ApiFailureDropsResume | extractors/vision_extractor.py:294-322 | as written, a raising chat call makes the extraction raise, so the PDF gives no record |
| VisionExtractor.ApiFailureRaises | extractors/vision_extractor.py:294-322 | as written, a raising chat call raises out, while the corrected form gives {} |
| VisionExtractor.ApiFailureFallsBackToText | extractors/vision_extractor.py:318-322 | as intended, the failure gives {} and the pipeline takes the text route, which yields a record when the text is long enough and the model answers |
| VisionExtractor.PdfToImages | extractors/vision_extractor.py:46-59 | the page loop returns exactly the specified images, stopping at the first failing page |
| VisionExtractor.BuildStory | extractors/vision_extractor.py:213-220 | the loop builds exactly the story for 51 paragraphs |
| VisionExtractor.AlternativeToImages | extractors/vision_extractor.py:179-238 | the method returns the specified fallback images: none without python-docx, PIL or reportlab, or when a step fails |
| VisionExtractor.DocxToImages | extractors/vision_extractor.py:62-176 | the method returns the specified Word images, taking the fallback when a library is missing or conversion fails |
| VisionExtractor.BuildContents | extractors/vision_extractor.py:287-292 | the loop builds exactly the specified message contents |
| VisionExtractor.ExtractWithOpenAiVision | extractors/vision_extractor.py:248-322 | the method returns the corrected vision record |

## Left out

- The Streamlit user interface is not modelled: pages, widgets, filters, analytics, download buttons and progress bars. Only `process_resumes` and the confirmed delete are, as App.Session.
- File I/O is not modelled: temporary files, `mkdir` and writing the workbook. The workbook is a `FileState` value; reading and writing it are functions of the table.
- Libraries that may be missing are boolean parameters: pypdfium2, PIL, python-docx, reportlab, OpenAI and LangChain.
- Library behaviour is function parameters: rendering pages, the LibreOffice/docx2pdf conversion, OCR, pdfplumber, PyPDF2, the chat model, JSON parsing, the phone regular expression and the regular expression of `extract_section`.
- The details of the PDF conversion are given as one function: the Word-to-PDF conversion through LibreOffice, then docx2pdf, is the `convert` parameter. Its intermediate attempts and cleanup are not modelled.
- Base64 PNG data URLs, the system prompts, model names and temperatures are not part of this model. The vision user prompt is a constant.
- `uuid.uuid4()` and `datetime.now()` are inputs: each upload carries its id and timestamp.
- Logging through `print`, `st.warning` and `st.error` has no effect on results and is left out.
- Python floats are exact reals here: each float carries a text, and numbers read from text carry their plain decimal text. Python's `repr` rules (exponent notation such as `1e+16` or `1e-05`, 17 significant digits) are not modelled; the text is never read on a path the core uses.
- Python's `int`/`float` equality in `isin` and pandas `NaN` are not modelled. A missing cell is `Null`.
- Character classes are ASCII only: `\d`, `\w`, `lower()` and IGNORECASE. Whitespace is Python's `str.isspace` set.
- The outer `try/except` of `extract_text_from_pdf` is not modelled: the modelled extractors cannot raise past their own handlers.
- The exceptions that `process_single_resume` catches are modelled as `Raises` outcomes of the collaborators it calls.
- The truthiness of `resume_data` at app.py:219 is not a test: a validated record always has 22 keys, so it is always truthy.
- Validators.CoerceExperience: a JSON `true`/`false` arrives as an `Other` value and is read through its text, giving 0.0, whereas Python's `float(True)` is 1.0; and an integer too large for a float, where `float()` raises `OverflowError` and the handler gives 0.0, keeps its exact value here. Booleans as numbers and float range are outside the model.
- App.KindOf: `Path.suffix` is modelled for `/`-separated names only, and a trailing `/` or `/.` is not normalised away as `PurePath` does ("a.pdf/" has suffix ".pdf" in Python and none here). Uploaded names are base names, so this does not arise.
- A missing pypdfium2 or PIL cannot be observed: `Image` is then `None`, and the annotations `List[Image.Image]` at extractors/vision_extractor.py:46, 62, 179 and 241 are evaluated when each `def` runs, so importing the module raises `AttributeError` and the application never starts. The model keeps the guard at extractors/vision_extractor.py:47 as written, so its `pdfium`/`pil` false branches describe behaviour the program never shows.
- App.Session.ConfirmDelete: it requires a `resume_id` column, because the page returns at app.py:312-314 before offering a delete without one.

## Findings

| source | as written | input that shows it | evidently intended | confidence | as-written member | corrected member |
|---|---|---|---|---|---|---|
| extractors/vision_extractor.py:310-322 | `import json` inside the function makes `json` a local name. When `client.chat.completions.create` raises before line 310, evaluating `except json.JSONDecodeError` raises `UnboundLocalError`. The error escapes the function, and `process_single_resume` returns no record for the file. | a PDF upload with a usable text layer whose chat request fails with a quota or rate-limit error | the handlers return `{}`, so the pipeline falls back to text extraction, as app.py:95 says | high, not executed | VisionExtractor.ApiFailureDropsResume | VisionExtractor.ApiFailureFallsBackToText |
