/** Extraction from page images: the file is rendered to at most three page images, the images are
    sent to a vision model with a fixed prompt, and the model's reply is parsed as a JSON object.
    Rendering libraries, the model service and the JSON parser are parameters. */
module VisionExtractor {
  import opened Text
  import opened Values
  import opened Wrappers
  import opened Helpers
  import opened App

  /** A rendered page image, converted to RGB. */
  datatype Image = Image(rgb: Bytes)

  /** The PDF renderer: whether pypdfium2 and PIL imported, and what opening a PDF gives: `None` when
      opening raised, otherwise one entry per page, the rendered image or `None` when rendering that
      page raised. */
  datatype PdfRenderer = PdfRenderer(pdfium: bool, pil: bool, open: Bytes -> Option<seq<Option<Image>>>)

  /** One element of the story the DOCX fallback lays out: a paragraph, or the spacer after it. */
  datatype StoryItem = Para(text: string) | Spacer

  /** The DOCX renderers: whether python-docx and reportlab imported; the paragraph texts of a document
      (`None` when parsing raised); the PDF that reportlab builds from a story (`None` when building
      raised); and the PDF that the external converters (LibreOffice, then docx2pdf) produce from the
      file, `None` when neither produces one. */
  datatype DocxRenderer = DocxRenderer(
    docx: bool,
    reportlab: bool,
    paragraphs: Bytes -> Option<seq<string>>,
    build: seq<StoryItem> -> Option<Bytes>,
    convert: Bytes -> Option<Bytes>)

  /** One entry of the user message: the prompt text, or an image sent as a PNG data URL. */
  datatype Content = Prompt(text: string) | Picture(image: Image)

  /** What `json.loads` makes of the reply: a decode error, a JSON object, or any other JSON value. */
  datatype Json = Malformed | Object(fields: Record) | NotObject

  /** The model service: whether the `openai` library imported, the `OPENAI_API_KEY` variable, whether
      creating the client raised, the chat call on a user message (it raises, or returns the message
      content, which may be `None`), and the JSON parser. */
  datatype Service = Service(
    installed: bool,
    apiKey: Option<string>,
    clientRaises: bool,
    chat: seq<Content> -> Outcome<Option<string>>,
    parse: string -> Json)

  const MaxPages: nat := 3
  const ParagraphLimit: nat := 50
  const UserPrompt: string := "Parse the attached resume images and return the JSON fields."

  // ---------------------------------------------------------------------------------------------
  // Rendering

  /** The images of the pages up to the first page whose rendering raised. */
  function Rendered(pages: seq<Option<Image>>): seq<Image> {
    if pages == [] then []
    else
      match pages[0]
      case None => []
      case Some(img) => [img] + Rendered(pages[1..])
  }

  /** `_pdf_to_images(pdf_bytes, max_pages)`. */
  function PdfImages(pdf: Bytes, r: PdfRenderer, maxPages: nat): seq<Image> {
    if !r.pdfium || !r.pil then []
    else
      match r.open(pdf)
      case None => []
      case Some(pages) => Rendered(pages[..if |pages| < maxPages then |pages| else maxPages])
  }

  /** `not text.strip()`: the text is empty or whitespace only. */
  predicate Blank(text: string) {
    text == [] || (IsSpace(text[0]) && Blank(text[1..]))
  }

  /** The paragraphs whose text is not blank, kept as they are (they are not stripped). */
  function NonBlankParagraphs(ps: seq<string>): (r: seq<string>)
    ensures forall i :: 0 <= i < |r| ==> !Blank(r[i])
    ensures |r| <= |ps|
  {
    if ps == [] then []
    else (if Blank(ps[0]) then [] else [ps[0]]) + NonBlankParagraphs(ps[1..])
  }

  /** The story loop of `_docx_to_images_alternative`, with `room` the number of paragraphs that may
      still be added: each non-blank paragraph adds itself and a spacer. */
  function Story(ps: seq<string>, room: nat): seq<StoryItem> {
    if ps == [] || room == 0 then []
    else if Blank(ps[0]) then Story(ps[1..], room)
    else [Para(ps[0]), Spacer] + Story(ps[1..], room - 1)
  }

  /** Each text laid out as a paragraph followed by a spacer. */
  function Layout(texts: seq<string>): seq<StoryItem> {
    if texts == [] then [] else [Para(texts[0]), Spacer] + Layout(texts[1..])
  }

  /** The first `n` elements of `xs`, or all of them. */
  function Take(xs: seq<string>, n: nat): (r: seq<string>)
    ensures |r| == if |xs| < n then |xs| else n
    ensures r == xs[..|r|]
  {
    if |xs| <= n then xs else xs[..n]
  }

  /** `_docx_to_images_alternative(docx_bytes, max_pages=3)`. The counter is compared after it is
      incremented, so `para_count > 50` stops the loop after the 51st paragraph. */
  function AlternativeImages(content: Bytes, d: DocxRenderer, r: PdfRenderer): seq<Image> {
    if !d.docx || !r.pil || !d.reportlab then []
    else
      match d.paragraphs(content)
      case None => []
      case Some(ps) =>
        match d.build(Story(ps, ParagraphLimit + 1))
        case None => []
        case Some(pdf) => PdfImages(pdf, r, MaxPages)
  }

  /** `_docx_to_images(docx_bytes)`: the rendering fallback when a library is missing or no converter
      produced a PDF, otherwise the images of the converted PDF. */
  function DocxImages(content: Bytes, d: DocxRenderer, r: PdfRenderer): seq<Image> {
    if !r.pdfium || !r.pil || !d.docx then AlternativeImages(content, d, r)
    else
      match d.convert(content)
      case None => AlternativeImages(content, d, r)
      case Some(pdf) => PdfImages(pdf, r, MaxPages)
  }

  /** `file_type.lower() == 'docx'` selects the DOCX renderer; any other type is rendered as a PDF. */
  function Images(content: Bytes, fileType: string, d: DocxRenderer, r: PdfRenderer): seq<Image> {
    if Lower(fileType) == "docx" then DocxImages(content, d, r) else PdfImages(content, r, MaxPages)
  }

  // ---------------------------------------------------------------------------------------------
  // The request and the reply

  /** The user message: the prompt, then one image entry per page image, in page order. */
  function Contents(images: seq<Image>): (c: seq<Content>)
    ensures |c| == |images| + 1 && c[0] == Prompt(UserPrompt)
    ensures forall j :: 0 <= j < |images| ==> c[j + 1] == Picture(images[j])
  {
    [Prompt(UserPrompt)] + seq(|images|, j requires 0 <= j < |images| => Picture(images[j]))
  }

  /** `s.lstrip(c)`: `s` without the run of `c` it starts with. */
  function DropLeading(s: string, c: char): (r: string)
    ensures |r| <= |s| && r == s[|s| - |r|..]
    ensures r == [] || r[0] != c
    ensures forall i :: 0 <= i < |s| - |r| ==> s[i] == c
  {
    if s != [] && s[0] == c then
      var r := DropLeading(s[1..], c);
      assert forall i :: 1 <= i < |s| - |r| ==> s[i] == s[1..][i - 1];
      r
    else s
  }

  /** `s.rstrip(c)`: `s` without the run of `c` it ends with. */
  function DropTrailing(s: string, c: char): (r: string)
    ensures |r| <= |s| && r == s[..|r|]
    ensures r == [] || r[|r| - 1] != c
    ensures forall i :: |r| <= i < |s| ==> s[i] == c
  {
    if s != [] && s[|s| - 1] == c then
      var r := DropTrailing(s[..|s| - 1], c);
      assert forall i :: |r| <= i < |s| - 1 ==> s[i] == s[..|s| - 1][i];
      r
    else s
  }

  /** `s.strip(c)` for a single character `c`. */
  function StripChar(s: string, c: char): string {
    DropTrailing(DropLeading(s, c), c)
  }

  predicate OccursAt(s: string, pat: string, j: int) {
    0 <= j && j + |pat| <= |s| && s[j..j + |pat|] == pat
  }

  /** The first position at or after `k` where `pat` occurs in `s`. */
  function FindFrom(s: string, pat: string, k: nat): (r: Option<nat>)
    requires k <= |s|
    ensures r.Some? ==> k <= r.value && OccursAt(s, pat, r.value)
    ensures r.Some? ==> forall j :: k <= j < r.value ==> !OccursAt(s, pat, j)
    ensures r.None? ==> forall j :: k <= j ==> !OccursAt(s, pat, j)
    decreases |s| - k
  {
    if k + |pat| > |s| then None
    else if s[k..k + |pat|] == pat then Some(k)
    else FindFrom(s, pat, k + 1)
  }

  /** `s.replace(pat, "", 1)`: the leftmost occurrence of `pat` is deleted; without one, `s` is
      returned unchanged. */
  function DeleteFirst(s: string, pat: string): (r: string)
  {
    match FindFrom(s, pat, 0)
    case None => s
    case Some(i) => s[..i] + s[i + |pat|..]
  }

  /** The reply text: `(content or '').strip()`, and for a reply that starts with three backticks,
      every leading and trailing backtick cut, the first "json" deleted, and the rest stripped. */
  function Unfence(content: Option<string>): string {
    var t := Strip(if content.Some? then content.value else "");
    if |t| >= 3 && t[..3] == "```" then Strip(DeleteFirst(StripChar(t, '`'), "json")) else t
  }

  /** Only a JSON object is returned; any other value, and a decode error, give `{}`. */
  function Decoded(j: Json): Record {
    match j
    case Object(fields) => fields
    case _ => map[]
  }

  /** The guards before any rendering: a non-empty file, the `openai` library, a non-empty API key and
      a client that could be created. */
  predicate Ready(content: Bytes, s: Service) {
    |content| > 0 && s.installed && s.apiKey.Some? && s.apiKey.value != "" && !s.clientRaises
  }

  /** `extract_with_openai_vision(file_bytes, file_type)` as written: when the chat call (or reading
      its reply) raises, the handler `except json.JSONDecodeError` looks up `json`, a local name that
      is bound only by the `import json` placed after the call; that lookup raises
      `UnboundLocalError`, which the handlers do not catch, so the call raises. */
  function VisionAsWritten(content: Bytes, fileType: string, s: Service, d: DocxRenderer, r: PdfRenderer): Outcome<Record> {
    if !Ready(content, s) then Gives(map[])
    else
      var images := Images(content, fileType, d, r);
      if images == [] then Gives(map[])
      else
        match s.chat(Contents(images))
        case Raises => Raises
        case Gives(reply) => Gives(Decoded(s.parse(Unfence(reply))))
  }

  /** `extract_with_openai_vision` as its handlers intend: every failure gives `{}`. */
  function VisionRecord(content: Bytes, fileType: string, s: Service, d: DocxRenderer, r: PdfRenderer): Record {
    match VisionAsWritten(content, fileType, s, d, r)
    case Raises => map[]
    case Gives(data) => data
  }

  // ---------------------------------------------------------------------------------------------
  // Properties of rendering

  /** The rendered images are the images of the first pages, in order, and they stop exactly at the
      first page that failed. */
  lemma {:induction false} RenderedFacts(pages: seq<Option<Image>>)
    ensures |Rendered(pages)| <= |pages|
    ensures forall j :: 0 <= j < |Rendered(pages)| ==> pages[j] == Some(Rendered(pages)[j])
    ensures |Rendered(pages)| < |pages| ==> pages[|Rendered(pages)|].None?
  {
    if pages != [] && pages[0].Some? {
      var rest := pages[1..];
      RenderedFacts(rest);
      var r := Rendered(pages);
      assert r == [pages[0].value] + Rendered(rest);
      forall j | 0 <= j < |r| ensures pages[j] == Some(r[j]) {
        if j > 0 {
          assert pages[j] == rest[j - 1];
        }
      }
    }
  }

  /** At most `maxPages` images, one per leading page that rendered: every image is the page of the
      same position, all of the first `maxPages` pages give an image when none fails, and a failing
      page ends the list there. Without pypdfium2 or PIL, or when opening fails, there are none. */
  lemma PdfImagesFacts(pdf: Bytes, r: PdfRenderer, maxPages: nat)
    ensures |PdfImages(pdf, r, maxPages)| <= maxPages
    ensures !r.pdfium || !r.pil || r.open(pdf).None? ==> PdfImages(pdf, r, maxPages) == []
    ensures r.pdfium && r.pil && r.open(pdf).Some? ==>
      var pages, imgs := r.open(pdf).value, PdfImages(pdf, r, maxPages);
      && |imgs| <= |pages|
      && (forall j :: 0 <= j < |imgs| ==> pages[j] == Some(imgs[j]))
      && (forall j :: 0 <= j < |pages| && j < maxPages && pages[j].None? ==> |imgs| <= j)
      && ((forall j :: 0 <= j < |pages| && j < maxPages ==> pages[j].Some?) ==>
            |imgs| == if |pages| < maxPages then |pages| else maxPages)
  {
    if r.pdfium && r.pil && r.open(pdf).Some? {
      var pages := r.open(pdf).value;
      var n := if |pages| < maxPages then |pages| else maxPages;
      RenderedFacts(pages[..n]);
    }
  }

  /** Whatever the file or its type, no more than three page images are produced, so the user message
      has at most four entries. */
  lemma AtMostThreePages(content: Bytes, fileType: string, d: DocxRenderer, r: PdfRenderer)
    ensures |Images(content, fileType, d, r)| <= MaxPages
    ensures |Contents(Images(content, fileType, d, r))| <= MaxPages + 1
  {
    PdfImagesFacts(content, r, MaxPages);
    if d.convert(content).Some? {
      PdfImagesFacts(d.convert(content).value, r, MaxPages);
    }
    if d.paragraphs(content).Some? {
      var story := Story(d.paragraphs(content).value, ParagraphLimit + 1);
      if d.build(story).Some? {
        PdfImagesFacts(d.build(story).value, r, MaxPages);
      }
    }
  }

  /** The renderer is chosen by the type's lower-case form alone. */
  lemma TypeIgnoresCase(content: Bytes, t1: string, t2: string, s: Service, d: DocxRenderer, r: PdfRenderer)
    requires Lower(t1) == Lower(t2)
    ensures VisionAsWritten(content, t1, s, d, r) == VisionAsWritten(content, t2, s, d, r)
  {
  }

  /** Only the type "docx" (in any case) is rendered as a Word document. */
  lemma DocxOnlyForDocx(content: Bytes, fileType: string, d: DocxRenderer, r: PdfRenderer)
    ensures Lower(fileType) == "docx" ==> Images(content, fileType, d, r) == DocxImages(content, d, r)
    ensures Lower(fileType) != "docx" ==> Images(content, fileType, d, r) == PdfImages(content, r, MaxPages)
  {
  }

  lemma LayoutCons(t: string, texts: seq<string>)
    ensures Layout([t] + texts) == [Para(t), Spacer] + Layout(texts)
  {
    assert ([t] + texts)[1..] == texts;
  }

  /** Each text becomes two items, the paragraph and then the spacer. */
  lemma {:induction false} LayoutFacts(texts: seq<string>)
    ensures |Layout(texts)| == 2 * |texts|
    ensures forall j :: 0 <= j < |texts| ==> Layout(texts)[2 * j] == Para(texts[j]) && Layout(texts)[2 * j + 1] == Spacer
  {
    if texts != [] {
      var rest := texts[1..];
      LayoutFacts(rest);
      var l := Layout(texts);
      assert l == [Para(texts[0]), Spacer] + Layout(rest);
      forall j | 0 <= j < |texts| ensures l[2 * j] == Para(texts[j]) && l[2 * j + 1] == Spacer {
        if j > 0 {
          assert l[2 * j] == Layout(rest)[2 * (j - 1)];
          assert l[2 * j + 1] == Layout(rest)[2 * (j - 1) + 1];
          assert texts[j] == rest[j - 1];
        }
      }
    }
  }

  /** `Blank` is the test `not text.strip()`. */
  lemma {:induction false} BlankIsStripEmpty(text: string)
    ensures Blank(text) <==> Strip(text) == ""
  {
    BlankIsAllSpace(text);
    StripEmptyIffAllSpace(text);
  }

  lemma {:induction false} BlankIsAllSpace(text: string)
    ensures Blank(text) <==> AllSpace(text)
  {
    if text != [] {
      BlankIsAllSpace(text[1..]);
      assert forall i :: 1 <= i < |text| ==> text[i] == text[1..][i - 1];
    }
  }

  lemma TakeCons(x: string, xs: seq<string>, n: nat)
    requires n > 0
    ensures Take([x] + xs, n) == [x] + Take(xs, n - 1)
  {
    assert ([x] + xs)[1..] == xs;
  }

  lemma NonBlankCons(ps: seq<string>)
    requires ps != []
    ensures Blank(ps[0]) ==> NonBlankParagraphs(ps) == NonBlankParagraphs(ps[1..])
    ensures !Blank(ps[0]) ==> NonBlankParagraphs(ps) == [ps[0]] + NonBlankParagraphs(ps[1..])
  {
  }

  lemma StoryCons(ps: seq<string>, room: nat)
    requires ps != [] && room > 0
    ensures Blank(ps[0]) ==> Story(ps, room) == Story(ps[1..], room)
    ensures !Blank(ps[0]) ==> Story(ps, room) == [Para(ps[0]), Spacer] + Story(ps[1..], room - 1)
  {
  }

  /** The story holds the first `room` non-blank paragraphs, in order, each followed by a spacer. */
  lemma {:induction false} StoryIsLayout(ps: seq<string>, room: nat)
    ensures Story(ps, room) == Layout(Take(NonBlankParagraphs(ps), room))
    decreases |ps|
  {
    if ps == [] || room == 0 {
      assert Take(NonBlankParagraphs(ps), room) == [];
    } else {
      var blank := Blank(ps[0]);
      NonBlankCons(ps);
      StoryCons(ps, room);
      if blank {
        StoryIsLayout(ps[1..], room);
      } else {
        var nb := NonBlankParagraphs(ps[1..]);
        StoryIsLayout(ps[1..], room - 1);
        TakeCons(ps[0], nb, room);
        LayoutCons(ps[0], Take(nb, room - 1));
      }
    }
  }

  /** The DOCX fallback lays out at most 51 paragraphs: exactly the first 51 non-blank ones when there
      are that many, otherwise all of them, in document order and unstripped. */
  lemma StoryKeepsFirstParagraphs(ps: seq<string>)
    ensures var story, kept := Story(ps, ParagraphLimit + 1), Take(NonBlankParagraphs(ps), ParagraphLimit + 1);
      && |story| == 2 * |kept| <= 2 * (ParagraphLimit + 1)
      && (forall j :: 0 <= j < |kept| ==> story[2 * j] == Para(kept[j]) && story[2 * j + 1] == Spacer)
      && kept == NonBlankParagraphs(ps)[..|kept|]
      && (|NonBlankParagraphs(ps)| > ParagraphLimit ==> |kept| == ParagraphLimit + 1)
  {
    StoryIsLayout(ps, ParagraphLimit + 1);
    LayoutFacts(Take(NonBlankParagraphs(ps), ParagraphLimit + 1));
  }

  // ---------------------------------------------------------------------------------------------
  // Properties of the request and the reply

  /** A reply that does not start with a fence is only stripped. */
  lemma UnfencedReplyStripped(content: Option<string>)
    requires var t := Strip(if content.Some? then content.value else ""); !(|t| >= 3 && t[..3] == "```")
    ensures Unfence(content) == Strip(if content.Some? then content.value else "")
  {
  }

  /** Deleting the first "json" removes four characters at the leftmost occurrence and nothing else. */
  lemma DeleteFirstFacts(s: string, pat: string)
    ensures (forall j :: !OccursAt(s, pat, j)) ==> DeleteFirst(s, pat) == s
    ensures forall i :: OccursAt(s, pat, i) && (forall j :: 0 <= j < i ==> !OccursAt(s, pat, j)) ==>
      DeleteFirst(s, pat) == s[..i] + s[i + |pat|..]
  {
    var f := FindFrom(s, pat, 0);
    if f.None? {
    } else {
      forall i | OccursAt(s, pat, i) && (forall j :: 0 <= j < i ==> !OccursAt(s, pat, j))
        ensures DeleteFirst(s, pat) == s[..i] + s[i + |pat|..]
      {
        assert !(f.value < i) && !(i < f.value);
      }
    }
  }

  /** `lstrip` removes exactly the leading run of `c`. */
  lemma DropLeadingRun(s: string, c: char, n: nat)
    requires n < |s| && s[n] != c && forall i :: 0 <= i < n ==> s[i] == c
    ensures DropLeading(s, c) == s[n..]
  {
  }

  /** `rstrip` removes exactly the trailing run of `c`. */
  lemma DropTrailingRun(s: string, c: char, n: nat)
    requires n < |s| && s[|s| - n - 1] != c && forall i :: |s| - n <= i < |s| ==> s[i] == c
    ensures DropTrailing(s, c) == s[..|s| - n]
  {
  }

  lemma CutLeadingFence(t: string)
    requires t != [] && t[0] != '`'
    ensures DropLeading("```" + t, '`') == t
  {
    var s := "```" + t;
    assert s[3] == t[0];
    DropLeadingRun(s, '`', 3);
    assert s[3..] == t;
  }

  lemma CutTrailingFence(t: string)
    requires t != [] && t[|t| - 1] != '`'
    ensures DropTrailing(t + "```", '`') == t
  {
    var s := t + "```";
    assert s[|s| - 4] == t[|t| - 1];
    DropTrailingRun(s, '`', 3);
    assert s[..|t|] == t;
  }

  /** A reply wrapped in three backticks on each side, whose body neither starts nor ends with a
      backtick, loses exactly those backticks. */
  lemma FenceCut(body: string)
    requires body != [] && body[0] != '`' && body[|body| - 1] != '`'
    ensures var s := "```" + body + "```"; |s| >= 3 && s[..3] == "```"
    ensures StripChar("```" + body + "```", '`') == body
  {
    var tail := body + "```";
    assert "```" + body + "```" == "```" + tail;
    CutLeadingFence(tail);
    CutTrailingFence(body);
  }

  /** A fenced reply is its own `strip()`. */
  lemma FenceStripped(body: string)
    ensures var s := "```" + body + "```"; Strip(s) == s
  {
    var s := "```" + body + "```";
    assert s[0] == '`' && s[|s| - 1] == '`';
    StripNoop(s);
  }

  /** In a fence without a language tag the first "json" of the body itself is deleted, wherever it
      stands: a reply "```{\"skills\": \"json\"}```" loses that word. */
  lemma UntaggedFenceLosesFirstJson(body: string)
    requires body != [] && body[0] != '`' && body[|body| - 1] != '`'
    ensures Unfence(Some("```" + body + "```")) == Strip(DeleteFirst(body, "json"))
  {
    FenceStripped(body);
    FenceCut(body);
  }

  lemma DeleteLeadingJson(body: string)
    ensures DeleteFirst("json" + body, "json") == body
  {
    var inner := "json" + body;
    assert inner[..4] == "json";
    assert FindFrom(inner, "json", 0) == Some(0);
    assert inner[4..] == body;
  }

  /** The usual fenced reply "```json ... ```" gives its body, stripped. */
  lemma FencedJsonGivesBody(body: string)
    requires body == [] || body[|body| - 1] != '`'
    ensures Unfence(Some("```json" + body + "```")) == Strip(body)
  {
    var inner := "json" + body;
    assert inner[0] == 'j';
    assert inner[|inner| - 1] != '`' by {
      if body != [] { assert inner[|inner| - 1] == body[|body| - 1]; }
    }
    assert "```json" + body + "```" == "```" + inner + "```";
    UntaggedFenceLosesFirstJson(inner);
    DeleteLeadingJson(body);
  }

  // ---------------------------------------------------------------------------------------------
  // Properties of the whole extraction

  /** A failed guard gives `{}` before anything is rendered or sent. */
  lemma GuardsFirst(content: Bytes, fileType: string, s: Service, d: DocxRenderer, r: PdfRenderer, d': DocxRenderer, r': PdfRenderer,
                    chat': seq<Content> -> Outcome<Option<string>>)
    requires !Ready(content, s)
    ensures VisionAsWritten(content, fileType, s, d, r) == Gives(map[])
    ensures VisionRecord(content, fileType, s, d, r) == VisionRecord(content, fileType, s.(chat := chat'), d', r')
  {
  }

  /** Without page images nothing is sent and the result is `{}`. */
  lemma NoImagesNoRequest(content: Bytes, fileType: string, s: Service, d: DocxRenderer, r: PdfRenderer,
                          chat': seq<Content> -> Outcome<Option<string>>)
    requires Images(content, fileType, d, r) == []
    ensures VisionAsWritten(content, fileType, s, d, r) == Gives(map[])
    ensures VisionAsWritten(content, fileType, s.(chat := chat'), d, r) == Gives(map[])
  {
  }

  /** A non-empty result is exactly the JSON object the reply parsed to, after a request that carried
      the prompt and every page image. */
  lemma ResultIsParsedObject(content: Bytes, fileType: string, s: Service, d: DocxRenderer, r: PdfRenderer)
    requires VisionRecord(content, fileType, s, d, r) != map[]
    ensures Ready(content, s)
    ensures var images := Images(content, fileType, d, r);
      && images != []
      && s.chat(Contents(images)).Gives?
      && s.parse(Unfence(s.chat(Contents(images)).value)) == Object(VisionRecord(content, fileType, s, d, r))
  {
  }

  /** A reply that parses to something other than an object, or does not parse, gives `{}`. */
  lemma NonObjectGivesEmpty(content: Bytes, fileType: string, s: Service, d: DocxRenderer, r: PdfRenderer)
    requires Ready(content, s) && Images(content, fileType, d, r) != []
    requires var c := s.chat(Contents(Images(content, fileType, d, r))); c.Gives? && !s.parse(Unfence(c.value)).Object?
    ensures VisionAsWritten(content, fileType, s, d, r) == Gives(map[])
  {
  }

  /** The code as written and as intended agree on every input where the chat call does not raise. */
  lemma AsWrittenAgrees(content: Bytes, fileType: string, s: Service, d: DocxRenderer, r: PdfRenderer)
    requires !Ready(content, s) || Images(content, fileType, d, r) == [] || s.chat(Contents(Images(content, fileType, d, r))).Gives?
    ensures VisionAsWritten(content, fileType, s, d, r) == Gives(VisionRecord(content, fileType, s, d, r))
  {
  }

  /** As written, a chat call that raises (a quota or rate-limit error) makes the whole extraction
      raise, and `process_single_resume` then gives no record for the PDF, whatever its text layer
      holds. */
  lemma ApiFailureDropsResume(u: Upload, x: Extractors, s: Service, d: DocxRenderer, r: PdfRenderer)
    requires KindOf(u.name) == PdfFile
    requires x.vision(u.content, "pdf") == VisionAsWritten(u.content, "pdf", s, d, r)
    requires Ready(u.content, s)
    requires var images := PdfImages(u.content, r, MaxPages); images != [] && s.chat(Contents(images)).Raises?
    ensures VisionAsWritten(u.content, "pdf", s, d, r) == Raises
    ensures ProcessSingleResume(u, x) == None
  {
    ApiFailureRaises(u.content, s, d, r);
  }

  lemma ApiFailureRaises(content: Bytes, s: Service, d: DocxRenderer, r: PdfRenderer)
    requires Ready(content, s)
    requires var images := PdfImages(content, r, MaxPages); images != [] && s.chat(Contents(images)).Raises?
    ensures VisionAsWritten(content, "pdf", s, d, r) == Raises
    ensures VisionRecord(content, "pdf", s, d, r) == map[]
  {
    assert Lower("pdf") == "pdf";
  }

  /** As intended, the same failure gives `{}`, and `process_single_resume` falls back to the text
      route, which yields a record whenever the text is long enough and the language model answers. */
  lemma ApiFailureFallsBackToText(u: Upload, x: Extractors, s: Service, d: DocxRenderer, r: PdfRenderer)
    requires KindOf(u.name) == PdfFile
    requires x.vision(u.content, "pdf") == Gives(VisionRecord(u.content, "pdf", s, d, r))
    requires Ready(u.content, s)
    requires var images := PdfImages(u.content, r, MaxPages); images != [] && s.chat(Contents(images)).Raises?
    ensures VisionRecord(u.content, "pdf", s, d, r) == map[]
    ensures ProcessSingleResume(u, x) == FromText(u, x.pdfText(u.content), x)
    ensures var t := x.pdfText(u.content);
      t.Gives? && |Strip(t.value)| >= 50 && x.langChain(CleanText(t.value)).Gives? && x.langChain(CleanText(t.value)).value != map[]
      ==> ProcessSingleResume(u, x).Some?
  {
    ApiFailureRaises(u.content, s, d, r);
    var t := x.pdfText(u.content);
    if t.Gives? && |Strip(t.value)| >= 50 && x.langChain(CleanText(t.value)).Gives? {
      FromTextEnough(u, t, x);
    }
  }

  // ---------------------------------------------------------------------------------------------
  // The imperative form

  lemma RenderedStep(pages: seq<Option<Image>>, i: int, n: int)
    requires 0 <= i < n <= |pages|
    ensures Rendered(pages[i..n]) == match pages[i] case None => [] case Some(img) => [img] + Rendered(pages[i + 1..n])
  {
    assert pages[i..n][0] == pages[i];
    assert pages[i..n][1..] == pages[i + 1..n];
  }

  /** `_pdf_to_images`: the page loop stops at the first page whose rendering raises. */
  method PdfToImages(pdf: Bytes, r: PdfRenderer, maxPages: nat) returns (images: seq<Image>)
    ensures images == PdfImages(pdf, r, maxPages)
  {
    if !r.pdfium || !r.pil {
      return [];
    }
    var document := r.open(pdf);
    if document.None? {
      return [];
    }
    var pages := document.value;
    var n := if |pages| < maxPages then |pages| else maxPages;
    images := [];
    var i := 0;
    assert pages[0..n] == pages[..n];
    while i < n
      invariant 0 <= i <= n
      invariant images + Rendered(pages[i..n]) == Rendered(pages[..n])
    {
      RenderedStep(pages, i, n);
      var page := pages[i];
      if page.None? {
        break;
      }
      images := images + [page.value];
      i := i + 1;
    }
  }

  lemma StoryStep(ps: seq<string>, i: int, room: nat)
    requires 0 <= i < |ps| && room > 0
    ensures Story(ps[i..], room) ==
      if Blank(ps[i]) then Story(ps[i + 1..], room) else [Para(ps[i]), Spacer] + Story(ps[i + 1..], room - 1)
  {
    assert ps[i..][0] == ps[i];
    assert ps[i..][1..] == ps[i + 1..];
  }

  /** The story loop: a non-blank paragraph adds itself and a spacer, and the loop breaks once more than
      50 paragraphs were added. */
  method BuildStory(ps: seq<string>) returns (story: seq<StoryItem>)
    ensures story == Story(ps, ParagraphLimit + 1)
  {
    story := [];
    var count := 0;
    var i := 0;
    assert ps[0..] == ps;
    while i < |ps|
      invariant 0 <= i <= |ps| && 0 <= count <= ParagraphLimit
      invariant story + Story(ps[i..], ParagraphLimit + 1 - count) == Story(ps, ParagraphLimit + 1)
    {
      StoryStep(ps, i, ParagraphLimit + 1 - count);
      var text := ps[i];
      if !Blank(text) {
        story := story + [Para(text), Spacer];
        count := count + 1;
        if count > ParagraphLimit {
          break;
        }
      }
      i := i + 1;
    }
  }

  /** `_docx_to_images_alternative`. */
  method AlternativeToImages(content: Bytes, d: DocxRenderer, r: PdfRenderer) returns (images: seq<Image>)
    ensures images == AlternativeImages(content, d, r)
  {
    if !d.docx || !r.pil || !d.reportlab {
      return [];
    }
    var parsed := d.paragraphs(content);
    if parsed.None? {
      return [];
    }
    var story := BuildStory(parsed.value);
    var pdf := d.build(story);
    if pdf.None? {
      return [];
    }
    images := PdfToImages(pdf.value, r, MaxPages);
  }

  /** `_docx_to_images`. */
  method DocxToImages(content: Bytes, d: DocxRenderer, r: PdfRenderer) returns (images: seq<Image>)
    ensures images == DocxImages(content, d, r)
  {
    if !r.pdfium || !r.pil || !d.docx {
      images := AlternativeToImages(content, d, r);
      return;
    }
    var converted := d.convert(content);
    if converted.None? {
      images := AlternativeToImages(content, d, r);
    } else {
      images := PdfToImages(converted.value, r, MaxPages);
    }
  }

  /** The loop that builds the user message. */
  method BuildContents(images: seq<Image>) returns (contents: seq<Content>)
    ensures contents == Contents(images)
  {
    contents := [Prompt(UserPrompt)];
    var i := 0;
    while i < |images|
      invariant 0 <= i <= |images|
      invariant |contents| == i + 1 && contents[0] == Prompt(UserPrompt)
      invariant forall j :: 0 <= j < i ==> contents[j + 1] == Picture(images[j])
    {
      contents := contents + [Picture(images[i])];
      i := i + 1;
    }
  }

  /** `extract_with_openai_vision(file_bytes, file_type)`, with a failing chat call giving `{}` as the
      handlers intend. */
  method ExtractWithOpenAiVision(content: Bytes, fileType: string, s: Service, d: DocxRenderer, r: PdfRenderer)
    returns (data: Record)
    ensures data == VisionRecord(content, fileType, s, d, r)
  {
    if |content| == 0 || !s.installed {
      return map[];
    }
    if s.apiKey.None? || s.apiKey.value == "" || s.clientRaises {
      return map[];
    }
    var images;
    if Lower(fileType) == "docx" {
      images := DocxToImages(content, d, r);
    } else {
      images := PdfToImages(content, r, MaxPages);
    }
    if images == [] {
      return map[];
    }
    var contents := BuildContents(images);
    var reply := s.chat(contents);
    if reply.Raises? {
      return map[];
    }
    data := Decoded(s.parse(Unfence(reply.value)));
  }
}
