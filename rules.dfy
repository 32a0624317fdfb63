/** The rule-based extractor: a text-to-record function built from first-match rules. */
module RuleExtractor {
  import opened Text
  import opened Values
  import opened Wrappers
  import opened Patterns

  /** The 19 fields of the extraction schema, in declaration order. */
  const RuleKeys: seq<string> := [
    "name", "email", "phone", "linkedin", "github", "highest_degree", "college_name", "graduation_year",
    "major", "cgpa", "total_experience_years", "current_company", "current_designation", "previous_companies",
    "technical_skills", "programming_languages", "frameworks_tools", "soft_skills", "certifications"
  ]

  /** The fields the rules can set; every other field keeps its default. */
  const RuleSetKeys: set<string> := {
    "name", "email", "phone", "linkedin", "github", "highest_degree", "graduation_year", "technical_skills"
  }

  function DefaultFor(k: string): Value {
    if k == "total_experience_years" then Float(0.0, "0.0") else Str(NotFound)
  }

  /** The record the extractor starts from: 'Not Found' everywhere, 0.0 experience. */
  function Defaults(): (d: Record)
    ensures forall k :: k in d <==> k in RuleKeys
    ensures forall k :: k in d ==> d[k] == DefaultFor(k)
  {
    map k | k in RuleKeys :: DefaultFor(k)
  }

  /** The maximal run of characters of class `cls` starting at `i`. */
  function RunEnd(s: string, i: nat, cls: char -> bool): (j: nat)
    requires i <= |s|
    ensures i <= j <= |s|
    ensures forall m :: i <= m < j ==> cls(s[m])
    ensures j == |s| || !cls(s[j])
    decreases |s| - i
  {
    if i < |s| && cls(s[i]) then RunEnd(s, i + 1, cls) else i
  }

  /** A run of `cls` characters over `[i, j)` lies inside the maximal run from `i`. */
  lemma {:induction false} RunEndCovers(s: string, i: nat, j: nat, cls: char -> bool)
    requires i <= j <= |s| && forall m :: i <= m < j ==> cls(s[m])
    ensures RunEnd(s, i, cls) >= j
    decreases j - i
  {
    if i < j { RunEndCovers(s, i + 1, j, cls); }
  }

  // ---------------------------------------------------------------------------------------------
  // Email: re.search(r"[A-Za-z0-9._%+-]+@[A-Za-z0-9.-]+\.[A-Za-z]{2,}", text)

  predicate IsLocalChar(c: char) {
    IsAsciiLetter(c) || IsDigit(c) || c == '.' || c == '_' || c == '%' || c == '+' || c == '-'
  }

  predicate IsDomainChar(c: char) { IsAsciiLetter(c) || IsDigit(c) || c == '.' || c == '-' }

  /** `s[p..e]` is a match split as local part `s[p..a]`, '@', domain `s[a+1..d]`, '.', and the
      letters `s[d+1..e]`. */
  predicate EmailShape(s: string, p: int, a: int, d: int, e: int) {
    0 <= p < a && a + 1 < d && d + 3 <= e <= |s| && s[a] == '@' && s[d] == '.'
    && (forall i :: p <= i < a ==> IsLocalChar(s[i]))
    && (forall i :: a < i < d ==> IsDomainChar(s[i]))
    && (forall i :: d < i < e ==> IsAsciiLetter(s[i]))
  }

  /** The pattern matches exactly `s[p..e]`. */
  ghost predicate EmailAt(s: string, p: int, e: int) {
    exists a, d :: EmailShape(s, p, a, d, e)
  }

  /** A '.' at `j` followed by two letters. */
  predicate DotAt(s: string, j: int) {
    0 <= j && j + 2 < |s| && s[j] == '.' && IsAsciiLetter(s[j + 1]) && IsAsciiLetter(s[j + 2])
  }

  /** The last `j` in `[lo, hi)` with `DotAt(s, j)`. */
  function LastDot(s: string, lo: nat, hi: nat): (r: Option<nat>)
    ensures r.Some? ==> lo <= r.value < hi && DotAt(s, r.value) && forall j :: r.value < j < hi ==> !DotAt(s, j)
    ensures r.None? ==> forall j :: lo <= j < hi ==> !DotAt(s, j)
    decreases hi
  {
    if hi <= lo then None else if DotAt(s, hi - 1) then Some(hi - 1) else LastDot(s, lo, hi - 1)
  }

  /** Where a match starting at `p` ends, backtracking as the regex engine does: the local part runs
      to the '@', the domain is as long as it can be, and the letters are as many as there are. */
  function EmailEndAt(s: string, p: nat): Option<nat>
    requires p <= |s|
  {
    var a := RunEnd(s, p, IsLocalChar);
    if a == p || a >= |s| || s[a] != '@' then None
    else
      var de := RunEnd(s, a + 1, IsDomainChar);
      match LastDot(s, a + 2, de)
      case None => None
      case Some(d) => Some(RunEnd(s, d + 1, IsAsciiLetter))
  }

  /** Any match at `p` has its '@' where the local run from `p` ends, and its '.' inside the domain
      run after it. */
  lemma ShapeForced(s: string, p: nat, a: int, d: int, e: int)
    requires EmailShape(s, p, a, d, e)
    ensures a == RunEnd(s, p, IsLocalChar)
    ensures a + 2 <= d < RunEnd(s, a + 1, IsDomainChar) && DotAt(s, d)
  {
    assert !IsLocalChar(s[a]);
    RunEndCovers(s, p, a, IsLocalChar);
    RunEndCovers(s, a + 1, d + 1, IsDomainChar);
  }

  /** What the engine picks at `p` is a match. */
  lemma EmailEndAtSound(s: string, p: nat)
    requires p <= |s| && EmailEndAt(s, p).Some?
    ensures EmailAt(s, p, EmailEndAt(s, p).value)
  {
    var a := RunEnd(s, p, IsLocalChar);
    var de := RunEnd(s, a + 1, IsDomainChar);
    var d := LastDot(s, a + 2, de).value;
    var e := RunEnd(s, d + 1, IsAsciiLetter);
    assert EmailShape(s, p, a, d, e);
  }

  /** Every match at `p` is found, and ends no later than what the engine picks. */
  lemma EmailEndAtLongest(s: string, p: nat, a': int, d': int, e': int)
    requires p <= |s| && EmailShape(s, p, a', d', e')
    ensures EmailEndAt(s, p).Some? && e' <= EmailEndAt(s, p).value
  {
    ShapeForced(s, p, a', d', e');
    var de := RunEnd(s, a' + 1, IsDomainChar);
    var d := LastDot(s, a' + 2, de).value;
    if d' < d {
      assert !IsAsciiLetter(s[d]);
    } else {
      RunEndCovers(s, d + 1, e', IsAsciiLetter);
    }
  }

  /** The end the engine picks at `p` is a match, and the longest one. */
  lemma EmailEndAtCorrect(s: string, p: nat)
    requires p <= |s|
    ensures EmailEndAt(s, p).Some? ==>
      EmailAt(s, p, EmailEndAt(s, p).value) && forall e :: EmailAt(s, p, e) ==> e <= EmailEndAt(s, p).value
    ensures EmailEndAt(s, p).None? ==> forall e :: !EmailAt(s, p, e)
  {
    if EmailEndAt(s, p).Some? { EmailEndAtSound(s, p); }
    forall e, a', d' | EmailShape(s, p, a', d', e) ensures EmailEndAt(s, p).Some? && e <= EmailEndAt(s, p).value {
      EmailEndAtLongest(s, p, a', d', e);
    }
  }

  /** Where the first match at or after `k` lies. */
  datatype Span = Span(start: nat, end: nat)

  function EmailFrom(s: string, k: nat): (r: Option<Span>)
    requires k <= |s|
    ensures r.Some? ==> (k <= r.value.start && EmailAt(s, r.value.start, r.value.end)
      && (forall p, e :: k <= p < r.value.start ==> !EmailAt(s, p, e))
      && (forall e :: EmailAt(s, r.value.start, e) ==> e <= r.value.end))
    ensures r.None? ==> forall p, e :: k <= p ==> !EmailAt(s, p, e)
    decreases |s| - k
  {
    EmailEndAtCorrect(s, k);
    if k == |s| then None
    else
      match EmailEndAt(s, k)
      case Some(e) => Some(Span(k, e))
      case None => EmailFrom(s, k + 1)
  }

  /** `re.search` of the email pattern: the leftmost match, and the longest one there. */
  function FirstEmail(s: string): (r: Option<Span>)
    ensures r.Some? ==> (EmailAt(s, r.value.start, r.value.end) && r.value.end <= |s|
      && (forall p, e :: EmailAt(s, p, e) ==> r.value.start <= p)
      && (forall e :: EmailAt(s, r.value.start, e) ==> e <= r.value.end))
    ensures r.None? ==> forall p, e :: !EmailAt(s, p, e)
  {
    EmailFrom(s, 0)
  }

  // ---------------------------------------------------------------------------------------------
  // LinkedIn / GitHub: re.search(r"linkedin\.com\S*", text, re.IGNORECASE)

  /** `host` (lower case) occurs at `i` regardless of case. */
  predicate HostAt(s: string, host: string, i: int) {
    0 <= i && i + |host| <= |s| && forall k :: 0 <= k < |host| ==> LowerChar(s[i + k]) == host[k]
  }

  function HostFrom(s: string, host: string, k: nat): (r: Option<nat>)
    ensures r.Some? ==> k <= r.value && HostAt(s, host, r.value) && forall j :: k <= j < r.value ==> !HostAt(s, host, j)
    ensures r.None? ==> forall j :: k <= j ==> !HostAt(s, host, j)
    decreases |s| - k
  {
    if k + |host| > |s| then None else if HostAt(s, host, k) then Some(k) else HostFrom(s, host, k + 1)
  }

  predicate NotSpace(c: char) { !IsSpace(c) }

  /** The match: the leftmost occurrence of `host` and the run of non-whitespace after it. */
  function FirstUrl(s: string, host: string): (r: Option<string>)
    ensures r.None? <==> forall j :: !HostAt(s, host, j)
    ensures r.Some? ==> exists i :: (HostAt(s, host, i) && (forall j :: 0 <= j < i ==> !HostAt(s, host, j))
      && r.value == s[i..RunEnd(s, i + |host|, NotSpace)])
  {
    match HostFrom(s, host, 0)
    case None => None
    case Some(i) => Some(s[i..RunEnd(s, i + |host|, NotSpace)])
  }

  /** A link found this way begins with the host, in any case, and holds no whitespace. */
  lemma FirstUrlShape(s: string, host: string)
    requires FirstUrl(s, host).Some? && forall k :: 0 <= k < |host| ==> !IsSpace(host[k])
    ensures var u := FirstUrl(s, host).value;
      HostAt(u, host, 0) && forall k :: 0 <= k < |u| ==> !IsSpace(u[k])
  {
    var i := HostFrom(s, host, 0).value;
    var u := FirstUrl(s, host).value;
    assert forall k :: 0 <= k < |u| ==> u[k] == s[i + k];
    forall k | 0 <= k < |host| ensures !IsSpace(u[k]) {
      assert LowerChar(u[k]) == host[k];
    }
  }

  // ---------------------------------------------------------------------------------------------
  // Lines and the name heuristic

  /** The stripped non-blank lines of `text.splitlines()`. Splitting at every line-break character
      differs from `splitlines` only by blank pieces, which are dropped. */
  function NonBlankLines(text: string): seq<string> {
    StrippedNonBlank(SplitAt(text, IsLineBreak))
  }

  const HeaderKeywords: set<string> := {"objective", "summary", "experience", "education", "skills"}

  /** `re.search(r"@|linkedin|github|\d", ln, re.I)`. */
  predicate HasContactMark(ln: string) {
    (exists i :: 0 <= i < |ln| && (ln[i] == '@' || IsDigit(ln[i])))
    || (exists i :: 0 <= i < |ln| && HostAt(ln, "linkedin", i)) || (exists i :: 0 <= i < |ln| && HostAt(ln, "github", i))
  }

  /** The test a line must pass to be taken as the name. */
  predicate NameOk(ln: string) {
    WordCount(ln) <= 6 && Lower(ln) !in HeaderKeywords && !HasContactMark(ln)
  }

  // ---------------------------------------------------------------------------------------------
  // Degree

  /** `degree_map`, in insertion order. */
  const DegreeTable: seq<(string, string)> := [
    ("phd", "PhD"), ("doctor", "PhD"), ("masters", "Masters"), ("ms", "Masters"), ("m.s", "Masters"),
    ("m.tech", "Masters"), ("mtech", "Masters"), ("bachelors", "Bachelors"), ("bs", "Bachelors"),
    ("b.s", "Bachelors"), ("b.tech", "Bachelors"), ("btech", "Bachelors")
  ]

  // ---------------------------------------------------------------------------------------------
  // Technical skills

  /** `re.match(r"^skills\b", ln, re.I)`. */
  predicate IsSkillsHeader(ln: string) {
    HostAt(ln, "skills", 0) && (|ln| == 6 || !IsWordChar(ln[6]))
  }

  /** `" ".join(lines[i:i+10])`. */
  function SkillsWindow(lines: seq<string>, i: nat): string
    requires i < |lines|
  {
    Join(lines[i..if i + 10 <= |lines| then i + 10 else |lines|], " ")
  }

  /** The class `[,\|\n;]`. */
  predicate IsSkillSep(c: char) { c == ',' || c == '|' || c == '\n' || c == ';' }

  /** `[p.strip() for p in parts if len(p.strip()) >= 2]`. */
  function LongTokens(parts: seq<string>): (r: seq<string>)
    ensures forall t :: t in r <==> exists p :: p in parts && Strip(p) == t && |t| >= 2
  {
    if parts == [] then []
    else
      var rest := LongTokens(parts[1..]);
      assert forall p :: p in parts[1..] ==> p in parts;
      assert forall p :: p in parts ==> p == parts[0] || p in parts[1..];
      (if |Strip(parts[0])| >= 2 then [Strip(parts[0])] else []) + rest
  }

  /** `sorted(set(tokens))` of the separator-split window. */
  function SkillTokens(section: string): (r: seq<string>)
    ensures StrictlySorted(r)
    ensures forall t :: t in r <==> exists p :: p in SplitAt(section, IsSkillSep) && Strip(p) == t && |t| >= 2
  {
    SortedSet(LongTokens(SplitAt(section, IsSkillSep)))
  }

  // ---------------------------------------------------------------------------------------------
  // The record

  /** Sets `k` when a rule produced a value. */
  function SetIf(d: Record, k: string, v: Option<Value>): Record {
    match v
    case Some(x) => d[k := x]
    case None => d
  }

  function EmailRule(text: string): Option<Value> {
    match FirstEmail(text)
    case Some(m) => Some(Str(text[m.start..m.end]))
    case None => None
  }

  function PhoneRule(text: string, phoneSearch: string -> Option<string>): Option<Value> {
    match phoneSearch(text)
    case Some(g) => if |Strip(g)| >= 10 then Some(Str(Strip(g))) else None
    case None => None
  }

  function UrlRule(text: string, host: string): Option<Value> {
    match FirstUrl(text, host)
    case Some(u) => Some(Str(u))
    case None => None
  }

  /** `lines[:10]`'s first line that passes `NameOk`. */
  function NameLine(lines: seq<string>): (r: Option<nat>)
    ensures r.Some? ==> (r.value < |lines| && r.value < 10 && NameOk(lines[r.value])
      && forall j :: 0 <= j < r.value ==> !NameOk(lines[j]))
    ensures r.None? ==> forall j :: 0 <= j < |lines| && j < 10 ==> !NameOk(lines[j])
  {
    FirstWhere(lines, NameOk, 0, 10)
  }

  function NameRule(lines: seq<string>): Option<Value> {
    match NameLine(lines)
    case Some(i) => Some(Str(lines[i]))
    case None => None
  }

  /** The first entry of `degree_map` whose key occurs in `lowered`. */
  function DegreeEntry(lowered: string): (r: Option<nat>)
    ensures r.Some? ==> (r.value < |DegreeTable| && IsSubstring(DegreeTable[r.value].0, lowered)
      && forall j :: 0 <= j < r.value ==> !IsSubstring(DegreeTable[j].0, lowered))
    ensures r.None? ==> forall j :: 0 <= j < |DegreeTable| ==> !IsSubstring(DegreeTable[j].0, lowered)
  {
    FirstWhere(DegreeTable, (e: (string, string)) => IsSubstring(e.0, lowered), 0, |DegreeTable|)
  }

  function DegreeRule(text: string): Option<Value> {
    match DegreeEntry(Lower(text))
    case Some(j) => Some(Str(DegreeTable[j].1))
    case None => None
  }

  function YearRule(text: string): Option<Value> {
    match FirstYear(text)
    case Some(y) => Some(Str(y))
    case None => None
  }

  /** The first line that starts with the word "skills". */
  function SkillsLine(lines: seq<string>): (r: Option<nat>)
    ensures r.Some? ==> (r.value < |lines| && IsSkillsHeader(lines[r.value])
      && forall j :: 0 <= j < r.value ==> !IsSkillsHeader(lines[j]))
    ensures r.None? ==> forall j :: 0 <= j < |lines| ==> !IsSkillsHeader(lines[j])
  {
    FirstWhere(lines, IsSkillsHeader, 0, |lines|)
  }

  function SkillsRule(lines: seq<string>): Option<Value> {
    match SkillsLine(lines)
    case None => None
    case Some(i) =>
      var tokens := SkillTokens(SkillsWindow(lines, i));
      if tokens == [] then None else Some(Str(Join(tokens, ", ")))
  }

  /** What each of the eight rules found, in source order. */
  datatype Findings = Findings(email: Option<Value>, phone: Option<Value>, linkedin: Option<Value>, github: Option<Value>,
                               name: Option<Value>, degree: Option<Value>, year: Option<Value>, skills: Option<Value>)

  /** The eight rules run over `text`. */
  function Find(text: string, phoneSearch: string -> Option<string>): Findings {
    var lines := NonBlankLines(text);
    Findings(EmailRule(text), PhoneRule(text, phoneSearch), UrlRule(text, "linkedin.com"), UrlRule(text, "github.com"),
             NameRule(lines), DegreeRule(text), YearRule(text), SkillsRule(lines))
  }

  /** The defaults with the findings written over them. */
  function Fill(f: Findings): (r: Record)
    ensures forall k :: k in r <==> k in RuleKeys
    ensures "email" in r && "phone" in r && "linkedin" in r && "github" in r
    ensures "name" in r && "highest_degree" in r && "graduation_year" in r && "technical_skills" in r
    ensures forall k :: k in r && k !in RuleSetKeys ==> r[k] == DefaultFor(k)
    ensures r["email"] == Pick(f.email, Str(NotFound)) && r["phone"] == Pick(f.phone, Str(NotFound))
    ensures r["linkedin"] == Pick(f.linkedin, Str(NotFound)) && r["github"] == Pick(f.github, Str(NotFound))
    ensures r["name"] == Pick(f.name, Str(NotFound)) && r["highest_degree"] == Pick(f.degree, Str(NotFound))
    ensures r["graduation_year"] == Pick(f.year, Str(NotFound)) && r["technical_skills"] == Pick(f.skills, Str(NotFound))
  {
    DefaultsRuleFields();
    AssembleFacts(Defaults(), f.email, f.phone, f.linkedin, f.github, f.name, f.degree, f.year, f.skills);
    AssembleKeepsOthers(Defaults(), f.email, f.phone, f.linkedin, f.github, f.name, f.degree, f.year, f.skills);
    Assemble(Defaults(), f.email, f.phone, f.linkedin, f.github, f.name, f.degree, f.year, f.skills)
  }

  /** `extract_with_rules(resume_text)`, with `None` for a missing text and the phone regex as the
      parameter `phoneSearch` (the whole match of its first occurrence, or `None`). */
  function RuleRecord(resumeText: Option<string>, phoneSearch: string -> Option<string>): Record {
    Fill(Find(if resumeText.Some? then resumeText.value else "", phoneSearch))
  }

  /** The record `d`, overwritten in source order by the rules that produced a value. */
  function Assemble(d: Record, email: Option<Value>, phone: Option<Value>, linkedin: Option<Value>, github: Option<Value>,
                    name: Option<Value>, degree: Option<Value>, year: Option<Value>, skills: Option<Value>): Record {
    SetProfile(SetContacts(d, email, phone, linkedin, github), name, degree, year, skills)
  }

  /** The contact rules: email, phone and the two profile links. */
  function SetContacts(d: Record, email: Option<Value>, phone: Option<Value>, linkedin: Option<Value>, github: Option<Value>): Record {
    var d := SetIf(d, "email", email);
    var d := SetIf(d, "phone", phone);
    var d := SetIf(d, "linkedin", linkedin);
    SetIf(d, "github", github)
  }

  /** The profile rules: name, degree, graduation year and skills. */
  function SetProfile(d: Record, name: Option<Value>, degree: Option<Value>, year: Option<Value>, skills: Option<Value>): Record {
    var d := SetIf(d, "name", name);
    var d := SetIf(d, "highest_degree", degree);
    var d := SetIf(d, "graduation_year", year);
    SetIf(d, "technical_skills", skills)
  }

  /** A rule's value, or the field's previous value when it produced none. */
  function Pick(o: Option<Value>, previous: Value): Value {
    match o
    case Some(v) => v
    case None => previous
  }

  lemma RuleSetKeysInSchema()
    ensures forall k :: k in RuleSetKeys ==> k in RuleKeys
  {
    assert RuleKeys[0] == "name" && RuleKeys[1] == "email" && RuleKeys[2] == "phone" && RuleKeys[3] == "linkedin";
    assert RuleKeys[4] == "github" && RuleKeys[5] == "highest_degree" && RuleKeys[7] == "graduation_year";
    assert RuleKeys[14] == "technical_skills";
  }

  /** Setting a key already present keeps the key set and every other entry. */
  lemma SetIfFacts(d: Record, k: string, v: Option<Value>)
    requires k in d
    ensures forall j :: j in SetIf(d, k, v) <==> j in d
    ensures SetIf(d, k, v)[k] == Pick(v, d[k])
    ensures forall j :: j in d && j != k ==> SetIf(d, k, v)[j] == d[j]
  {
  }

  /** The contact rules keep the key set, set their four fields and leave the others alone. */
  lemma SetContactsFacts(d: Record, email: Option<Value>, phone: Option<Value>, linkedin: Option<Value>, github: Option<Value>)
    requires "email" in d && "phone" in d && "linkedin" in d && "github" in d
    ensures var r := SetContacts(d, email, phone, linkedin, github);
      && (forall k :: k in r <==> k in d)
      && r["email"] == Pick(email, d["email"]) && r["phone"] == Pick(phone, d["phone"])
      && r["linkedin"] == Pick(linkedin, d["linkedin"]) && r["github"] == Pick(github, d["github"])
      && forall k :: k in d && k != "email" && k != "phone" && k != "linkedin" && k != "github" ==> r[k] == d[k]
  {
    var d1 := SetIf(d, "email", email);
    SetIfFacts(d, "email", email);
    var d2 := SetIf(d1, "phone", phone);
    SetIfFacts(d1, "phone", phone);
    var d3 := SetIf(d2, "linkedin", linkedin);
    SetIfFacts(d2, "linkedin", linkedin);
    SetIfFacts(d3, "github", github);
  }

  /** The profile rules keep the key set, set their four fields and leave the others alone. */
  lemma SetProfileFacts(d: Record, name: Option<Value>, degree: Option<Value>, year: Option<Value>, skills: Option<Value>)
    requires "name" in d && "highest_degree" in d && "graduation_year" in d && "technical_skills" in d
    ensures var r := SetProfile(d, name, degree, year, skills);
      && (forall k :: k in r <==> k in d)
      && r["name"] == Pick(name, d["name"]) && r["highest_degree"] == Pick(degree, d["highest_degree"])
      && r["graduation_year"] == Pick(year, d["graduation_year"]) && r["technical_skills"] == Pick(skills, d["technical_skills"])
      && forall k :: k in d && k != "name" && k != "highest_degree" && k != "graduation_year" && k != "technical_skills" ==> r[k] == d[k]
  {
    var d1 := SetIf(d, "name", name);
    SetIfFacts(d, "name", name);
    var d2 := SetIf(d1, "highest_degree", degree);
    SetIfFacts(d1, "highest_degree", degree);
    var d3 := SetIf(d2, "graduation_year", year);
    SetIfFacts(d2, "graduation_year", year);
    SetIfFacts(d3, "technical_skills", skills);
  }

  /** Assembling over a record that has the eight rule fields keeps its key set, sets each rule field
      to its rule's value when there is one, and leaves every other field alone. */
  lemma AssembleFacts(d: Record, email: Option<Value>, phone: Option<Value>, linkedin: Option<Value>, github: Option<Value>,
                      name: Option<Value>, degree: Option<Value>, year: Option<Value>, skills: Option<Value>)
    requires forall k :: k in RuleSetKeys ==> k in d
    ensures var r := Assemble(d, email, phone, linkedin, github, name, degree, year, skills);
      && (forall k :: k in r <==> k in d)
      && r["email"] == Pick(email, d["email"]) && r["phone"] == Pick(phone, d["phone"])
      && r["linkedin"] == Pick(linkedin, d["linkedin"]) && r["github"] == Pick(github, d["github"])
      && r["name"] == Pick(name, d["name"]) && r["highest_degree"] == Pick(degree, d["highest_degree"])
      && r["graduation_year"] == Pick(year, d["graduation_year"])
      && r["technical_skills"] == Pick(skills, d["technical_skills"])
  {
    assert "email" in RuleSetKeys && "phone" in RuleSetKeys && "linkedin" in RuleSetKeys && "github" in RuleSetKeys;
    assert "name" in RuleSetKeys && "highest_degree" in RuleSetKeys && "graduation_year" in RuleSetKeys;
    assert "technical_skills" in RuleSetKeys;
    SetContactsFacts(d, email, phone, linkedin, github);
    var c := SetContacts(d, email, phone, linkedin, github);
    SetProfileFacts(c, name, degree, year, skills);
  }

  /** Assembling leaves one field other than the eight rule fields alone. */
  lemma AssembleKeepsOther(d: Record, email: Option<Value>, phone: Option<Value>, linkedin: Option<Value>, github: Option<Value>,
                           name: Option<Value>, degree: Option<Value>, year: Option<Value>, skills: Option<Value>, k: string)
    requires k in d && k !in RuleSetKeys
    ensures var r := Assemble(d, email, phone, linkedin, github, name, degree, year, skills);
      k in r && r[k] == d[k]
  {
  }

  /** Assembling leaves every field other than the eight rule fields alone. */
  lemma AssembleKeepsOthers(d: Record, email: Option<Value>, phone: Option<Value>, linkedin: Option<Value>, github: Option<Value>,
                            name: Option<Value>, degree: Option<Value>, year: Option<Value>, skills: Option<Value>)
    ensures var r := Assemble(d, email, phone, linkedin, github, name, degree, year, skills);
      forall k :: k in d && k !in RuleSetKeys ==> k in r && r[k] == d[k]
  {
    forall k | k in d && k !in RuleSetKeys
      ensures var r := Assemble(d, email, phone, linkedin, github, name, degree, year, skills); k in r && r[k] == d[k]
    {
      AssembleKeepsOther(d, email, phone, linkedin, github, name, degree, year, skills, k);
    }
  }

  /** The eight rule fields are among the defaults, all 'Not Found'. */
  lemma DefaultsRuleFields()
    ensures var d := Defaults(); forall k :: k in RuleSetKeys ==> k in d && d[k] == Str(NotFound)
  {
    RuleSetKeysInSchema();
  }

  /** `total_experience_years` is a schema field that no rule sets. */
  lemma ExperienceKeyFacts()
    ensures "total_experience_years" in RuleKeys && "total_experience_years" !in RuleSetKeys
  {
    assert RuleKeys[10] == "total_experience_years";
  }

  /** `extract_with_rules` returns all 19 keys for any text, including none; only the eight rule fields
      can leave their defaults, so `total_experience_years` is always 0.0. */
  lemma RuleRecordShape(resumeText: Option<string>, phoneSearch: string -> Option<string>)
    ensures var r := RuleRecord(resumeText, phoneSearch);
      && (forall k :: k in r <==> k in RuleKeys)
      && (forall k :: k in r && k !in RuleSetKeys ==> r[k] == DefaultFor(k))
      && "total_experience_years" in r && r["total_experience_years"] == Float(0.0, "0.0")
  {
    ExperienceKeyFacts();
  }

  /** The name loop: the first of the first ten lines that passes `NameOk`. */
  method FindName(lines: seq<string>) returns (name: Option<Value>)
    ensures name == NameRule(lines)
  {
    name := None;
    var i := 0;
    while i < |lines| && i < 10
      invariant 0 <= i <= |lines|
      invariant NameLine(lines) == FirstWhere(lines, NameOk, i, 10)
    {
      if NameOk(lines[i]) {
        name := Some(Str(lines[i]));
        break;
      }
      i := i + 1;
    }
  }

  /** The degree loop: the first table entry whose key occurs in the lowered text. */
  method FindDegree(lowered: string) returns (degree: Option<Value>)
    ensures degree == match DegreeEntry(lowered) case Some(j) => Some(Str(DegreeTable[j].1)) case None => None
  {
    degree := None;
    var j := 0;
    while j < |DegreeTable|
      invariant 0 <= j <= |DegreeTable|
      invariant DegreeEntry(lowered) == FirstWhere(DegreeTable, (e: (string, string)) => IsSubstring(e.0, lowered), j, |DegreeTable|)
    {
      var (key, val) := DegreeTable[j];
      if IsSubstring(key, lowered) {
        degree := Some(Str(val));
        break;
      }
      j := j + 1;
    }
  }

  /** The skills loop: the window of up to ten lines from the first skills header. */
  method FindSkillsSection(lines: seq<string>) returns (section: Option<string>)
    ensures section == match SkillsLine(lines) case Some(i) => Some(SkillsWindow(lines, i)) case None => None
  {
    section := None;
    var n := 0;
    while n < |lines|
      invariant 0 <= n <= |lines|
      invariant SkillsLine(lines) == FirstWhere(lines, IsSkillsHeader, n, |lines|)
    {
      if IsSkillsHeader(lines[n]) {
        section := Some(SkillsWindow(lines, n));
        break;
      }
      n := n + 1;
    }
  }

  /** The window always holds the header line, so it is never empty. */
  lemma SkillsWindowNonEmpty(lines: seq<string>, i: nat)
    requires i < |lines| && lines[i] != ""
    ensures SkillsWindow(lines, i) != ""
  {
    var w := lines[i..if i + 10 <= |lines| then i + 10 else |lines|];
    if |w| > 1 { assert |Join(w, " ")| >= |w[0]|; }
  }

  /** The skills step: the sorted distinct tokens of the window, when there is one. */
  method FindSkills(lines: seq<string>) returns (skills: Option<Value>)
    ensures skills == SkillsRule(lines)
  {
    skills := None;
    var section := FindSkillsSection(lines);
    if section.Some? {
      SkillsWindowNonEmpty(lines, SkillsLine(lines).value);
      if section.value != "" {
        var tokens := SkillTokens(section.value);
        if tokens != [] {
          skills := Some(Str(Join(tokens, ", ")));
        }
      }
    }
  }

  /** The eight searches of `extract_with_rules`, the loops among them run as loops. */
  method RunRules(text: string, phoneSearch: string -> Option<string>) returns (f: Findings)
    ensures f == Find(text, phoneSearch)
  {
    var lines := NonBlankLines(text);
    var name := FindName(lines);
    var degree := FindDegree(Lower(text));
    var skills := FindSkills(lines);
    f := Findings(EmailRule(text), PhoneRule(text, phoneSearch), UrlRule(text, "linkedin.com"), UrlRule(text, "github.com"),
                  name, degree, YearRule(text), skills);
  }

  /** The imperative form of `extract_with_rules`: the defaults, then each field the rules found. */
  method ExtractWithRules(resumeText: Option<string>, phoneSearch: string -> Option<string>) returns (data: Record)
    ensures data == RuleRecord(resumeText, phoneSearch)
  {
    var text := if resumeText.Some? then resumeText.value else "";
    var f := RunRules(text, phoneSearch);
    data := Defaults();
    data := SetIf(data, "email", f.email);
    data := SetIf(data, "phone", f.phone);
    data := SetIf(data, "linkedin", f.linkedin);
    data := SetIf(data, "github", f.github);
    data := SetIf(data, "name", f.name);
    data := SetIf(data, "highest_degree", f.degree);
    data := SetIf(data, "graduation_year", f.year);
    data := SetIf(data, "technical_skills", f.skills);
  }
}
