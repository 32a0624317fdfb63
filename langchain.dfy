/** The language-model extractor: guards, the rule-based fallback, and the backfill of an answer that
    came back (almost) empty. The model itself is a parameter. */
module LangChainExtractor {
  import opened Text
  import opened Values
  import opened Wrappers
  import opened RuleExtractor

  /** The model sees at most this many characters of the resume. */
  const PromptLimit: nat := 12000

  /** What the model chain did with a prompt: it raised, or it returned the parsed fields
      (`result.model_dump()`). */
  datatype Answer = Raised | Returned(fields: Record)

  /** `resume_text[:12000]`. */
  function PromptText(text: string): (r: string)
    ensures |r| == if |text| < PromptLimit then |text| else PromptLimit
    ensures r == text[..|r|]
  {
    if |text| <= PromptLimit then text else text[..PromptLimit]
  }

  /** `not resume_text or len(resume_text.strip()) < 20`; a missing text is `None`. */
  predicate TooShort(resumeText: Option<string>) {
    resumeText.None? || resumeText.value == "" || |Strip(resumeText.value)| < 20
  }

  /** `v in ("Not Found", 0.0, "")` under Python's `==`, where `0 == 0.0`. */
  predicate Defaultish(v: Value) {
    v == Str(NotFound) || v == Str("") || (v.Int? && v.i == 0) || (v.Float? && v.x == 0.0)
  }

  /** `not data or all(v in ("Not Found", 0.0, "") for v in data.values())`. */
  predicate MostlyDefaults(data: Record) {
    data == map[] || forall k :: k in data ==> Defaultish(data[k])
  }

  /** The backfill test on one field: a default-looking or falsy value. */
  predicate NeedsFill(v: Value) {
    Defaultish(v) || !Truthy(v)
  }

  /** The backfill loop's result: every field of `data` that needs filling and that the rules also
      produced takes the rules' value; nothing else changes and no key is added. */
  function Backfilled(data: Record, ruleData: Record): Record {
    map k | k in data :: if k in ruleData && NeedsFill(data[k]) then ruleData[k] else data[k]
  }

  /** `extract_with_langchain(resume_text)`: `available` is whether the model library imported, `answer`
      the model chain applied to the truncated text, and `ruleData` what `extract_with_rules` returns
      for the same text. */
  function LangChainRecord(resumeText: Option<string>, available: bool, answer: string -> Answer, ruleData: Record): Record
  {
    if TooShort(resumeText) then map[]
    else if !available then ruleData
    else
      match answer(PromptText(resumeText.value))
      case Raised => ruleData
      case Returned(data) => if MostlyDefaults(data) then Backfilled(data, ruleData) else data
  }

  // ---------------------------------------------------------------------------------------------
  // Properties

  /** The backfill never adds or drops a key. */
  lemma BackfilledKeys(data: Record, ruleData: Record)
    ensures forall k :: k in Backfilled(data, ruleData) <==> k in data
  {
  }

  /** A field that is neither default-looking nor falsy, or that the rules did not produce, keeps its
      value; one that needs filling takes the rules' value. */
  lemma BackfilledFields(data: Record, ruleData: Record, k: string)
    requires k in data
    ensures k in Backfilled(data, ruleData)
    ensures !NeedsFill(data[k]) || k !in ruleData ==> Backfilled(data, ruleData)[k] == data[k]
    ensures NeedsFill(data[k]) && k in ruleData ==> Backfilled(data, ruleData)[k] == ruleData[k]
  {
  }

  /** Backfilling twice from the same rules changes nothing more. */
  lemma BackfilledIdempotent(data: Record, ruleData: Record)
    ensures Backfilled(Backfilled(data, ruleData), ruleData) == Backfilled(data, ruleData)
  {
    var once := Backfilled(data, ruleData);
    var twice := Backfilled(once, ruleData);
    forall k | k in data ensures twice[k] == once[k] {
      BackfilledFields(data, ruleData, k);
      BackfilledFields(once, ruleData, k);
    }
  }

  /** Over an answer whose every value is a default, the backfill takes each rule field wholesale. */
  lemma BackfilledOverDefaults(data: Record, ruleData: Record)
    requires forall k :: k in data ==> Defaultish(data[k])
    ensures forall k :: k in data ==>
      (k in Backfilled(data, ruleData) && Backfilled(data, ruleData)[k] == if k in ruleData then ruleData[k] else data[k])
  {
  }

  /** A text too short to parse gives the empty record, whatever the model would say. */
  lemma ShortTextEmpty(resumeText: Option<string>, available: bool, answer: string -> Answer, ruleData: Record)
    requires resumeText.Some? ==> |Strip(resumeText.value)| < 20
    ensures LangChainRecord(resumeText, available, answer, ruleData) == map[]
  {
  }

  /** Without the model library, or when the chain raises, the result is the rule-based record. */
  lemma FallbackIsRules(resumeText: Option<string>, available: bool, answer: string -> Answer, ruleData: Record)
    requires !TooShort(resumeText)
    requires !available || answer(PromptText(resumeText.value)).Raised?
    ensures LangChainRecord(resumeText, available, answer, ruleData) == ruleData
  {
  }

  /** An answer with at least one real value is returned as it is. */
  lemma RealAnswerKept(resumeText: Option<string>, answer: string -> Answer, ruleData: Record, k: string)
    requires !TooShort(resumeText)
    requires answer(PromptText(resumeText.value)).Returned?
    requires var data := answer(PromptText(resumeText.value)).fields; k in data && !Defaultish(data[k])
    ensures LangChainRecord(resumeText, true, answer, ruleData) == answer(PromptText(resumeText.value)).fields
  {
  }

  /** When the model answers with the full schema but only defaults, the result is exactly the
      rule-based record. */
  lemma AllDefaultAnswerIsRules(resumeText: Option<string>, answer: string -> Answer, phoneSearch: string -> Option<string>)
    requires !TooShort(resumeText)
    requires answer(PromptText(resumeText.value)).Returned?
    requires var data := answer(PromptText(resumeText.value)).fields;
      (forall k :: k in data <==> k in RuleKeys) && forall k :: k in data ==> Defaultish(data[k])
    ensures LangChainRecord(resumeText, true, answer, RuleRecord(resumeText, phoneSearch)) == RuleRecord(resumeText, phoneSearch)
  {
    RuleRecordShape(resumeText, phoneSearch);
    SameKeysDefaultsAnswer(resumeText, answer, RuleRecord(resumeText, phoneSearch));
  }

  /** Over rule output with the same keys as an all-default answer, the backfill gives the rule output. */
  lemma SameKeysDefaultsAnswer(resumeText: Option<string>, answer: string -> Answer, ruleData: Record)
    requires !TooShort(resumeText)
    requires answer(PromptText(resumeText.value)).Returned?
    requires var data := answer(PromptText(resumeText.value)).fields;
      (forall k :: k in data <==> k in ruleData) && forall k :: k in data ==> Defaultish(data[k])
    ensures LangChainRecord(resumeText, true, answer, ruleData) == ruleData
  {
    var data := answer(PromptText(resumeText.value)).fields;
    BackfilledOverDefaults(data, ruleData);
    assert Backfilled(data, ruleData) == ruleData;
  }

  /** Two texts that agree on their first 12000 characters get the same record from a model answer
      that is kept as it is. */
  lemma AnswerSeesPrefix(t1: string, t2: string, answer: string -> Answer, rules1: Record, rules2: Record)
    requires !TooShort(Some(t1)) && !TooShort(Some(t2))
    requires |t1| >= PromptLimit && |t2| >= PromptLimit && t1[..PromptLimit] == t2[..PromptLimit]
    requires answer(PromptText(t1)).Returned? && !MostlyDefaults(answer(PromptText(t1)).fields)
    ensures LangChainRecord(Some(t1), true, answer, rules1) == LangChainRecord(Some(t2), true, answer, rules2)
  {
    assert PromptText(t1) == PromptText(t2);
  }

  // ---------------------------------------------------------------------------------------------
  // The imperative form

  /** The backfill loop `for k, v in rule_data.items(): if k in data and (...): data[k] = v`, with
      `order` the iteration order of `rule_data`. */
  method Backfill(data: Record, ruleData: Record, order: seq<string>) returns (r: Record)
    requires forall k :: k in ruleData ==> k in order
    requires forall k :: k in order ==> k in ruleData
    ensures r == Backfilled(data, ruleData)
  {
    r := data;
    var i := 0;
    while i < |order|
      invariant 0 <= i <= |order|
      invariant forall k :: k in r <==> k in data
      invariant forall k :: k in data ==>
        r[k] == if k in order[..i] && NeedsFill(data[k]) then ruleData[k] else data[k]
    {
      var k := order[i];
      if k in r && NeedsFill(r[k]) {
        r := r[k := ruleData[k]];
      }
      assert order[..i + 1] == order[..i] + [k];
      i := i + 1;
    }
    assert order[..i] == order;
  }

  /** The imperative form of `extract_with_langchain`. */
  method ExtractWithLangChain(resumeText: Option<string>, available: bool, answer: string -> Answer,
                              phoneSearch: string -> Option<string>) returns (data: Record)
    ensures data == LangChainRecord(resumeText, available, answer, RuleRecord(resumeText, phoneSearch))
  {
    if TooShort(resumeText) {
      return map[];
    }
    if !available {
      data := ExtractWithRules(resumeText, phoneSearch);
      return;
    }
    var outcome := answer(PromptText(resumeText.value));
    if outcome.Raised? {
      data := ExtractWithRules(resumeText, phoneSearch);
      return;
    }
    data := outcome.fields;
    if MostlyDefaults(data) {
      var ruleData := ExtractWithRules(resumeText, phoneSearch);
      RuleRecordShape(resumeText, phoneSearch);
      data := Backfill(data, ruleData, RuleKeys);
    }
  }
}
