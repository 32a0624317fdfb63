/** Record normalisation: the canonical 22-field candidate record, and the two small field checks. */
module Validators {
  import opened Text
  import opened Values
  import opened Wrappers
  import opened Patterns

  /** The canonical schema, in column order. */
  const Keys: seq<string> := [
    "resume_id", "file_name", "upload_date", "name", "email", "phone",
    "highest_degree", "college_name", "graduation_year", "major", "cgpa",
    "total_experience_years", "current_company", "current_designation", "previous_companies",
    "technical_skills", "programming_languages", "frameworks_tools", "soft_skills", "certifications", "linkedin", "github"
  ]

  const ExperienceKey: string := "total_experience_years"
  const YearKey: string := "graduation_year"

  // ---------------------------------------------------------------------------------------------
  // The number in a free-text experience value: re.findall(r"\d+(?:\.\d+)?", str(v))[0]

  /** The end of the run of digits that starts at `i`. */
  function DigitRunEnd(s: string, i: nat): (j: nat)
    requires i <= |s|
    ensures i <= j <= |s|
    ensures forall m :: i <= m < j ==> IsDigit(s[m])
    ensures j == |s| || !IsDigit(s[j])
    decreases |s| - i
  {
    if i < |s| && IsDigit(s[i]) then DigitRunEnd(s, i + 1) else i
  }

  /** The leftmost digit at or after `k`. */
  function DigitFrom(s: string, k: nat): (r: Option<nat>)
    ensures r.Some? ==> k <= r.value < |s| && IsDigit(s[r.value]) && forall j :: k <= j < r.value ==> !IsDigit(s[j])
    ensures r.None? ==> forall j :: k <= j < |s| ==> !IsDigit(s[j])
    decreases |s| - k
  {
    if k >= |s| then None else if IsDigit(s[k]) then Some(k) else DigitFrom(s, k + 1)
  }

  /** Where the first match of `\d+(?:\.\d+)?` lies: `s[start..intEnd]` are the integer digits and
      `s[intEnd..end]` is empty or a point followed by the fraction digits. */
  datatype NumberMatch = NumberMatch(start: nat, intEnd: nat, end: nat)

  function FirstNumber(s: string): (r: Option<NumberMatch>)
    ensures r.None? <==> forall j :: 0 <= j < |s| ==> !IsDigit(s[j])
    ensures r.Some? ==>
      var m := r.value;
      && m.start < m.intEnd <= m.end <= |s|
      && (forall j :: 0 <= j < m.start ==> !IsDigit(s[j]))
      && (forall j :: m.start <= j < m.intEnd ==> IsDigit(s[j]))
      && (m.intEnd == |s| || !IsDigit(s[m.intEnd]))
      && (m.end == m.intEnd <==> !(m.intEnd + 1 < |s| && s[m.intEnd] == '.' && IsDigit(s[m.intEnd + 1])))
      && (m.end > m.intEnd ==>
            m.end >= m.intEnd + 2 && s[m.intEnd] == '.' && (forall j :: m.intEnd < j < m.end ==> IsDigit(s[j]))
            && (m.end == |s| || !IsDigit(s[m.end])))
  {
    match DigitFrom(s, 0)
    case None => None
    case Some(i) =>
      var e := DigitRunEnd(s, i);
      if e + 1 < |s| && s[e] == '.' && IsDigit(s[e + 1]) then Some(NumberMatch(i, e, DigitRunEnd(s, e + 1)))
      else Some(NumberMatch(i, e, e))
  }

  function DigitValue(c: char): nat
    requires IsDigit(c)
  {
    c as int - '0' as int
  }

  /** The natural number that a string of decimal digits denotes. */
  function DigitsValue(s: string): nat
    requires AllDigits(s)
  {
    if s == [] then 0 else DigitsValue(s[..|s| - 1]) * 10 + DigitValue(s[|s| - 1])
  }

  function Pow10(n: nat): (r: nat)
    ensures r >= 1
  {
    if n == 0 then 1 else 10 * Pow10(n - 1)
  }

  /** Python's `float(t)` for `t` made of integer digits and optional fraction digits, as an exact real. */
  function DecimalValue(intDigits: string, fracDigits: string): (r: real)
    requires AllDigits(intDigits) && AllDigits(fracDigits)
    ensures r >= 0.0
  {
    DigitsValue(intDigits) as real + DigitsValue(fracDigits) as real / Pow10(|fracDigits|) as real
  }

  function DropLeadingZeros(s: string): string {
    if s != [] && s[0] == '0' then DropLeadingZeros(s[1..]) else s
  }

  function DropTrailingZeros(s: string): string {
    if s != [] && s[|s| - 1] == '0' then DropTrailingZeros(s[..|s| - 1]) else s
  }

  /** The plain decimal text of that float: the digits without leading or trailing zeros, and `0` for
      an empty side. */
  function DecimalText(intDigits: string, fracDigits: string): string {
    var ip := DropLeadingZeros(intDigits);
    var fp := DropTrailingZeros(fracDigits);
    (if ip == "" then "0" else ip) + "." + (if fp == "" then "0" else fp)
  }

  /** The value of the first number in `s`, or 0.0 when `s` has no digit. */
  function NumberIn(s: string): (r: Value)
    ensures r.Float? && r.x >= 0.0
    ensures (forall j :: 0 <= j < |s| ==> !IsDigit(s[j])) ==> r == Float(0.0, "0.0")
  {
    match FirstNumber(s)
    case None => Float(0.0, "0.0")
    case Some(m) =>
      var ip := s[m.start..m.intEnd];
      var fp := if m.end == m.intEnd then "" else s[m.intEnd + 1..m.end];
      assert AllDigits(ip) && AllDigits(fp);
      Float(DecimalValue(ip, fp), DecimalText(ip, fp))
  }

  /** A number without a fraction: when `s` has no digit before `start`, digits from `start` to `e`,
      and at `e` neither a digit nor a point followed by a digit, the number read is `s[start..e]`. */
  lemma NumberInWhole(s: string, start: nat, e: nat)
    requires start < e <= |s|
    requires forall j :: 0 <= j < start ==> !IsDigit(s[j])
    requires forall j :: start <= j < e ==> IsDigit(s[j])
    requires e == |s| || (!IsDigit(s[e]) && !(e + 1 < |s| && s[e] == '.' && IsDigit(s[e + 1])))
    ensures NumberIn(s) == Float(DigitsValue(s[start..e]) as real, DecimalText(s[start..e], ""))
  {
    FirstNumberAt(s, start, e);
  }

  /** A number with a fraction: digits from `start` to `e`, a point, then digits up to `end` and no digit
      at `end`; the number read is `s[start..e]` point `s[e + 1..end]`. */
  lemma NumberInFraction(s: string, start: nat, e: nat, end: nat)
    requires start < e && e + 1 < end <= |s|
    requires forall j :: 0 <= j < start ==> !IsDigit(s[j])
    requires forall j :: start <= j < e ==> IsDigit(s[j])
    requires s[e] == '.' && forall j :: e < j < end ==> IsDigit(s[j])
    requires end == |s| || !IsDigit(s[end])
    ensures NumberIn(s) == Float(DecimalValue(s[start..e], s[e + 1..end]), DecimalText(s[start..e], s[e + 1..end]))
  {
    FirstNumberAt(s, start, e);
    assert IsDigit(s[e + 1]);
  }

  /** The first number starts after the digit-free prefix and its integer digits end at `e`. */
  lemma FirstNumberAt(s: string, start: nat, e: nat)
    requires start < e <= |s|
    requires forall j :: 0 <= j < start ==> !IsDigit(s[j])
    requires forall j :: start <= j < e ==> IsDigit(s[j])
    requires e == |s| || !IsDigit(s[e])
    ensures FirstNumber(s).Some? && FirstNumber(s).value.start == start && FirstNumber(s).value.intEnd == e
  {
    assert IsDigit(s[start]);
    var m := FirstNumber(s).value;
    assert IsDigit(s[m.start]);
  }

  /** The first number counts: "5 years 3 months" reads as 5.0. */
  lemma FirstNumberCounts()
    ensures NumberIn("5 years 3 months").x == 5.0
  {
    var s := "5 years 3 months";
    NumberInWhole(s, 0, 1);
    assert s[0..1] == "5";
    OneDigit('5');
  }

  /** A sign is not part of the number: "-3" reads as 3.0. */
  lemma SignIgnored()
    ensures NumberIn("-3").x == 3.0
  {
    var s := "-3";
    NumberInWhole(s, 1, 2);
    assert s[1..2] == "3";
    OneDigit('3');
  }

  /** A point without a digit after it ends the number: "3." reads as 3.0. */
  lemma BarePointEnds()
    ensures NumberIn("3.").x == 3.0
  {
    var s := "3.";
    NumberInWhole(s, 0, 1);
    assert s[0..1] == "3";
    OneDigit('3');
  }

  /** A fraction is read with it: "2.50 yrs" reads as 2.5, shown without the trailing zero. */
  lemma FractionRead()
    ensures NumberIn("2.50 yrs") == Float(2.5, "2.5")
  {
    var s := "2.50 yrs";
    NumberInFraction(s, 0, 1, 4);
    assert s[0..1] == "2" && s[2..4] == "50";
    TwoPointFifty();
  }

  lemma TwoPointFifty()
    ensures DecimalValue("2", "50") == 2.5 && DecimalText("2", "50") == "2.5"
  {
    OneDigit('2');
    OneDigit('5');
    assert "50"[..1] == "5";
    assert Pow10(2) == 100;
    assert DropLeadingZeros("2") == "2";
    assert DropTrailingZeros("5") == "5";
    assert DropTrailingZeros("50") == "5";
  }

  /** The value of a single digit. */
  lemma OneDigit(c: char)
    requires IsDigit(c)
    ensures DigitsValue([c]) == DigitValue(c)
  {
    assert [c][..0] == [];
  }

  /** `total_experience_years`: a number is converted to float, anything else is read through its text. */
  function CoerceExperience(v: Value): (r: Value)
    ensures r.Float?
    ensures v.Int? ==> r.x == v.i as real
    ensures v.Float? ==> r == v
    ensures !v.Int? && !v.Float? ==> r.x >= 0.0 && r == NumberIn(Shown(v))
  {
    if v.Int? || v.Float? then ToFloat(v) else NumberIn(Shown(v))
  }

  /** `graduation_year`: the first 19xx/20xx in the value's text, or the empty string. */
  function CoerceYear(v: Value): (r: Value)
    ensures r.Str?
    ensures r.s == "" || (|r.s| == 4 && IsYearAt(r.s, 0))
    ensures r.s == "" <==> FirstYear(Shown(v)).None?
    ensures r.s != "" ==> FirstYear(Shown(v)) == Some(r.s)
  {
    match FirstYear(Shown(v))
    case Some(y) => Str(y)
    case None => Str("")
  }

  /** One field of the validated record: the loop body for key `k` and input value `v`. */
  function CleanValue(k: string, v: Value): Value {
    if k == ExperienceKey then CoerceExperience(v)
    else
      var w := if k == YearKey then CoerceYear(v) else v;
      if w.Str? then Str(Strip(w.s)) else w
  }

  /** The cleaned fields for `keys`, each read from `data` with "Not Found" as its default. */
  function CleanFields(keys: seq<string>, data: Record): (clean: Record)
  {
    if keys == [] then map[]
    else
      var k := keys[|keys| - 1];
      CleanFields(keys[..|keys| - 1], data)[k := CleanValue(k, Get(data, k, Str(NotFound)))]
  }

  /** What `CleanFields` holds: exactly the keys asked for, each with its cleaned value. */
  lemma {:induction false} CleanFieldsAt(keys: seq<string>, data: Record)
    ensures forall k :: k in CleanFields(keys, data) <==> k in keys
    ensures forall k :: k in CleanFields(keys, data) ==> CleanFields(keys, data)[k] == CleanValue(k, Get(data, k, Str(NotFound)))
  {
    if keys != [] {
      var init := keys[..|keys| - 1];
      CleanFieldsAt(init, data);
      assert keys == init + [keys[|keys| - 1]];
    }
  }

  /** `validate_resume_data(data)`. */
  function Validated(data: Record): (clean: Record)
    ensures forall k :: k in clean <==> k in Keys
    ensures forall k :: k in clean ==> clean[k] == CleanValue(k, Get(data, k, Str(NotFound)))
  {
    CleanFieldsAt(Keys, data);
    CleanFields(Keys, data)
  }

  /** The loop of `validate_resume_data`, over the keys `keys`, one key at a time into `clean`. */
  method CleanEach(keys: seq<string>, data: Record) returns (clean: Record)
    ensures clean == CleanFields(keys, data)
  {
    clean := map[];
    var i := 0;
    while i < |keys|
      invariant 0 <= i <= |keys|
      invariant clean == CleanFields(keys[..i], data)
    {
      var k := keys[i];
      var v := Get(data, k, Str(NotFound));
      CleanFieldsSnoc(keys, i, data);
      clean := clean[k := CleanValue(k, v)];
      i := i + 1;
    }
    assert keys[..i] == keys;
  }

  lemma CleanFieldsSnoc(keys: seq<string>, i: int, data: Record)
    requires 0 <= i < |keys|
    ensures CleanFields(keys[..i + 1], data) ==
      CleanFields(keys[..i], data)[keys[i] := CleanValue(keys[i], Get(data, keys[i], Str(NotFound)))]
  {
    assert keys[..i + 1][..i] == keys[..i];
  }

  /** The imperative form of `validate_resume_data`. */
  method ValidateResumeData(data: Record) returns (clean: Record)
    ensures clean == Validated(data)
  {
    clean := CleanEach(Keys, data);
  }

  /** The cleaned value of a field missing from the input is its default. */
  lemma CleanDefault(k: string)
    ensures k == ExperienceKey ==> CleanValue(k, Str(NotFound)) == Float(0.0, "0.0")
    ensures k == YearKey ==> CleanValue(k, Str(NotFound)) == Str("")
    ensures k != ExperienceKey && k != YearKey ==> CleanValue(k, Str(NotFound)) == Str(NotFound)
  {
    if k == ExperienceKey {
      assert FirstNumber(NotFound).None? by {
        assert forall j :: 0 <= j < |NotFound| ==> !IsDigit(NotFound[j]);
      }
    } else if k == YearKey {
      assert FirstYear(NotFound).None? by {
        assert forall j :: !IsYearAt(NotFound, j);
      }
    } else {
      StripNoop(NotFound);
    }
  }

  /** A field missing from the input gets its default. */
  lemma ValidatedDefaults(data: Record, k: string)
    requires k in Keys && k !in data
    ensures k == ExperienceKey ==> Validated(data)[k] == Float(0.0, "0.0")
    ensures k == YearKey ==> Validated(data)[k] == Str("")
    ensures k != ExperienceKey && k != YearKey ==> Validated(data)[k] == Str(NotFound)
  {
    CleanDefault(k);
  }

  /** Experience: numbers keep their value as floats; anything else becomes the value of its first
      digit run, which is never negative. */
  lemma ValidatedExperience(data: Record)
    ensures ExperienceKey in Validated(data) && Validated(data)[ExperienceKey].Float?
    ensures ExperienceKey in data && data[ExperienceKey].Int? ==> Validated(data)[ExperienceKey].x == data[ExperienceKey].i as real
    ensures ExperienceKey in data && data[ExperienceKey].Float? ==> Validated(data)[ExperienceKey] == data[ExperienceKey]
    ensures ExperienceKey in data && !data[ExperienceKey].Int? && !data[ExperienceKey].Float? ==>
      Validated(data)[ExperienceKey] == NumberIn(Shown(data[ExperienceKey])) && Validated(data)[ExperienceKey].x >= 0.0
  {
    assert Keys[11] == ExperienceKey;
  }

  /** The year field is empty or the first 19xx/20xx of the input's text. */
  lemma ValidatedYear(data: Record)
    ensures YearKey in Validated(data)
    ensures var y := Validated(data)[YearKey];
      y.Str? && (y.s == "" || (|y.s| == 4 && IsYearAt(y.s, 0)))
      && (y.s != "" ==> FirstYear(Shown(Get(data, YearKey, Str(NotFound)))) == Some(y.s))
      && (y.s == "" ==> FirstYear(Shown(Get(data, YearKey, Str(NotFound)))).None?)
  {
    assert Keys[8] == YearKey;
    CleanYear(Get(data, YearKey, Str(NotFound)));
  }

  /** The year field's cleaning is its coercion: the trim changes nothing. */
  lemma CleanYear(v: Value)
    ensures CleanValue(YearKey, v) == CoerceYear(v)
  {
    var y := CoerceYear(v);
    assert YearKey != ExperienceKey;
    if y.s != "" {
      assert y.s[0] in "12" && IsDigit(y.s[3]);
      StripNoop(y.s);
    } else {
      assert Strip(y.s) == "";
    }
  }

  /** Every other string is trimmed; every other non-string passes through. */
  lemma ValidatedOthers(data: Record, k: string)
    requires k in Keys && k != ExperienceKey && k != YearKey && k in data
    ensures data[k].Str? ==> Validated(data)[k] == Str(Strip(data[k].s))
    ensures !data[k].Str? ==> Validated(data)[k] == data[k]
  {
  }

  /** Cleaning a cleaned value changes nothing. */
  lemma CleanValueIdempotent(k: string, v: Value)
    ensures CleanValue(k, CleanValue(k, v)) == CleanValue(k, v)
  {
    if k == ExperienceKey {
    } else if k == YearKey {
      var y := CoerceYear(v).s;
      if y != "" { FirstYearOfYear(y); StripNoop(y); }
      else { assert FirstYear("").None?; }
    } else if v.Str? {
      StripIdempotent(v.s);
    }
  }

  /** Validating a validated record changes nothing. */
  lemma ValidatedIdempotent(data: Record)
    ensures Validated(Validated(data)) == Validated(data)
  {
    var once := Validated(data);
    forall k | k in once ensures Validated(once)[k] == once[k] {
      CleanValueIdempotent(k, Get(data, k, Str(NotFound)));
    }
  }

  // ---------------------------------------------------------------------------------------------
  // clean_phone_number

  predicate IsPhoneChar(c: char) { c == '+' || IsDigit(c) }

  predicate IsSubsequence(a: string, b: string)
    decreases |b|
  {
    a == [] || (b != [] && if a[0] == b[0] then IsSubsequence(a[1..], b[1..]) else IsSubsequence(a, b[1..]))
  }

  /** `re.sub(r'[^+\d]', '', phone)`: exactly the '+' and digit characters of `phone`, in order. */
  function CleanPhoneNumber(phone: string): (r: string)
    ensures forall i :: 0 <= i < |r| ==> IsPhoneChar(r[i])
    ensures IsSubsequence(r, phone)
    ensures forall c :: multiset(r)[c] == if IsPhoneChar(c) then multiset(phone)[c] else 0
  {
    if phone == [] then []
    else
      var rest := CleanPhoneNumber(phone[1..]);
      assert phone == [phone[0]] + phone[1..];
      if IsPhoneChar(phone[0]) then
        assert ([phone[0]] + rest)[1..] == rest;
        [phone[0]] + rest
      else rest
  }

  lemma {:induction false} CleanPhoneNumberIdempotent(phone: string)
    ensures CleanPhoneNumber(CleanPhoneNumber(phone)) == CleanPhoneNumber(phone)
  {
    if phone != [] {
      CleanPhoneNumberIdempotent(phone[1..]);
      var rest := CleanPhoneNumber(phone[1..]);
      if IsPhoneChar(phone[0]) {
        assert ([phone[0]] + rest)[1..] == rest;
      }
    }
  }

  // ---------------------------------------------------------------------------------------------
  // is_valid_email: ^[a-zA-Z0-9_.+-]+@[a-zA-Z0-9-]+\.[a-zA-Z0-9-.]+$

  predicate IsLocalChar(c: char) { IsAsciiLetter(c) || IsDigit(c) || c == '_' || c == '.' || c == '+' || c == '-' }
  predicate IsLabelChar(c: char) { IsAsciiLetter(c) || IsDigit(c) || c == '-' }
  predicate IsTailChar(c: char) { IsAsciiLetter(c) || IsDigit(c) || c == '-' || c == '.' }

  /** `e` is local part, '@' at `at`, a label, '.' at `dot`, and a tail, each part non-empty. */
  predicate EmailSplit(e: string, at: int, dot: int) {
    0 < at && at + 1 < dot && dot + 1 < |e| && e[at] == '@' && e[dot] == '.'
    && (forall i :: 0 <= i < at ==> IsLocalChar(e[i]))
    && (forall i :: at < i < dot ==> IsLabelChar(e[i]))
    && (forall i :: dot < i < |e| ==> IsTailChar(e[i]))
  }

  /** The whole of `e` matches the pattern between `^` and `$`. */
  ghost predicate WholeEmail(e: string) {
    exists at, dot :: EmailSplit(e, at, dot)
  }

  /** The first index at or after `k` holding `c`. */
  function IndexOf(e: string, c: char, k: nat): (r: Option<nat>)
    ensures r.Some? ==> k <= r.value < |e| && e[r.value] == c && forall j :: k <= j < r.value ==> e[j] != c
    ensures r.None? ==> forall j :: k <= j < |e| ==> e[j] != c
    decreases |e| - k
  {
    if k >= |e| then None else if e[k] == c then Some(k) else IndexOf(e, c, k + 1)
  }

  /** Only the first '@' and the first '.' after it can split a whole match. */
  lemma EmailSplitUnique(e: string, at: int, dot: int)
    requires EmailSplit(e, at, dot)
    ensures IndexOf(e, '@', 0) == Some(at) && IndexOf(e, '.', at + 1) == Some(dot)
  {
    assert !IsLocalChar('@') && !IsLabelChar('.');
  }

  /** The pattern tried at the first '@' and the first '.' after it. */
  function MatchesWhole(e: string): bool {
    match IndexOf(e, '@', 0)
    case None => false
    case Some(at) =>
      match IndexOf(e, '.', at + 1)
      case None => false
      case Some(dot) => EmailSplit(e, at, dot)
  }

  lemma MatchesWholeIff(e: string)
    ensures MatchesWhole(e) <==> WholeEmail(e)
  {
    if WholeEmail(e) {
      var at, dot :| EmailSplit(e, at, dot);
      EmailSplitUnique(e, at, dot);
    }
  }

  /** `is_valid_email(email)`: `$` also matches just before a final newline. */
  function IsValidEmail(email: string): (b: bool)
    ensures b <==> WholeEmail(email) || (|email| > 0 && email[|email| - 1] == '\n' && WholeEmail(email[..|email| - 1]))
  {
    MatchesWholeIff(email);
    if |email| > 0 && email[|email| - 1] == '\n' then
      MatchesWholeIff(email[..|email| - 1]);
      MatchesWhole(email) || MatchesWhole(email[..|email| - 1])
    else MatchesWhole(email)
  }
}
