/** Text helpers: whitespace cleaning, the section-header guard and the fixed section split. */
module Helpers {
  import opened Text
  import opened Values
  import opened Wrappers

  // ---------------------------------------------------------------------------------------------
  // clean_text

  predicate IsCrOrLf(c: char) { c == '\r' || c == '\n' }

  /** `text.replace('\r', ' ').replace('\n', ' ')`. */
  function ReplaceNewlines(s: string): (r: string)
    ensures |r| == |s|
    ensures forall i :: 0 <= i < |s| ==> r[i] == if IsCrOrLf(s[i]) then ' ' else s[i]
  {
    seq(|s|, i requires 0 <= i < |s| => if IsCrOrLf(s[i]) then ' ' else s[i])
  }

  /** Every whitespace character is a plain space and no two whitespace characters are adjacent. */
  predicate Collapsed(r: string) {
    && (forall i :: 0 <= i < |r| && IsSpace(r[i]) ==> r[i] == ' ')
    && (forall i :: 0 <= i < |r| - 1 ==> !(IsSpace(r[i]) && IsSpace(r[i + 1])))
  }

  lemma FilterOutCons(c: char, t: string, isSep: char -> bool)
    ensures FilterOut([c] + t, isSep) == (if isSep(c) then "" else [c]) + FilterOut(t, isSep)
  {
    assert ([c] + t)[1..] == t;
  }

  lemma {:induction false} FilterOutAppend(a: string, b: string, isSep: char -> bool)
    ensures FilterOut(a + b, isSep) == FilterOut(a, isSep) + FilterOut(b, isSep)
  {
    if a != [] {
      FilterOutAppend(a[1..], b, isSep);
      var h := if isSep(a[0]) then "" else [a[0]];
      assert (a + b)[0] == a[0] && (a + b)[1..] == a[1..] + b;
      calc {
        FilterOut(a + b, isSep);
        h + FilterOut(a[1..] + b, isSep);
        h + (FilterOut(a[1..], isSep) + FilterOut(b, isSep));
        (h + FilterOut(a[1..], isSep)) + FilterOut(b, isSep);
        FilterOut(a, isSep) + FilterOut(b, isSep);
      }
    } else {
      assert a + b == b;
    }
  }

  lemma {:induction false} FilterOutSpacePrefix(s: string, n: nat)
    requires n <= |s| && forall i :: 0 <= i < n ==> IsSpace(s[i])
    ensures FilterOut(s, IsSpace) == FilterOut(s[n..], IsSpace)
  {
    if n > 0 {
      FilterOutSpacePrefix(s[1..], n - 1);
      assert s[1..][n - 1..] == s[n..];
    }
  }

  /** `re.sub(r'\s+', ' ', s)`: each maximal run of whitespace becomes one space. */
  function Collapse(s: string): (r: string)
    ensures Collapsed(r)
    ensures r == [] <==> s == []
    ensures (|r| > 0 && IsSpace(r[0])) <==> (|s| > 0 && IsSpace(s[0]))
    ensures FilterOut(r, IsSpace) == FilterOut(s, IsSpace)
    ensures Words(r) == Words(s)
    decreases |s|
  {
    if s == [] then []
    else if IsSpace(s[0]) then
      var n := LeadingSpace(s);
      var rest := Collapse(s[n..]);
      CollapseSpaceStep(s, n, rest);
      [' '] + rest
    else
      var rest := Collapse(s[1..]);
      CollapseWordStep(s, rest);
      [s[0]] + rest
  }

  /** What `Collapse` promises of `r` as the collapsed form of `s`, gathered for the step lemmas below. */
  predicate CollapsedFrom(s: string, r: string)
  {
    Collapsed(r) &&
    (r == [] <==> s == []) &&
    ((|r| > 0 && IsSpace(r[0])) <==> (|s| > 0 && IsSpace(s[0]))) &&
    FilterOut(r, IsSpace) == FilterOut(s, IsSpace) &&
    Words(r) == Words(s)
  }

  lemma CollapseSpaceStep(s: string, n: nat, rest: string)
    requires s != [] && IsSpace(s[0]) && n == LeadingSpace(s) && CollapsedFrom(s[n..], rest)
    ensures CollapsedFrom(s, [' '] + rest)
  {
    FilterOutSpacePrefix(s, n);
    FilterOutCons(' ', rest, IsSpace);
    WordsSkipSpaces(s, n);
    WordsSpaceThen(' ', rest);
  }

  lemma CollapseWordStep(s: string, rest: string)
    requires s != [] && !IsSpace(s[0]) && CollapsedFrom(s[1..], rest)
    ensures CollapsedFrom(s, [s[0]] + rest)
  {
    FilterOutCons(s[0], rest, IsSpace);
    assert s == [s[0]] + s[1..];
    FilterOutCons(s[0], s[1..], IsSpace);
    WordsWordThen(s[0], rest);
    WordsWordThen(s[0], s[1..]);
  }

  /** Leading whitespace adds no word. */
  lemma {:induction false} WordsSkipSpaces(s: string, n: nat)
    requires n <= |s| && forall i :: 0 <= i < n ==> IsSpace(s[i])
    ensures Words(s) == Words(s[n..])
  {
    if n > 0 {
      WordsSkipSpaces(s[1..], n - 1);
      assert s[1..][n - 1..] == s[n..];
    }
  }

  /** Trailing whitespace adds no word. */
  lemma {:induction false} WordsTrailingSpace(a: string, b: string)
    requires AllSpace(b)
    ensures Words(a + b) == Words(a)
  {
    if a == [] {
      EmptyAppend(a, b);
      WordsSkipSpaces(b, |b|);
    } else {
      WordsTrailingSpace(a[1..], b);
      WordsTrailingStep(a, b);
    }
  }

  lemma WordsTrailingStep(a: string, b: string)
    requires a != [] && AllSpace(b) && Words(a[1..] + b) == Words(a[1..])
    ensures Words(a + b) == Words(a)
  {
    ConsAppend(a, b);
    if IsSpace(a[0]) {
      WordsSpaceThen(a[0], a[1..] + b);
      WordsSpaceThen(a[0], a[1..]);
    } else {
      WordsTrailingWord(a[0], a[1..], b);
    }
  }

  lemma WordsTrailingWord(c: char, t: string, b: string)
    requires !IsSpace(c) && AllSpace(b) && Words(t + b) == Words(t)
    ensures Words([c] + (t + b)) == Words([c] + t)
  {
    WordsWordThen(c, t + b);
    WordsWordThen(c, t);
    if t == [] {
      EmptyAppend(t, b);
    } else {
      TailAppend(t, b);
    }
  }

  lemma ConsAppend<T>(a: seq<T>, b: seq<T>)
    requires a != []
    ensures a == [a[0]] + a[1..] && a + b == [a[0]] + (a[1..] + b)
  {
  }

  /** Stripping keeps the words. */
  lemma WordsStrip(s: string)
    ensures Words(Strip(s)) == Words(s)
  {
    StripFacts(s);
    var lo, hi := LeadingSpace(s), LeadingSpace(s) + |Strip(s)|;
    assert Strip(s) == s[lo..hi];
    WordsAroundSlice(s, lo, hi);
  }

  lemma WordsAroundSlice(s: string, lo: nat, hi: nat)
    requires lo <= hi <= |s|
    requires forall i :: 0 <= i < lo ==> IsSpace(s[i])
    requires forall i :: hi <= i < |s| ==> IsSpace(s[i])
    ensures Words(s[lo..hi]) == Words(s)
  {
    WordsSkipSpaces(s, lo);
    SpaceTail(s, hi);
    SliceAt(s, lo, hi);
    WordsTrailingSpace(s[lo..hi], s[hi..]);
  }

  lemma SpaceTail(s: string, hi: nat)
    requires hi <= |s| && forall i :: hi <= i < |s| ==> IsSpace(s[i])
    ensures AllSpace(s[hi..])
  {
    assert forall i :: 0 <= i < |s| - hi ==> s[hi..][i] == s[hi + i];
  }

  lemma SliceAt(s: string, lo: nat, hi: nat)
    requires lo <= hi <= |s|
    ensures s[lo..] == s[lo..hi] + s[hi..]
  {
  }

  /** Turning CR and LF into spaces keeps the words. */
  lemma {:induction false} WordsReplaceNewlines(s: string)
    ensures Words(ReplaceNewlines(s)) == Words(s)
  {
    if s != [] {
      var t := ReplaceNewlines(s);
      WordsReplaceNewlines(s[1..]);
      assert t == [t[0]] + ReplaceNewlines(s[1..]);
      assert s == [s[0]] + s[1..];
      if IsSpace(s[0]) {
        WordsSpaceThen(t[0], ReplaceNewlines(s[1..]));
        WordsSpaceThen(s[0], s[1..]);
      } else {
        WordsWordThen(t[0], ReplaceNewlines(s[1..]));
        WordsWordThen(s[0], s[1..]);
      }
    }
  }

  lemma {:induction false} CollapseNoop(s: string)
    requires Collapsed(s)
    ensures Collapse(s) == s
    decreases |s|
  {
    if s != [] {
      assert Collapsed(s[1..]);
      CollapseNoop(s[1..]);
      if IsSpace(s[0]) {
        assert LeadingSpace(s) == 1;
      }
      assert s == [s[0]] + s[1..];
    }
  }

  lemma {:induction false} FilterOutReplaceNewlines(s: string)
    ensures FilterOut(ReplaceNewlines(s), IsSpace) == FilterOut(s, IsSpace)
  {
    if s != [] {
      FilterOutReplaceNewlines(s[1..]);
      assert ReplaceNewlines(s)[1..] == ReplaceNewlines(s[1..]);
    }
  }

  lemma {:induction false} FilterOutAllSpace(s: string)
    requires AllSpace(s)
    ensures FilterOut(s, IsSpace) == ""
  {
    if s != [] { FilterOutAllSpace(s[1..]); }
  }

  /** Stripping removes whitespace only. */
  lemma FilterOutStrip(s: string)
    ensures FilterOut(Strip(s), IsSpace) == FilterOut(s, IsSpace)
  {
    StripFacts(s);
    FilterOutAroundSlice(s, LeadingSpace(s), LeadingSpace(s) + |Strip(s)|);
  }

  lemma FilterOutAroundSlice(s: string, lo: nat, hi: nat)
    requires lo <= hi <= |s|
    requires forall i :: 0 <= i < lo ==> IsSpace(s[i])
    requires forall i :: hi <= i < |s| ==> IsSpace(s[i])
    ensures FilterOut(s[lo..hi], IsSpace) == FilterOut(s, IsSpace)
  {
    FilterOutSpacePrefix(s, lo);
    FilterOutSpaceSuffix(s, lo, hi);
  }

  lemma FilterOutSpaceSuffix(s: string, lo: nat, hi: nat)
    requires lo <= hi <= |s|
    requires forall i :: hi <= i < |s| ==> IsSpace(s[i])
    ensures FilterOut(s[lo..hi], IsSpace) == FilterOut(s[lo..], IsSpace)
  {
    SliceAt(s, lo, hi);
    FilterOutAppend(s[lo..hi], s[hi..], IsSpace);
    SpaceTail(s, hi);
    FilterOutAllSpace(s[hi..]);
  }

  /** `clean_text(text)`. The result has no CR or LF, no two adjacent whitespace characters, only plain
      spaces as whitespace, no leading or trailing whitespace, and the input's other characters in order. */
  function CleanText(text: string): (r: string)
    ensures forall i :: 0 <= i < |r| ==> r[i] != '\r' && r[i] != '\n'
    ensures Collapsed(r)
    ensures r == [] || (!IsSpace(r[0]) && !IsSpace(r[|r| - 1]))
    ensures FilterOut(r, IsSpace) == FilterOut(text, IsSpace)
    ensures Words(r) == Words(text)
    ensures r == Join(Words(text), " ")
  {
    var c := Collapse(ReplaceNewlines(text));
    FilterOutReplaceNewlines(text);
    FilterOutStrip(c);
    StripCollapsed(c);
    StripFacts(c);
    WordsReplaceNewlines(text);
    WordsStrip(c);
    JoinWords(Strip(c));
    Strip(c)
  }

  /** A collapsed text without edge whitespace is its words joined by single spaces. */
  lemma {:induction false} JoinWords(r: string)
    requires Collapsed(r) && (r == [] || (!IsSpace(r[0]) && !IsSpace(r[|r| - 1])))
    ensures Join(Words(r), " ") == r
    decreases |r|
  {
    if r != [] {
      var t := r[1..];
      if t == [] {
        JoinOneWord(r);
      } else if !IsSpace(t[0]) {
        assert Collapsed(t) && t[|t| - 1] == r[|r| - 1];
        JoinWords(t);
        JoinWordsGlued(r, t);
      } else {
        var u := r[2..];
        assert |r| > 2 && r[1] == ' ';
        assert Collapsed(u) && !IsSpace(u[0]) && u[|u| - 1] == r[|r| - 1];
        JoinWords(u);
        JoinWordsAfterSpace(r, t, u);
      }
    }
  }

  lemma JoinOneWord(r: string)
    requires |r| == 1 && !IsSpace(r[0])
    ensures Join(Words(r), " ") == r
  {
    assert r == [r[0]] + [];
    WordsWordThen(r[0], []);
  }

  lemma JoinWordsGlued(r: string, t: string)
    requires r != [] && !IsSpace(r[0]) && t == r[1..] && t != [] && !IsSpace(t[0])
    requires Join(Words(t), " ") == t
    ensures Join(Words(r), " ") == r
  {
    assert r == [r[0]] + t;
    WordsWordThen(r[0], t);
    JoinPrepend([r[0]], Words(t), " ");
  }

  lemma JoinWordsAfterSpace(r: string, t: string, u: string)
    requires |r| > 2 && !IsSpace(r[0]) && r[1] == ' ' && t == r[1..] && u == r[2..] && !IsSpace(u[0])
    requires Join(Words(u), " ") == u
    ensures Join(Words(r), " ") == r
  {
    assert t == [r[1]] + u && r == [r[0]] + t;
    WordsSpaceThen(r[1], u);
    WordsWordThen(r[0], t);
    var w := Words(u);
    var q := [[r[0]]] + w;
    assert q[0] == [r[0]] && q[1..] == w && |q| > 1;
    assert Join(q, " ") == [r[0]] + " " + Join(w, " ");
  }

  lemma JoinPrepend(c: string, w: seq<string>, sep: string)
    requires |w| >= 1
    ensures Join([c + w[0]] + w[1..], sep) == c + Join(w, sep)
  {
    var q := [c + w[0]] + w[1..];
    assert q[0] == c + w[0] && q[1..] == w[1..];
  }

  lemma StripCollapsed(c: string)
    requires Collapsed(c)
    ensures Collapsed(Strip(c))
    ensures forall i :: 0 <= i < |Strip(c)| ==> Strip(c)[i] != '\r' && Strip(c)[i] != '\n'
  {
    StripFacts(c);
    var r := Strip(c);
    var lo := LeadingSpace(c);
    assert forall i :: 0 <= i < |r| ==> r[i] == c[lo + i];
  }

  /** `clean_text` is idempotent. */
  lemma CleanTextIdempotent(text: string)
    ensures CleanText(CleanText(text)) == CleanText(text)
  {
    var t := CleanText(text);
    assert ReplaceNewlines(t) == t;
    CollapseNoop(t);
    StripNoop(t);
  }

  // ---------------------------------------------------------------------------------------------
  // safe_section and extract_section

  /** The class `[\w \-\.:/]`. */
  predicate IsHeaderChar(c: char) { IsWordChar(c) || c == ' ' || c == '-' || c == '.' || c == ':' || c == '/' }

  predicate HeaderChars(s: string) { s != [] && forall i :: 0 <= i < |s| ==> IsHeaderChar(s[i]) }

  /** `re.match(r'^[\w \-\.:/]+$', s)`: `$` also matches before a final newline. */
  predicate HeaderShaped(s: string) {
    HeaderChars(s) || (|s| > 1 && s[|s| - 1] == '\n' && HeaderChars(s[..|s| - 1]))
  }

  /** `safe_section(s)`: a non-empty string of header characters whose stripped form has at least
      two characters and is not all digits. */
  predicate SafeSection(s: Value) {
    s.Str? && s.s != "" && HeaderShaped(s.s) && |Strip(s.s)| >= 2 && !AllDigits(Strip(s.s))
  }

  const DefaultBoundaries: seq<string> := [
    "Education", "Experience", "Skills", "Projects", "Certifications", "Summary", "Objective",
    "Personal", "Achievements", "Contact", "References"
  ]

  const FallbackBoundaries: seq<string> := ["Education", "Experience"]

  /** The headers of `hs` that `safe_section` accepts, in order. */
  function SafeHeaders(hs: seq<Value>): (r: seq<string>)
    ensures |r| <= |hs|
  {
    if hs == [] then []
    else (if SafeSection(hs[0]) then [hs[0].s] else []) + SafeHeaders(hs[1..])
  }

  function AsValues(hs: seq<string>): (r: seq<Value>)
    ensures |r| == |hs| && forall i :: 0 <= i < |hs| ==> r[i] == Str(hs[i])
  {
    seq(|hs|, i requires 0 <= i < |hs| => Str(hs[i]))
  }

  /** Every header of `hs` passes `safe_section`. */
  predicate AllSafe(hs: seq<string>) {
    hs == [] || (SafeSection(Str(hs[0])) && AllSafe(hs[1..]))
  }

  /** The header alternation `extract_section` bounds a section with. A missing or empty `next_sections`
      is represented by `[]`. */
  function SectionBoundaries(nextSections: seq<Value>): seq<string> {
    var hs := if nextSections == [] then AsValues(DefaultBoundaries) else nextSections;
    var safe := SafeHeaders(hs);
    if safe == [] then FallbackBoundaries else safe
  }

  lemma {:induction false} SafeHeadersAreSafe(hs: seq<Value>)
    ensures AllSafe(SafeHeaders(hs))
  {
    if hs != [] {
      SafeHeadersAreSafe(hs[1..]);
      if SafeSection(hs[0]) {
        assert SafeHeaders(hs) == [hs[0].s] + SafeHeaders(hs[1..]);
        assert (([hs[0].s] + SafeHeaders(hs[1..]))[1..]) == SafeHeaders(hs[1..]);
      } else {
        assert SafeHeaders(hs) == [] + SafeHeaders(hs[1..]) == SafeHeaders(hs[1..]);
      }
    }
  }

  /** The kept headers are exactly the texts of the safe entries. */
  lemma {:induction false} SafeHeadersMembers(hs: seq<Value>)
    ensures forall h :: h in SafeHeaders(hs) <==> exists i :: 0 <= i < |hs| && SafeSection(hs[i]) && hs[i].s == h
  {
    if hs != [] {
      SafeHeadersMembers(hs[1..]);
      var head := if SafeSection(hs[0]) then [hs[0].s] else [];
      assert SafeHeaders(hs) == head + SafeHeaders(hs[1..]);
      forall h | h in SafeHeaders(hs) ensures exists i :: 0 <= i < |hs| && SafeSection(hs[i]) && hs[i].s == h {
        if h !in head {
          var i :| 0 <= i < |hs[1..]| && SafeSection(hs[1..][i]) && hs[1..][i].s == h;
          assert hs[i + 1] == hs[1..][i];
        }
      }
      forall h | exists i :: 0 <= i < |hs| && SafeSection(hs[i]) && hs[i].s == h ensures h in SafeHeaders(hs) {
        var i :| 0 <= i < |hs| && SafeSection(hs[i]) && hs[i].s == h;
        if i > 0 {
          assert hs[1..][i - 1] == hs[i];
        }
      }
    }
  }

  /** The filter keeps the order: the headers of a concatenation are those of each part, in turn. */
  lemma {:induction false} SafeHeadersAppend(a: seq<Value>, b: seq<Value>)
    ensures SafeHeaders(a + b) == SafeHeaders(a) + SafeHeaders(b)
  {
    if a == [] {
      EmptyAppend(a, b);
    } else {
      SafeHeadersAppend(a[1..], b);
      SafeHeadersAppendStep(a, b);
    }
  }

  lemma SafeHeadersAppendStep(a: seq<Value>, b: seq<Value>)
    requires a != [] && SafeHeaders(a[1..] + b) == SafeHeaders(a[1..]) + SafeHeaders(b)
    ensures SafeHeaders(a + b) == SafeHeaders(a) + SafeHeaders(b)
  {
    var head := if SafeSection(a[0]) then [a[0].s] else [];
    TailAppend(a, b);
    PrefixAppend(head, SafeHeaders(a + b), SafeHeaders(a), SafeHeaders(a[1..] + b), SafeHeaders(a[1..]),
      SafeHeaders(b));
  }

  lemma EmptyAppend<T>(a: seq<T>, b: seq<T>)
    requires a == []
    ensures a + b == b
  {
  }

  lemma TailAppend<T>(a: seq<T>, b: seq<T>)
    requires a != []
    ensures a + b != [] && (a + b)[0] == a[0] && (a + b)[1..] == a[1..] + b
  {
  }

  /** If `z` and `x` are `head` in front of `w` and `t`, and `w` is `t` then `b`, then `z` is `x` then `b`. */
  lemma PrefixAppend(head: seq<string>, z: seq<string>, x: seq<string>, w: seq<string>, t: seq<string>,
      b: seq<string>)
    requires z == head + w && x == head + t && w == t + b
    ensures z == x + b
  {
    assert head + (t + b) == (head + t) + b;
  }

  lemma SafeHeadersCons(v: Value, rest: seq<Value>)
    ensures SafeHeaders([v] + rest) == (if SafeSection(v) then [v.s] else []) + SafeHeaders(rest)
  {
    assert ([v] + rest)[1..] == rest;
  }

  lemma {:induction false} SafeHeadersFound(hs: seq<Value>, i: nat)
    requires i < |hs| && SafeSection(hs[i])
    ensures SafeHeaders(hs) != []
  {
    if i > 0 && !SafeSection(hs[0]) {
      SafeHeadersFound(hs[1..], i - 1);
    }
  }

  lemma {:induction false} SafeHeadersNone(hs: seq<Value>)
    requires forall h :: h in hs ==> !SafeSection(h)
    ensures SafeHeaders(hs) == []
  {
    if hs != [] {
      assert hs[0] in hs;
      assert forall h :: h in hs[1..] ==> h in hs;
      SafeHeadersNone(hs[1..]);
    }
  }

  lemma {:induction false} AllSafeKept(hs: seq<string>)
    requires AllSafe(hs)
    ensures SafeHeaders(AsValues(hs)) == hs
  {
    if hs != [] {
      assert AsValues(hs)[1..] == AsValues(hs[1..]);
      AllSafeKept(hs[1..]);
      assert hs == [hs[0]] + hs[1..];
    }
  }

  lemma {:induction false} AllSafeSuffix(hs: seq<string>, k: nat)
    requires AllSafe(hs) && k <= |hs|
    ensures AllSafe(hs[k..])
  {
    if k > 0 {
      AllSafeSuffix(hs[1..], k - 1);
      assert hs[1..][k - 1..] == hs[k..];
    }
  }

  lemma {:induction false} AllSafeFromForall(hs: seq<string>)
    requires forall h :: h in hs ==> SafeSection(Str(h))
    ensures AllSafe(hs)
  {
    if hs != [] {
      assert hs[0] in hs;
      assert forall h :: h in hs[1..] ==> h in hs;
      AllSafeFromForall(hs[1..]);
    }
  }

  /** A word of two or more ASCII letters is a safe header. */
  lemma LettersSafe(h: string)
    requires |h| >= 2 && forall i :: 0 <= i < |h| ==> IsAsciiLetter(h[i])
    ensures SafeSection(Str(h))
  {
    StripNoop(h);
    assert !IsDigit(h[0]);
  }

  lemma DefaultsAreSafe()
    ensures AllSafe(DefaultBoundaries)
  {
    forall h | h in DefaultBoundaries ensures SafeSection(Str(h)) { LettersSafe(h); }
    AllSafeFromForall(DefaultBoundaries);
  }

  /** With no `next_sections`, the boundaries are the 11 defaults. */
  lemma BoundariesDefault()
    ensures SectionBoundaries([]) == DefaultBoundaries
  {
    DefaultsAreSafe();
    AllSafeKept(DefaultBoundaries);
  }

  /** With some safe header given, the boundaries are the safe given headers, in order. */
  lemma BoundariesGiven(nextSections: seq<Value>, i: nat)
    requires i < |nextSections| && SafeSection(nextSections[i])
    ensures SectionBoundaries(nextSections) == SafeHeaders(nextSections)
  {
    SafeHeadersFound(nextSections, i);
  }

  /** With headers given but none of them safe, the boundaries are Education and Experience. */
  lemma BoundariesFallback(nextSections: seq<Value>)
    requires nextSections != [] && forall h :: h in nextSections ==> !SafeSection(h)
    ensures SectionBoundaries(nextSections) == FallbackBoundaries
  {
    SafeHeadersNone(nextSections);
  }

  /** The boundaries are never empty and each of them is a safe header. */
  lemma BoundariesSafe(nextSections: seq<Value>)
    ensures SectionBoundaries(nextSections) != [] && AllSafe(SectionBoundaries(nextSections))
  {
    if nextSections == [] {
      BoundariesDefault();
      DefaultsAreSafe();
    } else if SafeHeaders(nextSections) == [] {
      forall h | h in FallbackBoundaries ensures SafeSection(Str(h)) { LettersSafe(h); }
      AllSafeFromForall(FallbackBoundaries);
    } else {
      SafeHeadersAreSafe(nextSections);
    }
  }

  /** `extract_section(text, section, next_sections)`. The section regex is the parameter
      `findSection`: given the text, the stripped section name and the boundary headers, it yields the
      body group of the first match, or `None` when there is none. */
  function ExtractSection(text: string, section: Value, nextSections: seq<Value>,
                          findSection: (string, string, seq<string>) -> Option<string>): (r: string)
    ensures !SafeSection(section) ==> r == ""
    ensures r == [] || (!IsSpace(r[0]) && !IsSpace(r[|r| - 1]))
    ensures SafeSection(section) ==>
      match findSection(text, Strip(section.s), SectionBoundaries(nextSections))
      case None => r == ""
      case Some(body) => r == Strip(body)
  {
    if !SafeSection(section) then ""
    else
      match findSection(text, Strip(section.s), SectionBoundaries(nextSections))
      case None => ""
      case Some(body) => StripFacts(body); Strip(body)
  }

  // ---------------------------------------------------------------------------------------------
  // split_into_sections

  const SectionHeaders: seq<string> := [
    "education", "experience", "skills", "certifications", "summary", "objective", "personal",
    "achievements", "contact", "references"
  ]

  /** `h.lower().strip()`. */
  function Canonical(h: string): string { Strip(Lower(h)) }

  function CanonicalAll(hs: seq<string>): (r: seq<Value>)
    ensures |r| == |hs| && forall i :: 0 <= i < |hs| ==> r[i] == Str(Canonical(hs[i]))
  {
    seq(|hs|, i requires 0 <= i < |hs| => Str(Canonical(hs[i])))
  }

  /** The key each round of the header loop stores under: the header, lower-cased and stripped. */
  function RoundKeys(headers: seq<string>): (r: seq<string>)
    ensures |r| == |headers| && forall i {:trigger r[i]} :: 0 <= i < |headers| ==> r[i] == Canonical(headers[i])
  {
    seq(|headers|, i requires 0 <= i < |headers| => Canonical(headers[i]))
  }

  /** The value round `i` stores: the section under its key, bounded by the canonical headers after it. */
  function RoundValue(text: string, headers: seq<string>, i: nat,
                      findSection: (string, string, seq<string>) -> Option<string>): string
    requires i < |headers|
  {
    ExtractSection(text, Str(Canonical(headers[i])), CanonicalAll(headers[i + 1..]), findSection)
  }

  function RoundValues(text: string, headers: seq<string>,
                       findSection: (string, string, seq<string>) -> Option<string>): (r: seq<string>)
    ensures |r| == |headers|
    ensures forall i {:trigger r[i]} :: 0 <= i < |headers| ==> r[i] == RoundValue(text, headers, i, findSection)
  {
    seq(|headers|, i requires 0 <= i < |headers| => RoundValue(text, headers, i, findSection))
  }

  /** The dictionary after the first `n` rounds of the header loop: round `i` stores its value under its
      key, a later round overwriting an earlier one with the same key. */
  function SectionsUpTo(text: string, headers: seq<string>, n: nat,
                        findSection: (string, string, seq<string>) -> Option<string>): map<string, string>
    requires n <= |headers|
  {
    Assoc(RoundKeys(headers), RoundValues(text, headers, findSection), n)
  }

  lemma SectionsUpToStep(text: string, headers: seq<string>, i: nat, findSection: (string, string, seq<string>) -> Option<string>)
    requires i < |headers|
    ensures var key := Canonical(headers[i]);
      SectionsUpTo(text, headers, i + 1, findSection)
        == SectionsUpTo(text, headers, i, findSection)[key := ExtractSection(text, Str(key), CanonicalAll(headers[i + 1..]), findSection)]
  {
    var keys, vals := RoundKeys(headers), RoundValues(text, headers, findSection);
    AssocStep(keys, vals, i + 1);
    assert keys[i] == Canonical(headers[i]);
    assert vals[i] == RoundValue(text, headers, i, findSection);
  }

  /** The header loop: each header's section is bounded by the headers after it. */
  method SectionsOf(text: string, headers: seq<string>, findSection: (string, string, seq<string>) -> Option<string>)
    returns (result: map<string, string>)
    ensures result == SectionsUpTo(text, headers, |headers|, findSection)
  {
    result := map[];
    var i := 0;
    while i < |headers|
      invariant 0 <= i <= |headers|
      invariant result == SectionsUpTo(text, headers, i, findSection)
    {
      var secClean := Canonical(headers[i]);
      var rest := headers[i + 1..];
      var next := CanonicalAll(rest);
      SectionsUpToStep(text, headers, i, findSection);
      result := result[secClean := ExtractSection(text, Str(secClean), next, findSection)];
      i := i + 1;
    }
  }

  /** `split_into_sections(text)`. */
  method SplitIntoSections(text: string, findSection: (string, string, seq<string>) -> Option<string>)
    returns (result: map<string, string>)
    ensures result == SectionsUpTo(text, SectionHeaders, |SectionHeaders|, findSection)
  {
    result := SectionsOf(text, SectionHeaders, findSection);
  }

  predicate AllCanonical(hs: seq<string>) {
    forall i :: 0 <= i < |hs| ==> Canonical(hs[i]) == hs[i]
  }

  /** `m` holds exactly the first `n` headers, each with its section bounded by the headers after it. */
  ghost predicate FirstSections(text: string, headers: seq<string>, n: nat,
                                findSection: (string, string, seq<string>) -> Option<string>, m: map<string, string>)
    requires n <= |headers|
  {
    (forall k :: k in m <==> k in headers[..n]) &&
    forall i {:trigger m[headers[i]]} :: 0 <= i < n ==>
      headers[i] in m && m[headers[i]] == ExtractSection(text, Str(headers[i]), AsValues(headers[i + 1..]), findSection)
  }

  /** For canonical, distinct headers, round `n` holds exactly the first `n` headers, each with its own
      section. */
  lemma SectionsUpToFacts(text: string, headers: seq<string>, n: nat,
                          findSection: (string, string, seq<string>) -> Option<string>)
    requires n <= |headers| && AllCanonical(headers)
    requires forall i, j :: 0 <= i < j < |headers| ==> headers[i] != headers[j]
    ensures FirstSections(text, headers, n, findSection, SectionsUpTo(text, headers, n, findSection))
  {
    CanonicalKeys(headers);
    CanonicalValues(text, headers, findSection);
    AssocFacts(headers, SectionValues(text, headers, findSection), n);
  }

  /** Header `i`'s section, bounded by the headers after it. */
  function SectionValue(text: string, headers: seq<string>, i: nat,
                        findSection: (string, string, seq<string>) -> Option<string>): string
    requires i < |headers|
  {
    ExtractSection(text, Str(headers[i]), AsValues(headers[i + 1..]), findSection)
  }

  function SectionValues(text: string, headers: seq<string>,
                         findSection: (string, string, seq<string>) -> Option<string>): (r: seq<string>)
    ensures |r| == |headers|
    ensures forall i {:trigger r[i]} :: 0 <= i < |headers| ==> r[i] == SectionValue(text, headers, i, findSection)
  {
    seq(|headers|, i requires 0 <= i < |headers| => SectionValue(text, headers, i, findSection))
  }

  /** Canonical headers are their own keys. */
  lemma CanonicalKeys(headers: seq<string>)
    requires AllCanonical(headers)
    ensures RoundKeys(headers) == headers
  {
  }

  /** With canonical headers, each round's value is the header's section bounded by the headers after it. */
  lemma CanonicalValues(text: string, headers: seq<string>,
                        findSection: (string, string, seq<string>) -> Option<string>)
    requires AllCanonical(headers)
    ensures RoundValues(text, headers, findSection) == SectionValues(text, headers, findSection)
  {
    var r, s := RoundValues(text, headers, findSection), SectionValues(text, headers, findSection);
    forall i | 0 <= i < |headers| ensures r[i] == s[i] {
      CanonicalValueAt(text, headers, i, findSection);
    }
  }

  lemma CanonicalValueAt(text: string, headers: seq<string>, i: nat,
                         findSection: (string, string, seq<string>) -> Option<string>)
    requires i < |headers| && AllCanonical(headers)
    ensures RoundValue(text, headers, i, findSection) == SectionValue(text, headers, i, findSection)
  {
    CanonicalSuffix(headers, i + 1);
  }

  lemma CanonicalSuffix(headers: seq<string>, k: nat)
    requires k <= |headers| && AllCanonical(headers)
    ensures CanonicalAll(headers[k..]) == AsValues(headers[k..])
  {
  }

  /** The map built by adding the first `n` keys in order, each with its value. */
  function Assoc<V>(keys: seq<string>, vals: seq<V>, n: nat): map<string, V>
    requires n <= |keys| == |vals|
  {
    if n == 0 then map[] else Assoc(keys, vals, n - 1)[keys[n - 1] := vals[n - 1]]
  }

  lemma AssocStep<V>(keys: seq<string>, vals: seq<V>, n: nat)
    requires 0 < n <= |keys| == |vals|
    ensures Assoc(keys, vals, n) == Assoc(keys, vals, n - 1)[keys[n - 1] := vals[n - 1]]
  {
  }

  /** For distinct keys, `Assoc` holds exactly the first `n` keys, each with its own value. */
  lemma {:induction false} AssocFacts<V>(keys: seq<string>, vals: seq<V>, n: nat)
    requires n <= |keys| == |vals|
    requires forall i, j :: 0 <= i < j < |keys| ==> keys[i] != keys[j]
    ensures forall k :: k in Assoc(keys, vals, n) <==> k in keys[..n]
    ensures forall i :: 0 <= i < n ==> keys[i] in Assoc(keys, vals, n) && Assoc(keys, vals, n)[keys[i]] == vals[i]
  {
    if n > 0 {
      AssocFacts(keys, vals, n - 1);
      UpdateFacts(Assoc(keys, vals, n - 1), keys, vals, n);
    }
  }

  /** Adding the `n`-th of distinct keys to a map holding the first `n - 1`, each with its value. */
  lemma UpdateFacts<V>(prev: map<string, V>, keys: seq<string>, vals: seq<V>, n: nat)
    requires 0 < n <= |keys| == |vals|
    requires forall i, j :: 0 <= i < j < |keys| ==> keys[i] != keys[j]
    requires forall k :: k in prev <==> k in keys[..n - 1]
    requires forall i :: 0 <= i < n - 1 ==> keys[i] in prev && prev[keys[i]] == vals[i]
    ensures forall k :: k in prev[keys[n - 1] := vals[n - 1]] <==> k in keys[..n]
    ensures forall i :: 0 <= i < n ==> prev[keys[n - 1] := vals[n - 1]][keys[i]] == vals[i]
  {
    assert keys[..n] == keys[..n - 1] + [keys[n - 1]];
  }

  lemma LowerWordCanonical(h: string)
    requires h != [] && forall i :: 0 <= i < |h| ==> 'a' <= h[i] <= 'z'
    ensures Canonical(h) == h
  {
    assert Lower(h) == h;
    StripNoop(h);
  }

  /** The headers are already lower-case and stripped, and distinct. */
  lemma HeadersCanonical()
    ensures AllCanonical(SectionHeaders)
    ensures forall i, j :: 0 <= i < j < |SectionHeaders| ==> SectionHeaders[i] != SectionHeaders[j]
  {
    forall i | 0 <= i < |SectionHeaders| ensures Canonical(SectionHeaders[i]) == SectionHeaders[i] {
      LowerWordCanonical(SectionHeaders[i]);
    }
    HeadersDistinct();
  }

  lemma HeadersDistinct()
    ensures forall i, j :: 0 <= i < j < |SectionHeaders| ==> SectionHeaders[i] != SectionHeaders[j]
  {
  }

  /** `split_into_sections` yields exactly the ten headers, each extracted with the headers after it as
      boundaries. */
  lemma SplitIntoSectionsFacts(text: string, findSection: (string, string, seq<string>) -> Option<string>)
    ensures var r := SectionsUpTo(text, SectionHeaders, |SectionHeaders|, findSection);
      && (forall k :: k in r <==> k in SectionHeaders)
      && (forall i :: 0 <= i < |SectionHeaders| ==>
            r[SectionHeaders[i]] == ExtractSection(text, Str(SectionHeaders[i]), AsValues(SectionHeaders[i + 1..]), findSection))
  {
    HeadersCanonical();
    SectionsUpToFacts(text, SectionHeaders, |SectionHeaders|, findSection);
    assert SectionHeaders[..|SectionHeaders|] == SectionHeaders;
  }

  /** Only the last header falls back to the default boundary list; every other one is bounded by the
      headers after it. */
  lemma SplitBoundaries(i: nat)
    requires i < |SectionHeaders|
    ensures i == |SectionHeaders| - 1 ==> SectionBoundaries(AsValues(SectionHeaders[i + 1..])) == DefaultBoundaries
    ensures i < |SectionHeaders| - 1 ==> SectionBoundaries(AsValues(SectionHeaders[i + 1..])) == SectionHeaders[i + 1..]
  {
    var rest := SectionHeaders[i + 1..];
    if i == |SectionHeaders| - 1 {
      assert AsValues(rest) == [];
      BoundariesDefault();
    } else {
      forall h | h in SectionHeaders ensures SafeSection(Str(h)) { LettersSafe(h); }
      AllSafeFromForall(SectionHeaders);
      AllSafeSuffix(SectionHeaders, i + 1);
      AllSafeKept(rest);
    }
  }
}
