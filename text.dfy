/** Character classes and string operations, with the meaning Python 3 gives them on `str`. */
module Text {
  import opened Wrappers

  /** `str.isspace()`: the characters that `strip()`, `split()` and the regex class `\s` treat as whitespace. */
  predicate IsSpace(c: char) {
    c == ' ' || ('\t' <= c <= '\r') || ('\U{1C}' <= c <= '\U{1F}') || c == '\U{85}' || c == '\U{A0}'
    || c == '\U{1680}' || ('\U{2000}' <= c <= '\U{200A}') || c == '\U{2028}' || c == '\U{2029}'
    || c == '\U{202F}' || c == '\U{205F}' || c == '\U{3000}'
  }

  /** The characters at which `str.splitlines()` ends a line. */
  predicate IsLineBreak(c: char) {
    ('\n' <= c <= '\r') || ('\U{1C}' <= c <= '\U{1E}') || c == '\U{85}' || c == '\U{2028}' || c == '\U{2029}'
  }

  lemma LineBreakIsSpace(c: char)
    ensures IsLineBreak(c) ==> IsSpace(c)
  {
  }

  /** The regex class `\d`, restricted to ASCII. */
  predicate IsDigit(c: char) { '0' <= c <= '9' }

  predicate IsAsciiLetter(c: char) { 'A' <= c <= 'Z' || 'a' <= c <= 'z' }

  /** The regex class `\w`, restricted to ASCII. */
  predicate IsWordChar(c: char) { IsAsciiLetter(c) || IsDigit(c) || c == '_' }

  predicate AllSpace(s: string) { forall i :: 0 <= i < |s| ==> IsSpace(s[i]) }

  predicate AllDigits(s: string) { forall i :: 0 <= i < |s| ==> IsDigit(s[i]) }

  /** The number of whitespace characters that `s` starts with. */
  function LeadingSpace(s: string): (n: nat)
    ensures n <= |s|
    ensures forall i :: 0 <= i < n ==> IsSpace(s[i])
    ensures n == |s| || !IsSpace(s[n])
  {
    if |s| > 0 && IsSpace(s[0]) then
      var m := LeadingSpace(s[1..]);
      assert forall i :: 1 <= i < m + 1 ==> s[i] == s[1..][i - 1];
      m + 1
    else 0
  }

  /** The number of whitespace characters that `s` ends with. */
  function TrailingSpace(s: string): (n: nat)
    ensures n <= |s|
    ensures forall i :: |s| - n <= i < |s| ==> IsSpace(s[i])
    ensures n == |s| || !IsSpace(s[|s| - n - 1])
  {
    if |s| > 0 && IsSpace(s[|s| - 1]) then
      var m := TrailingSpace(s[..|s| - 1]);
      assert forall i :: |s| - 1 - m <= i < |s| - 1 ==> s[i] == s[..|s| - 1][i];
      m + 1
    else 0
  }

  /** `str.strip()`: the slice of `s` left when its leading and trailing whitespace is removed. */
  function Strip(s: string): (r: string)
    ensures |r| <= |s|
  {
    var lo := LeadingSpace(s);
    if lo == |s| then ""
    else
      var n := TrailingSpace(s);
      assert !IsSpace(s[lo]);
      assert n < |s| - lo;
      s[lo..|s| - n]
  }

  /** What `strip()` leaves: a slice of `s` that neither starts nor ends with whitespace, with only
      whitespace cut on either side. */
  lemma StripFacts(s: string)
    ensures var r := Strip(s); r == [] || (!IsSpace(r[0]) && !IsSpace(r[|r| - 1]))
    ensures var r, lo := Strip(s), LeadingSpace(s); lo + |r| <= |s| && r == s[lo..lo + |r|]
    ensures forall i :: 0 <= i < LeadingSpace(s) ==> IsSpace(s[i])
    ensures forall i :: LeadingSpace(s) + |Strip(s)| <= i < |s| ==> IsSpace(s[i])
  {
    var lo, n := LeadingSpace(s), TrailingSpace(s);
    if lo < |s| {
      TrailingSpaceBefore(s, lo);
      StripIsSlice(s, lo, n);
      StripEnds(s, lo, n, Strip(s));
    } else {
      assert Strip(s) == "";
    }
  }

  lemma StripIsSlice(s: string, lo: nat, n: nat)
    requires lo == LeadingSpace(s) && n == TrailingSpace(s) && lo < |s| - n
    ensures Strip(s) == s[lo..|s| - n]
  {
  }

  /** The trailing whitespace starts after any non-whitespace character. */
  lemma TrailingSpaceBefore(s: string, j: int)
    requires 0 <= j < |s| && !IsSpace(s[j])
    ensures j < |s| - TrailingSpace(s)
  {
  }

  lemma StripEnds(s: string, lo: nat, n: nat, r: string)
    requires lo == LeadingSpace(s) && n == TrailingSpace(s) && lo < |s| - n && r == s[lo..|s| - n]
    ensures r != [] && !IsSpace(r[0]) && !IsSpace(r[|r| - 1])
  {
    assert r[0] == s[lo];
    assert r[|r| - 1] == s[|s| - n - 1];
  }

  /** A string without leading or trailing whitespace is its own `strip()`. */
  lemma StripNoop(s: string)
    requires s == [] || (!IsSpace(s[0]) && !IsSpace(s[|s| - 1]))
    ensures Strip(s) == s
  {
    if s != [] {
      assert LeadingSpace(s) == 0;
      assert TrailingSpace(s) == 0;
    }
  }

  /** `strip()` is idempotent. */
  lemma StripIdempotent(s: string)
    ensures Strip(Strip(s)) == Strip(s)
  {
    StripFacts(s);
    StripNoop(Strip(s));
  }

  /** A string is blank exactly when its `strip()` is empty. */
  lemma StripEmptyIffAllSpace(s: string)
    ensures Strip(s) == [] <==> AllSpace(s)
  {
    StripFacts(s);
    if !AllSpace(s) {
      var i :| 0 <= i < |s| && !IsSpace(s[i]);
      assert LeadingSpace(s) <= i;
    }
  }

  function LowerChar(c: char): char {
    if 'A' <= c <= 'Z' then (c as int + 32) as char else c
  }

  /** `str.lower()`, restricted to ASCII letters. */
  function Lower(s: string): string {
    seq(|s|, i requires 0 <= i < |s| => LowerChar(s[i]))
  }

  /** Python's `needle in hay` on strings. */
  predicate IsSubstring(needle: string, hay: string)
    decreases |hay|
  {
    needle <= hay || (hay != [] && IsSubstring(needle, hay[1..]))
  }

  /** `sep.join(parts)`. */
  function Join(parts: seq<string>, sep: string): string
  {
    if |parts| == 0 then "" else if |parts| == 1 then parts[0] else parts[0] + sep + Join(parts[1..], sep)
  }

  /** Splitting at every character that `isSep` accepts, keeping empty pieces, as `re.split` does with a
      one-character class. */
  function SplitAt(s: string, isSep: char -> bool): (parts: seq<string>)
    ensures |parts| == |Separators(s, isSep)| + 1
    ensures forall p, i :: p in parts && 0 <= i < |p| ==> !isSep(p[i])
    ensures Join(parts, "") == FilterOut(s, isSep)
    ensures parts[0] == "" <==> s == [] || isSep(s[0])
    decreases |s|
  {
    if s == [] then [""]
    else
      var rest := SplitAt(s[1..], isSep);
      if isSep(s[0]) then
        JoinCons("", rest);
        [""] + rest
      else
        JoinHead([s[0]], rest);
        [[s[0]] + rest[0]] + rest[1..]
  }

  /** The characters of `s` that `isSep` rejects, in order. */
  function FilterOut(s: string, isSep: char -> bool): string
  {
    if s == [] then "" else (if isSep(s[0]) then "" else [s[0]]) + FilterOut(s[1..], isSep)
  }

  /** The characters of `s` that `isSep` accepts, in order. */
  function Separators(s: string, isSep: char -> bool): string
  {
    if s == [] then "" else (if isSep(s[0]) then [s[0]] else "") + Separators(s[1..], isSep)
  }

  /** Every character is a separator or not: the two filters share out the whole string. */
  lemma {:induction false} SeparatorsCount(s: string, isSep: char -> bool)
    ensures |Separators(s, isSep)| + |FilterOut(s, isSep)| == |s|
  {
    if s != [] { SeparatorsCount(s[1..], isSep); }
  }

  /** `re.split` gives one piece more than there are separators. */
  lemma SplitAtCount(s: string, isSep: char -> bool)
    ensures |SplitAt(s, isSep)| == |s| - |FilterOut(s, isSep)| + 1
  {
    SeparatorsCount(s, isSep);
  }

  /** The pieces with the separators put back between them, in order. */
  function Rejoin(parts: seq<string>, seps: string): string
    requires |parts| == |seps| + 1
    decreases |seps|
  {
    if seps == [] then parts[0] else parts[0] + [seps[0]] + Rejoin(parts[1..], seps[1..])
  }

  lemma RejoinHead(c: string, p: string, tail: seq<string>, seps: string)
    requires |tail| == |seps|
    ensures Rejoin([c + p] + tail, seps) == c + Rejoin([p] + tail, seps)
  {
    var a, b := [c + p] + tail, [p] + tail;
    assert a[1..] == tail && b[1..] == tail;
  }

  /** Putting the separators back between the pieces rebuilds the split string: no piece is merged,
      shifted or lost. */
  lemma {:induction false} SplitAtRejoin(s: string, isSep: char -> bool)
    ensures Rejoin(SplitAt(s, isSep), Separators(s, isSep)) == s
    decreases |s|
  {
    if s != [] {
      var rest := SplitAt(s[1..], isSep);
      var seps := Separators(s[1..], isSep);
      SplitAtRejoin(s[1..], isSep);
      if isSep(s[0]) {
        var parts := [""] + rest;
        assert SplitAt(s, isSep) == parts && Separators(s, isSep) == [s[0]] + seps;
        assert parts[1..] == rest && ([s[0]] + seps)[1..] == seps;
        assert Rejoin(parts, [s[0]] + seps) == "" + [s[0]] + s[1..];
      } else {
        assert SplitAt(s, isSep) == [[s[0]] + rest[0]] + rest[1..];
        assert Separators(s, isSep) == seps;
        RejoinHead([s[0]], rest[0], rest[1..], seps);
        assert [rest[0]] + rest[1..] == rest;
        assert [s[0]] + s[1..] == s;
      }
    }
  }

  /** The pieces that are not empty, in order. */
  function NonEmpty(parts: seq<string>): (r: seq<string>)
    ensures forall i :: 0 <= i < |r| ==> r[i] != ""
  {
    if parts == [] then [] else (if parts[0] == "" then [] else [parts[0]]) + NonEmpty(parts[1..])
  }

  /** `s.split()`: the maximal runs of non-whitespace characters, in order. */
  function Words(s: string): (w: seq<string>)
    ensures forall i, j :: 0 <= i < |w| && 0 <= j < |w[i]| ==> !IsSpace(w[i][j])
    ensures forall i :: 0 <= i < |w| ==> w[i] != ""
    ensures s != [] && !IsSpace(s[0]) ==> w != []
    ensures Join(w, "") == FilterOut(s, IsSpace)
    ensures |w| == WordCount(s)
    decreases |s|
  {
    if s == [] then []
    else
      var rest := Words(s[1..]);
      if IsSpace(s[0]) then
        WordsSkipOne(s, rest);
        rest
      else if |s| > 1 && !IsSpace(s[1]) then
        WordsGlue(s, rest);
        [[s[0]] + rest[0]] + rest[1..]
      else
        WordsSingle(s, rest);
        [[s[0]]] + rest
  }

  /** What `Words` promises of `w` as the words of `s`, gathered for the step lemmas below. */
  predicate WordsOf(s: string, w: seq<string>)
  {
    (forall i, j :: 0 <= i < |w| && 0 <= j < |w[i]| ==> !IsSpace(w[i][j])) &&
    (forall i :: 0 <= i < |w| ==> w[i] != "") &&
    (s != [] && !IsSpace(s[0]) ==> w != []) &&
    Join(w, "") == FilterOut(s, IsSpace) &&
    |w| == WordCount(s)
  }

  lemma WordsSkipOne(s: string, rest: seq<string>)
    requires s != [] && IsSpace(s[0]) && WordsOf(s[1..], rest)
    ensures WordsOf(s, rest)
  {
  }

  lemma WordsGlue(s: string, rest: seq<string>)
    requires |s| > 1 && !IsSpace(s[0]) && !IsSpace(s[1]) && WordsOf(s[1..], rest)
    ensures WordsOf(s, [[s[0]] + rest[0]] + rest[1..])
  {
    var w := [[s[0]] + rest[0]] + rest[1..];
    JoinHead([s[0]], rest);
    assert forall i :: 1 <= i < |w| ==> w[i] == rest[i];
  }

  lemma WordsSingle(s: string, rest: seq<string>)
    requires s != [] && !IsSpace(s[0]) && !(|s| > 1 && !IsSpace(s[1])) && WordsOf(s[1..], rest)
    ensures WordsOf(s, [[s[0]]] + rest)
  {
    var w := [[s[0]]] + rest;
    JoinConsAny([s[0]], rest);
    assert forall i :: 1 <= i < |w| ==> w[i] == rest[i - 1];
  }

  /** `s.split()` agrees with splitting at every whitespace character and dropping the empty pieces. */
  lemma {:induction false} WordsIsSplit(s: string)
    ensures Words(s) == NonEmpty(SplitAt(s, IsSpace))
    decreases |s|
  {
    if s == [] {
      assert NonEmpty([""]) == NonEmpty([]);
    } else {
      WordsIsSplit(s[1..]);
      SplitAtStep(s, IsSpace);
      if IsSpace(s[0]) {
        NonEmptyCons("", SplitAt(s[1..], IsSpace));
      } else {
        WordsIsSplitWord(s, SplitAt(s[1..], IsSpace), Words(s[1..]));
      }
    }
  }

  lemma WordsIsSplitWord(s: string, r: seq<string>, w: seq<string>)
    requires s != [] && !IsSpace(s[0])
    requires r == SplitAt(s[1..], IsSpace) && w == Words(s[1..]) && w == NonEmpty(r)
    ensures Words(s) == NonEmpty([[s[0]] + r[0]] + r[1..])
  {
    assert r == [r[0]] + r[1..];
    NonEmptyCons(r[0], r[1..]);
    NonEmptyCons([s[0]] + r[0], r[1..]);
    if r[0] == "" {
      assert [s[0]] + r[0] == [s[0]];
    }
  }

  lemma SplitAtStep(s: string, isSep: char -> bool)
    requires s != []
    ensures var r := SplitAt(s[1..], isSep);
      SplitAt(s, isSep) == if isSep(s[0]) then [""] + r else [[s[0]] + r[0]] + r[1..]
  {
  }

  lemma NonEmptyCons(p: string, ps: seq<string>)
    ensures NonEmpty([p] + ps) == (if p == "" then [] else [p]) + NonEmpty(ps)
  {
    assert ([p] + ps)[1..] == ps;
  }

  /** A whitespace character in front adds no word. */
  lemma WordsSpaceThen(c: char, t: string)
    requires IsSpace(c)
    ensures Words([c] + t) == Words(t)
  {
    assert ([c] + t)[1..] == t;
  }

  /** A non-whitespace character in front starts a new word, or extends the first one when it is
      glued to it. */
  lemma WordsWordThen(c: char, t: string)
    requires !IsSpace(c)
    ensures Words([c] + t) ==
      if t != [] && !IsSpace(t[0]) then [[c] + Words(t)[0]] + Words(t)[1..] else [[c]] + Words(t)
  {
    assert ([c] + t)[1..] == t;
  }

  lemma JoinCons(p: string, rest: seq<string>)
    requires |rest| >= 1
    ensures Join([p] + rest, "") == p + Join(rest, "")
  {
    var q := [p] + rest;
    assert q[0] == p && q[1..] == rest && |q| > 1;
    assert Join(q, "") == p + "" + Join(rest, "");
    assert p + "" == p;
  }

  lemma JoinConsAny(p: string, rest: seq<string>)
    ensures Join([p] + rest, "") == p + Join(rest, "")
  {
    if rest == [] {
      assert [p] + rest == [p];
      assert p + "" == p;
    } else {
      JoinCons(p, rest);
    }
  }

  lemma JoinHead(c: string, rest: seq<string>)
    requires |rest| >= 1
    ensures Join([c + rest[0]] + rest[1..], "") == c + Join(rest, "")
  {
    if |rest| == 1 {
      assert [c + rest[0]] + rest[1..] == [c + rest[0]];
    } else {
      JoinHeadLonger(c, rest[0], rest[1..]);
      assert rest == [rest[0]] + rest[1..];
    }
  }

  lemma JoinHeadLonger(c: string, p: string, tail: seq<string>)
    requires |tail| >= 1
    ensures Join([c + p] + tail, "") == c + Join([p] + tail, "")
  {
    JoinCons(c + p, tail);
    JoinCons(p, tail);
  }

  /** `len(s.split())`: the number of maximal runs of non-whitespace characters, counted at the
      last character of each run. */
  function WordCount(s: string): nat {
    if s == [] then 0
    else (if !IsSpace(s[0]) && (|s| == 1 || IsSpace(s[1])) then 1 else 0) + WordCount(s[1..])
  }

  /** Python's `<` on strings: lexicographic by code point, a proper prefix being smaller. */
  predicate StrLess(a: string, b: string)
  {
    if a == [] then b != [] else if b == [] then false
    else if a[0] != b[0] then a[0] < b[0] else StrLess(a[1..], b[1..])
  }

  lemma {:induction false} StrLessIrreflexive(a: string)
    ensures !StrLess(a, a)
  {
    if a != [] { StrLessIrreflexive(a[1..]); }
  }

  lemma {:induction false} StrLessTransitive(a: string, b: string, c: string)
    requires StrLess(a, b) && StrLess(b, c)
    ensures StrLess(a, c)
  {
    if a != [] && b != [] && c != [] && a[0] == b[0] && b[0] == c[0] {
      StrLessTransitive(a[1..], b[1..], c[1..]);
    }
  }

  lemma {:induction false} StrLessTotal(a: string, b: string)
    requires a != b
    ensures StrLess(a, b) || StrLess(b, a)
  {
    if a != [] && b != [] && a[0] == b[0] {
      assert a == [a[0]] + a[1..] && b == [b[0]] + b[1..];
      StrLessTotal(a[1..], b[1..]);
    }
  }

  lemma {:induction false} StrLessAsymmetric(a: string, b: string)
    requires StrLess(a, b)
    ensures !StrLess(b, a)
  {
    if a != [] && b != [] && a[0] == b[0] { StrLessAsymmetric(a[1..], b[1..]); }
  }

  predicate StrictlySorted(s: seq<string>) {
    forall i, j :: 0 <= i < j < |s| ==> StrLess(s[i], s[j])
  }

  /** Inserts `x` into a strictly ascending list, dropping it when it is already there. */
  function Insert(x: string, s: seq<string>): (r: seq<string>)
    requires StrictlySorted(s)
    ensures StrictlySorted(r)
    ensures forall y :: y in r <==> y == x || y in s
  {
    if s == [] then [x]
    else if x == s[0] then s
    else if StrLess(x, s[0]) then
      forall j | 0 < j < |s| ensures StrLess(x, s[j]) { StrLessTransitive(x, s[0], s[j]); }
      [x] + s
    else
      StrLessTotal(x, s[0]);
      var t := Insert(x, s[1..]);
      assert forall y :: y in t ==> StrLess(s[0], y) by {
        forall y | y in t ensures StrLess(s[0], y) {
          if y != x {
            var j :| 0 <= j < |s[1..]| && s[1..][j] == y;
            assert s[j + 1] == y;
          }
        }
      }
      [s[0]] + t
  }

  /** `sorted(set(xs))`: the distinct elements of `xs` in ascending order. */
  function SortedSet(xs: seq<string>): (r: seq<string>)
    ensures StrictlySorted(r)
    ensures forall y :: y in r <==> y in xs
  {
    if xs == [] then [] else Insert(xs[0], SortedSet(xs[1..]))
  }

  /** A strictly ascending list has no repeated element. */
  lemma StrictlySortedDistinct(s: seq<string>, i: int, j: int)
    requires StrictlySorted(s) && 0 <= i < |s| && 0 <= j < |s| && i != j
    ensures s[i] != s[j]
  {
    if i < j { if s[i] == s[j] { StrLessIrreflexive(s[i]); } }
    else { if s[i] == s[j] { StrLessIrreflexive(s[j]); } }
  }

  /** The first index `i` with `k <= i < min(|xs|, limit)` whose element passes `ok`. */
  function FirstWhere<T>(xs: seq<T>, ok: T -> bool, k: nat, limit: nat): (r: Option<nat>)
    ensures r.Some? ==> (k <= r.value < |xs| && r.value < limit && ok(xs[r.value])
      && forall j :: k <= j < r.value ==> !ok(xs[j]))
    ensures r.None? ==> forall j :: k <= j < |xs| && j < limit ==> !ok(xs[j])
    decreases |xs| - k
  {
    if k >= |xs| || k >= limit then None else if ok(xs[k]) then Some(k) else FirstWhere(xs, ok, k + 1, limit)
  }

  /** `[p.strip() for p in pieces if p.strip()]`. */
  function StrippedNonBlank(pieces: seq<string>): (lines: seq<string>)
    ensures forall i :: 0 <= i < |lines| ==> lines[i] != ""
    ensures |lines| <= |pieces|
  {
    if pieces == [] then []
    else (if Strip(pieces[0]) == "" then [] else [Strip(pieces[0])]) + StrippedNonBlank(pieces[1..])
  }

  /** Filtering two runs of pieces is filtering each: the filter keeps the pieces' order. */
  lemma {:induction false} StrippedNonBlankAppend(a: seq<string>, b: seq<string>)
    ensures StrippedNonBlank(a + b) == StrippedNonBlank(a) + StrippedNonBlank(b)
  {
    if a == [] {
      assert a + b == b;
    } else {
      assert (a + b)[0] == a[0] && (a + b)[1..] == a[1..] + b;
      StrippedNonBlankAppend(a[1..], b);
    }
  }

  /** One more piece adds its stripped text when that is not empty. */
  lemma StrippedNonBlankPrefix(pieces: seq<string>, i: int)
    requires 0 <= i < |pieces|
    ensures var p := Strip(pieces[i]);
      StrippedNonBlank(pieces[..i + 1]) == StrippedNonBlank(pieces[..i]) + (if p == "" then [] else [p])
  {
    assert pieces[..i + 1] == pieces[..i] + [pieces[i]];
    StrippedNonBlankAppend(pieces[..i], [pieces[i]]);
    assert [pieces[i]][1..] == [];
  }
}
