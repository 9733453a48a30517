/** The triple classifier: three independent tests on a raw line, trailing `\t.\n` included. */
module Classifier {
  import opened Results
  import opened Strings

  /** The datatype suffixes, tab, terminator and newline included, that mark a temporal object. */
  const GYear: string := "<http://www.w3.org/2001/XMLSchema#gYear>\t.\n"
  const GYearMonth: string := "<http://www.w3.org/2001/XMLSchema#gYearMonth>\t.\n"
  const Date: string := "<http://www.w3.org/2001/XMLSchema#date>\t.\n"
  const DateTime: string := "<http://www.w3.org/2001/XMLSchema#dateTime>\t.\n"

  /** The time-of-day datatype, which is not one of the four. */
  const XsdTimeSuffix: string := "<http://www.w3.org/2001/XMLSchema#time>\t.\n"

  /** The excluded predicate. */
  const AdsPredicate: string := "<http://rdf.freebase.com/ns/user.xandr.webscrapper.domain.ad_entry.ads_topic>"

  /** `is_subject_datetime`: a literal suffix comparison against the four datatype suffixes. */
  predicate IsSubjectDatetime(line: string) {
    EndsWith(line, GYear) || EndsWith(line, GYearMonth) || EndsWith(line, Date) || EndsWith(line, DateTime)
  }

  /** Whatever precedes it, a line ending in one of the four suffixes is temporal. */
  lemma DatetimeWhateverPrecedes(prefix: string)
    ensures IsSubjectDatetime(prefix + GYear)
    ensures IsSubjectDatetime(prefix + GYearMonth)
    ensures IsSubjectDatetime(prefix + Date)
    ensures IsSubjectDatetime(prefix + DateTime)
  {
    EndsWithAppend(prefix, GYear);
    EndsWithAppend(prefix, GYearMonth);
    EndsWithAppend(prefix, Date);
    EndsWithAppend(prefix, DateTime);
  }

  /** Two suffixes that differ `k` characters from the end cannot both end a line. */
  lemma SuffixesClash(s: string, a: string, b: string, k: nat)
    requires 0 < k <= |a| && k <= |b| && a[|a| - k] != b[|b| - k]
    ensures !(EndsWith(s, a) && EndsWith(s, b))
  {
    assert EndsWith(s, a) ==> s[|s| - k] == s[|s| - |a|..][|a| - k] == a[|a| - k];
    assert EndsWith(s, b) ==> s[|s| - k] == s[|s| - |b|..][|b| - k] == b[|b| - k];
  }

  /** A line whose object is typed as a time of day is not temporal, and a temporal line
      ends with the datatype's closing `>`, a tab, the terminator and a newline. */
  lemma DatetimeNeedsExactSuffix(line: string)
    ensures EndsWith(line, XsdTimeSuffix) ==> !IsSubjectDatetime(line)
    ensures IsSubjectDatetime(line) ==> EndsWith(line, ">\t.\n")
  {
    SuffixesClash(line, XsdTimeSuffix, GYear, 8);
    SuffixesClash(line, XsdTimeSuffix, GYearMonth, 8);
    SuffixesClash(line, XsdTimeSuffix, Date, 8);
    SuffixesClash(line, XsdTimeSuffix, DateTime, 8);
    if IsSubjectDatetime(line) {
      var s := line[|line| - 4..];
      if EndsWith(line, GYear) {
        assert s == GYear[|GYear| - 4..];
      } else if EndsWith(line, GYearMonth) {
        assert s == GYearMonth[|GYearMonth| - 4..];
      } else if EndsWith(line, Date) {
        assert s == Date[|Date| - 4..];
      } else {
        assert s == DateTime[|DateTime| - 4..];
      }
    }
  }

  /** `is_ads_topic`: the excluded predicate anywhere in the line. */
  predicate IsAdsTopic(line: string) {
    Contains(line, AdsPredicate)
  }

  /** The test is a substring test, not a field test: the predicate inside a literal, or in
      any other place, counts. */
  lemma AdsAnywhere(before: string, after: string)
    ensures IsAdsTopic(before + AdsPredicate + after)
  {
    OccursInMiddle(before, AdsPredicate, after);
  }

  /** An ASCII stand-in for the regular-expression class `\w` (which also covers `\d`). */
  predicate IsWordChar(c: char) {
    'a' <= c <= 'z' || 'A' <= c <= 'Z' || '0' <= c <= '9' || c == '_'
  }

  predicate AllWord(t: string) {
    forall k :: 0 <= k < |t| ==> IsWordChar(t[k])
  }

  /** Reference reading of `"@\w{2,3}(-[\w\d]*)?` on a whole candidate text `t`, with `w`
      word characters after the `"@`. */
  predicate PatternWith(t: string, w: nat) {
    && 2 + w <= |t|
    && t[0] == '"' && t[1] == '@'
    && AllWord(t[2..2 + w])
    && (|t| == 2 + w || (t[2 + w] == '-' && AllWord(t[3 + w..])))
  }

  predicate LanguagePattern(t: string) {
    PatternWith(t, 2) || PatternWith(t, 3)
  }

  /** A match can begin at `i`: `"@` followed by two word characters. */
  predicate TagStartsAt(s: string, i: int) {
    0 <= i && i + 4 <= |s| && s[i] == '"' && s[i + 1] == '@' && IsWordChar(s[i + 2]) && IsWordChar(s[i + 3])
  }

  /** The number of word characters starting at `i`. */
  function WordRun(s: string, i: nat): (n: nat)
    requires i <= |s|
    ensures i + n <= |s|
    ensures forall k :: i <= k < i + n ==> IsWordChar(s[k])
    ensures i + n == |s| || !IsWordChar(s[i + n])
    decreases |s| - i
  {
    if i < |s| && IsWordChar(s[i]) then 1 + WordRun(s, i + 1) else 0
  }

  /** Where the greedy match that begins at `i` ends: a third word character if there is
      one, then a `-` and all the word characters after it if there is a `-`. */
  function TagEnd(s: string, i: nat): nat
    requires TagStartsAt(s, i)
  {
    var k := if i + 4 < |s| && IsWordChar(s[i + 4]) then i + 5 else i + 4;
    if k < |s| && s[k] == '-' then k + 1 + WordRun(s, k + 1) else k
  }

  /** The span of a match, as `re.Match.span()` gives it. */
  datatype Match = Match(start: nat, end: nat)

  /** The scan behind `LANG_REGEX.search`, trying each start position from `i` on. */
  function SearchFrom(s: string, i: nat): (m: Option<Match>)
    ensures m.None? <==> forall j :: i <= j ==> !TagStartsAt(s, j)
    ensures m.Some? ==>
      && i <= m.value.start && TagStartsAt(s, m.value.start) && m.value.end == TagEnd(s, m.value.start)
      && forall j :: i <= j < m.value.start ==> !TagStartsAt(s, j)
    decreases |s| - i
  {
    if i + 4 > |s| then None
    else if TagStartsAt(s, i) then Some(Match(i, TagEnd(s, i)))
    else SearchFrom(s, i + 1)
  }

  /** `is_language_present`: the leftmost language-tag match, or None. */
  function IsLanguagePresent(line: string): Option<Match>
  {
    SearchFrom(line, 0)
  }

  lemma PatternStartsTag(s: string, j: int, e: int)
    requires 0 <= j <= e <= |s| && LanguagePattern(s[j..e])
    ensures TagStartsAt(s, j)
  {
    var t := s[j..e];
    assert t[0] == s[j] && t[1] == s[j + 1] && t[2] == s[j + 2] && t[3] == s[j + 3];
    if PatternWith(t, 2) {
      assert t[2..4][0] == t[2] && t[2..4][1] == t[3];
    } else {
      assert t[2..5][0] == t[2] && t[2..5][1] == t[3];
    }
  }

  /** Word characters on `[from, to)` make the run that starts at `from` reach `to`. */
  lemma {:induction false} WordRunReaches(s: string, from: nat, to: nat)
    requires from <= to <= |s|
    requires forall q :: from <= q < to ==> IsWordChar(s[q])
    ensures from + WordRun(s, from) >= to
    decreases |s| - from
  {
    if from < to {
      WordRunReaches(s, from + 1, to);
    }
  }

  lemma AllWordTail(s: string, i: nat, e: nat, from: nat)
    requires i <= from <= e <= |s| && AllWord(s[i..e][from - i..])
    ensures forall q :: from <= q < e ==> IsWordChar(s[q])
  {
    forall q | from <= q < e ensures IsWordChar(s[q]) {
      assert s[q] == s[i..e][from - i..][q - from];
    }
  }

  /** No text from a match start that fits the pattern ends after the greedy end. */
  lemma NoLongerMatch(s: string, i: nat, e: nat)
    requires TagStartsAt(s, i) && i <= e <= |s|
    ensures LanguagePattern(s[i..e]) ==> e <= TagEnd(s, i)
  {
    var t := s[i..e];
    var third := i + 4 < |s| && IsWordChar(s[i + 4]);
    if PatternWith(t, 2) && e > i + 4 {
      assert t[4] == s[i + 4] && t[4] == '-';
      AllWordTail(s, i, e, i + 5);
      WordRunReaches(s, i + 5, e);
    }
    if PatternWith(t, 3) {
      assert t[2..5][2] == s[i + 4];
      if e > i + 5 {
        assert t[5] == s[i + 5] && t[5] == '-';
        AllWordTail(s, i, e, i + 6);
        WordRunReaches(s, i + 6, e);
      }
    }
  }

  /** The greedy end is a match, and no longer text from the same start is one. */
  lemma TagEndIsLongest(s: string, i: nat)
    requires TagStartsAt(s, i)
    ensures i + 4 <= TagEnd(s, i) <= |s|
    ensures LanguagePattern(s[i..TagEnd(s, i)])
    ensures forall e :: TagEnd(s, i) < e <= |s| ==> !LanguagePattern(s[i..e])
  {
    var third := i + 4 < |s| && IsWordChar(s[i + 4]);
    var w := if third then 3 else 2;
    var k := i + 2 + w;
    var e := TagEnd(s, i);
    var t := s[i..e];
    assert t[2..2 + w] == s[i + 2..k];
    if k < |s| && s[k] == '-' {
      assert t[3 + w..] == s[k + 1..e];
    }
    assert PatternWith(t, w);
    forall e' | e < e' <= |s| ensures !LanguagePattern(s[i..e']) {
      NoLongerMatch(s, i, e');
    }
  }

  /** `LANG_REGEX.search` semantics: a match exists exactly when some text of the line fits
      the pattern; the one returned begins at the leftmost place where one begins, and from
      there it is the longest that fits. */
  lemma LanguagePresentMeaning(line: string)
    ensures IsLanguagePresent(line).Some? <==> exists j, e :: 0 <= j <= e <= |line| && LanguagePattern(line[j..e])
    ensures IsLanguagePresent(line).Some? ==>
      var m := IsLanguagePresent(line).value;
      && m.start <= m.end <= |line|
      && LanguagePattern(line[m.start..m.end])
      && (forall j, e :: 0 <= j < m.start && j <= e <= |line| ==> !LanguagePattern(line[j..e]))
      && (forall e :: m.end < e <= |line| ==> !LanguagePattern(line[m.start..e]))
  {
    var r := IsLanguagePresent(line);
    forall j, e | 0 <= j <= e <= |line| && LanguagePattern(line[j..e]) ensures TagStartsAt(line, j) {
      PatternStartsTag(line, j, e);
    }
    if r.Some? {
      TagEndIsLongest(line, r.value.start);
    }
  }

  /** The shape of the doctest's match: text with no `@` before a quoted string's closing
      `"`, then `@` and a two- or three-letter tag followed by something that continues
      neither the tag nor a subtag. */
  lemma TagAfterPlainText(prefix: string, tag: string, rest: string)
    requires '@' !in prefix
    requires 2 <= |tag| <= 3 && AllWord(tag)
    requires |rest| > 0 && !IsWordChar(rest[0]) && rest[0] != '-'
    ensures IsLanguagePresent(prefix + "\"@" + tag + rest) == Some(Match(|prefix|, |prefix| + 2 + |tag|))
  {
    var s := prefix + "\"@" + tag + rest;
    var n := |prefix|;
    forall j | 0 <= j < n ensures !TagStartsAt(s, j) {
      if j + 1 < n {
        assert s[j + 1] == prefix[j + 1];
      } else {
        assert s[j + 1] == '"';
      }
    }
    assert s[n + 2] == tag[0] && s[n + 3] == tag[1];
    assert TagStartsAt(s, n);
    if |tag| == 3 {
      assert s[n + 4] == tag[2];
      assert s[n + 5] == rest[0];
    } else {
      assert s[n + 4] == rest[0];
    }
  }

  /** A line with no `"` has no language tag (the doctest's second case). */
  lemma NoQuoteNoTag(line: string)
    requires '"' !in line
    ensures IsLanguagePresent(line).None?
  {
  }
}
