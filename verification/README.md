# Freebase dump preparation, modelled in Dafny

`prepare.py` streams a Freebase RDF dump and handles it one tab-separated triple line at a
time. It does four things:

- It rewrites the object of every triple typed as a year, year-month, date or date-time into
  the canonical integer literal `"<n>"^^<http://www.w3.org/2001/XMLSchema#int>`. Here `n` is
  signed seconds since the Unix epoch, or seconds since midnight when the object is a bare
  time `"T…`.
- It copies every other line to standard output unless the line mentions the ads-topic
  predicate.
- For every predicate that it sees with a language-tagged literal (`"@en`, `"@uk`,
  `"@zh-Hans`, …), it appends one schema line `<predicate>:\tstring\t@lang\t.\n`, the first
  time only.
- The first exception stops the run.

The model has six modules:

- `Results` holds the exception kinds and the `Result`/`Option` wrappers.
- `Strings` holds the Python string operations the source relies on: `in`, `split`, `join`,
  `replace`, `zfill`, `int()` and `str()` of an integer.
- `TimeLiteral` holds `time_to_seconds` and the string steps of `time_to_unix`.
- `Classifier` holds the three line tests: the datatype suffix test, the ads-topic test and
  the language-tag regular expression.
- `Rewriter` holds `prepare_subject` and the rewrite of a temporal line.
- `Pipeline` holds `prepare`. It is a `method` with a loop and local state, proved equal to a
  left fold `Run` over the lines. What `prepare` promises is proved about `Run`: which lines
  are written, which schema lines are written and in what order, and where the run stops.

The calendar parser, the Julian-year conversion and the FITS time conversion are code outside
the model. `time_to_unix` hands them the year or the text it has prepared, so they are function values of
a `Converters` record, and the model proves what is handed to them.

## Behaviour worth noting

- `time_to_seconds` keeps the sign that `int()` accepts on each part, so `T-1` is worth
  -3600 (`TimeLiteral.TimeToSecondsMeaning`).
- The lexical value at prepare.py:131 is the text before the first `"^^` with its first
  character dropped, whatever that character is (`Rewriter.ObjectValue`).
- A temporal line needs only three tab-separated fields (`Rewriter.RewriteKeepsOtherFields`).
  With exactly three, the third field is the terminator `.\n`, so the value handed on at
  prepare.py:136 is `\n`. The calendar parser rejects that, so the line stops the run. The
  terminator would be replaced only by a parser that accepted `\n`; the model leaves the
  parser's answer open.

## Model

| member | source | states |
|---|---|---|
| Strings.Contains | prepare.py:103 | `sub in s` holds exactly when `sub` occurs at some position of `s` |
| Strings.Join | prepare.py:138 | `'\t'.join(parts)`; `Strings.JoinSplit` and `Strings.SplitJoin` state it as the inverse of `split` |
| Strings.Split | prepare.py:32 | `split` gives at least one part, and no part contains the separator |
| Strings.JoinSplit | prepare.py:129-138 | joining the parts of a split with the same separator gives back the line |
| Strings.SplitJoin | prepare.py:129-138 | splitting a join of separator-free parts gives back the parts |
| Strings.Remove | prepare.py:32 | `replace(c, '')` leaves no `c`, adds no character, keeps the count of every other character, and changes nothing when `c` is absent |
| Strings.RemoveOne | prepare.py:32 | on one character, `replace(c, '')` drops it exactly when it is `c` |
| Strings.RemoveAppend | prepare.py:32 | removing from a concatenation removes from each part; with `Strings.RemoveOne` this makes the removal an order-keeping filter |
| Strings.BeforeFirst | prepare.py:131 | `split(sep)[0]` is the prefix up to the first occurrence of `sep`, or all of `s` when there is none |
| Strings.BeforeFirstAt | prepare.py:131 | a prefix that is followed by `sep` and contains no earlier occurrence is `split(sep)[0]` |
| Strings.ReplaceFirst | prepare.py:77 | `replace(target, replacement, 1)` changes nothing when `target` does not occur, and otherwise puts `replacement` in place of the first occurrence, keeping the text before and after it |
| Strings.ReplaceFirstAtStart | prepare.py:76-77 | when `s` starts with `target`, only those characters are replaced |
| Strings.ZFill | prepare.py:84 | `zfill` keeps a leading sign in front, pads with zeros after it up to the width, and keeps the rest |
| Strings.ParseInt | prepare.py:33 | `int()` succeeds exactly on an optional sign followed by one or more digits, and otherwise raises `ValueError` |
| Strings.IntToString | prepare.py:94 | `str(n)`; `Strings.ParseIntToString` states that `int()` reads it back as `n`, and `Rewriter.NumeralChars` that it is digits with a `-` only in front |
| Strings.NatToString | prepare.py:94 | the decimal form of a natural number is a non-empty digit string |
| Strings.NatToStringValue | prepare.py:94 | the decimal form of `n` reads back as `n` |
| Strings.NatToStringOfValue | prepare.py:94 | a digit string with no leading zero is the decimal form of its value |
| Strings.ParseIntToString | prepare.py:94 | `int(str(n)) == n` for every integer, negative ones included |
| TimeLiteral.WeightedSum | prepare.py:31-33 | the list comprehension and its `sum`; `TimeLiteral.WeightedSumMeaning` states its success, value and errors |
| TimeLiteral.TimeToSeconds | prepare.py:19-34 | `time_to_seconds`; `TimeLiteral.TimeToSecondsMeaning` and `TimeLiteral.TimeOfDay` state what it returns and raises |
| TimeLiteral.StripClock | prepare.py:32 | after both replacements no `T` and no `Z` is left, and every other character keeps its count |
| TimeLiteral.WeightedSumMeaning | prepare.py:31-33 | the comprehension succeeds exactly when every part is an integer and there are at most three parts, and its sum is the hour/minute/second reading; otherwise it raises only `ValueError` or `IndexError`, and `IndexError` exactly when the parts from index `i` up to the fourth are integers (`int(part)` runs before `coefficients[i]`) |
| TimeLiteral.ClockParts | prepare.py:31-33 | the whole sum succeeds exactly on one to three integer parts, and is hours * 3600 + minutes * 60 + seconds |
| TimeLiteral.ClockPartsError | prepare.py:31-33 | a bad part raises `ValueError` when there are at most three parts; a fourth part raises `IndexError` when every part is an integer |
| TimeLiteral.TimeToSecondsMeaning | prepare.py:19-34 | `time_to_seconds` succeeds exactly on one to three integer parts once `T` and `Z` are removed, returns hours * 3600 + minutes * 60 + seconds with missing parts as 0; otherwise it raises `IndexError` exactly when there are more than three parts and the first four are integers, and `ValueError` in every other case |
| TimeLiteral.ClockTextChars | prepare.py:32 | digit fields joined by `:` contain only digits and colons |
| TimeLiteral.ClockLiteralParts | prepare.py:32 | a clock literal of digit fields strips and splits back into its fields |
| TimeLiteral.TimeOfDay | prepare.py:21-28 | `Thh[:mm[:ss]]`, with or without `Z`, is worth hh * 3600 + mm * 60 + ss |
| TimeLiteral.StripClockOfTime | prepare.py:32 | stripping a `T`-prefixed, optionally `Z`-suffixed clock text gives the clock text |
| TimeLiteral.FixYearZero | prepare.py:76-77 | the year-zero fix; `TimeLiteral.NormalisedShape` and `TimeLiteral.CalendarLiteral` state what it changes |
| TimeLiteral.PadYearMonth | prepare.py:80-81 | the year-month padding; `TimeLiteral.NormalisedShape` and `TimeLiteral.CalendarLiteral` state what it changes |
| TimeLiteral.RouteLiteral | prepare.py:67-81 | the string steps of `time_to_unix`; `TimeLiteral.AntiquityExactly`, `TimeLiteral.AntiquityYears` and `TimeLiteral.CalendarLiteral` state which route each literal takes and with what text |
| TimeLiteral.TimeToUnix | prepare.py:36-85 | `time_to_unix`; `TimeLiteral.AntiquityExactly` states the Julian-year result and `TimeLiteral.TimestampHandedOn` the calendar result |
| TimeLiteral.AntiquityExactly | prepare.py:67-71 | the Julian-year shortcut is taken exactly for a 5-character BC literal whose `int` is at most -4800, and is handed that year; such a literal that is not an integer raises `ValueError`; every other literal goes to the calendar path |
| TimeLiteral.AntiquityYears | prepare.py:67-81 | on `-dddd`, the shortcut is taken exactly for years 4800 and older; otherwise the calendar path gets marker `-` and the four digits, with `0000` turned into `0001` |
| TimeLiteral.ZeroDigits | prepare.py:76-77 | a run of zeros is worth 0 |
| TimeLiteral.NonZeroDigit | prepare.py:70 | a digit string with a non-zero digit is worth more than 0 |
| TimeLiteral.CalendarLiteral | prepare.py:73-81 | on the calendar path one leading `-` is removed and sets the marker; a leading `0000` has only its four characters changed, to `0001`; a 7-character value gains `-01` and becomes 10 long; any other length is kept |
| TimeLiteral.NormalisedShape | prepare.py:76-81 | the year-zero fix and the year-month padding change only the first four characters, or append `-01` to a 7-character value |
| TimeLiteral.TimestampHandedOn | prepare.py:83-85 | the FITS conversion is handed the marker followed by the parser's timestamp zero-padded to 20 characters, and its answer, or `TimeError`, is the result |
| TimeLiteral.StampShape | prepare.py:84 | the marker plus a zero-filled timestamp is 21 characters: the marker, then zeros, then the timestamp |
| Classifier.IsSubjectDatetime | prepare.py:114-121 | `is_subject_datetime`; `Classifier.DatetimeWhateverPrecedes` and `Classifier.DatetimeNeedsExactSuffix` state when it holds and when not |
| Classifier.DatetimeWhateverPrecedes | prepare.py:14-17 | whatever precedes them, the four datatype suffixes make a line temporal |
| Classifier.SuffixesClash | prepare.py:114-121 | two suffixes that differ at the same distance from the end cannot both end a line |
| Classifier.DatetimeNeedsExactSuffix | prepare.py:114-121 | a line whose object is typed as a time of day is not temporal, and a temporal line ends with `>\t.\n` |
| Classifier.IsAdsTopic | prepare.py:96-103 | `is_ads_topic`; `Strings.Contains` states it as an if-and-only-if on an occurrence, and `Classifier.AdsAnywhere` its true case |
| Classifier.AdsAnywhere | prepare.py:96-103 | the ads-topic predicate makes a line excluded wherever it occurs |
| Classifier.WordRun | prepare.py:9 | the word-character run at a position is maximal |
| Classifier.TagEnd | prepare.py:9 | where the greedy match ends; `Classifier.TagEndIsLongest` states that it is a match and the longest from its start |
| Classifier.SearchFrom | prepare.py:9 | the scan finds nothing exactly when no `"@` followed by two word characters starts at or after the position; otherwise it reports the leftmost such start, with the greedy end |
| Classifier.NoLongerMatch | prepare.py:9 | no text that fits the pattern from a match start ends after the greedy end |
| Classifier.TagEndIsLongest | prepare.py:9 | the greedy end gives a text that fits the pattern, and is the longest from that start |
| Classifier.IsLanguagePresent | prepare.py:105-112 | `is_language_present`; `Classifier.LanguagePresentMeaning` states it against the regular expression |
| Classifier.LanguagePresentMeaning | prepare.py:105-112 | `LANG_REGEX.search` finds a match exactly when some text of the line fits `"@\w{2,3}(-[\w\d]*)?`; the match is the leftmost such text, and the longest from its start |
| Classifier.TagAfterPlainText | prepare.py:105-108 | text without `@`, then `"@` and a 2- or 3-character tag not followed by a word character or `-`, gives exactly the span of `"@` plus the tag |
| Classifier.NoQuoteNoTag | prepare.py:109-111 | a line without `"` has no language tag |
| Rewriter.PrepareSubject | prepare.py:87-94 | `prepare_subject`; `Rewriter.PrepareSubjectShape`, `Rewriter.PrepareSubjectReadBack` and `Rewriter.PrepareSubjectHasNoTab` state its shape and that it reads back |
| Rewriter.ObjectValue | prepare.py:131 | an empty object or one opening with `"^^` gives the empty value; otherwise the value is the text from the second character up to the first `"^^`, which has no earlier occurrence and is followed by one unless the object ends first |
| Rewriter.NumeralChars | prepare.py:94 | the decimal form of an integer is digits, with a `-` only in front |
| Rewriter.QuotedValue | prepare.py:131 | the lexical value of `"text"^^…` is `text` when the text has no quote and does not open with `^` |
| Rewriter.PrepareSubjectShape | prepare.py:87-94 | the canonical literal opens with a quote and ends with `"^^<http://www.w3.org/2001/XMLSchema#int>` |
| Rewriter.PrepareSubjectReadBack | prepare.py:87-94 | the lexical value of the canonical literal is the decimal form of the number, and reads back as the number |
| Rewriter.PrepareSubjectHasNoTab | prepare.py:94 | the canonical literal contains no tab, so it stays one field |
| Rewriter.ConvertObject | prepare.py:130-137 | the `"T` branch; `Pipeline.TemporalLineRewritten` and `Rewriter.RewriteKeepsOtherFields` state its use |
| Rewriter.RewriteTemporal | prepare.py:128-138 | the temporal branch; `Rewriter.RewriteKeepsOtherFields` states when it fails and which field it changes |
| Rewriter.RewriteKeepsOtherFields | prepare.py:128-138 | a temporal line fails exactly when it has fewer than three fields or its object does not convert; otherwise the rewritten line has the same fields, except the third, which is the canonical literal and reads back as the converted value |
| Pipeline.SchemaEntry | prepare.py:144 | the schema line; `Pipeline.SchemaEntryInjective` states that it identifies its predicate |
| Pipeline.Step | prepare.py:127-146 | one iteration of the loop; `Pipeline.StepFailure`, `Pipeline.StepAccepts`, `Pipeline.TemporalLineRewritten` and `Pipeline.PlainLineCopied` state what it does |
| Pipeline.Run | prepare.py:124-146 | the loop as a fold; `Pipeline.Prepare` is proved equal to it, and `Pipeline.RunOutput`, `Pipeline.RunSchema`, `Pipeline.RunConsistent` and `Pipeline.RunStopsAtFirstFailure` state what it does |
| Pipeline.SchemaEntryInjective | prepare.py:144 | distinct predicates give distinct schema lines |
| Pipeline.Prepare | prepare.py:124-146 | the loop, with the recorded-predicate set, standard output and the schema file in local variables, ends in the state `Run` gives |
| Pipeline.FailureAbsorbs | prepare.py:124-146 | after the first exception the remaining lines change nothing |
| Pipeline.RunOnlyAppends | prepare.py:126-146 | the recorded predicates, standard output and the schema file only grow, and a failure stays |
| Pipeline.StepOnlyAppends | prepare.py:127-146 | one iteration only adds to the set, the output and the schema, and keeps an earlier failure |
| Pipeline.FirstFailing | prepare.py:127-146 | the index of the first line that raises: no line before it raises, and the line at it does |
| Pipeline.NoFailingLine | prepare.py:127-146 | when no line raises, the run does not fail |
| Pipeline.RunStopsAtFirstFailure | prepare.py:127-146 | the run fails with the exception of the first line that raises, with the state after the lines before it; when no line raises, it does not fail |
| Pipeline.StepFailure | prepare.py:127-146 | an iteration raises exactly its line's exception, whatever the state |
| Pipeline.StepAccepts | prepare.py:127-146 | an iteration that raises nothing appends the line's output, and records the line's predicate with its schema line only when the predicate is new |
| Pipeline.DistinctMeaning | prepare.py:142-144 | keeping first occurrences keeps every predicate and repeats none |
| Pipeline.RunOutput | prepare.py:127-146 | a run without failure writes, in order, the rewrite of every temporal line and every other line that lacks the ads predicate |
| Pipeline.RunSchema | prepare.py:126-144 | a run without failure records exactly the predicates of the language-tagged non-temporal lines, and writes one schema line per predicate, in order of first occurrence |
| Pipeline.StepKeepsConsistent | prepare.py:140-144 | an iteration keeps the schema free of repeats and in step with the recorded set |
| Pipeline.RunConsistent | prepare.py:126-144 | in every state, failed or not, no schema line appears twice, and a predicate is recorded exactly when its schema line has been written |
| Pipeline.OutputBound | prepare.py:138-146 | at most one output line and one schema line per input line |
| Pipeline.TemporalLineRewritten | prepare.py:128-138 | a temporal line is written as its rewrite and never filtered or recorded, whatever ads predicate or tag it carries; a failed rewrite writes nothing |
| Pipeline.PlainLineCopied | prepare.py:139-146 | a non-temporal line is copied unchanged exactly when it lacks the ads predicate; its predicate is recorded exactly when the line has a tag and the predicate is new, and exclusion does not prevent the recording |

## Left out

- Reading the gzip dump, opening the schema file in append mode and writing to standard output
  are I/O. The input is a sequence of lines. The two outputs are sequences of the lines
  written during this run; the schema file's earlier contents are not modelled.
- `parser.parse(…, default=DEFAULT_DATE).astimezone(tz.UTC).strftime(…)` from dateutil, and
  the two astropy `Time(…).unix` conversions with their `int()`, are code outside the model.
  They are the function values of `TimeLiteral.Converters`: a parser failure is `ParseError`
  and a FITS failure is `TimeError`. Their numeric results, including the epoch values in the
  `time_to_unix` doctests, are not modelled.
- Strings.ParseInt: models `int()` on an optional sign followed by ASCII digits only. It does
  not accept the surrounding whitespace, the underscores or the non-ASCII digits that Python's
  `int()` also accepts. It also has no digit limit. Since CPython 3.11 (and the 2022 security
  releases of 3.7 to 3.10), `int()` of a numeral longer than 4300 digits raises `ValueError`,
  and so does `str()` of such a number at prepare.py:94. The model returns a value in both
  cases.
- Classifier.IsWordChar: `\w` is read as ASCII letters, digits and `_`. Python's Unicode
  `\w` also matches non-ASCII letters and digits, so a tag like `"@ук` is a match in the
  source but not in the model.
- Classifier.IsLanguagePresent: returns the match span, not a `re.Match` object. The pipeline
  only uses whether there is a match.
- The `__main__` entry point is left out. It only calls `prepare`.
- The doctests with concrete values are not evaluated on their literal strings. General
  lemmas cover them instead:
  - `TimeLiteral.TimeOfDay` covers the four `time_to_seconds` doctests, including `T10:30:30`
    worth 37830 seconds.
  - `Classifier.TagAfterPlainText` and `Classifier.NoQuoteNoTag` cover the two
    `is_language_present` doctests.
  - `Classifier.AdsAnywhere` covers the true `is_ads_topic` doctest. The false one
    (prepare.py:98-99) rests only on the if-and-only-if of `Strings.Contains`; no lemma states
    it for that line.
  - `Classifier.DatetimeWhateverPrecedes` covers the true `is_subject_datetime` doctest.
    `Classifier.DatetimeNeedsExactSuffix` covers the false one (prepare.py:118-119): that line
    ends with `k\t.\n`, not `>\t.\n`.
- Python strings are sequences of code points; the model's strings are sequences of Dafny
  `char`. No encoding or normalisation is modelled.
