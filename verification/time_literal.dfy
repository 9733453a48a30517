/** The time literal parser: `time_to_seconds` for bare times of day and the string
    normalisation of `time_to_unix` for calendar values. The lenient calendar parser and the
    astronomical time library are not modelled; they are the function values of `Converters`. */
module TimeLiteral {
  import opened Results
  import opened Strings

  /** Seconds per hour, per minute and per second: the weights of the `:`-separated parts. */
  const Coefficients: seq<int> := [3600, 60, 1]

  /** `string.replace('T', '').replace('Z', '')`. */
  function StripClock(s: string): (r: string)
    ensures 'T' !in r && 'Z' !in r
    ensures forall d :: d != 'T' && d != 'Z' ==> multiset(r)[d] == multiset(s)[d]
  {
    Remove(Remove(s, 'T'), 'Z')
  }

  /** The sum of `int(parts[k]) * Coefficients[k]` for `k` from `i` on, raising as the list
      comprehension does: `ValueError` on a part that is not an integer, `IndexError` on a
      fourth part. */
  function WeightedSum(parts: seq<string>, i: nat): (r: Result<int>)
    requires i <= |parts|
    decreases |parts| - i
  {
    if i == |parts| then Ok(0)
    else match ParseInt(parts[i])
      case Err(e) => Err(e)
      case Ok(v) =>
        if i >= |Coefficients| then Err(IndexError)
        else match WeightedSum(parts, i + 1)
          case Err(e) => Err(e)
          case Ok(rest) => Ok(v * Coefficients[i] + rest)
  }

  /** `time_to_seconds`: a time of day `Thh[:mm[:ss]][Z]` as seconds since midnight. */
  function TimeToSeconds(s: string): Result<int>
  {
    WeightedSum(Split(StripClock(s), ':'), 0)
  }

  /** Reference reading of a part list: hours, minutes and seconds in turn, a missing part
      counting as 0. */
  function PartValue(parts: seq<string>, k: nat): int
  {
    if k < |parts| && ParseInt(parts[k]).Ok? then ParseInt(parts[k]).value else 0
  }

  function ClockValue(parts: seq<string>, i: nat): int
    decreases 3 - i
  {
    if i >= 3 then 0 else PartValue(parts, i) * Coefficients[i] + ClockValue(parts, i + 1)
  }

  predicate PartsParse(parts: seq<string>, i: nat) {
    forall k :: i <= k < |parts| ==> ParseInt(parts[k]).Ok?
  }

  lemma {:induction false} WeightedSumMeaning(parts: seq<string>, i: nat)
    requires i <= |parts|
    ensures WeightedSum(parts, i).Ok? <==> PartsParse(parts, i) && (|parts| <= 3 || i == |parts|)
    ensures WeightedSum(parts, i).Ok? ==> WeightedSum(parts, i).value == ClockValue(parts, i)
    ensures WeightedSum(parts, i).Err? && PartsParse(parts, i) ==> WeightedSum(parts, i).error == IndexError
    ensures WeightedSum(parts, i).Err? && |parts| <= 3 ==> WeightedSum(parts, i).error == ValueError
    ensures WeightedSum(parts, i).Err? ==>
      WeightedSum(parts, i).error == ValueError || WeightedSum(parts, i).error == IndexError
    ensures WeightedSum(parts, i).Err? ==>
      (WeightedSum(parts, i).error == IndexError <==>
         (|parts| > 3 && i <= 3 && forall k :: i <= k <= 3 ==> ParseInt(parts[k]).Ok?)
         || (3 < i < |parts| && ParseInt(parts[i]).Ok?))
    decreases |parts| - i
  {
    if i < |parts| {
      WeightedSumMeaning(parts, i + 1);
      if i + 1 == |parts| && i < 3 {
        ClockAfterParts(parts, i + 1);
      }
    } else if i < 3 {
      ClockAfterParts(parts, i);
    }
  }

  lemma {:induction false} ClockAfterParts(parts: seq<string>, i: nat)
    requires |parts| <= i
    ensures ClockValue(parts, i) == 0
    decreases 3 - i
  {
    if i < 3 {
      ClockAfterParts(parts, i + 1);
    }
  }

  lemma ClockParts(parts: seq<string>)
    ensures WeightedSum(parts, 0).Ok? <==> |parts| <= 3 && PartsParse(parts, 0)
    ensures WeightedSum(parts, 0).Ok? ==>
      WeightedSum(parts, 0).value == PartValue(parts, 0) * 3600 + PartValue(parts, 1) * 60 + PartValue(parts, 2)
  {
    WeightedSumMeaning(parts, 0);
    ClockValueOfParts(parts);
  }

  lemma ClockValueOfParts(parts: seq<string>)
    ensures ClockValue(parts, 0) == PartValue(parts, 0) * 3600 + PartValue(parts, 1) * 60 + PartValue(parts, 2)
  {
    assert Coefficients[0] == 3600 && Coefficients[1] == 60 && Coefficients[2] == 1;
    assert ClockValue(parts, 3) == 0;
    assert ClockValue(parts, 2) == PartValue(parts, 2);
    assert ClockValue(parts, 1) == PartValue(parts, 1) * 60 + PartValue(parts, 2);
  }

  lemma ClockPartsError(parts: seq<string>)
    ensures WeightedSum(parts, 0).Err? && |parts| <= 3 ==> WeightedSum(parts, 0).error == ValueError
    ensures WeightedSum(parts, 0).Err? && PartsParse(parts, 0) ==> WeightedSum(parts, 0).error == IndexError
  {
    WeightedSumMeaning(parts, 0);
  }

  /** `time_to_seconds` succeeds exactly on one to three integer parts once every `T` and `Z`
      is gone, and returns hours * 3600 + minutes * 60 + seconds with missing parts as 0;
      otherwise it raises `IndexError` when the first four parts are integers and `ValueError`
      when one of them is not. */
  lemma TimeToSecondsMeaning(s: string)
    ensures var parts := Split(StripClock(s), ':');
      && (TimeToSeconds(s).Ok? <==> |parts| <= 3 && PartsParse(parts, 0))
      && (TimeToSeconds(s).Ok? ==>
            TimeToSeconds(s).value == PartValue(parts, 0) * 3600 + PartValue(parts, 1) * 60 + PartValue(parts, 2))
      && (TimeToSeconds(s).Err? && |parts| <= 3 ==> TimeToSeconds(s).error == ValueError)
      && (TimeToSeconds(s).Err? && PartsParse(parts, 0) ==> TimeToSeconds(s).error == IndexError)
      && (TimeToSeconds(s).Err? ==> TimeToSeconds(s).error == ValueError || TimeToSeconds(s).error == IndexError)
      && (TimeToSeconds(s).Err? ==>
            (TimeToSeconds(s).error == IndexError <==>
               |parts| > 3 && forall k :: 0 <= k <= 3 ==> ParseInt(parts[k]).Ok?))
  {
    var parts := Split(StripClock(s), ':');
    ClockParts(parts);
    ClockPartsError(parts);
    WeightedSumMeaning(parts, 0);
  }

  predicate IsClockText(text: string) {
    forall i :: 0 <= i < |text| ==> IsDigit(text[i]) || text[i] == ':'
  }

  lemma {:induction false} ClockTextChars(fields: seq<string>)
    requires forall k :: 0 <= k < |fields| ==> IsDigits(fields[k])
    ensures IsClockText(Join(fields, ':'))
    decreases |fields|
  {
    if |fields| == 1 {
      assert IsDigits(fields[0]);
    } else if |fields| > 1 {
      assert forall k :: 0 <= k < |fields[1..]| ==> IsDigits(fields[1..][k]) by {
        forall k | 0 <= k < |fields[1..]| ensures IsDigits(fields[1..][k]) {
          assert fields[1..][k] == fields[k + 1];
        }
      }
      ClockTextChars(fields[1..]);
      var rest := Join(fields[1..], ':');
      var text := fields[0] + [':'] + rest;
      assert IsDigits(fields[0]);
      assert IsClockText(rest);
      forall i | 0 <= i < |text| ensures IsDigit(text[i]) || text[i] == ':' {
        if i < |fields[0]| {
          assert text[i] == fields[0][i];
          assert IsDigit(fields[0][i]);
        } else if i > |fields[0]| {
          var j := i - |fields[0]| - 1;
          assert text[i] == rest[j];
          assert IsDigit(rest[j]) || rest[j] == ':';
        }
      }
    }
  }

  /** The literal `T` + the fields joined by `:`, with or without a trailing `Z`. */
  function ClockLiteral(fields: seq<string>, zulu: bool): string
  {
    "T" + Join(fields, ':') + (if zulu then "Z" else "")
  }

  /** A well-formed time of day `Thh[:mm[:ss]]`, with or without a trailing `Z`, is worth
      hh * 3600 + mm * 60 + ss seconds. */
  lemma TimeOfDay(fields: seq<string>, zulu: bool)
    requires 1 <= |fields| <= 3
    requires forall k :: 0 <= k < |fields| ==> |fields[k]| > 0 && AllDigits(fields[k])
    ensures TimeToSeconds(ClockLiteral(fields, zulu))
         == Ok(DigitsValue(fields[0]) * 3600
               + (if |fields| > 1 then DigitsValue(fields[1]) * 60 else 0)
               + (if |fields| > 2 then DigitsValue(fields[2]) else 0))
  {
    forall k | 0 <= k < |fields| ensures ':' !in fields[k] && ParseInt(fields[k]) == Ok(DigitsValue(fields[k])) {
      DigitField(fields[k]);
    }
    ClockLiteralParts(fields, zulu);
    assert TimeToSeconds(ClockLiteral(fields, zulu)) == WeightedSum(fields, 0);
    assert PartsParse(fields, 0);
    ClockParts(fields);
    assert PartValue(fields, 0) == DigitsValue(fields[0]);
    assert PartValue(fields, 1) == if |fields| > 1 then DigitsValue(fields[1]) else 0;
    assert PartValue(fields, 2) == if |fields| > 2 then DigitsValue(fields[2]) else 0;
  }

  /** The clock literal strips and splits back into its fields. */
  lemma ClockLiteralParts(fields: seq<string>, zulu: bool)
    requires |fields| >= 1
    requires forall k :: 0 <= k < |fields| ==> |fields[k]| > 0 && AllDigits(fields[k])
    ensures Split(StripClock(ClockLiteral(fields, zulu)), ':') == fields
  {
    var text := Join(fields, ':');
    assert forall k :: 0 <= k < |fields| ==> IsDigits(fields[k]);
    ClockTextChars(fields);
    StripClockOfTime(text, zulu);
    forall k | 0 <= k < |fields| ensures ':' !in fields[k] {
      DigitField(fields[k]);
    }
    SplitJoin(fields, ':');
  }

  lemma DigitField(field: string)
    requires |field| > 0 && AllDigits(field)
    ensures ':' !in field && ParseInt(field) == Ok(DigitsValue(field))
  {
    assert IsDigits(field);
    assert forall i :: 0 <= i < |field| ==> IsDigit(field[i]);
  }

  lemma StripClockOfTime(text: string, zulu: bool)
    requires IsClockText(text)
    ensures StripClock("T" + text + (if zulu then "Z" else "")) == text
  {
    var zone := if zulu then "Z" else "";
    assert forall i :: 0 <= i < |text| ==> text[i] != 'T' && text[i] != 'Z';
    assert 'T' !in text && 'Z' !in text;
    var stamped := "T" + text + zone;
    RemoveLeadingT(text, zone);
    RemoveAppend(text, zone, 'Z');
    assert zulu ==> Remove(zone, 'Z') == "";
    assert !zulu ==> Remove(zone, 'Z') == "";
  }

  lemma RemoveLeadingT(text: string, zone: string)
    requires 'T' !in text && 'T' !in zone
    ensures Remove("T" + text + zone, 'T') == text + zone
  {
    var rest := text + zone;
    assert "T" + text + zone == "T" + rest;
    assert 'T' !in rest;
    RemoveAppend("T", rest, 'T');
    assert Remove("T", 'T') == "";
  }

  /** The calls `time_to_unix` makes into code outside the model. */
  datatype Converters = Converters(
    // `parser.parse(text, default=DEFAULT_DATE).astimezone(tz.UTC).strftime("%Y-%m-%dT%X")`,
    // None where the parser raises
    calendarParse: string -> Option<string>,
    // `int(Time(year, format='jyear', scale='utc').unix)`
    julianYearUnix: int -> int,
    // `int(Time(text, format='fits').unix)`, None where the library raises
    fitsUnix: string -> Option<int>)

  /** BC years at or below this one bypass the calendar parser. */
  const AntiquityThreshold: int := -4800

  /** The width `zfill` pads the formatted timestamp to. */
  const TimestampWidth: nat := 20

  /** What `time_to_unix` does with a literal once its string steps are done: the Julian-year
      shortcut for a year, or the calendar path with its epoch marker and normalised text. */
  datatype Route = Antiquity(year: int) | Calendar(marker: char, literal: string)

  predicate IsBc(s: string) {
    StartsWith(s, "-")
  }

  /** The shortcut guard `is_bc and len(string) == 5 and int(string) <= -4800`, whose `int`
      is evaluated (and may raise) only when the first two conjuncts hold. */
  predicate GuardReachesInt(s: string) {
    IsBc(s) && |s| == 5
  }

  /** `if string.startswith('0000'): string = string.replace('0000', '0001', 1)`. */
  function FixYearZero(s: string): string
  {
    if StartsWith(s, "0000") then ReplaceFirst(s, "0000", "0001") else s
  }

  /** `if len(string) == 7: string += '-01'`. */
  function PadYearMonth(s: string): string
  {
    if |s| == 7 then s + "-01" else s
  }

  /** The string steps of `time_to_unix`, in the order the source takes them. */
  function RouteLiteral(s: string): Result<Route>
  {
    if GuardReachesInt(s) && ParseInt(s).Err? then Err(ParseInt(s).error)
    else if GuardReachesInt(s) && ParseInt(s).value <= AntiquityThreshold then Ok(Antiquity(ParseInt(s).value))
    else
      var marker := if IsBc(s) then '-' else '+';
      var unsigned := if IsBc(s) then s[1..] else s;
      Ok(Calendar(marker, PadYearMonth(FixYearZero(unsigned))))
  }

  /** `time_to_unix`: a calendar literal as signed seconds since the Unix epoch. */
  function TimeToUnix(s: string, conv: Converters): Result<int>
  {
    match RouteLiteral(s)
    case Err(e) => Err(e)
    case Ok(Antiquity(year)) => Ok(conv.julianYearUnix(year))
    case Ok(Calendar(marker, literal)) =>
      match conv.calendarParse(literal)
      case None => Err(ParseError)
      case Some(formatted) =>
        match conv.fitsUnix([marker] + ZFill(formatted, TimestampWidth))
        case None => Err(TimeError)
        case Some(seconds) => Ok(seconds)
  }

  /** The shortcut is taken exactly for a 5-character BC literal whose integer value is at
      most -4800, and the year handed on is that value; such a literal that is not an integer
      makes the run fail; every other literal takes the calendar path. */
  lemma AntiquityExactly(s: string, conv: Converters)
    ensures RouteLiteral(s).Err? <==> IsBc(s) && |s| == 5 && ParseInt(s).Err?
    ensures RouteLiteral(s).Err? ==> RouteLiteral(s).error == ValueError
    ensures (RouteLiteral(s).Ok? && RouteLiteral(s).value.Antiquity?)
        <==> IsBc(s) && |s| == 5 && ParseInt(s).Ok? && ParseInt(s).value <= -4800
    ensures RouteLiteral(s).Ok? && RouteLiteral(s).value.Antiquity? ==>
      RouteLiteral(s).value.year == ParseInt(s).value
      && TimeToUnix(s, conv) == Ok(conv.julianYearUnix(ParseInt(s).value))
  {
  }

  /** On a four-digit BC year the shortcut is taken exactly for the years 4800 and older. */
  lemma AntiquityYears(s: string)
    requires |s| == 5 && s[0] == '-' && IsDigits(s[1..])
    ensures RouteLiteral(s).Ok?
    ensures RouteLiteral(s).value.Antiquity? <==> DigitsValue(s[1..]) >= 4800
    ensures RouteLiteral(s).value.Antiquity? ==> RouteLiteral(s).value.year == -(DigitsValue(s[1..]) as int)
    ensures RouteLiteral(s).value.Calendar? ==>
      RouteLiteral(s).value == Calendar('-', if DigitsValue(s[1..]) == 0 then "0001" else s[1..])
  {
    var digits := s[1..];
    assert IsBc(s);
    assert !IsDigits(s) by { assert !IsDigit(s[0]); }
    assert ParseInt(s) == Ok(-(DigitsValue(digits) as int));
    if StartsWith(digits, "0000") {
      assert digits == "0000";
      ReplaceFirstAtStart(digits, "0000", "0001");
      assert forall i :: 0 <= i < |digits| ==> digits[i] == "0000"[i];
      ZeroDigits(digits);
    } else {
      assert DigitsValue(digits) != 0 by {
        var i :| 0 <= i < 4 && digits[i] != '0';
        NonZeroDigit(digits, i);
      }
    }
  }

  lemma {:induction false} ZeroDigits(digits: string)
    requires forall i :: 0 <= i < |digits| ==> digits[i] == '0'
    ensures AllDigits(digits) && DigitsValue(digits) == 0
    decreases |digits|
  {
    if |digits| > 0 {
      ZeroDigits(digits[..|digits| - 1]);
    }
  }

  lemma {:induction false} NonZeroDigit(digits: string, i: nat)
    requires AllDigits(digits) && i < |digits| && digits[i] != '0'
    ensures DigitsValue(digits) > 0
    decreases |digits|
  {
    if i < |digits| - 1 {
      NonZeroDigit(digits[..|digits| - 1], i);
    }
  }

  /** On the calendar path exactly one leading `-` is removed and decides the epoch marker; a
      leading `0000` has only those four characters changed, to `0001`; a 7-character value
      gains `-01` and becomes 10 characters long; any other length is kept. */
  lemma CalendarLiteral(s: string)
    requires RouteLiteral(s).Ok? && RouteLiteral(s).value.Calendar?
    ensures var unsigned := if IsBc(s) then s[1..] else s;
      var literal := RouteLiteral(s).value.literal;
      && RouteLiteral(s).value.marker == (if IsBc(s) then '-' else '+')
      && |literal| == (if |unsigned| == 7 then 10 else |unsigned|)
      && (StartsWith(unsigned, "0000") ==> literal[..4] == "0001" && literal[4..|unsigned|] == unsigned[4..])
      && (!StartsWith(unsigned, "0000") ==> literal[..|unsigned|] == unsigned)
      && (|unsigned| == 7 ==> literal[7..] == "-01")
  {
    var unsigned := if IsBc(s) then s[1..] else s;
    assert RouteLiteral(s).value.literal == PadYearMonth(FixYearZero(unsigned));
    NormalisedShape(unsigned);
  }

  lemma NormalisedShape(unsigned: string)
    ensures var literal := PadYearMonth(FixYearZero(unsigned));
      && |literal| == (if |unsigned| == 7 then 10 else |unsigned|)
      && (StartsWith(unsigned, "0000") ==> literal[..4] == "0001" && literal[4..|unsigned|] == unsigned[4..])
      && (!StartsWith(unsigned, "0000") ==> literal[..|unsigned|] == unsigned)
      && (|unsigned| == 7 ==> literal[7..] == "-01")
  {
    var fixed := FixYearZero(unsigned);
    if StartsWith(unsigned, "0000") {
      ReplaceFirstAtStart(unsigned, "0000", "0001");
      assert fixed == "0001" + unsigned[4..];
    }
    assert |fixed| == |unsigned|;
    var literal := PadYearMonth(fixed);
    assert literal[..|unsigned|] == fixed;
  }

  /** On the calendar path the astronomical library is handed the epoch marker followed by
      the parser's timestamp zero-padded to 20 characters. */
  lemma TimestampHandedOn(s: string, conv: Converters, formatted: string)
    requires RouteLiteral(s).Ok? && RouteLiteral(s).value.Calendar?
    requires conv.calendarParse(RouteLiteral(s).value.literal) == Some(formatted)
    requires !HasSign(formatted) && |formatted| <= TimestampWidth
    ensures var stamp := [RouteLiteral(s).value.marker] + ZFill(formatted, TimestampWidth);
      && |stamp| == 21
      && stamp[0] == (if IsBc(s) then '-' else '+')
      && stamp[21 - |formatted|..] == formatted
      && (forall i :: 1 <= i < 21 - |formatted| ==> stamp[i] == '0')
      && TimeToUnix(s, conv) == (if conv.fitsUnix(stamp).Some? then Ok(conv.fitsUnix(stamp).value) else Err(TimeError))
  {
    CalendarLiteral(s);
    StampShape(RouteLiteral(s).value.marker, formatted);
  }

  lemma StampShape(marker: char, formatted: string)
    requires !HasSign(formatted) && |formatted| <= TimestampWidth
    ensures var stamp := [marker] + ZFill(formatted, TimestampWidth);
      && |stamp| == 21
      && stamp[0] == marker
      && stamp[21 - |formatted|..] == formatted
      && (forall i :: 1 <= i < 21 - |formatted| ==> stamp[i] == '0')
  {
    var z := ZFill(formatted, TimestampWidth);
    var stamp := [marker] + z;
    assert stamp[1..] == z;
    assert stamp[21 - |formatted|..] == z[20 - |formatted|..];
  }
}
