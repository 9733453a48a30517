/** The literal rewriter: the canonical integer literal, the lexical value of a typed object,
    and the rewrite of a temporal line's object field. */
module Rewriter {
  import opened Results
  import opened Strings
  import opened TimeLiteral

  /** The datatype of the canonical integer literal. */
  const IntDatatype: string := "<http://www.w3.org/2001/XMLSchema#int>"

  /** What separates a typed literal's lexical value from its datatype. */
  const TypedSeparator: string := "\"^^"

  /** `prepare_subject`: `"<seconds>"^^<http://www.w3.org/2001/XMLSchema#int>`. */
  function PrepareSubject(seconds: int): string
  {
    "\"" + IntToString(seconds) + TypedSeparator + IntDatatype
  }

  /** `obj.split('"^^')[0][1:]`: the text after the first character and before the first
      `"^^`, which for a typed literal is its lexical value. */
  function ObjectValue(obj: string): (v: string)
    ensures obj == "" || OccursAt(obj, TypedSeparator, 0) ==> v == ""
    ensures |obj| > 0 && !OccursAt(obj, TypedSeparator, 0) ==>
      && 1 + |v| <= |obj|
      && v == obj[1..1 + |v|]
      && (forall j :: 0 <= j < 1 + |v| ==> !OccursAt(obj, TypedSeparator, j))
      && (1 + |v| < |obj| ==> OccursAt(obj, TypedSeparator, 1 + |v|))
  {
    var before := BeforeFirst(obj, TypedSeparator);
    if |before| == 0 then "" else before[1..]
  }

  lemma {:induction false} NumeralChars(n: int)
    ensures var text := IntToString(n);
      |text| > 0 && forall i :: 0 <= i < |text| ==> IsDigit(text[i]) || (i == 0 && text[i] == '-')
  {
    var digits := NatToString(if n < 0 then -n else n);
    assert IsDigits(digits);
    if n < 0 {
      var text := IntToString(n);
      assert forall i :: 1 <= i < |text| ==> text[i] == digits[i - 1];
    }
  }

  /** The lexical value of a quoted text followed by `"^^` is the text, provided it has no
      quote and does not open with `^`. */
  lemma QuotedValue(text: string, rest: string)
    requires |text| > 0 && '"' !in text && text[0] != '^'
    ensures ObjectValue("\"" + text + TypedSeparator + rest) == text
  {
    var opening := "\"" + text;
    var s := opening + TypedSeparator + rest;
    assert "\"" + text + TypedSeparator + rest == s;
    OccursInMiddle(opening, TypedSeparator, rest);
    assert s[..|opening|] == opening;
    forall j | 0 <= j < |opening| ensures !OccursAt(s, TypedSeparator, j) {
      if j == 0 {
        assert s[1] == text[0];
        assert s[j..][..3][1] == s[1];
      } else {
        assert s[j] == text[j - 1];
        assert s[j..][..3][0] == s[j];
      }
    }
    BeforeFirstAt(s, TypedSeparator, opening);
    assert opening[1..] == text;
  }

  /** The canonical literal opens with a quote and ends with the `int` datatype. */
  lemma PrepareSubjectShape(seconds: int)
    ensures StartsWith(PrepareSubject(seconds), "\"")
    ensures EndsWith(PrepareSubject(seconds), TypedSeparator + IntDatatype)
  {
    var opening := "\"" + IntToString(seconds);
    EndsWithAppend(opening, TypedSeparator + IntDatatype);
    assert PrepareSubject(seconds) == opening + (TypedSeparator + IntDatatype);
    assert PrepareSubject(seconds)[0] == '"';
  }

  /** The lexical value of the canonical literal reads back as the number: `prepare_subject`
      loses nothing. */
  lemma PrepareSubjectReadBack(seconds: int)
    ensures ObjectValue(PrepareSubject(seconds)) == IntToString(seconds)
    ensures ParseInt(ObjectValue(PrepareSubject(seconds))) == Ok(seconds)
  {
    var text := IntToString(seconds);
    NumeralChars(seconds);
    assert '"' !in text;
    QuotedValue(text, IntDatatype);
    ParseIntToString(seconds);
  }

  lemma DatatypeHasNoTab()
    ensures '\t' !in TypedSeparator + IntDatatype
  {
  }

  /** The canonical literal has no tab, so it stays one field of a tab-separated line. */
  lemma PrepareSubjectHasNoTab(seconds: int)
    ensures '\t' !in PrepareSubject(seconds)
  {
    var text := IntToString(seconds);
    NumeralChars(seconds);
    assert '\t' !in text;
    DatatypeHasNoTab();
    assert PrepareSubject(seconds) == "\"" + text + (TypedSeparator + IntDatatype);
  }

  /** The branch at the object: a time of day (`"T…`) goes to `time_to_seconds`, anything
      else to `time_to_unix`, in both cases on the object's lexical value. */
  function ConvertObject(obj: string, conv: Converters): Result<int>
  {
    if StartsWith(obj, "\"T") then TimeToSeconds(ObjectValue(obj)) else TimeToUnix(ObjectValue(obj), conv)
  }

  /** The rewrite of a temporal line: its third tab-separated field replaced by the canonical
      literal; a line with fewer than three fields raises `IndexError`. */
  function RewriteTemporal(line: string, conv: Converters): Result<string>
  {
    var parts := Split(line, '\t');
    if |parts| < 3 then Err(IndexError)
    else match ConvertObject(parts[2], conv)
      case Err(e) => Err(e)
      case Ok(n) => Ok(Join(parts[2 := PrepareSubject(n)], '\t'))
  }

  /** The rewrite fails exactly when the line has fewer than three fields or its object does
      not convert; otherwise the tab-separated fields of the result are those of the line,
      except the third, which is the canonical literal whose value reads back as the
      converted number. */
  lemma RewriteKeepsOtherFields(line: string, conv: Converters)
    ensures var parts := Split(line, '\t');
      RewriteTemporal(line, conv).Err? <==> |parts| < 3 || ConvertObject(parts[2], conv).Err?
    ensures var parts := Split(line, '\t');
      RewriteTemporal(line, conv).Ok? ==>
        var fields := Split(RewriteTemporal(line, conv).value, '\t');
        && |fields| == |parts|
        && (forall k :: 0 <= k < |parts| && k != 2 ==> fields[k] == parts[k])
        && fields[2] == PrepareSubject(ConvertObject(parts[2], conv).value)
        && ParseInt(ObjectValue(fields[2])) == ConvertObject(parts[2], conv)
  {
    var parts := Split(line, '\t');
    if |parts| >= 3 && ConvertObject(parts[2], conv).Ok? {
      var n := ConvertObject(parts[2], conv).value;
      var updated := parts[2 := PrepareSubject(n)];
      PrepareSubjectHasNoTab(n);
      assert forall k :: 0 <= k < |updated| ==> '\t' !in updated[k];
      SplitJoin(updated, '\t');
      PrepareSubjectReadBack(n);
    }
  }
}
