/** The Python `str` operations the dump transformer relies on, on `string`, a sequence of
    characters standing for the code points a Python `str` indexes. */
module Strings {
  import opened Results

  predicate StartsWith(s: string, prefix: string) {
    |prefix| <= |s| && s[..|prefix|] == prefix
  }

  predicate EndsWith(s: string, suffix: string) {
    |suffix| <= |s| && s[|s| - |suffix|..] == suffix
  }

  /** `sub` occurs in `s` starting at index `j`. */
  predicate OccursAt(s: string, sub: string, j: int) {
    0 <= j <= |s| && StartsWith(s[j..], sub)
  }

  lemma EndsWithAppend(prefix: string, suffix: string)
    ensures EndsWith(prefix + suffix, suffix)
  {
    assert (prefix + suffix)[|prefix|..] == suffix;
  }

  lemma {:induction false} OccursAtShift(s: string, sub: string, j: int)
    requires |s| > 0 && 0 <= j
    ensures OccursAt(s, sub, j + 1) <==> OccursAt(s[1..], sub, j)
  {
    if j + 1 <= |s| {
      assert s[j + 1..] == s[1..][j..];
    }
  }

  lemma OccursInMiddle(a: string, sub: string, b: string)
    ensures OccursAt(a + sub + b, sub, |a|)
  {
    assert (a + sub + b)[|a|..][..|sub|] == sub;
  }

  /** `sub in s`, by scanning the start positions from `i` on. */
  function ContainsFrom(s: string, sub: string, i: nat): (b: bool)
    ensures b <==> exists j :: i <= j && OccursAt(s, sub, j)
    decreases |s| - i
  {
    if i + |sub| > |s| then
      assert forall j :: i <= j ==> !OccursAt(s, sub, j);
      false
    else
      OccursAt(s, sub, i) || ContainsFrom(s, sub, i + 1)
  }

  /** Python's `sub in s`. */
  function Contains(s: string, sub: string): (b: bool)
    ensures b <==> exists j :: OccursAt(s, sub, j)
  {
    ContainsFrom(s, sub, 0)
  }

  /** `s.split(c)` for a one-character separator: the maximal runs between separators,
      always at least one (the empty string splits into `[""]`). */
  function Split(s: string, c: char): (parts: seq<string>)
    ensures |parts| >= 1
    ensures forall k :: 0 <= k < |parts| ==> c !in parts[k]
    decreases |s|
  {
    if |s| == 0 then [""]
    else
      var rest := Split(s[1..], c);
      if s[0] == c then [""] + rest
      else [[s[0]] + rest[0]] + rest[1..]
  }

  /** `c.join(parts)`. */
  function Join(parts: seq<string>, c: char): string
  {
    if |parts| == 0 then ""
    else if |parts| == 1 then parts[0]
    else parts[0] + [c] + Join(parts[1..], c)
  }

  /** Joining the parts of a split gives back the string. */
  lemma {:induction false} JoinSplit(s: string, c: char)
    ensures Join(Split(s, c), c) == s
    decreases |s|
  {
    if |s| > 0 {
      var rest := Split(s[1..], c);
      JoinSplit(s[1..], c);
      if s[0] == c {
        assert Split(s, c) == [""] + rest;
        assert ([""] + rest)[1..] == rest;
        assert s == [c] + s[1..];
      } else if |rest| == 1 {
        assert Split(s, c) == [[s[0]] + rest[0]];
        assert s == [s[0]] + s[1..];
      } else {
        var parts := Split(s, c);
        assert parts == [[s[0]] + rest[0]] + rest[1..];
        assert parts[1..] == rest[1..];
        assert Join(rest, c) == rest[0] + [c] + Join(rest[1..], c);
        assert s == [s[0]] + s[1..];
      }
    }
  }

  lemma {:induction false} SplitWithoutSeparator(p: string, c: char)
    requires c !in p
    ensures Split(p, c) == [p]
    decreases |p|
  {
    if |p| > 0 {
      assert c !in p[1..] by {
        forall k | 0 <= k < |p[1..]| ensures p[1..][k] != c { assert p[1..][k] == p[k + 1]; }
      }
      SplitWithoutSeparator(p[1..], c);
      assert [p[0]] + p[1..] == p;
    }
  }

  lemma {:induction false} SplitAfterField(p: string, c: char, t: string)
    requires c !in p
    ensures Split(p + [c] + t, c) == [p] + Split(t, c)
    decreases |p|
  {
    var s := p + [c] + t;
    if |p| == 0 {
      assert s[1..] == t;
    } else {
      assert s[1..] == p[1..] + [c] + t;
      assert c !in p[1..] by {
        forall k | 0 <= k < |p[1..]| ensures p[1..][k] != c { assert p[1..][k] == p[k + 1]; }
      }
      SplitAfterField(p[1..], c, t);
      assert [p[0]] + p[1..] == p;
    }
  }

  /** Splitting the join of separator-free parts gives back the parts. */
  lemma {:induction false} SplitJoin(parts: seq<string>, c: char)
    requires |parts| >= 1
    requires forall k :: 0 <= k < |parts| ==> c !in parts[k]
    ensures Split(Join(parts, c), c) == parts
    decreases |parts|
  {
    if |parts| == 1 {
      SplitWithoutSeparator(parts[0], c);
    } else {
      SplitJoin(parts[1..], c);
      SplitAfterField(parts[0], c, Join(parts[1..], c));
      assert [parts[0]] + parts[1..] == parts;
    }
  }

  /** `s.replace(c, '')`: every `c` removed, every other character kept in order. */
  function Remove(s: string, c: char): (r: string)
    ensures c !in r
    ensures forall d :: d in r ==> d in s
    ensures c !in s ==> r == s
    ensures forall d :: d != c ==> multiset(r)[d] == multiset(s)[d]
    decreases |s|
  {
    if |s| == 0 then ""
    else
      var rest := Remove(s[1..], c);
      assert forall d :: d in rest ==> d in s by {
        forall d | d in rest ensures d in s { assert d in s[1..]; }
      }
      assert s == [s[0]] + s[1..];
      (if s[0] == c then "" else [s[0]]) + rest
  }

  /** On one character `Remove` drops it exactly when it is `c`; with `RemoveAppend` this
      makes `Remove` the filter that keeps every other character in order. */
  lemma RemoveOne(d: char, c: char)
    ensures Remove([d], c) == if d == c then "" else [d]
  {
    assert [d][1..] == "";
  }

  lemma {:induction false} RemoveAppend(a: string, b: string, c: char)
    ensures Remove(a + b, c) == Remove(a, c) + Remove(b, c)
    decreases |a|
  {
    if |a| > 0 {
      var head := if a[0] == c then "" else [a[0]];
      assert (a + b)[1..] == a[1..] + b && (a + b)[0] == a[0];
      assert Remove(a + b, c) == head + Remove(a[1..] + b, c);
      assert Remove(a, c) == head + Remove(a[1..], c);
      RemoveAppend(a[1..], b, c);
    } else {
      assert a + b == b;
    }
  }

  /** `s.split(sep)[0]`: the text before the first occurrence of `sep`, or all of `s`. */
  function BeforeFirst(s: string, sep: string): (r: string)
    requires |sep| > 0
    ensures |r| <= |s| && r == s[..|r|]
    ensures forall j :: 0 <= j < |r| ==> !OccursAt(s, sep, j)
    ensures |r| < |s| ==> OccursAt(s, sep, |r|)
    decreases |s|
  {
    if |s| == 0 || StartsWith(s, sep) then ""
    else
      var r := [s[0]] + BeforeFirst(s[1..], sep);
      assert forall j :: 0 <= j < |r| - 1 ==> (OccursAt(s, sep, j + 1) <==> OccursAt(s[1..], sep, j)) by {
        forall j | 0 <= j < |r| - 1 { OccursAtShift(s, sep, j); }
      }
      OccursAtShift(s, sep, |r| - 1);
      assert forall j :: 0 <= j < |r| ==> !OccursAt(s, sep, j) by {
        forall j | 0 <= j < |r| ensures !OccursAt(s, sep, j) {
          if j > 0 { assert !OccursAt(s[1..], sep, j - 1); }
        }
      }
      r
  }

  /** The text before the first occurrence is determined by where that occurrence is. */
  lemma BeforeFirstAt(s: string, sep: string, p: string)
    requires |sep| > 0
    requires OccursAt(s, sep, |p|) && s[..|p|] == p
    requires forall j :: 0 <= j < |p| ==> !OccursAt(s, sep, j)
    ensures BeforeFirst(s, sep) == p
  {
    var r := BeforeFirst(s, sep);
    assert |r| < |p| ==> OccursAt(s, sep, |r|) && !OccursAt(s, sep, |r|);
    assert |r| > |p| ==> OccursAt(s, sep, |p|) && !OccursAt(s, sep, |p|);
  }

  /** `s.replace(target, replacement, 1)`: the first occurrence of `target` replaced by `replacement`. */
  function ReplaceFirst(s: string, target: string, replacement: string): (r: string)
    requires |target| > 0
    ensures !Contains(s, target) ==> r == s
    ensures forall k :: OccursAt(s, target, k) && (forall j :: 0 <= j < k ==> !OccursAt(s, target, j)) ==>
      r == s[..k] + replacement + s[k + |target|..]
  {
    var p := BeforeFirst(s, target);
    forall k | OccursAt(s, target, k) && (forall j :: 0 <= j < k ==> !OccursAt(s, target, j))
      ensures |p| == k
    {
      assert |p| < k ==> OccursAt(s, target, |p|) && !OccursAt(s, target, |p|);
      assert |p| > k ==> OccursAt(s, target, k) && !OccursAt(s, target, k);
    }
    if |p| == |s| then s else p + replacement + s[|p| + |target|..]
  }

  /** When `target` starts the string, only those first characters are rewritten. */
  lemma ReplaceFirstAtStart(s: string, target: string, replacement: string)
    requires |target| > 0 && StartsWith(s, target)
    ensures ReplaceFirst(s, target, replacement) == replacement + s[|target|..]
  {
    assert OccursAt(s, target, 0);
    assert s[..0] + replacement + s[|target|..] == replacement + s[|target|..];
  }

  function Zeros(n: nat): (z: string)
    ensures |z| == n && forall i :: 0 <= i < n ==> z[i] == '0'
  {
    if n == 0 then "" else Zeros(n - 1) + "0"
  }

  predicate HasSign(s: string) {
    |s| > 0 && (s[0] == '+' || s[0] == '-')
  }

  /** `s.zfill(width)`: left-padded with zeros to `width`, the zeros going after a leading sign. */
  function ZFill(s: string, width: nat): (r: string)
    ensures |r| == if |s| >= width then |s| else width
    ensures var k := if HasSign(s) then 1 else 0;
      && r[..k] == s[..k]
      && r[|r| - (|s| - k)..] == s[k..]
      && forall i :: k <= i < |r| - (|s| - k) ==> r[i] == '0'
  {
    if |s| >= width then s
    else if HasSign(s) then [s[0]] + Zeros(width - |s|) + s[1..]
    else Zeros(width - |s|) + s
  }

  predicate IsDigit(c: char) {
    '0' <= c <= '9'
  }

  predicate AllDigits(s: string) {
    forall i :: 0 <= i < |s| ==> IsDigit(s[i])
  }

  /** A non-empty run of ASCII decimal digits. */
  predicate IsDigits(s: string) {
    |s| > 0 && AllDigits(s)
  }

  function DigitValue(c: char): nat
    requires IsDigit(c)
  {
    c as int - '0' as int
  }

  function DigitChar(d: nat): (c: char)
    requires d < 10
    ensures IsDigit(c) && DigitValue(c) == d
  {
    ('0' as int + d) as char
  }

  /** The value of a decimal numeral, most significant digit first. */
  function DigitsValue(s: string): nat
    requires AllDigits(s)
    decreases |s|
  {
    if |s| == 0 then 0 else DigitsValue(s[..|s| - 1]) * 10 + DigitValue(s[|s| - 1])
  }

  /** `int(s)` on an optional `+`/`-` sign followed by decimal digits. */
  function ParseInt(s: string): (r: Result<int>)
    ensures r.Ok? <==> IsDigits(s) || (HasSign(s) && IsDigits(s[1..]))
    ensures r.Err? ==> r.error == ValueError
  {
    if IsDigits(s) then Ok(DigitsValue(s))
    else if HasSign(s) && IsDigits(s[1..]) then
      var magnitude: int := DigitsValue(s[1..]);
      Ok(if s[0] == '-' then -magnitude else magnitude)
    else Err(ValueError)
  }

  /** `str(n)` for a natural number: its shortest decimal numeral. */
  function NatToString(n: nat): (s: string)
    ensures IsDigits(s)
    decreases n
  {
    if n < 10 then [DigitChar(n)] else NatToString(n / 10) + [DigitChar(n % 10)]
  }

  /** `str(n)`, with a `-` for a negative number. */
  function IntToString(n: int): string
  {
    if n < 0 then "-" + NatToString(-n) else NatToString(n)
  }

  lemma {:induction false} NatToStringValue(n: nat)
    ensures DigitsValue(NatToString(n)) == n
    decreases n
  {
    if n >= 10 {
      NatToStringValue(n / 10);
      var s := NatToString(n);
      assert s[..|s| - 1] == NatToString(n / 10);
    }
  }

  /** A numeral without superfluous leading zeros is the one `str` prints for its value. */
  lemma {:induction false} NatToStringOfValue(s: string)
    requires IsDigits(s) && (|s| == 1 || s[0] != '0')
    ensures NatToString(DigitsValue(s)) == s
    decreases |s|
  {
    if |s| > 1 {
      var init := s[..|s| - 1];
      assert init[0] == s[0];
      LeadingDigitPositive(init);
      NatToStringOfValue(init);
      assert s == init + [s[|s| - 1]];
    }
  }

  lemma {:induction false} LeadingDigitPositive(s: string)
    requires IsDigits(s) && s[0] != '0'
    ensures DigitsValue(s) >= 1
    decreases |s|
  {
    if |s| > 1 {
      var init := s[..|s| - 1];
      assert init[0] == s[0];
      LeadingDigitPositive(init);
    }
  }

  /** Reading back what `str` printed gives the number: `int(str(n)) == n`. */
  lemma ParseIntToString(n: int)
    ensures ParseInt(IntToString(n)) == Ok(n)
  {
    if n < 0 {
      NatToStringValue(-n);
      var s := IntToString(n);
      assert s[1..] == NatToString(-n);
      assert !IsDigit(s[0]);
    } else {
      NatToStringValue(n);
    }
  }
}
