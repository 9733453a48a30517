/** The streaming pass over the dump: every temporal triple is rewritten, every other triple
    is copied unless it carries the ads-topic predicate, and each predicate seen with a
    language-tagged literal is recorded once in the schema. */
module Pipeline {
  import opened Results
  import opened Strings
  import opened TimeLiteral
  import opened Classifier
  import opened Rewriter

  /** The schema line recorded for a predicate that carries language-tagged literals. */
  function SchemaEntry(name: string): string
  {
    name + ":\tstring\t@lang\t.\n"
  }

  lemma SchemaEntryInjective(p: string, q: string)
    ensures SchemaEntry(p) == SchemaEntry(q) ==> p == q
  {
    if SchemaEntry(p) == SchemaEntry(q) {
      assert |p| == |q|;
      assert SchemaEntry(p)[..|p|] == p;
      assert SchemaEntry(q)[..|q|] == q;
    }
  }

  /** What the pass has done so far: the predicates recorded, the lines written to standard
      output, the lines appended to the schema file, and the exception that stopped it. */
  datatype State = State(seen: set<string>, output: seq<string>, schema: seq<string>, failure: Option<Error>)

  const Start: State := State({}, [], [], None)

  /** One iteration of the loop over the dump. Once an exception has been raised nothing
      more happens; what was already written stays written. */
  function Step(st: State, line: string, conv: Converters): State
  {
    if st.failure.Some? then st
    else if IsSubjectDatetime(line) then
      match RewriteTemporal(line, conv)
        case Err(e) => st.(failure := Some(e))
        case Ok(rewritten) => st.(output := st.output + [rewritten])
    else
      var parts := Split(line, '\t');
      var tagged := IsLanguagePresent(line).Some?;
      if tagged && |parts| < 2 then st.(failure := Some(IndexError))
      else
        var recorded :=
          if tagged && parts[1] !in st.seen
          then st.(seen := st.seen + {parts[1]}, schema := st.schema + [SchemaEntry(parts[1])])
          else st;
        if IsAdsTopic(line) then recorded else recorded.(output := recorded.output + [line])
  }

  /** The state after the loop has consumed `lines`, in order. */
  function Run(lines: seq<string>, conv: Converters): State
    decreases |lines|
  {
    if |lines| == 0 then Start else Step(Run(lines[..|lines| - 1], conv), lines[|lines| - 1], conv)
  }

  /** `prepare`: the loop over the dump, with the set of recorded predicates, standard output
      and the schema file held in local variables. */
  method Prepare(lines: seq<string>, conv: Converters) returns (run: State)
    ensures run == Run(lines, conv)
  {
    var seen: set<string> := {};
    var output: seq<string> := [];
    var schema: seq<string> := [];
    var i := 0;
    while i < |lines|
      invariant 0 <= i <= |lines|
      invariant Run(lines[..i], conv) == State(seen, output, schema, None)
    {
      var line := lines[i];
      assert lines[..i + 1][..i] == lines[..i];
      if IsSubjectDatetime(line) {
        var rewritten := RewriteTemporal(line, conv);
        if rewritten.Err? {
          FailureAbsorbs(lines, i + 1, conv);
          return State(seen, output, schema, Some(rewritten.error));
        }
        output := output + [rewritten.value];
      } else {
        if IsLanguagePresent(line).Some? {
          var parts := Split(line, '\t');
          if |parts| < 2 {
            FailureAbsorbs(lines, i + 1, conv);
            return State(seen, output, schema, Some(IndexError));
          }
          var name := parts[1];
          if name !in seen {
            seen := seen + {name};
            schema := schema + [SchemaEntry(name)];
          }
        }
        if !IsAdsTopic(line) {
          output := output + [line];
        }
      }
      i := i + 1;
    }
    assert lines[..i] == lines;
    return State(seen, output, schema, None);
  }

  /** After the first exception the remaining lines change nothing. */
  lemma {:induction false} FailureAbsorbs(lines: seq<string>, n: nat, conv: Converters)
    requires n <= |lines|
    requires Run(lines[..n], conv).failure.Some?
    ensures Run(lines, conv) == Run(lines[..n], conv)
    decreases |lines|
  {
    if n < |lines| {
      var prefix := lines[..|lines| - 1];
      assert prefix[..n] == lines[..n];
      FailureAbsorbs(prefix, n, conv);
    } else {
      assert lines[..n] == lines;
    }
  }

  /** Output, schema and the recorded predicates only grow: nothing written is taken back. */
  lemma {:induction false} RunOnlyAppends(lines: seq<string>, n: nat, conv: Converters)
    requires n <= |lines|
    ensures Run(lines[..n], conv).seen <= Run(lines, conv).seen
    ensures Run(lines[..n], conv).output <= Run(lines, conv).output
    ensures Run(lines[..n], conv).schema <= Run(lines, conv).schema
    ensures Run(lines[..n], conv).failure.Some? ==> Run(lines, conv).failure == Run(lines[..n], conv).failure
    decreases |lines|
  {
    if n < |lines| {
      var prefix := lines[..|lines| - 1];
      assert prefix[..n] == lines[..n];
      RunOnlyAppends(prefix, n, conv);
      StepOnlyAppends(Run(prefix, conv), lines[|lines| - 1], conv);
    } else {
      assert lines[..n] == lines;
    }
  }

  lemma StepOnlyAppends(st: State, line: string, conv: Converters)
    ensures var next := Step(st, line, conv);
      && st.seen <= next.seen && st.output <= next.output && st.schema <= next.schema
      && (st.failure.Some? ==> next.failure == st.failure)
  {
  }

  /** The exception a line raises, whatever the state: a temporal line whose rewrite fails,
      or a language-tagged line without a second tab-separated field. */
  function LineFailure(line: string, conv: Converters): Option<Error>
  {
    if IsSubjectDatetime(line) then
      match RewriteTemporal(line, conv)
        case Err(e) => Some(e)
        case Ok(_) => None
    else if IsLanguagePresent(line).Some? && |Split(line, '\t')| < 2 then Some(IndexError)
    else None
  }

  /** The index of the first line that raises, or the number of lines when none does. */
  function FirstFailing(lines: seq<string>, conv: Converters): (k: nat)
    ensures k <= |lines|
    ensures forall j :: 0 <= j < k ==> LineFailure(lines[j], conv).None?
    ensures k < |lines| ==> LineFailure(lines[k], conv).Some?
    decreases |lines|
  {
    if |lines| == 0 then 0
    else if LineFailure(lines[0], conv).Some? then 0
    else
      var k := 1 + FirstFailing(lines[1..], conv);
      assert forall j :: 1 <= j < |lines| ==> lines[j] == lines[1..][j - 1];
      k
  }

  /** Lines none of which raises leave the pass without failure. */
  lemma {:induction false} NoFailingLine(lines: seq<string>, conv: Converters)
    requires forall j :: 0 <= j < |lines| ==> LineFailure(lines[j], conv).None?
    ensures Run(lines, conv).failure.None?
    decreases |lines|
  {
    if |lines| > 0 {
      var prefix := lines[..|lines| - 1];
      assert forall j :: 0 <= j < |prefix| ==> prefix[j] == lines[j];
      NoFailingLine(prefix, conv);
      StepFailure(Run(prefix, conv), lines[|lines| - 1], conv);
    }
  }

  /** The pass stops at the first line that raises, with that line's exception, its state
      otherwise being that after the lines before it; when no line raises, it does not
      fail. */
  lemma RunStopsAtFirstFailure(lines: seq<string>, conv: Converters)
    ensures var k := FirstFailing(lines, conv);
      Run(lines, conv).failure == (if k < |lines| then LineFailure(lines[k], conv) else None)
    ensures var k := FirstFailing(lines, conv);
      k < |lines| ==> Run(lines, conv) == Run(lines[..k], conv).(failure := LineFailure(lines[k], conv))
  {
    var k := FirstFailing(lines, conv);
    if k == |lines| {
      NoFailingLine(lines, conv);
    } else {
      var before := lines[..k];
      assert forall j :: 0 <= j < k ==> before[j] == lines[j];
      NoFailingLine(before, conv);
      var upto := lines[..k + 1];
      assert upto[..k] == before && upto[k] == lines[k];
      StepFailure(Run(before, conv), lines[k], conv);
      FailureAbsorbs(lines, k + 1, conv);
    }
  }

  /** A step raises exactly the exception of its line, and otherwise leaves a failed state
      alone. */
  lemma StepFailure(st: State, line: string, conv: Converters)
    ensures st.failure.Some? ==> Step(st, line, conv) == st
    ensures st.failure.None? && LineFailure(line, conv).Some? ==>
      Step(st, line, conv) == st.(failure := LineFailure(line, conv))
    ensures st.failure.None? && LineFailure(line, conv).None? ==> Step(st, line, conv).failure.None?
  {
  }

  /** What a line contributes to standard output when it raises nothing. */
  function LineOutput(line: string, conv: Converters): seq<string>
  {
    if IsSubjectDatetime(line) then
      match RewriteTemporal(line, conv)
        case Ok(rewritten) => [rewritten]
        case Err(_) => []
    else if IsAdsTopic(line) then []
    else [line]
  }

  /** The lines written to standard output, line by line, independently of the schema. */
  function Emitted(lines: seq<string>, conv: Converters): seq<string>
    decreases |lines|
  {
    if |lines| == 0 then [] else Emitted(lines[..|lines| - 1], conv) + LineOutput(lines[|lines| - 1], conv)
  }

  /** The predicate a non-temporal language-tagged line contributes to the schema. */
  function LinePredicate(line: string): seq<string>
  {
    var parts := Split(line, '\t');
    if !IsSubjectDatetime(line) && IsLanguagePresent(line).Some? && |parts| >= 2 then [parts[1]] else []
  }

  /** A step that raises nothing appends the line's output, and records the line's predicate
      with its schema line when it is new. */
  lemma StepAccepts(st: State, line: string, conv: Converters)
    requires st.failure.None? && LineFailure(line, conv).None?
    ensures var next := Step(st, line, conv);
      && next.output == st.output + LineOutput(line, conv)
      && next.seen == st.seen + (if LinePredicate(line) != [] then {LinePredicate(line)[0]} else {})
      && next.schema == st.schema +
           (if LinePredicate(line) != [] && LinePredicate(line)[0] !in st.seen
            then [SchemaEntry(LinePredicate(line)[0])] else [])
  {
  }

  /** The predicates of all language-tagged non-temporal lines, in order, repeats included. */
  function TaggedPredicates(lines: seq<string>): seq<string>
    decreases |lines|
  {
    if |lines| == 0 then [] else TaggedPredicates(lines[..|lines| - 1]) + LinePredicate(lines[|lines| - 1])
  }

  /** The first occurrence of every element, in order. */
  function Distinct(s: seq<string>): seq<string>
    decreases |s|
  {
    if |s| == 0 then []
    else if s[|s| - 1] in s[..|s| - 1] then Distinct(s[..|s| - 1])
    else Distinct(s[..|s| - 1]) + [s[|s| - 1]]
  }

  predicate NoDuplicates(s: seq<string>)
  {
    forall i, j :: 0 <= i < j < |s| ==> s[i] != s[j]
  }

  /** `Distinct` keeps every element and repeats none. */
  lemma {:induction false} DistinctMeaning(s: seq<string>)
    ensures forall x :: x in Distinct(s) <==> x in s
    ensures NoDuplicates(Distinct(s))
    decreases |s|
  {
    if |s| > 0 {
      var prefix := s[..|s| - 1];
      DistinctMeaning(prefix);
      assert s == prefix + [s[|s| - 1]];
    }
  }

  /** A pass that raises nothing writes, in order, the rewrite of every temporal line and
      every other line without the ads predicate. */
  lemma {:induction false} RunOutput(lines: seq<string>, conv: Converters)
    ensures Run(lines, conv).failure.None? ==> Run(lines, conv).output == Emitted(lines, conv)
    decreases |lines|
  {
    if |lines| > 0 && Run(lines, conv).failure.None? {
      var prefix := lines[..|lines| - 1];
      var line := lines[|lines| - 1];
      assert Run(lines, conv) == Step(Run(prefix, conv), line, conv);
      StepFailure(Run(prefix, conv), line, conv);
      StepAccepts(Run(prefix, conv), line, conv);
      RunOutput(prefix, conv);
    }
  }

  /** A pass that raises nothing records exactly the predicates of its language-tagged
      non-temporal lines, and appends one schema line per predicate, at its first
      occurrence. */
  lemma {:induction false} RunSchema(lines: seq<string>, conv: Converters)
    ensures Run(lines, conv).failure.None? ==>
      forall p :: p in Run(lines, conv).seen <==> p in TaggedPredicates(lines)
    ensures Run(lines, conv).failure.None? ==>
      var recorded := Distinct(TaggedPredicates(lines));
      && |Run(lines, conv).schema| == |recorded|
      && forall i :: 0 <= i < |recorded| ==> Run(lines, conv).schema[i] == SchemaEntry(recorded[i])
    decreases |lines|
  {
    if |lines| > 0 && Run(lines, conv).failure.None? {
      var prefix := lines[..|lines| - 1];
      var line := lines[|lines| - 1];
      var st := Run(prefix, conv);
      assert Run(lines, conv) == Step(st, line, conv);
      StepFailure(st, line, conv);
      StepAccepts(st, line, conv);
      RunSchema(prefix, conv);
      var before := TaggedPredicates(prefix);
      var now := TaggedPredicates(lines);
      assert now == before + LinePredicate(line);
      if LinePredicate(line) != [] {
        assert now[..|now| - 1] == before;
        assert now[|now| - 1] == LinePredicate(line)[0];
      } else {
        assert now == before;
      }
    }
  }

  /** A run's schema stays consistent with its recorded predicates: no schema line twice,
      and a predicate is recorded exactly when its schema line has been written. */
  ghost predicate Consistent(st: State)
  {
    && NoDuplicates(st.schema)
    && (forall p :: p in st.seen <==> SchemaEntry(p) in st.schema)
  }

  lemma StepKeepsConsistent(st: State, line: string, conv: Converters)
    requires Consistent(st)
    ensures Consistent(Step(st, line, conv))
  {
    var next := Step(st, line, conv);
    if next.schema != st.schema {
      var p := Split(line, '\t')[1];
      assert next.schema == st.schema + [SchemaEntry(p)] && next.seen == st.seen + {p};
      assert SchemaEntry(p) !in st.schema;
      forall q ensures q in next.seen <==> SchemaEntry(q) in next.schema {
        SchemaEntryInjective(p, q);
      }
    }
  }

  /** Every state the pass reaches, failed or not, is consistent. */
  lemma {:induction false} RunConsistent(lines: seq<string>, conv: Converters)
    ensures Consistent(Run(lines, conv))
    decreases |lines|
  {
    if |lines| > 0 {
      RunConsistent(lines[..|lines| - 1], conv);
      StepKeepsConsistent(Run(lines[..|lines| - 1], conv), lines[|lines| - 1], conv);
    }
  }

  /** At most one output line per input line. */
  lemma {:induction false} OutputBound(lines: seq<string>, conv: Converters)
    ensures |Run(lines, conv).output| <= |lines|
    ensures |Run(lines, conv).schema| <= |lines|
    decreases |lines|
  {
    if |lines| > 0 {
      OutputBound(lines[..|lines| - 1], conv);
    }
  }

  /** A temporal line is never filtered and never recorded in the schema, whatever ads
      predicate or language tag it carries. */
  lemma TemporalLineRewritten(st: State, line: string, conv: Converters)
    requires st.failure.None?
    requires IsSubjectDatetime(line)
    ensures var next := Step(st, line, conv);
      && next.seen == st.seen && next.schema == st.schema
      && (RewriteTemporal(line, conv).Ok? ==> next.output == st.output + [RewriteTemporal(line, conv).value])
      && (RewriteTemporal(line, conv).Err? ==> next.output == st.output && next.failure == Some(RewriteTemporal(line, conv).error))
  {
  }

  /** A non-temporal line is copied unchanged exactly when it lacks the ads predicate, and
      its predicate is recorded exactly when it carries a language tag and is new. */
  lemma PlainLineCopied(st: State, line: string, conv: Converters)
    requires st.failure.None?
    requires !IsSubjectDatetime(line)
    requires IsLanguagePresent(line).None? || |Split(line, '\t')| >= 2
    ensures var next := Step(st, line, conv);
      && next.failure.None?
      && (next.output == st.output + [line] <==> !IsAdsTopic(line))
      && (IsAdsTopic(line) ==> next.output == st.output)
      && (next.schema != st.schema <==> IsLanguagePresent(line).Some? && Split(line, '\t')[1] !in st.seen)
      && (next.schema != st.schema ==> next.schema == st.schema + [SchemaEntry(Split(line, '\t')[1])])
  {
    assert |st.output + [line]| != |st.output|;
    if IsLanguagePresent(line).Some? {
      var name := Split(line, '\t')[1];
      assert |st.schema + [SchemaEntry(name)]| != |st.schema|;
    }
  }
}
