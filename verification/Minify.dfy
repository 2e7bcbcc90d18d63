/** The lossless minifier with its out-of-band recovery stream, and the gates it is evaluated behind. */
module Minify {
  import opened Base
  import opened Varint
  import opened JsonGrammar
  import opened Lexical
  import opened Validator

  datatype Transform = Transform(candidate: bytes, recovery: bytes)

  /** `bounds` and `validate_recovery_inputs`: candidate size, and candidate and recovery together. */
  predicate InBounds(candidate: bytes, recovery: bytes, limits: Limits) {
    Len64(|candidate|) <= limits.maxOutput && SatAdd(Len64(|candidate|), Len64(|recovery|)) <= limits.maxMemory
  }

  /** `bounded_vec` and `bounds`: a copy of the input fits as the recovery of the candidate. */
  predicate CopyFits(candidate: bytes, input: bytes, limits: Limits) {
    Len64(|input|) <= limits.maxOutput && Len64(|input|) <= limits.maxMemory && InBounds(candidate, input, limits)
  }

  /** How every structural projection ends. */
  function WithCopy(candidate: bytes, input: bytes, limits: Limits): Result<Transform, TransformError> {
    if CopyFits(candidate, input, limits) then Ok(Transform(candidate, input)) else Err(ResourceLimit)
  }

  predicate FitsMemory(length: nat, limits: Limits) {
    Len64(length) <= limits.maxMemory
  }

  // ----- The recovery stream -----

  function EncodeRun(run: Run): bytes {
    Encode(Len64(run.at)) + Encode(Len64(|run.ws|)) + run.ws
  }

  function EncodeRuns(runs: seq<Run>): bytes {
    if runs == [] then [] else EncodeRun(runs[0]) + EncodeRuns(runs[1..])
  }

  // ----- What transform computes -----

  function Transformed(input: bytes, limits: Limits, lib: Library): Result<Transform, TransformError> {
    match Verdict(input, limits, lib)
    case Err(e) => Err(e)
    case Ok(_) =>
      var t := Transform(Minified(input, Code), EncodeRuns(Runs(input, Code, 0)));
      if InBounds(t.candidate, t.recovery, limits) then Ok(t) else Err(ResourceLimit)
  }

  function Flags(inString: bool, escaped: bool): Lex {
    if !inString then Code else if escaped then Escaped else Quoted
  }

  /** From `index` on the scan still has to produce what is missing of the whole. */
  ghost predicate Producing(input: bytes, index: nat, st: Lex, candidate: bytes, recovery: bytes)
    requires index <= |input|
  {
    && candidate + Minified(input[index..], st) == Minified(input, Code)
    && recovery + EncodeRuns(Runs(input[index..], st, |candidate|)) == EncodeRuns(Runs(input, Code, 0))
  }

  lemma ProduceByte(input: bytes, index: nat, st: Lex, candidate: bytes, recovery: bytes)
    requires index < |input| && !Dropped(st, input[index]) && Producing(input, index, st, candidate, recovery)
    ensures Producing(input, index + 1, Step(st, input[index]), candidate + [input[index]], recovery)
  {
    hide EncodeRuns;
    var s := input[index..];
    assert s[1..] == input[index + 1..];
    HeadAssoc(candidate, [s[0]], Minified(s[1..], Step(st, s[0])));
  }

  lemma ProduceRun(input: bytes, index: nat, candidate: bytes, recovery: bytes, n: nat)
    requires index < |input| && AsciiWs(input[index]) && Producing(input, index, Code, candidate, recovery)
    requires n == AsciiRun(input[index..])
    ensures Producing(input, index + n, Code, candidate,
                      recovery + EncodeRun(Run(|candidate|, input[index..index + n])))
  {
    hide EncodeRun;
    var s := input[index..];
    assert s[n..] == input[index + n..] && s[..n] == input[index..index + n];
    MinifiedSkipsRun(s, n);
    var run, tail := Run(|candidate|, s[..n]), Runs(s[n..], Code, |candidate|);
    assert ([run] + tail)[1..] == tail;
    HeadAssoc(recovery, EncodeRun(run), EncodeRuns(tail));
  }

  /** `JsonMinify::transform`. */
  method TransformJson(input: bytes, limits: Limits, lib: Library) returns (r: Result<Transform, TransformError>)
    requires |input| <= U64_MAX
    ensures r == Transformed(input, limits, lib)
  {
    hide Minified, Runs, EncodeRuns, EncodeRun, Verdict, Parse;
    var valid, _ := ValidateJson(input, limits, lib);
    if valid.Err? {
      return Err(valid.error);
    }
    var candidate, recovery: bytes := [], [];
    var inString, escaped := false, false;
    var index := 0;
    StartProducing(input);
    while index < |input|
      invariant 0 <= index <= |input|
      invariant !inString ==> !escaped
      invariant Producing(input, index, Flags(inString, escaped), candidate, recovery)
    {
      var b := input[index];
      if !inString && AsciiWs(b) {
        var start := index;
        ghost var n := AsciiRun(input[start..]);
        while index < |input| && AsciiWs(input[index])
          invariant start <= index <= |input|
          invariant index + AsciiRun(input[index..]) == start + n
        {
          assert input[index..][1..] == input[index + 1..];
          index := index + 1;
        }
        ProduceRun(input, start, candidate, recovery, n);
        recovery := WriteRun(recovery, |candidate|, input[start..index]);
        continue;
      }
      ProduceByte(input, index, Flags(inString, escaped), candidate, recovery);
      candidate := candidate + [b];
      if inString {
        if escaped {
          escaped := false;
        } else if b == BACKSLASH {
          escaped := true;
        } else if b == QUOTE {
          inString := false;
        }
      } else if b == QUOTE {
        inString := true;
      }
      index := index + 1;
    }
    EndProducing(input, Flags(inString, escaped), candidate, recovery);
    if !InBounds(candidate, recovery, limits) {
      return Err(ResourceLimit);
    }
    return Ok(Transform(candidate, recovery));
  }

  lemma StartProducing(input: bytes)
    ensures Producing(input, 0, Code, [], [])
  {
    assert input[0..] == input;
  }

  lemma EndProducing(input: bytes, st: Lex, candidate: bytes, recovery: bytes)
    requires Producing(input, |input|, st, candidate, recovery)
    ensures candidate == Minified(input, Code) && recovery == EncodeRuns(Runs(input, Code, 0))
  {
  }

  /** `write_varint` of the position, then `write_bytes` of the run. */
  method WriteRun(recovery: bytes, at: nat, ws: bytes) returns (r: bytes)
    ensures r == recovery + EncodeRun(Run(at, ws))
  {
    hide Encode;
    r := WriteVarint(recovery, Len64(at));
    r := WriteVarint(r, Len64(|ws|));
    r := r + ws;
  }

  // ----- What recover computes -----

  /** The loop of `recover`; `total` is the length of the whole recovery stream. */
  function RecoverInto(out: bytes, candidate: bytes, source: nat, recovery: bytes, total: nat, limits: Limits)
    : Result<bytes, TransformError>
    requires source <= |candidate| && |recovery| <= total
    decreases |recovery|
  {
    if recovery == [] then
      if FitsMemory(|out + candidate[source..]|, limits) then Ok(out + candidate[source..]) else Err(ResourceLimit)
    else
      match Decode(recovery)
      case Err(e) => Err(e)
      case Ok((at, r1)) =>
        if at < source || at > |candidate| then Err(InvalidInput)
        else
          match Decode(r1)
          case Err(e) => Err(e)
          case Ok((n, r2)) =>
            if total - |r2| + n > U64_MAX then Err(ResourceLimit)
            else if n > |r2| then Err(InvalidInput)
            else
              var out' := out + candidate[source..at] + r2[..n];
              if !FitsMemory(|out'|, limits) then Err(ResourceLimit)
              else RecoverInto(out', candidate, at, r2[n..], total, limits)
  }

  function Recovered(candidate: bytes, recovery: bytes, limits: Limits): Result<bytes, TransformError> {
    if !InBounds(candidate, recovery, limits) then Err(ResourceLimit)
    else RecoverInto([], candidate, 0, recovery, |recovery|, limits)
  }

  /** `JsonMinify::recover`, on any candidate and any recovery stream. */
  method RecoverJson(candidate: bytes, recovery: bytes, limits: Limits) returns (r: Result<bytes, TransformError>)
    ensures r == Recovered(candidate, recovery, limits)
  {
    hide Decode, InBounds, FitsMemory;
    if !InBounds(candidate, recovery, limits) {
      return Err(ResourceLimit);
    }
    var cursor, source := 0, 0;
    var output: bytes := [];
    assert recovery[0..] == recovery;
    while cursor < |recovery|
      invariant 0 <= cursor <= |recovery| && source <= |candidate|
      invariant RecoverInto(output, candidate, source, recovery[cursor..], |recovery|, limits)
                == RecoverInto([], candidate, 0, recovery, |recovery|, limits)
      decreases |recovery| - cursor
    {
      var position, next := ReadVarint(recovery, cursor);
      if position.Err? {
        return Err(position.error);
      }
      var at := position.value;
      if at < source || at > |candidate| {
        return Err(InvalidInput);
      }
      var length, body := ReadVarint(recovery, next);
      if length.Err? {
        return Err(length.error);
      }
      if body + length.value > U64_MAX {
        return Err(ResourceLimit);
      }
      if body + length.value > |recovery| {
        return Err(InvalidInput);
      }
      var end := body + length.value;
      assert recovery[body..][..length.value] == recovery[body..end];
      assert recovery[body..][length.value..] == recovery[end..];
      output := output + candidate[source..at] + recovery[body..end];
      source := at;
      cursor := end;
      if !FitsMemory(|output|, limits) {
        return Err(ResourceLimit);
      }
    }
    output := output + candidate[source..];
    if !FitsMemory(|output|, limits) {
      return Err(ResourceLimit);
    }
    return Ok(output);
  }

  // ----- Exact recovery -----

  predicate SmallRuns(runs: seq<Run>) {
    forall i :: 0 <= i < |runs| ==> runs[i].at <= U64_MAX && |runs[i].ws| <= U64_MAX
  }

  lemma {:induction false} RecoverRuns(out: bytes, candidate: bytes, source: nat, runs: seq<Run>, total: nat,
                                       limits: Limits)
    requires source <= |candidate| && Ordered(runs, source, |candidate|) && SmallRuns(runs)
    requires |EncodeRuns(runs)| <= total <= U64_MAX
    requires FitsMemory(|out| + |Restore(candidate, runs, source)|, limits)
    ensures RecoverInto(out, candidate, source, EncodeRuns(runs), total, limits)
            == Ok(out + Restore(candidate, runs, source))
    decreases |runs|
  {
    hide EncodeRun, RecoverInto;
    if runs == [] {
      RecoverEnd(out, candidate, source, total, limits);
    } else {
      var Run(at, ws) := runs[0];
      var restored := Restore(candidate, runs[1..], at);
      RecoverRun(out, candidate, source, runs[0], EncodeRuns(runs[1..]), total, limits);
      HeadAssoc(out + candidate[source..at], ws, restored);
      HeadAssoc(out, candidate[source..at], ws + restored);
      HeadAssoc(candidate[source..at], ws, restored);
      RecoverRuns(out + candidate[source..at] + ws, candidate, at, runs[1..], total, limits);
    }
  }

  lemma RecoverEnd(out: bytes, candidate: bytes, source: nat, total: nat, limits: Limits)
    requires source <= |candidate| && FitsMemory(|out| + |candidate| - source, limits)
    ensures RecoverInto(out, candidate, source, [], total, limits) == Ok(out + candidate[source..])
  {
  }

  /** One record of the stream, read back. */
  lemma RecoverRun(out: bytes, candidate: bytes, source: nat, run: Run, tail: bytes, total: nat, limits: Limits)
    requires source <= run.at <= |candidate| && run.at <= U64_MAX && |run.ws| <= U64_MAX
    requires |EncodeRun(run) + tail| <= total <= U64_MAX
    requires FitsMemory(|out| + run.at - source + |run.ws|, limits)
    ensures RecoverInto(out, candidate, source, EncodeRun(run) + tail, total, limits)
            == RecoverInto(out + candidate[source..run.at] + run.ws, candidate, run.at, tail, total, limits)
  {
    hide Encode, Decode, RecoverInto, FitsMemory;
    var Run(at, ws) := run;
    var r1 := Encode(|ws|) + (ws + tail);
    RoundTrip(at, r1);
    RoundTrip(|ws|, ws + tail);
    assert EncodeRun(run) + tail == Encode(at) + r1;
    assert (ws + tail)[..|ws|] == ws && (ws + tail)[|ws|..] == tail;
    RecoverStep(out, candidate, source, Encode(at) + r1, total, limits, at, r1, |ws|, ws + tail);
  }

  lemma RecoverStep(out: bytes, candidate: bytes, source: nat, recovery: bytes, total: nat, limits: Limits,
                    at: nat, r1: bytes, n: nat, r2: bytes)
    requires source <= at <= |candidate| && |recovery| <= total <= U64_MAX && n <= |r2|
    requires Decode(recovery) == Ok((at, r1)) && Decode(r1) == Ok((n, r2))
    requires FitsMemory(|out| + at - source + n, limits)
    ensures |r2| <= total
    ensures RecoverInto(out, candidate, source, recovery, total, limits)
            == RecoverInto(out + candidate[source..at] + r2[..n], candidate, at, r2[n..], total, limits)
  {
    hide Decode, FitsMemory;
    assert |out + candidate[source..at] + r2[..n]| == |out| + at - source + n;
  }

  /** No machine holds more bytes than this; below it the recovery stream of an input is addressable too. */
  const ADDRESSABLE: nat := 0x0400_0000_0000_0000

  lemma {:induction false} RecoverySize(s: bytes, st: Lex, kept: nat)
    requires kept + |s| <= U64_MAX
    ensures |EncodeRuns(Runs(s, st, kept))| <= 21 * |s|
    decreases |s|
  {
    hide Encode;
    if s != [] {
      if Dropped(st, s[0]) {
        var n := AsciiRun(s);
        RecoverySize(s[n..], st, kept);
        EncodeLength64(kept);
        EncodeLength64(n);
        var tail := Runs(s[n..], st, kept);
        assert ([Run(kept, s[..n])] + tail)[1..] == tail;
      } else {
        RecoverySize(s[1..], Step(st, s[0]), kept + 1);
      }
    }
  }

  /** Each run costs at least its own bytes, so candidate and recovery together are never shorter than the input. */
  lemma {:induction false} RunsCoverInput(s: bytes, st: Lex, kept: nat)
    requires kept + |s| <= U64_MAX
    ensures |s| <= |Minified(s, st)| + |EncodeRuns(Runs(s, st, kept))|
    ensures SmallRuns(Runs(s, st, kept))
    decreases |s|
  {
    hide Encode;
    if s != [] {
      if Dropped(st, s[0]) {
        var n := AsciiRun(s);
        MinifiedSkipsRun(s, n);
        RunsCoverInput(s[n..], st, kept);
        var tail := Runs(s[n..], st, kept);
        assert ([Run(kept, s[..n])] + tail)[1..] == tail;
      } else {
        RunsCoverInput(s[1..], Step(st, s[0]), kept + 1);
      }
    }
  }

  /**
    Whatever `transform` produces, `recover` under the same limits gives back the input byte for byte. A stream is
    addressable when its length fits the machine word, as that of every vector in memory does.
   */
  lemma RecoveryExact(input: bytes, limits: Limits, lib: Library)
    requires |input| <= U64_MAX && Transformed(input, limits, lib).Ok?
    requires |Transformed(input, limits, lib).value.recovery| <= U64_MAX
    ensures var t := Transformed(input, limits, lib).value;
            Recovered(t.candidate, t.recovery, limits) == Ok(input)
  {
    hide Minified, EncodeRuns, Runs, Restore, RecoverInto, Parse, Check;
    var t := Transformed(input, limits, lib).value;
    RestoreRuns([], input, Code);
    assert [] + Minified(input, Code) == t.candidate;
    RunsCoverInput(input, Code, 0);
    RecoverRuns([], t.candidate, 0, Runs(input, Code, 0), |t.recovery|, limits);
    assert [] + input == input;
  }

  /**
    The candidate is again a document with the same tree, white space erased; minifying it changes nothing and leaves
    nothing to recover.
   */
  lemma MeaningPreserved(input: bytes, limits: Limits, lib: Library)
    requires Transformed(input, limits, lib).Ok?
    ensures Grammatical(input)
    ensures var c := Transformed(input, limits, lib).value.candidate;
            && Parse(c) == Some(StripDocument(Parse(input).value))
            && Minified(c, Code) == c && EncodeRuns(Runs(c, Code, 0)) == []
            && |c| <= |input|
  {
    hide Parse, Check;
    MinifiedDocument(input);
    MinifiedTwice(input, Code, 0);
    MinifiedShorter(input, Code);
  }

  lemma {:induction false} MinifiedShorter(s: bytes, st: Lex)
    ensures |Minified(s, st)| <= |s|
  {
    if s != [] {
      MinifiedShorter(s[1..], if Dropped(st, s[0]) then st else Step(st, s[0]));
    }
  }

  // ----- The evaluation gates -----

  datatype CandidateStatus =
    | CandidateApplicable
    | CandidateNotApplicable
    | CandidateNoImprovement
    | CandidateResourceLimit
    | CandidateInvalidInput
    | CandidateRecoveryFailed
    | CandidateInternalError

  function StatusFor(error: TransformError): CandidateStatus {
    match error
    case NotApplicable => CandidateNotApplicable
    case ResourceLimit => CandidateResourceLimit
    case InvalidInput => CandidateInvalidInput
    case Internal => CandidateInternalError
  }

  /** What one evaluation observes: support, two transforms, a recovery, the clock, and the token estimates. */
  datatype Observed = Observed(
    supported: bool,
    first: Result<Transform, TransformError>,
    second: Result<Transform, TransformError>,
    recovered: Result<bytes, TransformError>,
    late: bool,
    inputTokens: Option<nat>,
    outputTokens: Option<nat>)

  /** `evaluate_with_estimator`: the status, and the candidate kept with it. */
  function Evaluate(o: Observed, input: bytes, limits: Limits): (CandidateStatus, Option<bytes>) {
    var size := Len64(|input|);
    if !o.supported then (CandidateNotApplicable, None)
    else if size > limits.maxInput || size > limits.maxMemory then (CandidateResourceLimit, None)
    else if o.first.Err? then (StatusFor(o.first.error), None)
    else if o.second.Err? then (StatusFor(o.second.error), None)
    else
      var candidate := o.first.value.candidate;
      if !InBounds(candidate, o.first.value.recovery, limits) || o.late then (CandidateResourceLimit, None)
      else
        var noTokens := o.inputTokens.Some? && o.outputTokens.Some? && o.outputTokens.value >= o.inputTokens.value;
        var status :=
          if o.first != o.second then CandidateInternalError
          else if o.recovered != Ok(input) then CandidateRecoveryFailed
          else if Len64(|candidate|) >= size || noTokens then CandidateNoImprovement
          else CandidateApplicable;
        (status, Some(candidate))
  }

  /** The observations a run of the minifier can make; the clock and the estimates are arbitrary. */
  ghost predicate ObservesMinify(o: Observed, input: bytes, limits: Limits, lib: Library) {
    && o.first == Transformed(input, limits, lib) && o.second == o.first
    && (o.first.Ok? ==> |o.first.value.recovery| <= U64_MAX
                        && o.recovered == Recovered(o.first.value.candidate, o.first.value.recovery, limits))
  }

  /**
    Recovery and determinism never fail for the minifier. It is applicable exactly when the target is supported, the
    input fits, the transform succeeds in time, and the candidate is smaller, in tokens too where they are known. The
    candidate comes out with a mere lack of improvement too, and in no other case.
   */
  lemma MinifyEvaluation(o: Observed, input: bytes, limits: Limits, lib: Library)
    requires |input| <= U64_MAX && ObservesMinify(o, input, limits, lib)
    ensures var (status, payload) := Evaluate(o, input, limits);
            && status != CandidateRecoveryFailed && status != CandidateInternalError
            && (status.CandidateApplicable? <==>
                && o.supported && Len64(|input|) <= limits.maxInput && Len64(|input|) <= limits.maxMemory
                && Transformed(input, limits, lib).Ok? && !o.late
                && |Minified(input, Code)| < |input|
                && !(o.inputTokens.Some? && o.outputTokens.Some? && o.outputTokens.value >= o.inputTokens.value))
            && (payload.Some? <==> status.CandidateApplicable? || status.CandidateNoImprovement?)
            && (payload.Some? <==>
                && o.supported && Len64(|input|) <= limits.maxInput && Len64(|input|) <= limits.maxMemory
                && Transformed(input, limits, lib).Ok? && !o.late)
            && (payload.Some? ==> payload.value == Minified(input, Code)
                                  && Parse(payload.value) == Some(StripDocument(Parse(input).value))
                                  && Grammatical(input))
  {
    hide Parse, Check, Minified, EncodeRuns, Runs, RecoverInto;
    if Transformed(input, limits, lib).Ok? {
      RecoveryExact(input, limits, lib);
      MeaningPreserved(input, limits, lib);
    } else if |input| <= limits.maxWork && Accepts(lib, input) {
      ValidationExact(input, limits, lib);
    }
  }
}
