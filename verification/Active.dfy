/** The opt-in rewriter: selected spans of a request replaced by their minified form, everything else kept. */
module Active {
  import opened Base
  import opened JsonString
  import opened JsonGrammar
  import opened Lexical
  import opened Validator
  import opened Minify

  datatype Span = Span(start: u64, end: u64, encoded: bool)

  datatype RewriteStatus =
    | Rewritten
    | RewriteNoImprovement
    | RewriteNotApplicable
    | RewriteResourceLimit
    | RewriteInvalidInput
    | RewriteRecoveryFailed
    | RewriteInternalError

  datatype Rewrite = Rewrite(
    status: RewriteStatus,
    body: Option<bytes>,
    rewrites: u32,
    evaluated: u32,
    delta: Option<int>,
    prefix: Option<nat>)

  function Unchanged(status: RewriteStatus, evaluated: u32): Rewrite {
    Rewrite(status, None, 0, evaluated, None, None)
  }

  /** The result without a body, before any span counts. */
  function Refused(status: RewriteStatus): Rewrite {
    Unchanged(status, 0)
  }

  /** One accepted replacement of `input[start..end]`. */
  datatype Patch = Patch(start: nat, end: nat, text: bytes)

  predicate Fatal(status: RewriteStatus) {
    status.RewriteResourceLimit? || status.RewriteInvalidInput? || status.RewriteRecoveryFailed?
    || status.RewriteInternalError?
  }

  function StatusForTransform(error: TransformError): RewriteStatus {
    match error
    case NotApplicable => RewriteNotApplicable
    case ResourceLimit => RewriteResourceLimit
    case InvalidInput => RewriteInvalidInput
    case Internal => RewriteInternalError
  }

  function CommonPrefix(a: bytes, b: bytes): (n: nat)
    ensures n <= |a| && n <= |b| && a[..n] == b[..n]
    ensures n < |a| && n < |b| ==> a[n] != b[n]
  {
    if a == [] || b == [] || a[0] != b[0] then 0
    else
      var n := CommonPrefix(a[1..], b[1..]);
      assert a[..n + 1] == [a[0]] + a[1..][..n] && b[..n + 1] == [b[0]] + b[1..][..n];
      n + 1
  }

  const I64_MAX: nat := 0x7FFF_FFFF_FFFF_FFFF

  /** Positive when the output is smaller; absent when the difference does not fit 64 signed bits. */
  function SignedDelta(input: nat, output: nat): (r: Option<int>)
    ensures r.Some? ==> r.value == input - output
    ensures r.None? <==> input - output > I64_MAX || output - input > I64_MAX
  {
    if output >= input then if output - input <= I64_MAX then Some(-(output - input)) else None
    else if input - output <= I64_MAX then Some(input - output) else None
  }

  // ----- One span -----

  /** Whether the loop gives up on the whole request at this span. */
  predicate Aborts(input: bytes, span: Span, previousEnd: nat) {
    span.start < previousEnd || span.start > span.end || span.end > |input|
  }

  function Raw(input: bytes, span: Span): bytes
    requires span.start <= span.end <= |input|
  {
    input[span.start..span.end]
  }

  function Content(input: bytes, span: Span): Option<bytes>
    requires span.start <= span.end <= |input|
  {
    if span.encoded then ReadString(Raw(input, span)) else Some(Raw(input, span))
  }

  /** How one span ends: it sets the terminal status, only offers NoImprovement, or is accepted. */
  datatype Outcome = Reject(status: RewriteStatus) | NoGain | Accept(text: bytes)

  function Replacement(span: Span, candidate: bytes): bytes {
    if span.encoded then EncodeString(candidate) else candidate
  }

  function OutcomeOf(input: bytes, span: Span, work: u64, limits: Limits, lib: Library): Outcome
    requires span.start <= span.end <= |input|
  {
    match Content(input, span)
    case None => Reject(RewriteInvalidInput)
    case Some(content) =>
      if WorkAfter(input, span, work) > limits.maxWork || Len64(|content|) > limits.maxInput
      then Reject(RewriteResourceLimit)
      else
        match Transformed(content, limits, lib)
        case Err(e) => Reject(StatusForTransform(e))
        case Ok(t) =>
          var text := Replacement(span, t.candidate);
          if Len64(|text|) > limits.maxOutput then Reject(RewriteResourceLimit)
          else if |text| < span.end - span.start then Accept(text)
          else NoGain
  }

  function WorkAfter(input: bytes, span: Span, work: u64): u64
    requires span.start <= span.end <= |input|
  {
    match Content(input, span)
    case None => work
    case Some(content) => SatAdd(work, Len64(|content|))
  }

  /** Whether the span's candidate was produced and so counts as evaluated. */
  predicate Evaluated(input: bytes, span: Span, work: u64, limits: Limits, lib: Library)
    requires span.start <= span.end <= |input|
  {
    match Content(input, span)
    case None => false
    case Some(content) =>
      && WorkAfter(input, span, work) <= limits.maxWork && Len64(|content|) <= limits.maxInput
      && Transformed(content, limits, lib).Ok?
  }

  // ----- All spans -----

  datatype Progress = Progress(
    previousEnd: nat,
    work: u64,
    terminal: Option<RewriteStatus>,
    patches: seq<Patch>,
    evaluated: u32)

  const START: Progress := Progress(0, 0, None, [], 0)

  function Advanced(input: bytes, span: Span, p: Progress, limits: Limits, lib: Library): Progress
    requires span.start <= span.end <= |input|
  {
    var outcome := OutcomeOf(input, span, p.work, limits, lib);
    Progress(
      span.end,
      WorkAfter(input, span, p.work),
      match outcome
      case Reject(status) => Some(status)
      case NoGain => if p.terminal.Some? then p.terminal else Some(RewriteNoImprovement)
      case Accept(_) => p.terminal,
      if outcome.Accept? then p.patches + [Patch(span.start, span.end, outcome.text)] else p.patches,
      if Evaluated(input, span, p.work, limits, lib) then Len32(p.evaluated + 1) else p.evaluated)
  }

  /** The loop over the ordered spans; `None` when one of them aborts the attempt. */
  function Process(input: bytes, spans: seq<Span>, p: Progress, limits: Limits, lib: Library): Option<Progress>
    decreases |spans|
  {
    if spans == [] then Some(p)
    else if Aborts(input, spans[0], p.previousEnd) then None
    else Process(input, spans[1..], Advanced(input, spans[0], p, limits, lib), limits, lib)
  }

  function Patched(input: bytes, patches: seq<Patch>, cursor: nat): bytes
    requires cursor <= |input| && InOrder(patches, cursor, |input|)
    decreases |patches|
  {
    if patches == [] then input[cursor..]
    else input[cursor..patches[0].start] + patches[0].text + Patched(input, patches[1..], patches[0].end)
  }

  /** Disjoint, increasing and in bounds. */
  predicate InOrder(patches: seq<Patch>, cursor: nat, length: nat)
    decreases |patches|
  {
    patches != [] ==>
      cursor <= patches[0].start <= patches[0].end <= length && InOrder(patches[1..], patches[0].end, length)
  }

  function Finish(input: bytes, p: Progress): Rewrite
    requires InOrder(p.patches, 0, |input|)
  {
    if p.patches == [] then
      Unchanged(if p.terminal.Some? then p.terminal.value else RewriteNoImprovement, p.evaluated)
    else if p.terminal.Some? && Fatal(p.terminal.value) then Refused(p.terminal.value)
    else
      var body := Patched(input, p.patches, 0);
      Rewrite(Rewritten, Some(body), Len32(|p.patches|), p.evaluated, SignedDelta(Len64(|input|), Len64(|body|)),
              Some(CommonPrefix(input, body)))
  }

  predicate KeyLess(a: Span, b: Span) {
    a.start < b.start || (a.start == b.start && a.end < b.end)
  }

  /** `sort_by_key(|span| (span.start, span.end))`: stable insertion. */
  function Sort(spans: seq<Span>): (r: seq<Span>)
    ensures multiset(r) == multiset(spans)
    ensures forall i, j :: 0 <= i < j < |r| ==> !KeyLess(r[j], r[i])
  {
    if spans == [] then []
    else
      assert spans == [spans[0]] + spans[1..];
      Insert(spans[0], Sort(spans[1..]))
  }

  function Insert(span: Span, sorted: seq<Span>): (r: seq<Span>)
    requires forall i, j :: 0 <= i < j < |sorted| ==> !KeyLess(sorted[j], sorted[i])
    ensures multiset(r) == multiset([span]) + multiset(sorted)
    ensures forall i, j :: 0 <= i < j < |r| ==> !KeyLess(r[j], r[i])
  {
    if sorted == [] || !KeyLess(sorted[0], span) then
      assert forall j :: 1 <= j < |sorted| ==> !KeyLess(sorted[j], sorted[0]);
      [span] + sorted
    else
      var tail := Insert(span, sorted[1..]);
      assert sorted == [sorted[0]] + sorted[1..];
      InsertKeepsHead(span, sorted, tail);
      [sorted[0]] + tail
  }

  lemma InsertKeepsHead(span: Span, sorted: seq<Span>, tail: seq<Span>)
    requires sorted != [] && KeyLess(sorted[0], span)
    requires forall i, j :: 0 <= i < j < |sorted| ==> !KeyLess(sorted[j], sorted[i])
    requires multiset(tail) == multiset([span]) + multiset(sorted[1..])
    ensures forall j :: 0 <= j < |tail| ==> !KeyLess(tail[j], sorted[0])
  {
    forall j | 0 <= j < |tail|
      ensures !KeyLess(tail[j], sorted[0])
    {
      assert tail[j] in multiset(tail);
      assert tail[j] == span || tail[j] in sorted[1..];
    }
  }

  /** What the rewriter returns for every request, span list and limit. */
  function RewriteOf(input: bytes, spans: seq<Span>, limits: Limits, lib: Library): Rewrite {
    if spans == [] then Refused(RewriteNotApplicable)
    else if Len64(|input|) > limits.maxMemory then Refused(RewriteResourceLimit)
    else
      match Process(input, Sort(spans), START, limits, lib)
      case None => Refused(RewriteInvalidInput)
      case Some(p) =>
        ProcessInOrder(input, Sort(spans), START, limits, lib);
        Finish(input, p)
  }

  // ----- Invariants of the loop -----

  /** What every accepted patch is: the encoding of the minified content of its span, and shorter than the span. */
  predicate PatchOf(input: bytes, span: Span, patch: Patch, limits: Limits, lib: Library) {
    && patch.start == span.start <= span.end == patch.end <= |input|
    && Content(input, span).Some?
    && Transformed(Content(input, span).value, limits, lib).Ok?
    && patch.text == Replacement(span, Transformed(Content(input, span).value, limits, lib).value.candidate)
    && |patch.text| < patch.end - patch.start
  }

  lemma {:induction false} InOrderAppend(patches: seq<Patch>, patch: Patch, cursor: nat, last: nat, length: nat)
    requires InOrder(patches, cursor, last) && cursor <= last <= patch.start <= patch.end <= length
    ensures InOrder(patches + [patch], cursor, patch.end)
    ensures InOrder(patches + [patch], cursor, length)
    decreases |patches|
  {
    if patches == [] {
      assert (patches + [patch])[1..] == [];
    } else {
      assert (patches + [patch])[1..] == patches[1..] + [patch];
      InOrderAppend(patches[1..], patch, patches[0].end, last, length);
    }
  }

  lemma {:induction false} InOrderWiden(patches: seq<Patch>, cursor: nat, last: nat, length: nat)
    requires InOrder(patches, cursor, last) && last <= length
    ensures InOrder(patches, cursor, length)
    decreases |patches|
  {
    if patches != [] {
      InOrderWiden(patches[1..], patches[0].end, last, length);
    }
  }

  ghost predicate GoodProgress(input: bytes, p: Progress) {
    p.previousEnd <= |input| && InOrder(p.patches, 0, p.previousEnd)
    && forall i :: 0 <= i < |p.patches| ==> |p.patches[i].text| < p.patches[i].end - p.patches[i].start
  }

  lemma AdvancedGood(input: bytes, span: Span, p: Progress, limits: Limits, lib: Library)
    requires GoodProgress(input, p) && !Aborts(input, span, p.previousEnd)
    ensures GoodProgress(input, Advanced(input, span, p, limits, lib))
  {
    hide Transformed, ReadString;
    var outcome := OutcomeOf(input, span, p.work, limits, lib);
    if outcome.Accept? {
      InOrderAppend(p.patches, Patch(span.start, span.end, outcome.text), 0, p.previousEnd, |input|);
    } else {
      InOrderWiden(p.patches, 0, p.previousEnd, span.end);
    }
  }

  lemma {:induction false} ProcessInOrder(input: bytes, spans: seq<Span>, p: Progress, limits: Limits, lib: Library)
    requires GoodProgress(input, p)
    ensures var r := Process(input, spans, p, limits, lib);
            r.Some? ==> GoodProgress(input, r.value) && InOrder(r.value.patches, 0, |input|)
    decreases |spans|
  {
    hide Advanced;
    if spans == [] {
      InOrderWiden(p.patches, 0, p.previousEnd, |input|);
    } else if !Aborts(input, spans[0], p.previousEnd) {
      AdvancedGood(input, spans[0], p, limits, lib);
      ProcessInOrder(input, spans[1..], Advanced(input, spans[0], p, limits, lib), limits, lib);
    }
  }

  // ----- The rewriter -----

  /** What the loop body relies on: the second run agrees, recovery succeeds, and the candidate is UTF-8 text. */
  lemma SpanGuards(input: bytes, span: Span, content: bytes, limits: Limits, lib: Library)
    requires |input| <= ADDRESSABLE && span.start <= span.end <= |input| && Content(input, span) == Some(content)
    ensures |content| <= |input|
    ensures Transformed(content, limits, lib).Ok? ==>
              var t := Transformed(content, limits, lib).value;
              Recovered(t.candidate, t.recovery, limits) == Ok(content) && (span.encoded ==> Utf8(t.candidate))
  {
    hide Recovered, Verdict, Minified, EncodeRuns, Runs, ReadString;
    if span.encoded {
      ReadShorter(Raw(input, span));
    }
    if Transformed(content, limits, lib).Ok? {
      RecoverySize(content, Code, 0);
      RecoveryExact(content, limits, lib);
      if span.encoded {
        MinifiedUtf8(content, Code);
      }
    }
  }

  /** The body of the loop. */
  method RewriteSpan(input: bytes, span: Span, p: Progress, limits: Limits, lib: Library) returns (r: Progress)
    requires |input| <= ADDRESSABLE && !Aborts(input, span, p.previousEnd)
    ensures r == Advanced(input, span, p, limits, lib)
  {
    hide ReadString, EncodeString, Transformed, Recovered, Utf8;
    r := p.(previousEnd := span.end);
    var decoded := Content(input, span);
    if decoded.None? {
      return r.(terminal := Some(RewriteInvalidInput));
    }
    var content := decoded.value;
    SpanGuards(input, span, content, limits, lib);
    r := r.(work := SatAdd(r.work, Len64(|content|)));
    if r.work > limits.maxWork || Len64(|content|) > limits.maxInput {
      return r.(terminal := Some(RewriteResourceLimit));
    }
    var first := TransformJson(content, limits, lib);
    if first.Err? {
      return r.(terminal := Some(StatusForTransform(first.error)));
    }
    var second := TransformJson(content, limits, lib);
    match second {
      case Err(e) =>
        return r.(terminal := Some(StatusForTransform(e)));
      case Ok(t) =>
        if first.value.candidate != t.candidate || first.value.recovery != t.recovery {
          return r.(terminal := Some(RewriteInternalError));
        }
    }
    r := r.(evaluated := Len32(r.evaluated + 1));
    var recovered := RecoverJson(first.value.candidate, first.value.recovery, limits);
    if recovered.Err? {
      return r.(terminal := Some(RewriteRecoveryFailed));
    }
    if recovered.value != content {
      return r.(terminal := Some(RewriteRecoveryFailed));
    }
    if span.encoded && !Utf8(first.value.candidate) {
      return r.(terminal := Some(RewriteInvalidInput));
    }
    var text := if span.encoded then EncodeString(first.value.candidate) else first.value.candidate;
    if Len64(|text|) > limits.maxOutput {
      return r.(terminal := Some(RewriteResourceLimit));
    }
    if |text| < span.end - span.start {
      return r.(patches := r.patches + [Patch(span.start, span.end, text)]);
    }
    return if r.terminal.Some? then r else r.(terminal := Some(RewriteNoImprovement));
  }

  /** The splice, with the guards of the source on each slice. */
  method Assemble(input: bytes, p: Progress, limits: Limits) returns (r: Rewrite)
    requires Len64(|input|) <= limits.maxMemory && |input| <= U64_MAX && GoodProgress(input, p)
    requires InOrder(p.patches, 0, |input|)
    ensures r == Finish(input, p)
  {
    if p.patches == [] {
      return Unchanged(if p.terminal.Some? then p.terminal.value else RewriteNoImprovement, p.evaluated);
    }
    if p.terminal.Some? && Fatal(p.terminal.value) {
      return Refused(p.terminal.value);
    }
    var body: bytes := [];
    var cursor: nat := 0;
    var i := 0;
    assert p.patches[0..] == p.patches;
    while i < |p.patches|
      invariant 0 <= i <= |p.patches| && cursor <= |input| && InOrder(p.patches[i..], cursor, |input|)
      invariant body + Patched(input, p.patches[i..], cursor) == Patched(input, p.patches, 0)
    {
      var patch := p.patches[i];
      assert p.patches[i..][1..] == p.patches[i + 1..];
      if patch.start < cursor || patch.start > |input| {
        return Refused(RewriteInternalError);
      }
      PatchedStep(body, input, p.patches[i..], cursor);
      body := body + input[cursor..patch.start] + patch.text;
      cursor := patch.end;
      i := i + 1;
    }
    if cursor > |input| {
      return Refused(RewriteInternalError);
    }
    body := body + input[cursor..];
    PatchedShorter(input, p.patches, 0);
    if Len64(|body|) > limits.maxMemory {
      return Refused(RewriteResourceLimit);
    }
    return Rewrite(Rewritten, Some(body), Len32(|p.patches|), p.evaluated,
                   SignedDelta(Len64(|input|), Len64(|body|)), Some(CommonPrefix(input, body)));
  }

  lemma PatchedStep(body: bytes, input: bytes, patches: seq<Patch>, cursor: nat)
    requires patches != [] && cursor <= |input| && InOrder(patches, cursor, |input|)
    ensures body + Patched(input, patches, cursor)
            == body + input[cursor..patches[0].start] + patches[0].text
               + Patched(input, patches[1..], patches[0].end)
  {
  }

  lemma {:induction false} PatchedShorter(input: bytes, patches: seq<Patch>, cursor: nat)
    requires cursor <= |input| && InOrder(patches, cursor, |input|)
    requires forall i :: 0 <= i < |patches| ==> |patches[i].text| < patches[i].end - patches[i].start
    ensures |Patched(input, patches, cursor)| <= |input| - cursor
    ensures patches != [] ==> |Patched(input, patches, cursor)| < |input| - cursor
    decreases |patches|
  {
    if patches != [] {
      PatchedShorter(input, patches[1..], patches[0].end);
    }
  }

  /** `rewrite_json_minify`. The slices of the final splice are guarded as in the source; no guard is ever taken. */
  method RewriteJsonMinify(input: bytes, spans: seq<Span>, limits: Limits, lib: Library) returns (r: Rewrite)
    requires |input| <= ADDRESSABLE
    ensures r == RewriteOf(input, spans, limits, lib)
  {
    if spans == [] {
      return Refused(RewriteNotApplicable);
    }
    if Len64(|input|) > limits.maxMemory {
      return Refused(RewriteResourceLimit);
    }
    var ordered := Sort(spans);
    var p := START;
    ProcessInOrder(input, ordered, START, limits, lib);
    var i := 0;
    assert ordered[0..] == ordered;
    while i < |ordered|
      invariant 0 <= i <= |ordered|
      invariant Process(input, ordered[i..], p, limits, lib) == Process(input, ordered, START, limits, lib)
    {
      hide Advanced, Transformed, ReadString, InOrder, Finish;
      var span := ordered[i];
      assert ordered[i..][1..] == ordered[i + 1..];
      if span.start < p.previousEnd {
        return Refused(RewriteInvalidInput);
      }
      if span.start > span.end || span.end > |input| {
        return Refused(RewriteInvalidInput);
      }
      p := RewriteSpan(input, span, p, limits, lib);
      i := i + 1;
    }
    assert p == Process(input, ordered, START, limits, lib).value;
    r := Assemble(input, p, limits);
  }

  // ----- What an accepted rewrite is -----

  ghost predicate FromSpans(input: bytes, spans: seq<Span>, patches: seq<Patch>, limits: Limits, lib: Library) {
    forall i :: 0 <= i < |patches| ==>
      exists span :: span in spans && PatchOf(input, span, patches[i], limits, lib)
  }

  lemma AdvancedFrom(input: bytes, all: seq<Span>, span: Span, p: Progress, limits: Limits, lib: Library)
    requires !Aborts(input, span, p.previousEnd) && span in all && FromSpans(input, all, p.patches, limits, lib)
    ensures FromSpans(input, all, Advanced(input, span, p, limits, lib).patches, limits, lib)
  {
    hide Transformed, ReadString, EncodeString;
    var p' := Advanced(input, span, p, limits, lib);
    if OutcomeOf(input, span, p.work, limits, lib).Accept? {
      assert PatchOf(input, span, p'.patches[|p.patches|], limits, lib);
    }
  }

  lemma {:induction false} ProcessFrom(input: bytes, all: seq<Span>, spans: seq<Span>, p: Progress, limits: Limits,
                                       lib: Library)
    requires FromSpans(input, all, p.patches, limits, lib)
    requires forall i :: 0 <= i < |spans| ==> spans[i] in all
    ensures var r := Process(input, spans, p, limits, lib);
            r.Some? ==> FromSpans(input, all, r.value.patches, limits, lib)
    decreases |spans|
  {
    hide Advanced, FromSpans;
    if spans != [] && !Aborts(input, spans[0], p.previousEnd) {
      AdvancedFrom(input, all, spans[0], p, limits, lib);
      ProcessFrom(input, all, spans[1..], Advanced(input, spans[0], p, limits, lib), limits, lib);
    }
  }

  /** The patches that restore the original: the replaced bytes, at the offsets their replacements have in the body. */
  function Undo(input: bytes, patches: seq<Patch>, cursor: nat, at: nat): seq<Patch>
    requires cursor <= |input| && InOrder(patches, cursor, |input|)
    decreases |patches|
  {
    if patches == [] then []
    else
      var start := at + patches[0].start - cursor;
      var end := start + |patches[0].text|;
      [Patch(start, end, input[patches[0].start..patches[0].end])] + Undo(input, patches[1..], patches[0].end, end)
  }

  /** Outside the accepted spans the body carries the input's bytes, unchanged and in order: undoing gives the input. */
  lemma {:induction false} UndoPatched(input: bytes, patches: seq<Patch>, cursor: nat, body: bytes, at: nat)
    requires cursor <= |input| && InOrder(patches, cursor, |input|)
    requires at <= |body| && body[at..] == Patched(input, patches, cursor)
    ensures InOrder(Undo(input, patches, cursor, at), at, |body|)
    ensures Patched(body, Undo(input, patches, cursor, at), at) == input[cursor..]
    decreases |patches|
  {
    hide Patched, Undo;
    UndoEmpty(input, cursor, body, at);
    if patches != [] {
      UndoStep(input, patches, cursor, at);
      var Patch(s, e, text) := patches[0];
      var tail := Patched(input, patches[1..], e);
      var start := at + s - cursor;
      var end := start + |text|;
      BodySlices(input[cursor..s], text, tail, body, at);
      UndoPatched(input, patches[1..], e, body, end);
      PatchedCons(body, Patch(start, end, input[s..e]), Undo(input, patches[1..], e, end), at);
      Cut3(input, cursor, s, e);
    }
  }

  lemma UndoEmpty(input: bytes, cursor: nat, body: bytes, at: nat)
    requires cursor <= |input| && at <= |body|
    ensures Undo(input, [], cursor, at) == []
    ensures Patched(input, [], cursor) == input[cursor..] && Patched(body, [], at) == body[at..]
  {
  }

  lemma UndoStep(input: bytes, patches: seq<Patch>, cursor: nat, at: nat)
    requires patches != [] && cursor <= |input| && InOrder(patches, cursor, |input|)
    ensures var Patch(s, e, text) := patches[0];
            var start := at + s - cursor;
            var end := start + |text|;
            && Patched(input, patches, cursor) == input[cursor..s] + text + Patched(input, patches[1..], e)
            && Undo(input, patches, cursor, at)
               == [Patch(start, end, input[s..e])] + Undo(input, patches[1..], e, end)
  {
  }

  lemma PatchedCons(input: bytes, patch: Patch, rest: seq<Patch>, cursor: nat)
    requires cursor <= patch.start <= patch.end <= |input| && InOrder(rest, patch.end, |input|)
    ensures InOrder([patch] + rest, cursor, |input|)
    ensures Patched(input, [patch] + rest, cursor)
            == input[cursor..patch.start] + patch.text + Patched(input, rest, patch.end)
  {
    assert ([patch] + rest)[1..] == rest;
  }

  lemma Cut3(s: bytes, a: nat, b: nat, c: nat)
    requires a <= b <= c <= |s|
    ensures s[a..] == s[a..b] + s[b..c] + s[c..]
  {
  }

  lemma BodySlices(gap: bytes, text: bytes, tail: bytes, body: bytes, at: nat)
    requires at <= |body| && body[at..] == gap + text + tail
    ensures at + |gap| + |text| <= |body|
    ensures body[at..at + |gap|] == gap
    ensures body[at + |gap| + |text|..] == tail
  {
    assert body[at..at + |gap|] == body[at..][..|gap|];
    assert body[at + |gap| + |text|..] == body[at..][|gap| + |text|..];
  }

  /**
    A body exists exactly when the status is Rewritten. It is strictly shorter than the request, it is the request
    with disjoint, in-bounds patches applied, each the shorter encoding of one supplied span's minified content, and
    undoing the patches gives the request back.
   */
  lemma RewriteIsSplice(input: bytes, spans: seq<Span>, limits: Limits, lib: Library)
    ensures var r := RewriteOf(input, spans, limits, lib);
            && (r.body.Some? <==> r.status.Rewritten?)
            && r.status != RewriteInternalError && r.status != RewriteRecoveryFailed
    ensures RewriteOf(input, spans, limits, lib).body.Some? ==>
              var body := RewriteOf(input, spans, limits, lib).body.value;
              exists patches: seq<Patch> ::
                && patches != [] && InOrder(patches, 0, |input|) && body == Patched(input, patches, 0)
                && FromSpans(input, spans, patches, limits, lib)
                && |body| < |input|
                && InOrder(Undo(input, patches, 0, 0), 0, |body|)
                && Patched(body, Undo(input, patches, 0, 0), 0) == input
  {
    hide FromSpans, Advanced, Sort, Patched, Undo;
    if spans != [] && Len64(|input|) <= limits.maxMemory {
      var sorted := Sort(spans);
      ProcessInOrder(input, sorted, START, limits, lib);
      SortFrom(spans);
      ProcessNoGuard(input, sorted, START, limits, lib);
      NoneFrom(input, spans, limits, lib);
      ProcessFrom(input, spans, sorted, START, limits, lib);
      var r := Process(input, sorted, START, limits, lib);
      if r.Some? && r.value.patches != [] {
        var patches := r.value.patches;
        var body := Patched(input, patches, 0);
        PatchedShorter(input, patches, 0);
        assert body[0..] == body && input[0..] == input;
        UndoPatched(input, patches, 0, body, 0);
      }
    }
  }

  lemma NoneFrom(input: bytes, spans: seq<Span>, limits: Limits, lib: Library)
    ensures FromSpans(input, spans, [], limits, lib)
  {
  }

  lemma SortFrom(spans: seq<Span>)
    ensures forall i :: 0 <= i < |Sort(spans)| ==> Sort(spans)[i] in spans
  {
    forall i | 0 <= i < |Sort(spans)|
      ensures Sort(spans)[i] in spans
    {
      assert Sort(spans)[i] in multiset(Sort(spans));
      assert Sort(spans)[i] in multiset(spans);
    }
  }

  predicate NoGuardHit(terminal: Option<RewriteStatus>) {
    terminal.Some? ==> terminal.value in {RewriteResourceLimit, RewriteInvalidInput, RewriteNotApplicable,
                                          RewriteNoImprovement}
  }

  lemma OutcomeNoGuard(input: bytes, span: Span, work: u64, limits: Limits, lib: Library)
    requires span.start <= span.end <= |input|
    ensures var o := OutcomeOf(input, span, work, limits, lib);
            o.Reject? ==> o.status in {RewriteResourceLimit, RewriteInvalidInput, RewriteNotApplicable}
  {
    hide ReadString, EncodeString, Parse, Check, Minified, EncodeRuns, Runs;
    var content := Content(input, span);
    if content.Some? && Transformed(content.value, limits, lib).Err? {
      TransformErrors(content.value, limits, lib);
    }
  }

  /** No internal error comes out of the minifier. */
  lemma TransformErrors(input: bytes, limits: Limits, lib: Library)
    requires Transformed(input, limits, lib).Err?
    ensures Transformed(input, limits, lib).error != Internal
  {
    hide Parse, Check, Minified, EncodeRuns, Runs;
    if Len64(|input|) <= limits.maxWork && Accepts(lib, input) {
      PrintParseDocument(input);
      CheckExact(Parse(input).value.value, 0);
    }
  }

  lemma {:induction false} ProcessNoGuard(input: bytes, spans: seq<Span>, p: Progress, limits: Limits, lib: Library)
    requires NoGuardHit(p.terminal)
    ensures var r := Process(input, spans, p, limits, lib);
            r.Some? ==> NoGuardHit(r.value.terminal)
    decreases |spans|
  {
    hide OutcomeOf, Evaluated, WorkAfter;
    if spans != [] && !Aborts(input, spans[0], p.previousEnd) {
      OutcomeNoGuard(input, spans[0], p.work, limits, lib);
      ProcessNoGuard(input, spans[1..], Advanced(input, spans[0], p, limits, lib), limits, lib);
    }
  }

  /**
    What a patch means to a reader of the body: the replacement decodes to (or is) a document whose tree is that of the
    original content without white space.
   */
  lemma PatchMeaning(input: bytes, span: Span, patch: Patch, limits: Limits, lib: Library)
    requires PatchOf(input, span, patch, limits, lib)
    ensures var content := Content(input, span).value;
            var seen := if span.encoded then DecodeString(patch.text) else Some(patch.text);
            && Grammatical(content) && seen == Some(Minified(content, Code))
            && Parse(seen.value) == Some(StripDocument(Parse(content).value))
  {
    hide Parse, Minified, DecodeString, ReadString, EncodeString, Check;
    var content := Content(input, span).value;
    MeaningPreserved(content, limits, lib);
    if span.encoded {
      ReadShorter(Raw(input, span));
      MinifiedUtf8(content, Code);
      DecodeEncode(Minified(content, Code));
    }
  }
}
