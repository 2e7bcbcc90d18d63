/**
  The search reducer and the opt-in search rewriter. Each reading of the clock is a parameter: `slow` says that the
  wall-clock bound had passed when a reduction looked at it.
 */
module SearchRewrite {
  import opened Base
  import opened JsonString
  import opened JsonGrammar
  import Lexical
  import opened StringTokens
  import opened Active
  import opened RewriteLaws
  import opened Search
  import opened SearchEnvelope

  // ----- The reducer -----

  datatype Reduction = Reduction(status: ReductionStatus, visible: Option<bytes>)

  function Declined(status: ReductionStatus): Reduction {
    Reduction(status, None)
  }

  /** Plain search output, or else the one search string of an envelope. */
  function DirectOrView(input: bytes, limits: Limits, lib: Library): Option<SearchView> {
    match ParseSearch(input, limits, lib)
    case Some(model) => Some(SearchView(model, Render(model.matches)))
    case None => EnvelopeView(input, limits, lib)
  }

  function SearchReduced(input: bytes, limits: Limits, slow: bool, lib: Library): Reduction {
    var size := Len64(|input|);
    if size > limits.maxInput || size > limits.maxMemory then Declined(ReductionResourceLimit)
    else
      match DirectOrView(input, limits, lib)
      case None => Declined(ReductionNotApplicable)
      case Some(SearchView(model, visible)) =>
        if |model.matches| < 2 then Declined(ReductionNoImprovement)
        else
          var shown := Len64(|visible|);
          if shown >= size || shown > limits.maxOutput || SatAdd(shown, size) > limits.maxMemory || slow
          then Declined(ReductionNoImprovement)
          else Reduction(Applicable, Some(visible))
  }

  /** `SearchResultReducer::reduce`. */
  method ReduceSearch(input: bytes, limits: Limits, slow: bool, lib: Library) returns (r: Reduction)
    ensures r == SearchReduced(input, limits, slow, lib)
  {
    hide ParseSearch, EnvelopeView, Render;
    if Len64(|input|) > limits.maxInput || Len64(|input|) > limits.maxMemory {
      return Declined(ReductionResourceLimit);
    }
    var direct := Search.Parse(input, limits, lib);
    var view: Option<SearchView>;
    if direct.Some? {
      var rendered := RenderGrouped(direct.value);
      view := Some(SearchView(direct.value, rendered));
    } else {
      view := SearchJsonEnvelopeView(input, limits, lib);
    }
    if view.None? {
      return Declined(ReductionNotApplicable);
    }
    if |view.value.model.matches| < 2 {
      return Declined(ReductionNoImprovement);
    }
    var shown := Len64(|view.value.visible|);
    if shown >= Len64(|input|) || shown > limits.maxOutput
       || SatAdd(shown, Len64(|input|)) > limits.maxMemory || slow {
      return Declined(ReductionNoImprovement);
    }
    return Reduction(Applicable, Some(view.value.visible));
  }

  lemma {:induction false} SpliceUtf8(input: bytes, range: Range, x: bytes)
    requires Utf8(input) && Utf8(x) && range.start < range.end <= |input|
    requires input[range.start] < 0x80 && input[range.end - 1] < 0x80
    ensures Utf8(Splice(input, range, x))
  {
    hide Utf8;
    Utf8Cut(input, range.start);
    Utf8Cut(input, range.end - 1);
    assert input[range.end - 1 + 1..] == input[range.end..];
    Utf8Append(input[..range.start], x);
    Utf8Append(input[..range.start] + x, input[range.end..]);
  }

  lemma {:induction false} EscapedUtf8(text: bytes)
    requires Utf8(text)
    ensures Utf8(JsonString.Escape(text))
    decreases |text|
  {
    hide Utf8Width;
    if text != [] {
      var w := Utf8Width(text);
      EscapedUtf8(text[w..]);
      EscapedHead(text);
      EscapedAppend(text[..w], text[w..]);
      assert text == text[..w] + text[w..];
      Utf8Append(JsonString.Escape(text[..w]), JsonString.Escape(text[w..]));
    }
  }

  lemma {:induction false} EscapedAppend(a: bytes, b: bytes)
    ensures JsonString.Escape(a + b) == JsonString.Escape(a) + JsonString.Escape(b)
  {
    hide EscapeByte;
    if a == [] {
      assert a + b == b;
    } else {
      assert (a + b)[1..] == a[1..] + b;
      EscapedAppend(a[1..], b);
    }
  }

  lemma EscapedHead(text: bytes)
    requires Utf8Width(text) > 0
    ensures Utf8(JsonString.Escape(text[..Utf8Width(text)]))
  {
    hide Utf8;
    var w := Utf8Width(text);
    Lexical.Utf8Prefix(text, w);
    if w == 1 {
      assert text[..1] == [text[0]] && [text[0]][1..] == [];
      assert JsonString.Escape([text[0]]) == EscapeByte(text[0]) + JsonString.Escape([]);
      assert EscapeByte(text[0]) + [] == EscapeByte(text[0]);
      AsciiUtf8(EscapeByte(text[0]));
    } else {
      Lexical.WideBytes(text);
      EscapedNothing(text[..w]);
    }
  }

  lemma {:induction false} EscapedNothing(text: bytes)
    requires forall i :: 0 <= i < |text| ==> text[i] >= 0x80
    ensures JsonString.Escape(text) == text
  {
    if text != [] {
      EscapedNothing(text[1..]);
    }
  }

  lemma EncodedUtf8(text: bytes)
    requires Utf8(text)
    ensures Utf8(EncodeString(text))
  {
    hide Utf8, JsonString.Escape;
    EscapedUtf8(text);
    AsciiUtf8([QUOTE]);
    Utf8Append([QUOTE], JsonString.Escape(text));
    Utf8Append([QUOTE] + JsonString.Escape(text), [QUOTE]);
  }

  /** Replacing one string token of a text document by encoded text gives text. */
  lemma TokenSpliceUtf8(input: bytes, k: nat, text: bytes)
    requires Grammatical(input) && Utf8(input) && Utf8(text)
    requires k < |Tokens(JsonGrammar.Parse(input).value.value)|
    ensures var spans := DocumentSpans(JsonGrammar.Parse(input).value);
            |spans| > k && spans[k].start <= spans[k].end <= |input|
            && Utf8(Splice(input, spans[k], EncodeString(text)))
  {
    hide Utf8, DocumentSpans, Tokens, JsonGrammar.Parse, DecodeString, EncodeString, Splice;
    RangeOfToken(input, k);
    TokensDecode(input, k);
    EncodedUtf8(text);
    SpliceUtf8(input, DocumentSpans(JsonGrammar.Parse(input).value)[k], EncodeString(text));
  }

  lemma ViewUtf8(input: bytes, limits: Limits, lib: Library)
    requires EnvelopeView(input, limits, lib).Some? && Utf8(input)
    ensures Utf8(EnvelopeView(input, limits, lib).value.visible)
  {
    hide Utf8, DocumentSpans, Tokens, JsonGrammar.Parse, DecodeString, EncodeString, ParseSearch, Render, Splice;
    var tokens := Tokens(JsonGrammar.Parse(input).value.value);
    var k := Hits(|tokens|, 0, SearchLike(tokens, limits, lib))[0];
    assert k in Hits(|tokens|, 0, SearchLike(tokens, limits, lib));
    var matches := TokenModel(tokens[k], limits, lib).value.matches;
    ParsedTextual(DecodeString(tokens[k]).value, limits, lib);
    RenderUtf8(matches);
    TokenSpliceUtf8(input, k, Render(matches));
  }

  /** A candidate exists exactly when the status says so; it is smaller, within bounds, and text if the input is. */
  lemma ReducedMeaning(input: bytes, limits: Limits, slow: bool, lib: Library)
    ensures var r := SearchReduced(input, limits, slow, lib);
            && (r.visible.Some? <==> r.status == Applicable)
            && r.status != ReductionInvalidInput && r.status != ReductionInternalError
            && (r.visible.Some? ==>
                  && |r.visible.value| < |input| && Len64(|r.visible.value|) <= limits.maxOutput
                  && |DirectOrView(input, limits, lib).value.model.matches| >= 2
                  && (Utf8(input) ==> Utf8(r.visible.value)))
  {
    hide Utf8, ParseSearch, Render, EnvelopeView;
    if SearchReduced(input, limits, slow, lib).status == Applicable {
      if ParseSearch(input, limits, lib).Some? {
        ParsedTextual(input, limits, lib);
        RenderUtf8(ParseSearch(input, limits, lib).value.matches);
      } else if Utf8(input) {
        ViewUtf8(input, limits, lib);
      }
    }
  }

  // ----- Content that is plain output or an envelope -----

  /** The clock readings of one pass over a content: 0 for the direct attempt, `k + 1` for string token `k`. */
  type Clock = nat -> bool

  function TokenReduced(token: bytes, limits: Limits, slow: bool, lib: Library): Reduction {
    match DecodeString(token)
    case None => Declined(ReductionInvalidInput)
    case Some(text) => SearchReduced(text, limits, slow, lib)
  }

  /** Whether the token at an index is reduced. */
  function TokenApplies(tokens: seq<bytes>, limits: Limits, clock: Clock, lib: Library): nat -> bool {
    (k: nat) => k < |tokens| && TokenReduced(tokens[k], limits, clock(k + 1), lib).status == Applicable
  }

  function EnvelopeReduced(input: bytes, limits: Limits, clock: Clock, lib: Library): Reduction {
    var size := Len64(|input|);
    if size > limits.maxInput || size > limits.maxMemory then Declined(ReductionResourceLimit)
    else
      match TokenRanges(input, limits.maxCandidates, lib)
      case Err(status) => Declined(status)
      case Ok(ranges) =>
        var tokens := Tokens(JsonGrammar.Parse(input).value.value);
        var hits := Hits(|tokens|, 0, TokenApplies(tokens, limits, clock, lib));
        if |hits| != 1 then Declined(ReductionNotApplicable)
        else
          assert hits[0] in hits;
          var k := hits[0];
          RangeOfToken(input, k);
          TokenVisible(tokens[k], limits, clock(k + 1), lib);
          var text := EncodeString(TokenReduced(tokens[k], limits, clock(k + 1), lib).visible.value);
          var visible := Splice(input, ranges[k], text);
          if |text| >= |tokens[k]| then Declined(ReductionNoImprovement)
          else if Len64(|visible|) > limits.maxOutput || SatAdd(Len64(|visible|), size) > limits.maxMemory
          then Declined(ReductionResourceLimit)
          else Reduction(Applicable, Some(visible))
  }

  lemma TokenVisible(token: bytes, limits: Limits, slow: bool, lib: Library)
    ensures var r := TokenReduced(token, limits, slow, lib);
            (r.visible.Some? <==> r.status == Applicable) && (r.visible.Some? ==> Utf8(r.visible.value))
  {
    hide Utf8, SearchReduced, Unescape;
    match DecodeString(token) {
      case None =>
      case Some(text) =>
        DecodedUtf8(token);
        ReducedMeaning(text, limits, slow, lib);
    }
  }

  function ContentReduced(input: bytes, limits: Limits, clock: Clock, lib: Library): Reduction {
    var direct := SearchReduced(input, limits, clock(0), lib);
    if direct.status != ReductionNotApplicable then direct else EnvelopeReduced(input, limits, clock, lib)
  }

  /** The loop over the strings of an envelope. */
  method UniqueReduction(input: bytes, ranges: seq<Range>, limits: Limits, clock: Clock, lib: Library)
    returns (r: Option<(Range, bytes)>, ghost at: nat)
    requires Grammatical(input) && ranges == DocumentSpans(JsonGrammar.Parse(input).value)
    ensures var tokens := Tokens(JsonGrammar.Parse(input).value.value);
            var hits := Hits(|tokens|, 0, TokenApplies(tokens, limits, clock, lib));
            && |tokens| == |ranges|
            && (r.Some? <==> |hits| == 1)
            && (r.Some? ==> hits == [at] && at < |tokens| && r.value.0 == ranges[at]
                            && TokenReduced(tokens[at], limits, clock(at + 1), lib).visible.Some?
                            && r.value.1 == EncodeString(
                                 TokenReduced(tokens[at], limits, clock(at + 1), lib).visible.value))
  {
    hide Tokens, DocumentSpans, JsonGrammar.Parse, SearchReduced, DecodeString, EncodeString, Utf8;
    ghost var tokens := Tokens(JsonGrammar.Parse(input).value.value);
    ghost var hit := TokenApplies(tokens, limits, clock, lib);
    CountTokens(input);
    r, at := None, 0;
    for i := 0 to |ranges|
      invariant r.None? ==> Hits(|tokens|, i, hit) == Hits(|tokens|, 0, hit)
      invariant r.Some? ==> Hits(|tokens|, 0, hit) == [at] + Hits(|tokens|, i, hit)
      invariant r.Some? ==> at < |tokens| && r.value.0 == ranges[at]
                            && TokenReduced(tokens[at], limits, clock(at + 1), lib).visible.Some?
                            && r.value.1 == EncodeString(
                                 TokenReduced(tokens[at], limits, clock(at + 1), lib).visible.value)
    {
      RangeOfToken(input, i);
      TokensDecode(input, i);
      TokenVisible(tokens[i], limits, clock(i + 1), lib);
      var range := ranges[i];
      var decoded := DecodeString(input[range.start..range.end]);
      var reduced := ReduceSearch(decoded.value, limits, clock(i + 1), lib);
      if reduced.status == Applicable {
        if r.Some? {
          return None, at;
        }
        r, at := Some((range, EncodeString(reduced.visible.value))), i;
      }
    }
  }

  /** `reduce_search_json_envelope`. */
  method ReduceEnvelope(input: bytes, limits: Limits, clock: Clock, lib: Library) returns (r: Reduction)
    ensures r == EnvelopeReduced(input, limits, clock, lib)
  {
    hide Tokens, DocumentSpans, JsonGrammar.Parse, TokenReduced, EncodeString, Hits;
    if Len64(|input|) > limits.maxInput || Len64(|input|) > limits.maxMemory {
      return Declined(ReductionResourceLimit);
    }
    var found := JsonStringTokenRanges(input, limits.maxCandidates, lib);
    if found.Err? {
      return Declined(found.error);
    }
    var hit, at := UniqueReduction(input, found.value, limits, clock, lib);
    if hit.None? {
      return Declined(ReductionNotApplicable);
    }
    var (range, text) := hit.value;
    RangeOfToken(input, at);
    if |text| >= range.end - range.start {
      return Declined(ReductionNoImprovement);
    }
    var visible := input[..range.start] + text + input[range.end..];
    if Len64(|visible|) > limits.maxOutput || SatAdd(Len64(|visible|), Len64(|input|)) > limits.maxMemory {
      return Declined(ReductionResourceLimit);
    }
    return Reduction(Applicable, Some(visible));
  }

  /** `reduce_search_content`. */
  method ReduceContent(input: bytes, limits: Limits, clock: Clock, lib: Library) returns (r: Reduction)
    ensures r == ContentReduced(input, limits, clock, lib)
  {
    hide SearchReduced, EnvelopeReduced;
    r := ReduceSearch(input, limits, clock(0), lib);
    if r.status == ReductionNotApplicable {
      r := ReduceEnvelope(input, limits, clock, lib);
    }
  }

  /** What a reduced content is: smaller, in bounds, and text if the content is. */
  lemma ContentMeaning(input: bytes, limits: Limits, clock: Clock, lib: Library)
    ensures var r := ContentReduced(input, limits, clock, lib);
            && (r.visible.Some? <==> r.status == Applicable) && r.status != ReductionInternalError
            && (r.visible.Some? ==>
                  && |r.visible.value| < |input| && Len64(|r.visible.value|) <= limits.maxOutput
                  && (Utf8(input) ==> Utf8(r.visible.value)))
  {
    hide Utf8, SearchReduced, Tokens, DocumentSpans, JsonGrammar.Parse, TokenReduced, EncodeString, Splice;
    ReducedMeaning(input, limits, clock(0), lib);
    var r := EnvelopeReduced(input, limits, clock, lib);
    if r.status == Applicable {
      EnvelopeMeaning(input, limits, clock, lib);
    }
  }

  /** The one string that reduces is replaced by the encoding of its reduction, and nothing else changes. */
  lemma EnvelopeMeaning(input: bytes, limits: Limits, clock: Clock, lib: Library)
    requires EnvelopeReduced(input, limits, clock, lib).status == Applicable
    ensures var r := EnvelopeReduced(input, limits, clock, lib);
            && r.visible.Some? && Accepts(lib, input)
            && |r.visible.value| < |input| && Len64(|r.visible.value|) <= limits.maxOutput
            && (Utf8(input) ==> Utf8(r.visible.value))
            && var d := JsonGrammar.Parse(input).value;
            var d' := JsonGrammar.Parse(r.visible.value);
            && d'.Some? && d'.value.lead == d.lead && d'.value.trail == d.trail
            && Blank(d'.value.value) == Blank(d.value)
            && var tokens := Tokens(d.value);
            exists k: nat :: && UniqueAt(|tokens|, k, TokenApplies(tokens, limits, clock, lib))
                             && TokenReduced(tokens[k], limits, clock(k + 1), lib).visible.Some?
                             && Tokens(d'.value.value)
                                == tokens[k := EncodeString(
                                     TokenReduced(tokens[k], limits, clock(k + 1), lib).visible.value)]
  {
    hide Utf8, Tokens, DocumentSpans, JsonGrammar.Parse, TokenReduced, EncodeString, DecodeString, Hits, Blank;
    var tokens := Tokens(JsonGrammar.Parse(input).value.value);
    var hit := TokenApplies(tokens, limits, clock, lib);
    HitsUnique(|tokens|, hit);
    var k := Hits(|tokens|, 0, hit)[0];
    TokenVisible(tokens[k], limits, clock(k + 1), lib);
    var text := TokenReduced(tokens[k], limits, clock(k + 1), lib).visible.value;
    DecodeEncode(text);
    RangeOfToken(input, k);
    ReplacedDocument(input, k, EncodeString(text));
    if Utf8(input) {
      TokenSpliceUtf8(input, k, text);
    }
  }

  // ----- The rewriter -----

  function StatusForReduction(status: ReductionStatus): RewriteStatus {
    match status
    case ReductionNotApplicable => RewriteNotApplicable
    case ReductionNoImprovement => RewriteNoImprovement
    case ReductionResourceLimit => RewriteResourceLimit
    case ReductionInvalidInput => RewriteInvalidInput
    case _ => RewriteInternalError
  }

  /** `content_len.saturating_mul(2)`. */
  function Double(n: u64): u64 {
    SatAdd(n, n)
  }

  function SearchWork(input: bytes, span: Span, work: u64): u64
    requires span.start <= span.end <= |input|
  {
    match Content(input, span)
    case None => work
    case Some(content) => SatAdd(work, Double(Len64(|content|)))
  }

  /** How one span ends when its two reductions see the clocks `first` and `second`. */
  function SearchOutcome(input: bytes, span: Span, work: u64, limits: Limits, first: Clock, second: Clock, lib: Library)
    : Outcome
    requires span.start <= span.end <= |input|
  {
    match Content(input, span)
    case None => Reject(RewriteInvalidInput)
    case Some(content) =>
      if SearchWork(input, span, work) > limits.maxWork || Len64(|content|) > limits.maxInput
      then Reject(RewriteResourceLimit)
      else
        var reduced := ContentReduced(content, limits, first, lib);
        if reduced.visible != ContentReduced(content, limits, second, lib).visible then Reject(RewriteInternalError)
        else if reduced.visible.None? then Reject(StatusForReduction(reduced.status))
        else
          var text := Replacement(span, reduced.visible.value);
          if Len64(|text|) > limits.maxOutput then Reject(RewriteResourceLimit)
          else if |text| < span.end - span.start then Accept(text)
          else Reject(RewriteNoImprovement)
  }

  predicate SearchEvaluated(input: bytes, span: Span, work: u64, limits: Limits, first: Clock, second: Clock,
                            lib: Library)
    requires span.start <= span.end <= |input|
  {
    match Content(input, span)
    case None => false
    case Some(content) =>
      && SearchWork(input, span, work) <= limits.maxWork && Len64(|content|) <= limits.maxInput
      && ContentReduced(content, limits, first, lib).visible == ContentReduced(content, limits, second, lib).visible
  }

  function SearchAdvanced(input: bytes, span: Span, p: Progress, limits: Limits, first: Clock, second: Clock,
                          lib: Library): Progress
    requires span.start <= span.end <= |input|
  {
    var outcome := SearchOutcome(input, span, p.work, limits, first, second, lib);
    Progress(
      span.end,
      SearchWork(input, span, p.work),
      if outcome.Reject? then Some(outcome.status) else p.terminal,
      if outcome.Accept? then p.patches + [Patch(span.start, span.end, outcome.text)] else p.patches,
      if SearchEvaluated(input, span, p.work, limits, first, second, lib) then Len32(p.evaluated + 1) else p.evaluated)
  }

  /** The loop from span number `i` on: its two reductions see the clocks `2i` and `2i + 1`. */
  function SearchProcess(input: bytes, spans: seq<Span>, i: nat, p: Progress, limits: Limits, clocks: nat -> Clock,
                         lib: Library): Option<Progress>
    requires i <= |spans|
    decreases |spans| - i
  {
    if i == |spans| then Some(p)
    else if Aborts(input, spans[i], p.previousEnd) then None
    else
      SearchProcess(input, spans, i + 1,
                    SearchAdvanced(input, spans[i], p, limits, clocks(2 * i), clocks(2 * i + 1), lib),
                    limits, clocks, lib)
  }

  lemma SearchAdvancedGood(input: bytes, span: Span, p: Progress, limits: Limits, first: Clock, second: Clock,
                           lib: Library)
    requires GoodProgress(input, p) && !Aborts(input, span, p.previousEnd)
    ensures GoodProgress(input, SearchAdvanced(input, span, p, limits, first, second, lib))
  {
    hide ContentReduced, ReadString;
    var outcome := SearchOutcome(input, span, p.work, limits, first, second, lib);
    if outcome.Accept? {
      InOrderAppend(p.patches, Patch(span.start, span.end, outcome.text), 0, p.previousEnd, |input|);
    } else {
      InOrderWiden(p.patches, 0, p.previousEnd, span.end);
    }
  }

  lemma {:induction false} SearchInOrder(input: bytes, spans: seq<Span>, i: nat, p: Progress, limits: Limits,
                                         clocks: nat -> Clock, lib: Library)
    requires i <= |spans| && GoodProgress(input, p)
    ensures var r := SearchProcess(input, spans, i, p, limits, clocks, lib);
            r.Some? ==> GoodProgress(input, r.value) && InOrder(r.value.patches, 0, |input|)
    decreases |spans| - i
  {
    hide SearchAdvanced;
    if i == |spans| {
      InOrderWiden(p.patches, 0, p.previousEnd, |input|);
    } else if !Aborts(input, spans[i], p.previousEnd) {
      var first, second := clocks(2 * i), clocks(2 * i + 1);
      SearchAdvancedGood(input, spans[i], p, limits, first, second, lib);
      SearchInOrder(input, spans, i + 1, SearchAdvanced(input, spans[i], p, limits, first, second, lib), limits,
                    clocks, lib);
    }
  }

  function SearchRewriteOf(input: bytes, spans: seq<Span>, limits: Limits, clocks: nat -> Clock, lib: Library)
    : Rewrite
  {
    if spans == [] then Refused(RewriteNotApplicable)
    else if Len64(|input|) > limits.maxMemory then Refused(RewriteResourceLimit)
    else
      match SearchProcess(input, Sort(spans), 0, START, limits, clocks, lib)
      case None => Refused(RewriteInvalidInput)
      case Some(p) =>
        SearchInOrder(input, Sort(spans), 0, START, limits, clocks, lib);
        Finish(input, p)
  }

  /** The body of the loop. */
  method RewriteSearchSpan(input: bytes, span: Span, p: Progress, limits: Limits, first: Clock, second: Clock,
                           lib: Library) returns (r: Progress)
    requires !Aborts(input, span, p.previousEnd)
    ensures r == SearchAdvanced(input, span, p, limits, first, second, lib)
  {
    hide ReadString, EncodeString, ContentReduced, Utf8;
    r := p.(previousEnd := span.end);
    var decoded := Content(input, span);
    if decoded.None? {
      return r.(terminal := Some(RewriteInvalidInput));
    }
    var content := decoded.value;
    r := r.(work := SatAdd(r.work, Double(Len64(|content|))));
    if r.work > limits.maxWork || Len64(|content|) > limits.maxInput {
      return r.(terminal := Some(RewriteResourceLimit));
    }
    var one := ReduceContent(content, limits, first, lib);
    var two := ReduceContent(content, limits, second, lib);
    if one.visible != two.visible {
      return r.(terminal := Some(RewriteInternalError));
    }
    r := r.(evaluated := Len32(r.evaluated + 1));
    ContentMeaning(content, limits, first, lib);
    if one.status != Applicable {
      return r.(terminal := Some(StatusForReduction(one.status)));
    }
    if span.encoded {
      ReadShorter(Raw(input, span));
    }
    if span.encoded && !Utf8(one.visible.value) {
      return r.(terminal := Some(RewriteInvalidInput));
    }
    var text := if span.encoded then EncodeString(one.visible.value) else one.visible.value;
    if Len64(|text|) > limits.maxOutput {
      return r.(terminal := Some(RewriteResourceLimit));
    }
    if |text| < span.end - span.start {
      return r.(patches := r.patches + [Patch(span.start, span.end, text)]);
    }
    return r.(terminal := Some(RewriteNoImprovement));
  }

  /** `rewrite_search_projection`. */
  method RewriteSearchProjection(input: bytes, spans: seq<Span>, limits: Limits, clocks: nat -> Clock, lib: Library)
    returns (r: Rewrite)
    requires |input| <= U64_MAX
    ensures r == SearchRewriteOf(input, spans, limits, clocks, lib)
  {
    if spans == [] {
      return Refused(RewriteNotApplicable);
    }
    if Len64(|input|) > limits.maxMemory {
      return Refused(RewriteResourceLimit);
    }
    var ordered := Sort(spans);
    var p := START;
    SearchInOrder(input, ordered, 0, START, limits, clocks, lib);
    for i := 0 to |ordered|
      invariant SearchProcess(input, ordered, i, p, limits, clocks, lib)
                == SearchProcess(input, ordered, 0, START, limits, clocks, lib)
    {
      hide SearchAdvanced, InOrder, Finish;
      var span := ordered[i];
      if span.start < p.previousEnd {
        return Refused(RewriteInvalidInput);
      }
      if span.start > span.end || span.end > |input| {
        return Refused(RewriteInvalidInput);
      }
      p := RewriteSearchSpan(input, span, p, limits, clocks(2 * i), clocks(2 * i + 1), lib);
    }
    assert Some(p) == SearchProcess(input, ordered, 0, START, limits, clocks, lib);
    r := Assemble(input, p, limits);
  }

  // ----- What an accepted rewrite is -----

  /** A patch is the encoding of the reduction of its span's content, shorter than the span. */
  ghost predicate SearchPatch(input: bytes, span: Span, patch: Patch, limits: Limits, lib: Library) {
    && patch.start == span.start <= span.end == patch.end <= |input|
    && |patch.text| < patch.end - patch.start
    && Content(input, span).Some?
    && exists clock: Clock ::
      && ContentReduced(Content(input, span).value, limits, clock, lib).visible.Some?
      && patch.text == Replacement(span, ContentReduced(Content(input, span).value, limits, clock, lib).visible.value)
  }

  ghost predicate FromSearch(input: bytes, spans: seq<Span>, patches: seq<Patch>, limits: Limits, lib: Library) {
    forall i :: 0 <= i < |patches| ==>
      exists span :: span in spans && SearchPatch(input, span, patches[i], limits, lib)
  }

  lemma SearchAdvancedFrom(input: bytes, all: seq<Span>, span: Span, p: Progress, limits: Limits, first: Clock,
                           second: Clock, lib: Library)
    requires !Aborts(input, span, p.previousEnd) && span in all && FromSearch(input, all, p.patches, limits, lib)
    ensures FromSearch(input, all, SearchAdvanced(input, span, p, limits, first, second, lib).patches, limits, lib)
  {
    hide ContentReduced, ReadString, EncodeString;
    var p' := SearchAdvanced(input, span, p, limits, first, second, lib);
    if SearchOutcome(input, span, p.work, limits, first, second, lib).Accept? {
      assert SearchPatch(input, span, p'.patches[|p.patches|], limits, lib);
    }
  }

  lemma {:induction false} SearchFrom(input: bytes, all: seq<Span>, spans: seq<Span>, i: nat, p: Progress,
                                      limits: Limits, clocks: nat -> Clock, lib: Library)
    requires i <= |spans| && FromSearch(input, all, p.patches, limits, lib)
    requires forall i :: 0 <= i < |spans| ==> spans[i] in all
    ensures var r := SearchProcess(input, spans, i, p, limits, clocks, lib);
            r.Some? ==> FromSearch(input, all, r.value.patches, limits, lib)
    decreases |spans| - i
  {
    hide SearchAdvanced, FromSearch;
    if i < |spans| && !Aborts(input, spans[i], p.previousEnd) {
      var first, second := clocks(2 * i), clocks(2 * i + 1);
      SearchAdvancedFrom(input, all, spans[i], p, limits, first, second, lib);
      SearchFrom(input, all, spans, i + 1, SearchAdvanced(input, spans[i], p, limits, first, second, lib), limits,
                 clocks, lib);
    }
  }

  lemma NoPatches(input: bytes, spans: seq<Span>, limits: Limits, lib: Library)
    ensures FromSearch(input, spans, [], limits, lib)
  {
  }

  /** The outcomes of the spans from `i` on. */
  function SearchTrace(input: bytes, spans: seq<Span>, i: nat, p: Progress, limits: Limits, clocks: nat -> Clock,
                       lib: Library): seq<Outcome>
    requires i <= |spans|
    decreases |spans| - i
  {
    if i == |spans| || Aborts(input, spans[i], p.previousEnd) then []
    else
      [SearchOutcome(input, spans[i], p.work, limits, clocks(2 * i), clocks(2 * i + 1), lib)]
      + SearchTrace(input, spans, i + 1,
                    SearchAdvanced(input, spans[i], p, limits, clocks(2 * i), clocks(2 * i + 1), lib),
                    limits, clocks, lib)
  }

  /** Every span that is not accepted overwrites the terminal status, a mere lack of gain included. */
  lemma {:induction false} SearchTerminal(input: bytes, spans: seq<Span>, i: nat, p: Progress, limits: Limits,
                                          clocks: nat -> Clock, lib: Library)
    requires i <= |spans| && SearchProcess(input, spans, i, p, limits, clocks, lib).Some?
    ensures var trace := SearchTrace(input, spans, i, p, limits, clocks, lib);
            var p' := SearchProcess(input, spans, i, p, limits, clocks, lib).value;
            && |trace| == |spans| - i
            && p'.terminal == (if LastReject(trace).Some? then LastReject(trace) else p.terminal)
            && (p'.patches == [] <==> p.patches == [] && forall o :: o in trace ==> !o.Accept?)
            && forall o :: o in trace ==> !o.NoGain?
    decreases |spans| - i
  {
    hide SearchOutcome, SearchEvaluated, SearchWork;
    if i < |spans| {
      var first, second := clocks(2 * i), clocks(2 * i + 1);
      var o := SearchOutcome(input, spans[i], p.work, limits, first, second, lib);
      var p1 := SearchAdvanced(input, spans[i], p, limits, first, second, lib);
      SearchTerminal(input, spans, i + 1, p1, limits, clocks, lib);
      OutcomeGains(input, spans[i], p.work, limits, first, second, lib);
      var tail := SearchTrace(input, spans, i + 1, p1, limits, clocks, lib);
      LastRejectCons(o, tail);
      assert forall x :: x in [o] + tail <==> x == o || x in tail;
    }
  }

  /** The two reductions of one span: equal clocks never end in an internal error, and no rejection is a failed recovery. */
  lemma OutcomeGains(input: bytes, span: Span, work: u64, limits: Limits, first: Clock, second: Clock, lib: Library)
    requires span.start <= span.end <= |input|
    ensures var o := SearchOutcome(input, span, work, limits, first, second, lib);
            && !o.NoGain? && o != Reject(RewriteRecoveryFailed) && o != Reject(Rewritten)
            && (first == second ==> o != Reject(RewriteInternalError))
  {
    hide ContentReduced, ReadString, EncodeString;
    if Content(input, span).Some? {
      ContentMeaning(Content(input, span).value, limits, first, lib);
    }
  }

  /** Recovery never fails, and two runs that see the same clock never disagree. */
  predicate Unsurprising(terminal: Option<RewriteStatus>, steady: bool) {
    terminal != Some(Rewritten) && terminal != Some(RewriteRecoveryFailed)
    && (steady ==> terminal != Some(RewriteInternalError))
  }

  ghost predicate Steady(clocks: nat -> Clock) {
    forall i: nat :: clocks(2 * i) == clocks(2 * i + 1)
  }

  lemma {:induction false} SearchNoGuard(input: bytes, spans: seq<Span>, i: nat, p: Progress, limits: Limits,
                                         clocks: nat -> Clock, lib: Library)
    requires i <= |spans| && Unsurprising(p.terminal, Steady(clocks))
    ensures var r := SearchProcess(input, spans, i, p, limits, clocks, lib);
            r.Some? ==> Unsurprising(r.value.terminal, Steady(clocks))
    decreases |spans| - i
  {
    hide SearchOutcome, SearchEvaluated, SearchWork;
    if i < |spans| && !Aborts(input, spans[i], p.previousEnd) {
      var first, second := clocks(2 * i), clocks(2 * i + 1);
      OutcomeGains(input, spans[i], p.work, limits, first, second, lib);
      SearchNoGuard(input, spans, i + 1, SearchAdvanced(input, spans[i], p, limits, first, second, lib), limits,
                    clocks, lib);
    }
  }

  /**
    A body exists exactly when the status is Rewritten. It is strictly shorter than the request and is the request with
    disjoint, in-bounds patches applied, each the encoded reduction of one supplied span; undoing them gives the request.
   */
  lemma SearchRewriteIsSplice(input: bytes, spans: seq<Span>, limits: Limits, clocks: nat -> Clock, lib: Library)
    ensures var r := SearchRewriteOf(input, spans, limits, clocks, lib);
            && (r.body.Some? <==> r.status.Rewritten?) && r.status != RewriteRecoveryFailed
            && (Steady(clocks) ==> r.status != RewriteInternalError)
    ensures SearchRewriteOf(input, spans, limits, clocks, lib).body.Some? ==>
              var body := SearchRewriteOf(input, spans, limits, clocks, lib).body.value;
              exists patches: seq<Patch> ::
                && patches != [] && InOrder(patches, 0, |input|) && body == Patched(input, patches, 0)
                && FromSearch(input, spans, patches, limits, lib)
                && |body| < |input|
                && InOrder(Undo(input, patches, 0, 0), 0, |body|)
                && Patched(body, Undo(input, patches, 0, 0), 0) == input
  {
    hide FromSearch, SearchProcess, Sort, Patched, Undo, Steady;
    if spans != [] && Len64(|input|) <= limits.maxMemory {
      var sorted := Sort(spans);
      SearchInOrder(input, sorted, 0, START, limits, clocks, lib);
      SortFrom(spans);
      NoPatches(input, spans, limits, lib);
      SearchNoGuard(input, sorted, 0, START, limits, clocks, lib);
      SearchFrom(input, spans, sorted, 0, START, limits, clocks, lib);
      var r := SearchProcess(input, sorted, 0, START, limits, clocks, lib);
      if r.Some? && r.value.patches != [] {
        var patches := r.value.patches;
        var body := Patched(input, patches, 0);
        PatchedShorter(input, patches, 0);
        assert body[0..] == body && input[0..] == input;
        UndoPatched(input, patches, 0, body, 0);
      }
    }
  }
}
