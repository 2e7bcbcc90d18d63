/** Laws of the search rewriter over whole span lists: the order of the spans, and when it fails open. */
module SearchRewriteLaws {
  import opened Base
  import opened JsonString
  import opened JsonGrammar
  import opened Decimal
  import opened Active
  import opened RewriteLaws
  import opened Search
  import opened SearchLaws
  import opened SearchRewrite

  // ----- The order of the supplied spans -----

  /** Non-empty spans that get through the loop are disjoint and increasing. */
  lemma {:induction false} SearchStrict(input: bytes, spans: seq<Span>, i: nat, p: Progress, limits: Limits,
                                        clocks: nat -> Clock, lib: Library)
    requires i <= |spans| && NonEmpty(spans) && SearchProcess(input, spans, i, p, limits, clocks, lib).Some?
    ensures Strict(spans[i..])
    ensures forall k :: i <= k < |spans| ==> p.previousEnd <= spans[k].start
    decreases |spans| - i
  {
    hide SearchOutcome, SearchEvaluated, SearchWork;
    if i < |spans| {
      var q := SearchAdvanced(input, spans[i], p, limits, clocks(2 * i), clocks(2 * i + 1), lib);
      SearchStrict(input, spans, i + 1, q, limits, clocks, lib);
      assert forall k :: 1 <= k < |spans| - i ==> spans[i..][k] == spans[i + 1..][k - 1] == spans[i + k];
    }
  }

  lemma SearchSameOrder(input: bytes, a: seq<Span>, b: seq<Span>, limits: Limits, clocks: nat -> Clock, lib: Library)
    requires multiset(a) == multiset(b) && NonEmpty(a)
    requires SearchProcess(input, Sort(a), 0, START, limits, clocks, lib).Some?
    ensures Sort(a) == Sort(b)
  {
    hide Sort, SearchProcess;
    SortedNonEmpty(a);
    SearchStrict(input, Sort(a), 0, START, limits, clocks, lib);
    assert Sort(a)[0..] == Sort(a);
    SortUnique(Sort(a), Sort(b));
  }

  /** The result does not depend on the order in which non-empty spans are supplied. */
  lemma SearchOrderIrrelevant(input: bytes, a: seq<Span>, b: seq<Span>, limits: Limits, clocks: nat -> Clock,
                              lib: Library)
    requires multiset(a) == multiset(b) && NonEmpty(a)
    ensures SearchRewriteOf(input, a, limits, clocks, lib) == SearchRewriteOf(input, b, limits, clocks, lib)
  {
    hide Sort, SearchProcess, Finish;
    assert |a| == |multiset(a)| && |b| == |multiset(b)|;
    forall i | 0 <= i < |b|
      ensures b[i].start < b[i].end
    {
      assert b[i] in multiset(a);
    }
    if SearchProcess(input, Sort(a), 0, START, limits, clocks, lib).Some? {
      SearchSameOrder(input, a, b, limits, clocks, lib);
    } else if SearchProcess(input, Sort(b), 0, START, limits, clocks, lib).Some? {
      SearchSameOrder(input, b, a, limits, clocks, lib);
    }
  }

  // ----- Failing open -----

  /** Whether the loop reaches the end of the span list. */
  predicate SearchCompletes(input: bytes, spans: seq<Span>, limits: Limits, clocks: nat -> Clock, lib: Library) {
    spans != [] && Len64(|input|) <= limits.maxMemory
    && SearchProcess(input, Sort(spans), 0, START, limits, clocks, lib).Some?
  }

  function SearchOutcomes(input: bytes, spans: seq<Span>, limits: Limits, clocks: nat -> Clock, lib: Library)
    : seq<Outcome>
  {
    SearchTrace(input, Sort(spans), 0, START, limits, clocks, lib)
  }

  /** The request is rewritten exactly when some span is accepted and the last rejected span, if any, was not fatal. */
  lemma SearchRewrittenExactly(input: bytes, spans: seq<Span>, limits: Limits, clocks: nat -> Clock, lib: Library)
    requires SearchCompletes(input, spans, limits, clocks, lib)
    ensures var trace := SearchOutcomes(input, spans, limits, clocks, lib);
            SearchRewriteOf(input, spans, limits, clocks, lib).status.Rewritten? <==>
            (exists o :: o in trace && o.Accept?) && !(LastReject(trace).Some? && Fatal(LastReject(trace).value))
  {
    hide Sort, SearchProcess, SearchTrace, Patched, CommonPrefix, Steady;
    SearchTerminal(input, Sort(spans), 0, START, limits, clocks, lib);
    SearchInOrder(input, Sort(spans), 0, START, limits, clocks, lib);
    SearchNoGuard(input, Sort(spans), 0, START, limits, clocks, lib);
  }

  /** A rejection that is not fatal is one of two: the span is not search output, or gains nothing. */
  lemma {:induction false} SearchRejectKinds(input: bytes, spans: seq<Span>, i: nat, p: Progress, limits: Limits,
                                             clocks: nat -> Clock, lib: Library)
    requires i <= |spans|
    ensures forall o :: o in SearchTrace(input, spans, i, p, limits, clocks, lib) && o.Reject? ==>
              Fatal(o.status) || o.status == RewriteNotApplicable || o.status == RewriteNoImprovement
    decreases |spans| - i
  {
    hide SearchOutcome, SearchEvaluated, SearchWork;
    if i < |spans| && !Aborts(input, spans[i], p.previousEnd) {
      var first, second := clocks(2 * i), clocks(2 * i + 1);
      OutcomeGains(input, spans[i], p.work, limits, first, second, lib);
      SearchRejectKinds(input, spans, i + 1, SearchAdvanced(input, spans[i], p, limits, first, second, lib), limits,
                        clocks, lib);
    }
  }

  /** A span that, by the documentation, makes the rewriter return the original request. */
  predicate Failing(o: Outcome) {
    o.Reject? && (Fatal(o.status) || o.status == RewriteNotApplicable)
  }

  /** Some span is malformed, unsupported or otherwise failing, and yet the request is rewritten. */
  ghost predicate BreaksFailOpen(input: bytes, spans: seq<Span>, limits: Limits, clocks: nat -> Clock, lib: Library) {
    && SearchRewriteOf(input, spans, limits, clocks, lib).status.Rewritten?
    && exists o :: o in SearchOutcomes(input, spans, limits, clocks, lib) && Failing(o)
  }

  /**
    The documented rule fails exactly when a failing span is followed, as the last rejected span, by one that is merely
    not search output or gains nothing, and some span is accepted. An unsupported span alone never stops the rewriter.
   */
  lemma FailOpenExactly(input: bytes, spans: seq<Span>, limits: Limits, clocks: nat -> Clock, lib: Library)
    requires SearchCompletes(input, spans, limits, clocks, lib)
    ensures var trace := SearchOutcomes(input, spans, limits, clocks, lib);
            BreaksFailOpen(input, spans, limits, clocks, lib) <==>
            && (exists o :: o in trace && o.Accept?)
            && (exists o :: o in trace && Failing(o))
            && (LastReject(trace) == Some(RewriteNotApplicable) || LastReject(trace) == Some(RewriteNoImprovement))
  {
    hide Sort, SearchProcess, SearchTrace, SearchRewriteOf, LastReject;
    var trace := SearchOutcomes(input, spans, limits, clocks, lib);
    SearchRewrittenExactly(input, spans, limits, clocks, lib);
    LastRejectOccurs(trace);
    SearchRejectKinds(input, Sort(spans), 0, START, limits, clocks, lib);
    if LastReject(trace).Some? {
      assert Reject(LastReject(trace).value).Reject?;
    }
  }

  // ----- A request that breaks the rule -----

  /** A printed list with an empty line at its end is read as the list is. */
  lemma PaddedReads(matches: seq<Match>, limits: Limits, lib: Library)
    requires Sorted(matches) && AllPrintable(matches) && Len64(|Render(matches)| + 1) <= limits.maxInput
    ensures ParseSearch(Render(matches) + [NEWLINE], limits, lib) == ParseSearch(Render(matches), limits, lib)
  {
    hide Render, Sorted, Printable, Utf8, Find, Listing, JoinLines, Lines, ReadLines, LineEvent, SortMatches, DropCrs,
         OneLine;
    var lines := [TITLE] + Listing(None, matches);
    var blank: seq<bytes> := [[]];
    var start := Reading(None, [], []);
    RenderSorted(matches);
    ListingClean(None, matches);
    TitleClean();
    BlankLine(start, lib);
    assert AllClean(lines) && AllClean(lines + blank);
    JoinUtf8(lines);
    JoinUtf8(lines + blank);
    JoinBlank(lines);
    LinesJoin(lines);
    LinesJoin(lines + blank);
    DropCrsAppend(lines, blank);
    ReadAppend(start, DropCrs(lines), DropCrs(blank), lib);
    var q := ReadLines(start, DropCrs(lines), lib);
    if q.Some? {
      BlankLine(q.value, lib);
    }
  }

  lemma BlankLine(r: Reading, lib: Library)
    ensures Clean([]) && DropCrs([[]]) == [[]] && ReadLines(r, [[]], lib) == Some(r)
  {
    hide LineEvent;
    var none: bytes := [];
    assert LineEvent(none, r.grouped, lib) == Skip by { BlankIsSkipped(r.grouped, lib); }
    ReadOne(r, none, lib);
    assert DropCrs([none]) == [none];
  }

  lemma BlankIsSkipped(grouped: Option<bytes>, lib: Library)
    ensures LineEvent([], grouped, lib) == Skip
  {
  }

  lemma JoinBlank(lines: seq<bytes>)
    ensures JoinLines(lines + [[]]) == JoinLines(lines) + [NEWLINE]
  {
    hide JoinLines;
    JoinAppend(lines, [[]]);
    assert JoinLines([[]]) == [NEWLINE] by { JoinOne(); }
  }

  lemma JoinOne()
    ensures JoinLines([[]]) == [NEWLINE]
  {
    var lines: seq<bytes> := [[]];
    assert lines[1..] == [];
    assert JoinLines(lines[1..]) == [];
  }

  /** The match `x` in line 1 of file `A`. */
  const HIT: Match := Match([0x41], 1, [0x78])
  const TWO: seq<Match> := [HIT, HIT]
  const PADDED: bytes := Render(TWO) + [NEWLINE]
  /** A:1:x */
  const ONE_LINE: bytes := [0x41, COLON, 0x31, COLON, 0x78]
  const SEARCH_REQUEST: bytes := PADDED + [0x78] + ONE_LINE
  const SEARCH_SPANS: seq<Span> := [Span(0, 29, false), Span(29, 30, true), Span(30, 35, false)]

  /** A clock that is never past the bound. */
  function InTime(): nat -> Clock {
    (i: nat) => (k: nat) => false
  }

  lemma HitFacts()
    ensures Printable(HIT) && FileOk(HIT.file) && TextOk(HIT.text) && |RecordLine(HIT)| == 3
    ensures Sorted(TWO) && AllPrintable(TWO) && FilesOk(TWO) && TextsOk(TWO)
  {
    hide Find, Utf8;
    AsciiUtf8(HIT.file);
    AsciiUtf8(HIT.text);
    FindOne(0x41, SPACE);
    FindOne(0x41, NEWLINE);
    assert !HasLiteral(HIT.text);
    assert HIT.text[1..] == [] && EscapeNewlines(HIT.text) == [0x78];
    assert |ToDecimal(1)| == 1;
    assert !MatchLess(HIT, HIT) by { MatchLessAsymmetric(HIT, HIT); }
    assert TWO[1..] == [HIT] && |[HIT]| < 2;
  }

  lemma TwoLength()
    ensures |Render(TWO)| == 28
  {
    hide Printable, FileOk, TextOk, RecordLine, Utf8, Less;
    HitFacts();
    RenderSorted(TWO);
    var head, record := HIT.file + [COLON], RecordLine(HIT);
    assert TWO[1..] == [HIT] && [HIT][1..] == [];
    assert Listing(Some(HIT.file), []) == [];
    assert Listing(Some(HIT.file), [HIT]) == [record];
    assert Listing(None, TWO) == [head] + [record] + [record];
    var lines := [TITLE, head, record, record];
    assert [TITLE] + Listing(None, TWO) == lines;
    assert lines[1..] == [head, record, record] && lines[1..][1..] == [record, record];
    var none: seq<bytes> := [];
    assert [record, record][1..] == [record] && [record][1..] == none;
    assert JoinLines([record]) == record + [NEWLINE] + JoinLines(none);
    assert JoinLines([record, record]) == record + [NEWLINE] + JoinLines([record]);
    assert JoinLines(lines[1..]) == head + [NEWLINE] + JoinLines([record, record]);
    assert JoinLines(lines) == TITLE + [NEWLINE] + JoinLines(lines[1..]);
  }

  lemma PaddedReduced(lib: Library)
    ensures |PADDED| == 29
    ensures ContentReduced(PADDED, DEFAULT_LIMITS, InTime()(0), lib) == Reduction(Applicable, Some(Render(TWO)))
  {
    hide Render, ParseSearch, Sorted, AllPrintable, FilesOk, TextsOk, EnvelopeReduced;
    HitFacts();
    TwoLength();
    PaddedReads(TWO, DEFAULT_LIMITS, lib);
    OneLineRoundTrip(TWO, DEFAULT_LIMITS, lib);
  }

  lemma OneLineRead(lib: Library)
    ensures ParseSearch(ONE_LINE, DEFAULT_LIMITS, lib) == Some(Model([HIT], []))
  {
    hide LineEvent, Find, Utf8, Lines, SortMatches, ReadLines;
    assert ONE_LINE == [0x41, COLON, 0x31, COLON] + [0x78];
    assert forall i :: 0 <= i < |ONE_LINE| ==> ONE_LINE[i] < 0x80 && ONE_LINE[i] != NEWLINE;
    PlainMatch([0x78], lib);
    AsciiUtf8(ONE_LINE);
    LinesOne(ONE_LINE);
    ReadOne(Reading(None, [], []), ONE_LINE, lib);
    SortOne(HIT);
    assert [] + [HIT] == [HIT];
  }

  lemma OneLineReduced(lib: Library)
    ensures ContentReduced(ONE_LINE, DEFAULT_LIMITS, InTime()(0), lib) == Declined(ReductionNoImprovement)
  {
    hide Render, ParseSearch, EnvelopeReduced;
    OneLineRead(lib);
  }

  lemma NoString()
    ensures ReadString([0x78]).None?
  {
    assert TrimWs([0x78]) == [0x78];
  }

  lemma SearchRequestTrace(lib: Library)
    ensures SearchCompletes(SEARCH_REQUEST, SEARCH_SPANS, DEFAULT_LIMITS, InTime(), lib)
    ensures var trace := SearchOutcomes(SEARCH_REQUEST, SEARCH_SPANS, DEFAULT_LIMITS, InTime(), lib);
            && |trace| == 3 && trace[0].Accept? && trace[1] == Reject(RewriteInvalidInput)
            && trace[2] == Reject(RewriteNoImprovement)
  {
    hide ContentReduced, Sort, Render, ReadString;
    SortUnique(SEARCH_SPANS, Sort(SEARCH_SPANS));
    PaddedReduced(lib);
    TwoLength();
    OneLineReduced(lib);
    NoString();
    var input, spans := SEARCH_REQUEST, SEARCH_SPANS;
    assert input[0..29] == PADDED && input[29..30] == [0x78] && input[30..35] == ONE_LINE;
    var clock := InTime()(0);
    var p1 := SearchAdvanced(input, spans[0], START, DEFAULT_LIMITS, clock, clock, lib);
    var p2 := SearchAdvanced(input, spans[1], p1, DEFAULT_LIMITS, clock, clock, lib);
    var p3 := SearchAdvanced(input, spans[2], p2, DEFAULT_LIMITS, clock, clock, lib);
    assert forall i :: InTime()(i) == clock;
    assert SearchProcess(input, spans, 3, p3, DEFAULT_LIMITS, InTime(), lib) == Some(p3);
    assert SearchProcess(input, spans, 2, p2, DEFAULT_LIMITS, InTime(), lib) == Some(p3);
    assert SearchProcess(input, spans, 1, p1, DEFAULT_LIMITS, InTime(), lib) == Some(p3);
    assert SearchTrace(input, spans, 3, p3, DEFAULT_LIMITS, InTime(), lib) == [];
    assert SearchTrace(input, spans, 2, p2, DEFAULT_LIMITS, InTime(), lib) == [Reject(RewriteNoImprovement)];
    assert SearchTrace(input, spans, 1, p1, DEFAULT_LIMITS, InTime(), lib)
        == [Reject(RewriteInvalidInput), Reject(RewriteNoImprovement)];
  }

  /** A printed list, a malformed string and a single match: the malformed span is masked, and the list is rewritten. */
  lemma FailOpenFails(lib: Library)
    ensures BreaksFailOpen(SEARCH_REQUEST, SEARCH_SPANS, DEFAULT_LIMITS, InTime(), lib)
  {
    hide SearchOutcomes, SearchCompletes, SearchRewriteOf, Render;
    SearchRequestTrace(lib);
    var trace := SearchOutcomes(SEARCH_REQUEST, SEARCH_SPANS, DEFAULT_LIMITS, InTime(), lib);
    FailOpenExactly(SEARCH_REQUEST, SEARCH_SPANS, DEFAULT_LIMITS, InTime(), lib);
    assert trace[0] in trace && trace[1] in trace;
  }
}
