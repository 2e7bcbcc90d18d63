/** Laws of the rewriter over whole span lists: order of the spans, and what its terminal status remembers. */
module RewriteLaws {
  import opened Base
  import opened JsonString
  import opened JsonGrammar
  import opened Lexical
  import opened Validator
  import opened Minify
  import opened Active

  // ----- The order of the supplied spans -----

  predicate Strict(spans: seq<Span>) {
    forall i, j :: 0 <= i < j < |spans| ==> spans[i].start < spans[j].start
  }

  predicate NonEmpty(spans: seq<Span>) {
    forall i :: 0 <= i < |spans| ==> spans[i].start < spans[i].end
  }

  /** Non-empty spans that get through the loop are disjoint and increasing. */
  lemma {:induction false} ProcessStrict(input: bytes, spans: seq<Span>, p: Progress, limits: Limits, lib: Library)
    requires NonEmpty(spans) && Process(input, spans, p, limits, lib).Some?
    ensures Strict(spans)
    ensures forall i :: 0 <= i < |spans| ==> p.previousEnd <= spans[i].start
    decreases |spans|
  {
    hide OutcomeOf, Evaluated, WorkAfter;
    if spans != [] {
      ProcessStrict(input, spans[1..], Advanced(input, spans[0], p, limits, lib), limits, lib);
      assert forall i :: 1 <= i < |spans| ==> spans[i] == spans[1..][i - 1];
    }
  }

  lemma {:induction false} SortUnique(a: seq<Span>, b: seq<Span>)
    requires Strict(a) && multiset(a) == multiset(b)
    requires forall i, j :: 0 <= i < j < |b| ==> !KeyLess(b[j], b[i])
    ensures a == b
    decreases |a|
  {
    assert |a| == |multiset(a)| && |b| == |multiset(b)|;
    if a != [] {
      SameHead(a, b);
      MultisetTail(a);
      MultisetTail(b);
      SortUnique(a[1..], b[1..]);
      First(a, b);
    }
  }

  lemma SameHead(a: seq<Span>, b: seq<Span>)
    requires a != [] && b != [] && Strict(a) && multiset(a) == multiset(b)
    requires forall i, j :: 0 <= i < j < |b| ==> !KeyLess(b[j], b[i])
    ensures a[0] == b[0]
  {
    assert b[0] in multiset(a) && a[0] in multiset(b);
    var i :| 0 <= i < |a| && a[i] == b[0];
    var j :| 0 <= j < |b| && b[j] == a[0];
  }

  lemma MultisetTail(a: seq<Span>)
    requires a != []
    ensures multiset(a[1..]) == multiset(a) - multiset{a[0]}
  {
    assert a == [a[0]] + a[1..];
  }

  lemma First(a: seq<Span>, b: seq<Span>)
    requires a != [] && b != [] && a[0] == b[0] && a[1..] == b[1..]
    ensures a == b
  {
    assert a == [a[0]] + a[1..] && b == [b[0]] + b[1..];
  }

  lemma SortedNonEmpty(spans: seq<Span>)
    requires NonEmpty(spans)
    ensures NonEmpty(Sort(spans))
  {
    SortFrom(spans);
  }

  lemma SameOrder(input: bytes, a: seq<Span>, b: seq<Span>, limits: Limits, lib: Library)
    requires multiset(a) == multiset(b) && NonEmpty(a)
    requires Process(input, Sort(a), START, limits, lib).Some?
    ensures Sort(a) == Sort(b)
  {
    hide Sort, Process;
    SortedNonEmpty(a);
    ProcessStrict(input, Sort(a), START, limits, lib);
    SortUnique(Sort(a), Sort(b));
  }

  /** The result does not depend on the order in which non-empty spans are supplied. */
  lemma OrderIrrelevant(input: bytes, a: seq<Span>, b: seq<Span>, limits: Limits, lib: Library)
    requires multiset(a) == multiset(b) && NonEmpty(a)
    ensures RewriteOf(input, a, limits, lib) == RewriteOf(input, b, limits, lib)
  {
    hide Sort, Process, Finish;
    assert |a| == |multiset(a)| && |b| == |multiset(b)|;
    forall i | 0 <= i < |b|
      ensures b[i].start < b[i].end
    {
      assert b[i] in multiset(a);
    }
    if Process(input, Sort(a), START, limits, lib).Some? {
      SameOrder(input, a, b, limits, lib);
    } else if Process(input, Sort(b), START, limits, lib).Some? {
      SameOrder(input, b, a, limits, lib);
    }
  }

  // ----- The terminal status -----

  /** The outcomes of a run of the loop that is not aborted. */
  function Trace(input: bytes, spans: seq<Span>, p: Progress, limits: Limits, lib: Library): seq<Outcome>
    decreases |spans|
  {
    if spans == [] || Aborts(input, spans[0], p.previousEnd) then []
    else
      [OutcomeOf(input, spans[0], p.work, limits, lib)]
      + Trace(input, spans[1..], Advanced(input, spans[0], p, limits, lib), limits, lib)
  }

  /** The status of the last rejected span. */
  function LastReject(trace: seq<Outcome>): Option<RewriteStatus> {
    if trace == [] then None
    else if trace[|trace| - 1].Reject? then Some(trace[|trace| - 1].status)
    else LastReject(trace[..|trace| - 1])
  }

  lemma {:induction false} LastRejectCons(o: Outcome, trace: seq<Outcome>)
    ensures LastReject([o] + trace)
            == if LastReject(trace).Some? then LastReject(trace) else if o.Reject? then Some(o.status) else None
    decreases |trace|
  {
    var s := [o] + trace;
    if trace == [] {
      assert s[..|s| - 1] == [];
    } else {
      assert s[|s| - 1] == trace[|trace| - 1];
      assert s[..|s| - 1] == [o] + trace[..|trace| - 1];
      LastRejectCons(o, trace[..|trace| - 1]);
    }
  }

  /** A later rejection overwrites every earlier one; NoImprovement never overwrites anything. */
  lemma {:induction false} TerminalIsLast(input: bytes, spans: seq<Span>, p: Progress, limits: Limits, lib: Library)
    requires Process(input, spans, p, limits, lib).Some?
    ensures var trace := Trace(input, spans, p, limits, lib);
            var last := LastReject(trace);
            var p' := Process(input, spans, p, limits, lib).value;
            && |trace| == |spans|
            && (last.Some? ==> p'.terminal == last)
            && (last.None? && p.terminal.Some? ==> p'.terminal == p.terminal)
            && (last.None? && p.terminal.None? ==>
                  p'.terminal == if exists o :: o in trace && o.NoGain? then Some(RewriteNoImprovement) else None)
            && (p'.patches == [] <==> p.patches == [] && forall o :: o in trace ==> !o.Accept?)
    decreases |spans|
  {
    hide OutcomeOf, Evaluated, WorkAfter;
    if spans != [] {
      var o := OutcomeOf(input, spans[0], p.work, limits, lib);
      var p1 := Advanced(input, spans[0], p, limits, lib);
      var tail := Trace(input, spans[1..], p1, limits, lib);
      TerminalIsLast(input, spans[1..], p1, limits, lib);
      LastRejectCons(o, tail);
      assert ([o] + tail)[0] == o;
      assert forall x :: x in [o] + tail <==> x == o || x in tail;
    }
  }

  /** Whether the loop reaches the end of the span list. */
  predicate Completes(input: bytes, spans: seq<Span>, limits: Limits, lib: Library) {
    spans != [] && Len64(|input|) <= limits.maxMemory && Process(input, Sort(spans), START, limits, lib).Some?
  }

  function Outcomes(input: bytes, spans: seq<Span>, limits: Limits, lib: Library): seq<Outcome> {
    Trace(input, Sort(spans), START, limits, lib)
  }

  /**
    The request is rewritten exactly when some span is accepted and the last rejected span, if any, was not fatal.
   */
  lemma RewrittenExactly(input: bytes, spans: seq<Span>, limits: Limits, lib: Library)
    requires Completes(input, spans, limits, lib)
    ensures var trace := Outcomes(input, spans, limits, lib);
            RewriteOf(input, spans, limits, lib).status.Rewritten? <==>
            (exists o :: o in trace && o.Accept?) && !(LastReject(trace).Some? && Fatal(LastReject(trace).value))
  {
    hide Sort, Process, Trace, Patched, CommonPrefix;
    TerminalIsLast(input, Sort(spans), START, limits, lib);
    ProcessInOrder(input, Sort(spans), START, limits, lib);
    ProcessNoGuard(input, Sort(spans), START, limits, lib);
  }

  /** A rejection is one of three: the only one that is not fatal is NotApplicable, for a repeated key. */
  lemma {:induction false} RejectKinds(input: bytes, spans: seq<Span>, p: Progress, limits: Limits, lib: Library)
    ensures forall o :: o in Trace(input, spans, p, limits, lib) && o.Reject? ==>
              Fatal(o.status) || o.status == RewriteNotApplicable
    decreases |spans|
  {
    hide OutcomeOf, Evaluated, WorkAfter;
    if spans != [] && !Aborts(input, spans[0], p.previousEnd) {
      OutcomeNoGuard(input, spans[0], p.work, limits, lib);
      RejectKinds(input, spans[1..], Advanced(input, spans[0], p, limits, lib), limits, lib);
    }
  }

  lemma {:induction false} LastRejectOccurs(trace: seq<Outcome>)
    ensures LastReject(trace).Some? ==> Reject(LastReject(trace).value) in trace
    ensures LastReject(trace).None? ==> forall o :: o in trace ==> !o.Reject?
    decreases |trace|
  {
    if trace != [] {
      LastRejectOccurs(trace[..|trace| - 1]);
      assert trace == trace[..|trace| - 1] + [trace[|trace| - 1]];
    }
  }

  /** Some span is fatal and yet the request is rewritten. */
  ghost predicate BreaksAllOrNothing(input: bytes, spans: seq<Span>, limits: Limits, lib: Library) {
    && RewriteOf(input, spans, limits, lib).status.Rewritten?
    && exists o :: o in Outcomes(input, spans, limits, lib) && o.Reject? && Fatal(o.status)
  }

  /**
    The documented all-or-nothing rule fails exactly when a fatal span is followed, as the last rejected span, by one
    that merely repeats a key, and some span is accepted.
   */
  lemma AllOrNothingExactly(input: bytes, spans: seq<Span>, limits: Limits, lib: Library)
    requires Completes(input, spans, limits, lib)
    ensures var trace := Outcomes(input, spans, limits, lib);
            BreaksAllOrNothing(input, spans, limits, lib) <==>
            && (exists o :: o in trace && o.Accept?)
            && (exists o :: o in trace && o.Reject? && Fatal(o.status))
            && LastReject(trace) == Some(RewriteNotApplicable)
  {
    hide Sort, Process, Trace, RewriteOf, LastReject;
    var trace := Outcomes(input, spans, limits, lib);
    RewrittenExactly(input, spans, limits, lib);
    LastRejectOccurs(trace);
    RejectKinds(input, Sort(spans), START, limits, lib);
    if LastReject(trace).Some? {
      assert Reject(LastReject(trace).value).Reject?;
    }
  }

  // ----- A request that breaks the rule -----

  /** `CompressionLimits::default`. */
  const DEFAULT_LIMITS: Limits := Limits(1_048_576, 1_048_576, 16, 2_000_000, 4_194_304)

  const ARRAY: bytes := [0x5B, 0x20, 0x5D]                                              // [ ]
  const BAD: bytes := [0x78]                                                            // x
  const TWICE: bytes := [0x7B, 0x22, 0x22, 0x3A, 0x30, 0x2C, 0x22, 0x22, 0x3A, 0x30, 0x7D] // {"":0,"":0}
  const REQUEST: bytes := ARRAY + BAD + TWICE
  const SPANS: seq<Span> := [Span(0, 3, false), Span(3, 4, false), Span(4, 15, false)]

  function Anything(): Library {
    Reader(s => true, s => s)
  }

  lemma ArrayAccepted()
    ensures Transformed(ARRAY, DEFAULT_LIMITS, Anything()).Ok?
    ensures |Transformed(ARRAY, DEFAULT_LIMITS, Anything()).value.candidate| == 2
  {
    hide EncodeRuns, Runs, ParseValue;
    var d := Document([], Node(Arr, [0x20], End), []);
    assert PrintDocument(d) == ARRAY;
    ParsePrintDocument(d);
    MinifiedDocument(ARRAY);
    assert PrintDocument(StripDocument(d)) == [0x5B, 0x5D];
    RecoverySize(ARRAY, Code, 0);
  }

  lemma BadRejected()
    ensures Transformed(BAD, DEFAULT_LIMITS, Anything()) == Err(InvalidInput)
  {
    assert BAD[0..] == BAD && BAD[1..] == [];
    assert DigitRun(BAD) == 0;
    assert !IsScalar(BAD);
    assert ScalarRun(BAD) == 1 && BAD[..1] == BAD;
    assert ParseValue(BAD) == None;
  }

  lemma TwiceRejected()
    ensures Transformed(TWICE, DEFAULT_LIMITS, Anything()) == Err(NotApplicable)
  {
    hide EncodeRuns, Runs, ParseValue;
    var key := [QUOTE, QUOTE];
    assert key[1..1] == [];
    assert DecodeString(key) == Some([]);
    var zero: bytes := [0x30];
    assert zero[1..] == [];
    assert DigitRun(zero) == 1;
    var last := Elem([], Key(key, [], []), Scalar(zero), [], End);
    var both := Elem([], Key(key, [], []), Scalar(zero), [], last);
    var d := Document([], Node(Obj, [], both), []);
    assert PrintLabel(Key(key, [], [])) == key + [COLON];
    assert PrintElems(last) == [QUOTE, QUOTE, COLON, 0x30];
    assert PrintElems(both) == [QUOTE, QUOTE, COLON, 0x30] + ([COMMA] + PrintElems(last));
    assert Print(Node(Obj, [], both)) == [0x7B] + PrintElems(both) + [0x7D];
    assert PrintDocument(d) == TWICE;
    ParsePrintDocument(d);
    var none: set<bytes> := {};
    var seen: set<bytes> := {[]};
    assert none + seen == seen;
    assert CheckElems(Obj, last, 1, seen) == Err(NotApplicable);
    assert Check(Scalar(zero), 1) == Ok(());

  }

  lemma RequestTrace()
    ensures Completes(REQUEST, SPANS, DEFAULT_LIMITS, Anything())
    ensures var trace := Outcomes(REQUEST, SPANS, DEFAULT_LIMITS, Anything());
            && |trace| == 3 && trace[0].Accept? && trace[1] == Reject(RewriteInvalidInput)
            && trace[2] == Reject(RewriteNotApplicable)
  {
    hide Transformed, EncodeRuns, Sort;
    SortUnique(SPANS, Sort(SPANS));
    ArrayAccepted();
    BadRejected();
    TwiceRejected();
    assert REQUEST[0..3] == ARRAY && REQUEST[3..4] == BAD && REQUEST[4..15] == TWICE;
    var lib := Anything();
    var p1 := Advanced(REQUEST, SPANS[0], START, DEFAULT_LIMITS, lib);
    var p2 := Advanced(REQUEST, SPANS[1], p1, DEFAULT_LIMITS, lib);
    var p3 := Advanced(REQUEST, SPANS[2], p2, DEFAULT_LIMITS, lib);
    assert SPANS[1..][0] == SPANS[1] && SPANS[1..][1..] == [SPANS[2]] && [SPANS[2]][1..] == [];
    assert Process(REQUEST, [SPANS[2]], p2, DEFAULT_LIMITS, lib) == Some(p3);
    assert Process(REQUEST, SPANS[1..], p1, DEFAULT_LIMITS, lib) == Some(p3);
    assert Trace(REQUEST, [SPANS[2]], p2, DEFAULT_LIMITS, lib) == [Reject(RewriteNotApplicable)];
    assert Trace(REQUEST, SPANS[1..], p1, DEFAULT_LIMITS, lib)
        == [Reject(RewriteInvalidInput), Reject(RewriteNotApplicable)];
  }

  /** `[ ]x{"":0,"":0}`: the middle span is malformed, the last repeats a key, and the first is still rewritten. */
  lemma AllOrNothingFails()
    ensures BreaksAllOrNothing(REQUEST, SPANS, DEFAULT_LIMITS, Anything())
  {
    hide Transformed, Sort, Process, Trace, RewriteOf;
    RequestTrace();
    var trace := Outcomes(REQUEST, SPANS, DEFAULT_LIMITS, Anything());
    AllOrNothingExactly(REQUEST, SPANS, DEFAULT_LIMITS, Anything());
    assert trace[0] in trace && trace[1] in trace;
  }
}
