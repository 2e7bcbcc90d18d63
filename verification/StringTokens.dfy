/** The lexical string-token scanner of the envelope rewriters, and its agreement with the grammar. */
module StringTokens {
  import opened Base
  import opened JsonString
  import opened JsonGrammar
  import opened Lexical

  /** Half-open byte range of one string token, quotes included. */
  datatype Range = Range(start: nat, end: nat)

  // ----- What the grammar says -----

  /** The string tokens of a tree in document order, keys included, for a tree printed at `off`. */
  function Spans(t: Tree, off: nat): seq<Range>
    decreases t, 1
  {
    match t
    case Scalar(_) => []
    case Str(token) => [Range(off, off + |token|)]
    case Node(_, _, elems) => SpansElems(elems, off + 1)
  }

  function SpansLabel(tag: Label, off: nat): seq<Range> {
    match tag
    case NoKey => []
    case Key(token, _, _) => [Range(off, off + |token|)]
  }

  function SpansElems(elems: Elems, off: nat): seq<Range>
    decreases elems, 0
  {
    match elems
    case End => []
    case Elem(lead, tag, value, trail, rest) =>
      var o1 := off + |lead|;
      var o2 := o1 + |PrintLabel(tag)|;
      var o3 := o2 + |Print(value)| + |trail| + 1;
      SpansLabel(tag, o1) + Spans(value, o2) + SpansElems(rest, o3)
  }

  function DocumentSpans(d: Document): seq<Range> {
    Spans(d.value, |d.lead|)
  }

  /** The log after the string tokens of a tree have been appended to it one by one. */
  ghost function Onto(found: seq<Range>, t: Tree, off: nat): seq<Range>
    decreases t, 1
  {
    match t
    case Scalar(_) => found
    case Str(token) => found + [Range(off, off + |token|)]
    case Node(_, _, elems) => OntoElems(found, elems, off + 1)
  }

  ghost function OntoLabel(found: seq<Range>, tag: Label, off: nat): seq<Range> {
    if tag.NoKey? then found else found + [Range(off, off + |tag.token|)]
  }

  ghost function OntoElems(found: seq<Range>, e: Elems, off: nat): seq<Range>
    decreases e, 0
  {
    match e
    case End => found
    case Elem(lead, tag, value, trail, rest) =>
      var o1 := off + |lead|;
      var o2 := o1 + |PrintLabel(tag)|;
      OntoElems(Onto(OntoLabel(found, tag, o1), value, o2), rest, o2 + |Print(value)| + |trail| + 1)
  }

  lemma {:induction false} OntoSpans(found: seq<Range>, t: Tree, off: nat)
    ensures Onto(found, t, off) == found + Spans(t, off)
    decreases t, 1
  {
    if t.Node? {
      OntoSpansElems(found, t.elems, off + 1);
    } else {
      assert t.Scalar? ==> found + Spans(t, off) == found;
    }
  }

  lemma {:induction false} OntoSpansElems(found: seq<Range>, e: Elems, off: nat)
    ensures OntoElems(found, e, off) == found + SpansElems(e, off)
    decreases e, 0
  {
    if e.Elem? {
      var o1 := off + |e.lead|;
      var o2 := o1 + |PrintLabel(e.tag)|;
      var found' := OntoLabel(found, e.tag, o1);
      OntoSpans(found', e.value, o2);
      var o3 := o2 + |Print(e.value)| + |e.trail| + 1;
      OntoSpansElems(found' + Spans(e.value, o2), e.rest, o3);
      OntoJoin(found, SpansLabel(e.tag, o1), Spans(e.value, o2), SpansElems(e.rest, o3));
    } else {
      assert found + [] == found;
    }
  }

  lemma OntoJoin<T>(found: seq<T>, a: seq<T>, b: seq<T>, c: seq<T>)
    ensures found + a + b + c == found + (a + b + c)
    ensures a == [] ==> found + a == found
  {
  }

  // ----- What the scan finds -----

  /** The scan of `s`, which starts at `off`: ranges found so far, the flags, and where the open string started. */
  function ScanFrom(found: seq<Range>, s: bytes, off: nat, st: Lex, start: nat): (r: Option<seq<Range>>)
    ensures r.Some? ==> found <= r.value
    decreases |s|
  {
    if s == [] then if st.Code? then Some(found) else None
    else
      var next := Step(st, s[0]);
      ScanFrom(if st.Quoted? && next.Code? then found + [Range(start, off + 1)] else found,
               s[1..], off + 1, next, if next.Code? then off + 1 else if st.Code? then off else start)
  }

  function Scan(found: seq<Range>, s: bytes, off: nat): (r: Option<seq<Range>>)
    ensures r.Some? ==> found <= r.value
  {
    ScanFrom(found, s, off, Code, off)
  }

  lemma ScanStep(found: seq<Range>, s: bytes, off: nat)
    ensures s == [] ==> Scan(found, s, off) == Some(found)
    ensures s != [] && s[0] != QUOTE ==> Scan(found, s, off) == Scan(found, s[1..], off + 1)
    ensures s != [] && s[0] == QUOTE ==>
              Scan(found, s, off)
              == match Body(s[1..], false)
                 case None => None
                 case Some(n) => Scan(found + [Range(off, off + n + 1)], s[n + 1..], off + n + 1)
  {
    if s != [] && s[0] == QUOTE {
      ScanBody(found, s[1..], off + 1, false, off);
      if Body(s[1..], false).Some? {
        assert s[1..][Body(s[1..], false).value..] == s[Body(s[1..], false).value + 1..];
      }
    }
  }

  lemma {:induction false} ScanBody(found: seq<Range>, s: bytes, off: nat, escaped: bool, start: nat)
    ensures ScanFrom(found, s, off, if escaped then Escaped else Quoted, start)
            == match Body(s, escaped)
               case None => None
               case Some(n) => Scan(found + [Range(start, off + n)], s[n..], off + n)
    decreases |s|
  {
    if s != [] && (escaped || s[0] != QUOTE) {
      ScanBody(found, s[1..], off + 1, !escaped && s[0] == BACKSLASH, start);
      if Body(s, escaped).Some? {
        HeadTail(s, Body(s, escaped).value);
      }
    }
  }

  predicate NoQuote(s: bytes) {
    forall i :: 0 <= i < |s| ==> s[i] != QUOTE
  }

  lemma {:induction false} ScanSkip(found: seq<Range>, s: bytes, rest: bytes, off: nat)
    requires NoQuote(s)
    ensures Scan(found, s + rest, off) == Scan(found, rest, off + |s|)
  {
    if s == [] {
      assert s + rest == rest;
    } else {
      assert (s + rest)[1..] == s[1..] + rest;
      ScanSkip(found, s[1..], rest, off + 1);
    }
  }

  lemma ScanToken(found: seq<Range>, token: bytes, rest: bytes, off: nat)
    requires DecodeString(token).Some?
    ensures Scan(found, token + rest, off)
            == Scan(found + [Range(off, off + |token|)], rest, off + |token|)
  {
    TokenScan(token, rest);
    TokenSlices(token, rest);
    ScanBody(found, (token + rest)[1..], off + 1, false, off);
  }

  lemma ScanLabel(found: seq<Range>, shape: Shape, tag: Label, rest: bytes, off: nat)
    requires WellFormedLabel(shape, tag)
    ensures Scan(found, PrintLabel(tag) + rest, off)
            == Scan(OntoLabel(found, tag, off), rest, off + |PrintLabel(tag)|)
  {
    hide Scan;
    match tag
    case NoKey =>
      assert PrintLabel(tag) + rest == rest;
    case Key(token, before, after) =>
      var found' := OntoLabel(found, tag, off);
      JoinLabel(token, before, after, rest, token + (before + ([COLON] + (after + rest))));
      ScanToken(found, token, before + ([COLON] + (after + rest)), off);
      ScanSkip(found', before, [COLON] + (after + rest), off + |token|);
      ScanSkip(found', [COLON], after + rest, off + |token| + |before|);
      ScanSkip(found', after, rest, off + |token| + |before| + 1);
  }

  lemma {:induction false} ScanTree(found: seq<Range>, t: Tree, rest: bytes, off: nat)
    requires WellFormed(t)
    ensures Scan(found, Print(t) + rest, off) == Scan(Onto(found, t, off), rest, off + |Print(t)|)
    decreases t, 0
  {
    hide Scan, IsScalar, DecodeString, Inside;
    match t
    case Scalar(token) =>
      ScanScalar(found, token, rest, off);
    case Str(token) =>
      ScanToken(found, token, rest, off);
    case Node(shape, pad, elems) =>
      var closed := [Close(shape)] + rest;
      JoinNode(shape, pad, elems, rest);
      ScanSkip(found, [Open(shape)], Inside(pad, elems) + closed, off);
      ScanInside(found, shape, pad, elems, closed, off + 1);
      ScanSkip(OntoElems(found, elems, off + 1), [Close(shape)], rest, off + 1 + |Inside(pad, elems)|);
  }

  lemma ScanScalar(found: seq<Range>, token: bytes, rest: bytes, off: nat)
    requires IsScalar(token)
    ensures Scan(found, token + rest, off) == Scan(found, rest, off + |token|)
  {
    hide Scan, IsScalar;
    ScalarBytes(token);
    ScanSkip(found, token, rest, off);
  }

  lemma {:induction false} ScanInside(found: seq<Range>, shape: Shape, pad: bytes, elems: Elems, rest: bytes, off: nat)
    requires AllWs(pad) && WellFormedElems(shape, elems)
    ensures Scan(found, Inside(pad, elems) + rest, off)
            == Scan(OntoElems(found, elems, off), rest, off + |Inside(pad, elems)|)
    decreases elems, 2
  {
    hide Scan;
    if elems.End? {
      ScanSkip(found, pad, rest, off);
    } else {
      ScanElems(found, shape, elems, rest, off);
    }
  }

  lemma {:induction false} ScanElems(found: seq<Range>, shape: Shape, elems: Elems, rest: bytes, off: nat)
    requires elems.Elem? && WellFormedElems(shape, elems)
    ensures Scan(found, PrintElems(elems) + rest, off)
            == Scan(OntoElems(found, elems, off), rest, off + |PrintElems(elems)|)
    decreases elems, 1
  {
    hide Scan, Print, Onto, OntoLabel, WellFormed, WellFormedLabel;
    var more := if elems.rest.End? then rest else [COMMA] + (PrintElems(elems.rest) + rest);
    var o1 := off + |elems.lead|;
    var o2 := o1 + |PrintLabel(elems.tag)|;
    SplitElems(elems, rest);
    ElemsLength(elems);
    ScanElem(found, shape, elems, more, off);
    ScanMore(Onto(OntoLabel(found, elems.tag, o1), elems.value, o2), shape, elems.rest, rest,
             o2 + |Print(elems.value)| + |elems.trail|);
  }

  /** The comma and the elements after it, when there are any. */
  lemma {:induction false} ScanMore(found: seq<Range>, shape: Shape, elems: Elems, rest: bytes, off: nat)
    requires WellFormedElems(shape, elems)
    ensures Scan(found, if elems.End? then rest else [COMMA] + (PrintElems(elems) + rest), off)
            == Scan(OntoElems(found, elems, off + 1), rest, off + if elems.End? then 0 else 1 + |PrintElems(elems)|)
    decreases elems, 2
  {
    hide Scan, Print;
    if elems.Elem? {
      ScanSkip(found, [COMMA], PrintElems(elems) + rest, off);
      ScanElems(found, shape, elems, rest, off + 1);
    }
  }

  lemma {:induction false} ScanElem(found: seq<Range>, shape: Shape, elem: Elems, more: bytes, off: nat)
    requires elem.Elem? && WellFormedElems(shape, elem)
    ensures var o1 := off + |elem.lead|;
            var o2 := o1 + |PrintLabel(elem.tag)|;
            var o4 := o2 + |Print(elem.value)| + |elem.trail|;
            Scan(found, elem.lead + (PrintLabel(elem.tag) + (Print(elem.value) + (elem.trail + more))), off)
            == Scan(Onto(OntoLabel(found, elem.tag, o1), elem.value, o2), more, o4)
    decreases elem, 0
  {
    hide Scan, Print, PrintLabel, Onto, OntoLabel;
    var tail := elem.trail + more;
    var o1 := off + |elem.lead|;
    var o2 := o1 + |PrintLabel(elem.tag)|;
    var found1 := OntoLabel(found, elem.tag, o1);
    ScanSkip(found, elem.lead, PrintLabel(elem.tag) + (Print(elem.value) + tail), off);
    ScanLabel(found, shape, elem.tag, Print(elem.value) + tail, o1);
    ScanTree(found1, elem.value, tail, o2);
    ScanSkip(Onto(found1, elem.value, o2), elem.trail, more, o2 + |Print(elem.value)|);
  }

  lemma ElemsLength(elems: Elems)
    requires elems.Elem?
    ensures |PrintElems(elems)|
            == |elems.lead| + |PrintLabel(elems.tag)| + |Print(elems.value)| + |elems.trail|
               + (if elems.rest.End? then 0 else 1 + |PrintElems(elems.rest)|)
  {
  }

  /** On every document the scan finds exactly the string tokens of the grammar, in order. */
  lemma ScanDocument(s: bytes)
    requires Grammatical(s)
    ensures Scan([], s, 0) == Some(DocumentSpans(Parse(s).value))
  {
    hide Scan, Parse;
    var d := Parse(s).value;
    PrintParseDocument(s);
    HeadAssoc(d.lead, Print(d.value), d.trail);
    ScanSkip([], d.lead, Print(d.value) + d.trail, 0);
    ScanTree([], d.value, d.trail, |d.lead|);
    OntoSpans([], d.value, |d.lead|);
    assert [] + DocumentSpans(d) == DocumentSpans(d);
    ScanWs(DocumentSpans(d), d.trail, |d.lead| + |Print(d.value)|);
  }

  lemma ScanWs(found: seq<Range>, ws: bytes, off: nat)
    requires AllWs(ws)
    ensures Scan(found, ws, off) == Some(found)
  {
    ScanSkip(found, ws, [], off);
    assert ws + [] == ws;
  }

  // ----- The scanner -----

  /** What the scanner answers for every input: the grammar's string tokens, unless there are too many. */
  function TokenRanges(input: bytes, maximum: u32, lib: Library): Result<seq<Range>, ReductionStatus> {
    if !Accepts(lib, input) then Err(ReductionInvalidInput)
    else
      var spans := DocumentSpans(Parse(input).value);
      if Len32(|spans|) > maximum then Err(ReductionResourceLimit) else Ok(spans)
  }

  /** Byte ranges of every string token of an accepted document, bounded in number. */
  method JsonStringTokenRanges(input: bytes, maximum: u32, lib: Library)
    returns (r: Result<seq<Range>, ReductionStatus>)
    ensures r == TokenRanges(input, maximum, lib)
  {
    hide DocumentSpans, Body, Scan, Parse, Step;
    if !Accepts(lib, input) {
      return Err(ReductionInvalidInput);
    }
    ScanDocument(input);
    var ranges: seq<Range> := [];
    var index := 0;
    ghost var whole := DocumentSpans(Parse(input).value);
    while index < |input|
      invariant 0 <= index <= |input|
      invariant Scan(ranges, input[index..], index) == Some(whole)
      invariant Len32(|ranges|) <= maximum
    {
      ScanStep(ranges, input[index..], index);
      assert input[index..][1..] == input[index + 1..];
      if input[index] != QUOTE {
        index := index + 1;
        continue;
      }
      var start := index;
      var close := ClosingQuote(input, start);
      if close.None? {
        return Err(ReductionInvalidInput);
      }
      index := close.value;
      assert input[start..][index - start..] == input[index..];
      ranges := ranges + [Range(start, index)];
      if Len32(|ranges|) > maximum {
        return Err(ReductionResourceLimit);
      }
    }
    ScanStep(ranges, input[index..], index);
    return Ok(ranges);
  }

  /** The inner loop of the scan: one past the quote that closes the string opened at `start`. */
  method ClosingQuote(input: bytes, start: nat) returns (r: Option<nat>)
    requires start < |input|
    ensures r == match Body(input[start + 1..], false) case None => None case Some(n) => Some(start + 1 + n)
  {
    hide Body;
    var index := start + 1;
    var escaped := false;
    ghost var n := Body(input[start + 1..], false);
    while true
      invariant start < index <= |input|
      invariant Continued(n, input[index..], escaped, index - start - 1)
      decreases |input| - index
    {
      ContinueStep(n, input[index..], escaped, index - start - 1);
      if index == |input| {
        return None;
      }
      var b := input[index];
      assert input[index..][1..] == input[index + 1..];
      index := index + 1;
      if escaped {
        escaped := false;
      } else if b == BACKSLASH {
        escaped := true;
      } else if b == QUOTE {
        return Some(index);
      }
    }
  }

  /** `n` is the distance to the closing quote, of which `passed` bytes have been read. */
  ghost predicate Continued(n: Option<nat>, s: bytes, escaped: bool, passed: nat) {
    n == match Body(s, escaped) case None => None case Some(m) => Some(m + passed)
  }

  lemma ContinueStep(n: Option<nat>, s: bytes, escaped: bool, passed: nat)
    requires Continued(n, s, escaped, passed)
    ensures s == [] ==> n == None
    ensures s != [] && !escaped && s[0] == QUOTE ==> n == Some(passed + 1)
    ensures s != [] && (escaped || s[0] != QUOTE) ==>
              Continued(n, s[1..], !escaped && s[0] == BACKSLASH, passed + 1)
  {
  }

  // ----- Replacing one token -----

  function Splice(s: bytes, range: Range, x: bytes): bytes
    requires range.start <= range.end <= |s|
  {
    s[..range.start] + x + s[range.end..]
  }

  /** Token texts in document order, keys included. */
  function Tokens(t: Tree): seq<bytes>
    decreases t, 1
  {
    match t
    case Scalar(_) => []
    case Str(token) => [token]
    case Node(_, _, elems) => TokensElems(elems)
  }

  function TokensLabel(tag: Label): seq<bytes> {
    if tag.NoKey? then [] else [tag.token]
  }

  function TokensElems(elems: Elems): seq<bytes>
    decreases elems, 0
  {
    match elems
    case End => []
    case Elem(_, tag, value, _, rest) => TokensLabel(tag) + Tokens(value) + TokensElems(rest)
  }

  /** The tree with its `k`-th string token replaced and nothing else changed. */
  function Replace(t: Tree, k: nat, x: bytes): Tree
    decreases t, 1
  {
    match t
    case Scalar(_) => t
    case Str(_) => Str(x)
    case Node(shape, pad, elems) => Node(shape, pad, ReplaceElems(elems, k, x))
  }

  function ReplaceElems(elems: Elems, k: nat, x: bytes): Elems
    decreases elems, 0
  {
    match elems
    case End => End
    case Elem(lead, tag, value, trail, rest) =>
      var a := |TokensLabel(tag)|;
      var b := a + |Tokens(value)|;
      if k < a then Elem(lead, tag.(token := x), value, trail, rest)
      else if k < b then Elem(lead, tag, Replace(value, k - a, x), trail, rest)
      else Elem(lead, tag, value, trail, ReplaceElems(rest, k - b, x))
  }

  /** The tree with every string token blanked: all that is not string content. */
  function Blank(t: Tree): Tree
    decreases t, 1
  {
    match t
    case Scalar(_) => t
    case Str(_) => Str([])
    case Node(shape, pad, elems) => Node(shape, pad, BlankElems(elems))
  }

  function BlankElems(elems: Elems): Elems
    decreases elems, 0
  {
    match elems
    case End => End
    case Elem(lead, tag, value, trail, rest) =>
      Elem(lead, if tag.NoKey? then NoKey else tag.(token := []), Blank(value), trail, BlankElems(rest))
  }

  lemma {:induction false} SpansCount(t: Tree, off: nat)
    ensures |Spans(t, off)| == |Tokens(t)|
    decreases t, 1
  {
    if t.Node? {
      SpansCountElems(t.elems, off + 1);
    }
  }

  lemma {:induction false} SpansCountElems(elems: Elems, off: nat)
    ensures |SpansElems(elems, off)| == |TokensElems(elems)|
    decreases elems, 0
  {
    if elems.Elem? {
      var o2 := off + |elems.lead| + |PrintLabel(elems.tag)|;
      SpansCount(elems.value, o2);
      SpansCountElems(elems.rest, o2 + |Print(elems.value)| + |elems.trail| + 1);
    }
  }

  function Rest(elems: Elems): bytes {
    if elems.End? then [] else [COMMA] + PrintElems(elems)
  }

  /** The text before, and after, token `k`. */
  function Before(t: Tree, k: nat): bytes
    decreases t, 1
  {
    if t.Node? then [Open(t.shape)] + BeforeIn(t.elems, k) else []
  }

  function BeforeIn(elems: Elems, k: nat): bytes
    decreases elems, 0
  {
    match elems
    case End => []
    case Elem(lead, tag, value, trail, rest) =>
      var a := |TokensLabel(tag)|;
      var b := a + |Tokens(value)|;
      if k < a then lead
      else if k < b then lead + PrintLabel(tag) + Before(value, k - a)
      else lead + PrintLabel(tag) + Print(value) + trail + [COMMA] + BeforeIn(rest, k - b)
  }

  function After(t: Tree, k: nat): bytes
    decreases t, 1
  {
    if t.Node? then AfterIn(t.elems, k) + [Close(t.shape)] else []
  }

  function AfterIn(elems: Elems, k: nat): bytes
    decreases elems, 0
  {
    match elems
    case End => []
    case Elem(lead, tag, value, trail, rest) =>
      var a := |TokensLabel(tag)|;
      var b := a + |Tokens(value)|;
      if k < a then tag.before + [COLON] + tag.after + Print(value) + trail + Rest(rest)
      else if k < b then After(value, k - a) + (trail + Rest(rest))
      else AfterIn(rest, k - b)
  }

  lemma InsertInside(p: bytes, b: bytes, x: bytes, a: bytes, q: bytes)
    ensures p + (b + x + a) + q == p + b + x + (a + q)
  {
  }

  lemma PrintElemsParts(elems: Elems)
    requires elems.Elem?
    ensures PrintElems(elems)
            == elems.lead + PrintLabel(elems.tag) + Print(elems.value) + (elems.trail + Rest(elems.rest))
    ensures elems.rest.Elem? ==>
              PrintElems(elems)
              == elems.lead + PrintLabel(elems.tag) + Print(elems.value) + elems.trail + [COMMA]
                 + PrintElems(elems.rest) + []
    ensures elems.tag.Key? ==>
              PrintElems(elems)
              == elems.lead + elems.tag.token
                 + (elems.tag.before + [COLON] + elems.tag.after + Print(elems.value) + elems.trail + Rest(elems.rest))
  {
  }

  lemma {:induction false} PrintReplace(t: Tree, k: nat, x: bytes)
    requires k < |Tokens(t)|
    ensures Print(Replace(t, k, x)) == Before(t, k) + x + After(t, k)
    decreases t, 1
  {
    if t.Node? {
      PrintReplaceIn(t.elems, k, x);
    }
  }

  lemma {:induction false} PrintReplaceIn(elems: Elems, k: nat, x: bytes)
    requires k < |TokensElems(elems)|
    ensures ReplaceElems(elems, k, x).Elem?
    ensures PrintElems(ReplaceElems(elems, k, x)) == BeforeIn(elems, k) + x + AfterIn(elems, k)
    decreases elems, 0
  {
    var a := |TokensLabel(elems.tag)|;
    var b := a + |Tokens(elems.value)|;
    var pre := elems.lead + PrintLabel(elems.tag);
    PrintElemsParts(ReplaceElems(elems, k, x));
    if k < a {
    } else if k < b {
      PrintReplace(elems.value, k - a, x);
      InsertInside(pre, Before(elems.value, k - a), x, After(elems.value, k - a), elems.trail + Rest(elems.rest));
    } else {
      PrintReplaceIn(elems.rest, k - b, x);
      InsertInside(pre + Print(elems.value) + elems.trail + [COMMA],
                   BeforeIn(elems.rest, k - b), x, AfterIn(elems.rest, k - b), []);
      assert AfterIn(elems.rest, k - b) + [] == AfterIn(elems.rest, k - b);
    }
  }

  lemma {:induction false} SpanAt(t: Tree, k: nat, off: nat)
    requires k < |Tokens(t)|
    ensures |Spans(t, off)| == |Tokens(t)|
    ensures Lies(Spans(t, off)[k], off, Before(t, k), Tokens(t)[k])
    decreases t, 1
  {
    SpansCount(t, off);
    if t.Node? {
      SpanIn(t.elems, k, off + 1);
    }
  }

  /** `range` is where token `token` lies, `before` bytes into a text printed at `off`. */
  predicate Lies(range: Range, off: nat, before: bytes, token: bytes) {
    range == Range(off + |before|, off + |before| + |token|)
  }

  lemma {:induction false} SpanIn(elems: Elems, k: nat, off: nat)
    requires k < |TokensElems(elems)|
    ensures |SpansElems(elems, off)| == |TokensElems(elems)|
    ensures Lies(SpansElems(elems, off)[k], off, BeforeIn(elems, k), TokensElems(elems)[k])
    decreases elems, 0
  {
    var a := |TokensLabel(elems.tag)|;
    var b := a + |Tokens(elems.value)|;
    var o2 := off + |elems.lead| + |PrintLabel(elems.tag)|;
    SpansCountElems(elems, off);
    SpansCount(elems.value, o2);
    if k < a {
      SpanInKey(elems, k, off);
    } else if k < b {
      SpanAt(elems.value, k - a, o2);
      SpanInValue(elems, k, off);
    } else {
      SpanIn(elems.rest, k - b, o2 + |Print(elems.value)| + |elems.trail| + 1);
      SpanInRest(elems, k, off);
    }
  }

  lemma SpanInKey(elems: Elems, k: nat, off: nat)
    requires k < |TokensElems(elems)| == |SpansElems(elems, off)|
    requires k < |TokensLabel(elems.tag)|
    ensures Lies(SpansElems(elems, off)[k], off, BeforeIn(elems, k), TokensElems(elems)[k])
  {
    hide SpansElems, Spans, Before, Print;
    PickToken(elems, k);
    PickSpan(elems, k, off);
  }

  lemma SpanInValue(elems: Elems, k: nat, off: nat)
    requires k < |TokensElems(elems)| == |SpansElems(elems, off)|
    requires |TokensLabel(elems.tag)| <= k < |TokensLabel(elems.tag)| + |Tokens(elems.value)|
    requires var o2 := off + |elems.lead| + |PrintLabel(elems.tag)|;
             var i := k - |TokensLabel(elems.tag)|;
             |Spans(elems.value, o2)| == |Tokens(elems.value)| &&
             Lies(Spans(elems.value, o2)[i], o2, Before(elems.value, i), Tokens(elems.value)[i])
    ensures Lies(SpansElems(elems, off)[k], off, BeforeIn(elems, k), TokensElems(elems)[k])
  {
    hide SpansElems, Spans, BeforeIn, Before, Print, PrintLabel;
    PickToken(elems, k);
    PickSpan(elems, k, off);
    BeforeLength(elems, k);
  }

  lemma SpanInRest(elems: Elems, k: nat, off: nat)
    requires k < |TokensElems(elems)| == |SpansElems(elems, off)|
    requires |TokensLabel(elems.tag)| + |Tokens(elems.value)| <= k
    requires var o2 := off + |elems.lead| + |PrintLabel(elems.tag)|;
             var o3 := o2 + |Print(elems.value)| + |elems.trail| + 1;
             var i := k - |TokensLabel(elems.tag)| - |Tokens(elems.value)|;
             i < |TokensElems(elems.rest)| == |SpansElems(elems.rest, o3)| &&
             |Spans(elems.value, o2)| == |Tokens(elems.value)| &&
             Lies(SpansElems(elems.rest, o3)[i], o3, BeforeIn(elems.rest, i), TokensElems(elems.rest)[i])
    ensures Lies(SpansElems(elems, off)[k], off, BeforeIn(elems, k), TokensElems(elems)[k])
  {
    hide SpansElems, Spans, BeforeIn, Before, Print, PrintLabel;
    PickToken(elems, k);
    PickSpan(elems, k, off);
    BeforeLength(elems, k);
  }

  /** In which part of an element list token `k`, and its range, lie. */
  lemma PickToken(elems: Elems, k: nat)
    requires elems.Elem? && k < |TokensElems(elems)|
    ensures var a := |TokensLabel(elems.tag)|;
            var b := a + |Tokens(elems.value)|;
            TokensElems(elems)[k]
            == if k < a then elems.tag.token
               else if k < b then Tokens(elems.value)[k - a]
               else TokensElems(elems.rest)[k - b]
  {
    Third(TokensLabel(elems.tag), Tokens(elems.value), TokensElems(elems.rest), k);
  }

  lemma PickSpan(elems: Elems, k: nat, off: nat)
    requires elems.Elem? && k < |SpansElems(elems, off)|
    ensures var o1 := off + |elems.lead|;
            var o2 := o1 + |PrintLabel(elems.tag)|;
            var o3 := o2 + |Print(elems.value)| + |elems.trail| + 1;
            var a := |SpansLabel(elems.tag, o1)|;
            var b := a + |Spans(elems.value, o2)|;
            SpansElems(elems, off)[k]
            == if k < a then Range(o1, o1 + |elems.tag.token|)
               else if k < b then Spans(elems.value, o2)[k - a]
               else SpansElems(elems.rest, o3)[k - b]
  {
    var o1 := off + |elems.lead|;
    var o2 := o1 + |PrintLabel(elems.tag)|;
    Third(SpansLabel(elems.tag, o1), Spans(elems.value, o2),
          SpansElems(elems.rest, o2 + |Print(elems.value)| + |elems.trail| + 1), k);
  }

  lemma BeforeLength(elems: Elems, k: nat)
    requires elems.Elem?
    ensures var a := |TokensLabel(elems.tag)|;
            var b := a + |Tokens(elems.value)|;
            var o2 := |elems.lead| + |PrintLabel(elems.tag)|;
            |BeforeIn(elems, k)|
            == if k < a then |elems.lead|
               else if k < b then o2 + |Before(elems.value, k - a)|
               else o2 + |Print(elems.value)| + |elems.trail| + 1 + |BeforeIn(elems.rest, k - b)|
  {
  }

  lemma Third<T>(a: seq<T>, b: seq<T>, c: seq<T>, k: nat)
    requires k < |a| + |b| + |c|
    ensures (a + b + c)[k] == if k < |a| then a[k] else if k < |a| + |b| then b[k - |a|] else c[k - |a| - |b|]
  {
  }

  lemma ThirdUpdate<T>(a: seq<T>, b: seq<T>, c: seq<T>, k: nat, x: T)
    requires k < |a| + |b| + |c|
    ensures (a + b + c)[k := x]
            == if k < |a| then a[k := x] + b + c
               else if k < |a| + |b| then a + b[k - |a| := x] + c
               else a + b + c[k - |a| - |b| := x]
  {
  }

  /** Replacing changes the one token and nothing else; replacing a token by itself is the identity. */
  lemma {:induction false} ReplaceOnly(t: Tree, k: nat, x: bytes)
    requires k < |Tokens(t)|
    ensures Tokens(Replace(t, k, x)) == Tokens(t)[k := x]
    ensures Blank(Replace(t, k, x)) == Blank(t)
    ensures x == Tokens(t)[k] ==> Replace(t, k, x) == t
    ensures WellFormed(t) && DecodeString(x).Some? ==> WellFormed(Replace(t, k, x))
    decreases t, 1
  {
    if t.Node? {
      ReplaceOnlyIn(t.shape, t.elems, k, x);
    }
  }

  lemma {:induction false} ReplaceOnlyIn(shape: Shape, elems: Elems, k: nat, x: bytes)
    requires k < |TokensElems(elems)|
    ensures TokensElems(ReplaceElems(elems, k, x)) == TokensElems(elems)[k := x]
    ensures BlankElems(ReplaceElems(elems, k, x)) == BlankElems(elems)
    ensures x == TokensElems(elems)[k] ==> ReplaceElems(elems, k, x) == elems
    ensures WellFormedElems(shape, elems) && DecodeString(x).Some? ==>
              WellFormedElems(shape, ReplaceElems(elems, k, x))
    decreases elems, 0
  {
    var a := |TokensLabel(elems.tag)|;
    var b := a + |Tokens(elems.value)|;
    ThirdUpdate(TokensLabel(elems.tag), Tokens(elems.value), TokensElems(elems.rest), k, x);
    Third(TokensLabel(elems.tag), Tokens(elems.value), TokensElems(elems.rest), k);
    if k < a {
      assert [elems.tag.token][0 := x] == [x];
    } else if k < b {
      ReplaceOnly(elems.value, k - a, x);
    } else {
      ReplaceOnlyIn(shape, elems.rest, k - b, x);
    }
  }

  /** The token at a scanned range, and the document with that token replaced. */
  lemma ReplaceInDocument(s: bytes, k: nat, x: bytes)
    requires Grammatical(s) && k < |Tokens(Parse(s).value.value)|
    ensures var d := Parse(s).value;
            var spans := DocumentSpans(d);
            |spans| == |Tokens(d.value)| && spans[k].start <= spans[k].end <= |s| &&
            s[spans[k].start..spans[k].end] == Tokens(d.value)[k] &&
            Splice(s, spans[k], x) == PrintDocument(d.(value := Replace(d.value, k, x)))
  {
    var d := Parse(s).value;
    var token := Tokens(d.value)[k];
    PrintParseDocument(s);
    SpanAt(d.value, k, |d.lead|);
    ReplaceOnly(d.value, k, token);
    PrintReplace(d.value, k, token);
    PrintReplace(d.value, k, x);
    var b, a := d.lead + Before(d.value, k), After(d.value, k) + d.trail;
    InsertInside(d.lead, Before(d.value, k), token, After(d.value, k), d.trail);
    InsertInside(d.lead, Before(d.value, k), x, After(d.value, k), d.trail);
    SpliceParts(b, token, a, x);
  }

  lemma SpliceParts(b: bytes, token: bytes, a: bytes, x: bytes)
    ensures var s := b + token + a;
            var range := Range(|b|, |b| + |token|);
            s[range.start..range.end] == token && Splice(s, range, x) == b + x + a
  {
  }

  /**
    Substituting one scanned token by another encoded string yields a document that differs from the original in
    exactly that string: every other token, key, scalar and byte of white space is as before.
   */
  lemma ReplacedDocument(s: bytes, k: nat, x: bytes)
    requires Grammatical(s) && k < |Tokens(Parse(s).value.value)|
    requires DecodeString(x).Some?
    ensures var d := Parse(s).value;
            var spans := DocumentSpans(d);
            |spans| == |Tokens(d.value)| && spans[k].start <= spans[k].end <= |s| &&
            var d' := Parse(Splice(s, spans[k], x));
            d'.Some? && d'.value.lead == d.lead && d'.value.trail == d.trail &&
            Tokens(d'.value.value) == Tokens(d.value)[k := x] && Blank(d'.value.value) == Blank(d.value)
  {
    var d := Parse(s).value;
    PrintParseDocument(s);
    ReplaceInDocument(s, k, x);
    ReplaceOnly(d.value, k, x);
    ParsePrintDocument(d.(value := Replace(d.value, k, x)));
  }
}
