/**
  The byte-level passes of the crate, as functions of the remaining input: white-space removal with its recovery runs,
  and the string-token scan. Both are tied to the syntax trees of the grammar.
 */
module Lexical {
  import opened Base
  import opened JsonString
  import opened JsonGrammar

  /** The `in_string` / `escaped` flags of the scanning loops. */
  datatype Lex = Code | Quoted | Escaped

  function Step(st: Lex, b: byte): Lex {
    match st
    case Code => if b == QUOTE then Quoted else Code
    case Quoted => if b == BACKSLASH then Escaped else if b == QUOTE then Code else Quoted
    case Escaped => Quoted
  }

  predicate Dropped(st: Lex, b: byte) {
    st.Code? && AsciiWs(b)
  }

  /** The bytes the minifier keeps. */
  function Minified(s: bytes, st: Lex): bytes {
    if s == [] then []
    else if Dropped(st, s[0]) then Minified(s[1..], st)
    else [s[0]] + Minified(s[1..], Step(st, s[0]))
  }

  // ----- The meaning of minification -----

  function Strip(t: Tree): Tree
    decreases t, 1
  {
    match t
    case Scalar(_) => t
    case Str(_) => t
    case Node(shape, _, elems) => Node(shape, [], StripElems(elems))
  }

  function StripLabel(tag: Label): Label {
    match tag
    case NoKey => NoKey
    case Key(token, _, _) => Key(token, [], [])
  }

  function StripElems(elems: Elems): Elems
    decreases elems, 0
  {
    match elems
    case End => End
    case Elem(_, tag, value, _, rest) => Elem([], StripLabel(tag), Strip(value), [], StripElems(rest))
  }

  function StripDocument(d: Document): Document {
    Document([], Strip(d.value), [])
  }

  lemma {:induction false} MinifiedWs(ws: bytes, rest: bytes)
    requires AllWs(ws)
    ensures Minified(ws + rest, Code) == Minified(rest, Code)
  {
    if ws == [] {
      assert ws + rest == rest;
    } else {
      assert (ws + rest)[1..] == ws[1..] + rest;
      MinifiedWs(ws[1..], rest);
    }
  }

  lemma {:induction false} MinifiedScalar(token: bytes, rest: bytes)
    requires forall i :: 0 <= i < |token| ==> ScalarByte(token[i])
    ensures Minified(token + rest, Code) == token + Minified(rest, Code)
  {
    if token == [] {
      assert token + rest == rest;
    } else {
      assert (token + rest)[1..] == token[1..] + rest;
      MinifiedScalar(token[1..], rest);
      First(token);
    }
  }

  lemma {:induction false} MinifiedBody(s: bytes, escaped: bool)
    requires Body(s, escaped).Some?
    ensures var n := Body(s, escaped).value;
            Minified(s, if escaped then Escaped else Quoted) == s[..n] + Minified(s[n..], Code)
  {
    var n := Body(s, escaped).value;
    if n > 1 || escaped {
      MinifiedBody(s[1..], !escaped && s[0] == BACKSLASH);
      HeadTail(s, n);
    }
  }

  lemma MinifiedToken(token: bytes, rest: bytes)
    requires DecodeString(token).Some?
    ensures Minified(token + rest, Code) == token + Minified(rest, Code)
  {
    TokenScan(token, rest);
    MinifiedBody((token + rest)[1..], false);
    TokenSlices(token, rest);
    assert Minified((token + rest)[1..], Quoted) == token[1..] + Minified(rest, Code);
    First(token);
    HeadAssoc([token[0]], token[1..], Minified(rest, Code));
  }

  lemma TokenSlices(token: bytes, rest: bytes)
    requires token != []
    ensures (token + rest)[0] == token[0]
    ensures (token + rest)[1..][..|token| - 1] == token[1..]
    ensures (token + rest)[1..][|token| - 1..] == rest
  {
  }

  lemma MinifiedByte(b: byte, rest: bytes)
    requires b != QUOTE && !AsciiWs(b)
    ensures Minified([b] + rest, Code) == [b] + Minified(rest, Code)
  {
    assert ([b] + rest)[1..] == rest;
  }

  lemma MinifiedLabel(shape: Shape, tag: Label, rest: bytes)
    requires WellFormedLabel(shape, tag)
    ensures Minified(PrintLabel(tag) + rest, Code) == PrintLabel(StripLabel(tag)) + Minified(rest, Code)
  {
    match tag
    case NoKey =>
      assert PrintLabel(tag) + rest == rest;
    case Key(token, before, after) =>
      JoinLabel(token, before, after, rest, token + (before + ([COLON] + (after + rest))));
      MinifiedToken(token, before + ([COLON] + (after + rest)));
      MinifiedWs(before, [COLON] + (after + rest));
      MinifiedByte(COLON, after + rest);
      MinifiedWs(after, rest);
      JoinLabel(token, [], [], Minified(rest, Code), token + ([] + ([COLON] + ([] + Minified(rest, Code)))));
      assert [] + Minified(rest, Code) == Minified(rest, Code);
      assert [] + ([COLON] + Minified(rest, Code)) == [COLON] + Minified(rest, Code);
  }

  /** Minifying the text of a tree gives the text of the tree without its white space. */
  lemma {:induction false} MinifiedTree(t: Tree, rest: bytes)
    requires WellFormed(t)
    ensures Minified(Print(t) + rest, Code) == Print(Strip(t)) + Minified(rest, Code)
    decreases t, 0
  {
    match t
    case Scalar(token) =>
      ScalarBytes(token);
      MinifiedScalar(token, rest);
    case Str(token) =>
      MinifiedToken(token, rest);
    case Node(shape, pad, elems) =>
      JoinNode(shape, pad, elems, rest);
      MinifiedByte(Open(shape), Inside(pad, elems) + ([Close(shape)] + rest));
      if elems.End? {
        MinifiedWs(pad, [Close(shape)] + rest);
        JoinNode(shape, [], End, Minified(rest, Code));
        assert [] + ([Close(shape)] + Minified(rest, Code)) == [Close(shape)] + Minified(rest, Code);
      } else {
        MinifiedElems(shape, elems, [Close(shape)] + rest);
        JoinNode(shape, [], StripElems(elems), Minified(rest, Code));
      }
      MinifiedByte(Close(shape), rest);
  }

  lemma {:induction false} MinifiedElems(shape: Shape, elems: Elems, rest: bytes)
    requires elems.Elem? && WellFormedElems(shape, elems)
    ensures Minified(PrintElems(elems) + rest, Code) == PrintElems(StripElems(elems)) + Minified(rest, Code)
    decreases elems, 1
  {
    var more := if elems.rest.End? then rest else [COMMA] + (PrintElems(elems.rest) + rest);
    var tail := elems.trail + more;
    SplitElems(elems, rest);
    MinifiedWs(elems.lead, PrintLabel(elems.tag) + (Print(elems.value) + tail));
    MinifiedLabel(shape, elems.tag, Print(elems.value) + tail);
    MinifiedTree(elems.value, tail);
    MinifiedWs(elems.trail, more);
    if elems.rest.Elem? {
      MinifiedByte(COMMA, PrintElems(elems.rest) + rest);
      MinifiedElems(shape, elems.rest, rest);
    }
    SplitStripped(elems, Minified(rest, Code));
  }

  lemma SplitStripped(elems: Elems, rest: bytes)
    requires elems.Elem?
    ensures var e := StripElems(elems);
            var more := if e.rest.End? then rest else [COMMA] + (PrintElems(e.rest) + rest);
            PrintElems(e) + rest == PrintLabel(e.tag) + (Print(e.value) + more)
  {
    var e := StripElems(elems);
    SplitElems(e, rest);
    var more := if e.rest.End? then rest else [COMMA] + (PrintElems(e.rest) + rest);
    assert e.trail + more == more;
    var s := PrintLabel(e.tag) + (Print(e.value) + more);
    assert e.lead + s == s;
  }

  lemma {:induction false} StripWellFormed(t: Tree)
    requires WellFormed(t)
    ensures WellFormed(Strip(t))
    decreases t, 1
  {
    match t
    case Scalar(_) =>
    case Str(_) =>
    case Node(shape, _, elems) => StripElemsWellFormed(shape, elems);
  }

  lemma {:induction false} StripElemsWellFormed(shape: Shape, elems: Elems)
    requires WellFormedElems(shape, elems)
    ensures WellFormedElems(shape, StripElems(elems))
    decreases elems, 0
  {
    if elems.Elem? {
      StripWellFormed(elems.value);
      StripElemsWellFormed(shape, elems.rest);
    }
  }

  /**
    Minification preserves meaning: the minified bytes are again a document, and its tree is the input's tree with the
    white space erased: same scalars, same string tokens, same keys, same order.
   */
  lemma MinifiedDocument(s: bytes)
    requires Grammatical(s)
    ensures Minified(s, Code) == PrintDocument(StripDocument(Parse(s).value))
    ensures Parse(Minified(s, Code)) == Some(StripDocument(Parse(s).value))
  {
    var d := Parse(s).value;
    PrintParseDocument(s);
    HeadAssoc(d.lead, Print(d.value), d.trail);
    MinifiedWs(d.lead, Print(d.value) + d.trail);
    MinifiedTree(d.value, d.trail);
    MinifiedWs(d.trail, []);
    assert d.trail + [] == d.trail;
    assert PrintDocument(StripDocument(d)) == Print(Strip(d.value));
    StripWellFormed(d.value);
    ParsePrintDocument(StripDocument(d));
  }

  // ----- Recovery runs -----

  /** One record of the recovery stream: white space to insert before candidate byte `at`. */
  datatype Run = Run(at: nat, ws: bytes)

  function AsciiRun(s: bytes): (n: nat)
    ensures n <= |s|
    ensures forall i :: 0 <= i < n ==> AsciiWs(s[i])
    ensures n < |s| ==> !AsciiWs(s[n])
  {
    if s == [] || !AsciiWs(s[0]) then 0 else 1 + AsciiRun(s[1..])
  }

  /** The maximal runs of dropped bytes, `at` counting kept bytes from `kept` on. */
  function Runs(s: bytes, st: Lex, kept: nat): seq<Run>
    decreases |s|
  {
    if s == [] then []
    else if Dropped(st, s[0]) then
      var n := AsciiRun(s);
      [Run(kept, s[..n])] + Runs(s[n..], st, kept)
    else Runs(s[1..], Step(st, s[0]), kept + 1)
  }

  lemma {:induction false} MinifiedSkipsRun(s: bytes, n: nat)
    requires n <= |s| && forall i :: 0 <= i < n ==> AsciiWs(s[i])
    ensures Minified(s, Code) == Minified(s[n..], Code)
  {
    if n > 0 {
      MinifiedSkipsRun(s[1..], n - 1);
      assert s[1..][n - 1..] == s[n..];
    }
  }

  /** Inserting runs into the candidate bytes from `source` on. */
  function Restore(candidate: bytes, runs: seq<Run>, source: nat): bytes
    requires source <= |candidate| && Ordered(runs, source, |candidate|)
    decreases |runs|
  {
    if runs == [] then candidate[source..]
    else candidate[source..runs[0].at] + runs[0].ws + Restore(candidate, runs[1..], runs[0].at)
  }

  predicate Ordered(runs: seq<Run>, source: nat, length: nat)
    decreases |runs|
  {
    runs == [] || (source <= runs[0].at <= length && Ordered(runs[1..], runs[0].at, length))
  }

  /** From some point of a scan on: the candidate, the runs still to come, and what they restore. */
  predicate Restores(done: bytes, s: bytes, st: Lex, candidate: bytes, runs: seq<Run>) {
    && candidate == done + Minified(s, st)
    && Ordered(runs, |done|, |candidate|)
    && Restore(candidate, runs, |done|) == s
  }

  /** Putting the runs back into the minified bytes gives the input, from any point of the scan on. */
  lemma {:induction false} RestoreRuns(done: bytes, s: bytes, st: Lex)
    ensures Restores(done, s, st, done + Minified(s, st), Runs(s, st, |done|))
    decreases |s|
  {
    if s == [] {
      assert done + [] == done;
    } else if Dropped(st, s[0]) {
      var n := AsciiRun(s);
      MinifiedSkipsRun(s, n);
      RestoreRuns(done, s[n..], st);
      RestoreFirst(done + Minified(s, st), s[..n], Runs(s[n..], st, |done|), |done|);
      Cut(s, n);
    } else {
      RestoreRuns(done + [s[0]], s[1..], Step(st, s[0]));
      HeadAssoc(done, [s[0]], Minified(s[1..], Step(st, s[0])));
      RestoreShift(done + Minified(s, st), Runs(s, st, |done|), |done|);
      First(s);
    }
  }

  lemma RestoreFirst(candidate: bytes, ws: bytes, tail: seq<Run>, source: nat)
    requires source <= |candidate| && Ordered(tail, source, |candidate|)
    ensures var runs := [Run(source, ws)] + tail;
            Ordered(runs, source, |candidate|) &&
            Restore(candidate, runs, source) == ws + Restore(candidate, tail, source)
  {
    var runs := [Run(source, ws)] + tail;
    assert runs[1..] == tail;
    assert candidate[source..source] + ws == ws;
  }

  lemma RestoreShift(candidate: bytes, runs: seq<Run>, source: nat)
    requires source < |candidate| && Ordered(runs, source + 1, |candidate|)
    ensures Ordered(runs, source, |candidate|)
    ensures Restore(candidate, runs, source) == [candidate[source]] + Restore(candidate, runs, source + 1)
  {
    if runs == [] {
      First(candidate[source..]);
    } else {
      First(candidate[source..runs[0].at]);
      HeadAssoc([candidate[source]], candidate[source + 1..runs[0].at], runs[0].ws);
      HeadAssoc([candidate[source]], candidate[source + 1..runs[0].at] + runs[0].ws,
                Restore(candidate, runs[1..], runs[0].at));
    }
  }

  // ----- Minifying twice -----

  lemma {:induction false} MinifiedTwice(s: bytes, st: Lex, kept: nat)
    ensures Minified(Minified(s, st), st) == Minified(s, st)
    ensures Runs(Minified(s, st), st, kept) == []
  {
    if s != [] {
      if Dropped(st, s[0]) {
        MinifiedTwice(s[1..], st, kept);
      } else {
        var next := Step(st, s[0]);
        MinifiedTwice(s[1..], next, kept + 1);
        assert Minified(s, st)[1..] == Minified(s[1..], next);
      }
    }
  }

  // ----- UTF-8 survives minification -----

  lemma {:induction false} MinifiedUtf8(s: bytes, st: Lex)
    requires Utf8(s)
    ensures Utf8(Minified(s, st))
    decreases |s|
  {
    if s != [] {
      var n := Utf8Width(s);
      if n == 1 {
        if Dropped(st, s[0]) {
          MinifiedUtf8(s[1..], st);
        } else {
          MinifiedUtf8(s[1..], Step(st, s[0]));
          Utf8Ascii(s[0]);
          Utf8Append([s[0]], Minified(s[1..], Step(st, s[0])));
        }
      } else {
        var next := if st.Escaped? then Quoted else st;
        MinifiedUtf8(s[n..], next);
        WideBytes(s);
        MinifiedWide(s, st, n);
        Utf8Prefix(s, n);
        Utf8Append(s[..n], Minified(s[n..], next));
      }
    }
  }

  lemma Utf8Prefix(s: bytes, n: nat)
    requires Utf8Width(s) == n > 0
    ensures Utf8(s[..n])
  {
    assert s[..n][n..] == [];
    assert Utf8Width(s[..n]) == n;
  }

  lemma {:induction false} MinifiedHigh(s: bytes, st: Lex, n: nat)
    requires n <= |s| && !st.Escaped? && forall i :: 0 <= i < n ==> s[i] >= 0x80
    ensures Minified(s, st) == s[..n] + Minified(s[n..], st)
  {
    if n > 0 {
      MinifiedHigh(s[1..], st, n - 1);
      HeadTail(s, n);
    }
  }

  lemma WideBytes(s: bytes)
    requires Utf8Width(s) > 1
    ensures forall i :: 0 <= i < Utf8Width(s) ==> s[i] >= 0x80
  {
  }

  /** A multi-byte character is copied whole. */
  lemma MinifiedWide(s: bytes, st: Lex, n: nat)
    requires 1 < n <= |s| && forall i :: 0 <= i < n ==> s[i] >= 0x80
    ensures Minified(s, st) == s[..n] + Minified(s[n..], if st.Escaped? then Quoted else st)
  {
    if st.Escaped? {
      MinifiedHigh(s[1..], Quoted, n - 1);
      HeadTail(s, n);
    } else {
      MinifiedHigh(s, st, n);
    }
  }

  lemma HeadTail(s: bytes, n: nat)
    requires 0 < n <= |s|
    ensures s[1..][n - 1..] == s[n..]
    ensures s[..n] == [s[0]] + s[1..][..n - 1]
  {
  }
}
