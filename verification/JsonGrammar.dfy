/**
  The JSON grammar of RFC 8259, sections 2 to 7, as concrete syntax trees that keep every byte of white space, and a
  reference parser that is proved to be the inverse of printing.
 */
module JsonGrammar {
  import opened Base
  import opened JsonString

  datatype Shape = Arr | Obj

  datatype Tree =
    | Scalar(token: bytes)
    | Str(token: bytes)
    | Node(shape: Shape, pad: bytes, elems: Elems) // `pad` is the white space of an empty container

  /** A member's key token with the white space around its colon; array elements have none. */
  datatype Label = NoKey | Key(token: bytes, before: bytes, after: bytes)

  datatype Elems = End | Elem(lead: bytes, tag: Label, value: Tree, trail: bytes, rest: Elems)

  datatype Document = Document(lead: bytes, value: Tree, trail: bytes)

  function Open(shape: Shape): byte {
    if shape.Arr? then 0x5B else 0x7B
  }

  function Close(shape: Shape): byte {
    if shape.Arr? then 0x5D else 0x7D
  }

  // ----- Printing -----

  function Print(t: Tree): bytes
    decreases t, 2
  {
    match t
    case Scalar(token) => token
    case Str(token) => token
    case Node(shape, pad, elems) => [Open(shape)] + Inside(pad, elems) + [Close(shape)]
  }

  function Inside(pad: bytes, elems: Elems): bytes
    decreases elems, 1
  {
    if elems.End? then pad else PrintElems(elems)
  }

  function PrintLabel(tag: Label): bytes {
    match tag
    case NoKey => []
    case Key(token, before, after) => token + before + [COLON] + after
  }

  function PrintElems(elems: Elems): bytes
    requires elems.Elem?
    decreases elems, 0
  {
    elems.lead + PrintLabel(elems.tag) + Print(elems.value) + elems.trail +
    (if elems.rest.End? then [] else [COMMA] + PrintElems(elems.rest))
  }

  function PrintDocument(d: Document): bytes {
    d.lead + Print(d.value) + d.trail
  }

  // ----- Scalars (sections 3 and 6) -----

  predicate Digit(b: byte) {
    0x30 <= b <= 0x39
  }

  function DigitRun(s: bytes): (n: nat)
    ensures n <= |s|
    ensures forall i :: 0 <= i < n ==> Digit(s[i])
  {
    if s == [] || !Digit(s[0]) then 0 else 1 + DigitRun(s[1..])
  }

  /** The value of a run of digits. */
  function Digits(s: bytes): nat
    requires forall i :: 0 <= i < |s| ==> Digit(s[i])
    decreases |s|
  {
    if s == [] then 0
    else
      assert Digit(s[|s| - 1]);
      Digits(s[..|s| - 1]) * 10 + (s[|s| - 1] - 0x30)
  }

  predicate IsExponent(s: bytes) {
    s == [] ||
    ((s[0] == 0x65 || s[0] == 0x45) &&
     var t := if |s| > 1 && (s[1] == 0x2B || s[1] == 0x2D) then s[2..] else s[1..];
     t != [] && DigitRun(t) == |t|)
  }

  predicate IsFraction(s: bytes) {
    if s != [] && s[0] == 0x2E then
      var n := DigitRun(s[1..]);
      n > 0 && IsExponent(s[1..][n..])
    else IsExponent(s)
  }

  predicate IsUnsigned(s: bytes) {
    var n := DigitRun(s);
    n > 0 && (s[0] == 0x30 ==> n == 1) && IsFraction(s[n..])
  }

  predicate IsNumber(s: bytes) {
    if s != [] && s[0] == 0x2D then IsUnsigned(s[1..]) else IsUnsigned(s)
  }

  const NULL: bytes := [0x6E, 0x75, 0x6C, 0x6C]
  const TRUE: bytes := [0x74, 0x72, 0x75, 0x65]
  const FALSE: bytes := [0x66, 0x61, 0x6C, 0x73, 0x65]

  predicate IsScalar(s: bytes) {
    s == NULL || s == TRUE || s == FALSE || IsNumber(s)
  }

  /** The bytes at which a scalar token ends. */
  predicate Delimiter(b: byte) {
    AsciiWs(b) || b == COMMA || b == 0x5D || b == 0x7D
  }

  /** Bytes that occur in scalar tokens. */
  predicate ScalarByte(b: byte) {
    Digit(b) || b == 0x2B || b == 0x2D || b == 0x2E || b == 0x45 || 0x61 <= b <= 0x7A
  }

  lemma ScalarBytes(s: bytes)
    requires IsScalar(s)
    ensures s != []
    ensures forall i :: 0 <= i < |s| ==> ScalarByte(s[i])
  {
    if IsNumber(s) {
      var u := if s[0] == 0x2D then s[1..] else s;
      UnsignedBytes(u);
      if s[0] == 0x2D {
        assert forall i :: 1 <= i < |s| ==> s[i] == u[i - 1];
      }
    }
  }

  lemma UnsignedBytes(s: bytes)
    requires IsUnsigned(s)
    ensures s != []
    ensures forall i :: 0 <= i < |s| ==> ScalarByte(s[i])
  {
    var n := DigitRun(s);
    var f := s[n..];
    FractionBytes(f);
    assert forall i :: n <= i < |s| ==> s[i] == f[i - n];
  }

  lemma FractionBytes(s: bytes)
    requires IsFraction(s)
    ensures forall i :: 0 <= i < |s| ==> ScalarByte(s[i])
  {
    if s != [] && s[0] == 0x2E {
      var d := s[1..];
      var n := DigitRun(d);
      ExponentBytes(d[n..]);
      assert forall i :: n <= i < |d| ==> d[i] == d[n..][i - n];
      assert forall i :: 1 <= i < |s| ==> s[i] == d[i - 1];
    } else {
      ExponentBytes(s);
    }
  }

  lemma ExponentBytes(s: bytes)
    requires IsExponent(s)
    ensures forall i :: 0 <= i < |s| ==> ScalarByte(s[i])
  {
    if s != [] {
      var k := if |s| > 1 && (s[1] == 0x2B || s[1] == 0x2D) then 2 else 1;
      assert forall i :: k <= i < |s| ==> s[i] == s[k..][i - k];
    }
  }

  // ----- Well-formed trees -----

  predicate WellFormed(t: Tree) {
    match t
    case Scalar(token) => IsScalar(token)
    case Str(token) => DecodeString(token).Some?
    case Node(shape, pad, elems) => AllWs(pad) && (elems.Elem? ==> pad == []) && WellFormedElems(shape, elems)
  }

  predicate WellFormedLabel(shape: Shape, tag: Label) {
    match tag
    case NoKey => shape.Arr?
    case Key(token, before, after) => shape.Obj? && DecodeString(token).Some? && AllWs(before) && AllWs(after)
  }

  predicate WellFormedElems(shape: Shape, elems: Elems)
    decreases elems
  {
    match elems
    case End => true
    case Elem(lead, tag, value, trail, rest) =>
      AllWs(lead) && WellFormedLabel(shape, tag) && WellFormed(value) && AllWs(trail) && WellFormedElems(shape, rest)
  }

  predicate WellFormedDocument(d: Document) {
    AllWs(d.lead) && WellFormed(d.value) && AllWs(d.trail)
  }

  // ----- The reference parser -----

  function WsRun(s: bytes): (n: nat)
    ensures n <= |s| && AllWs(s[..n])
    ensures n < |s| ==> !JsonWs(s[n])
  {
    if s == [] || !JsonWs(s[0]) then 0
    else
      var n := WsRun(s[1..]);
      assert s[..n + 1] == [s[0]] + s[1..][..n];
      n + 1
  }

  function ScalarRun(s: bytes): (n: nat)
    ensures n <= |s|
  {
    if s == [] || Delimiter(s[0]) then 0 else 1 + ScalarRun(s[1..])
  }

  /** Splits a string token off the front. */
  function ParseString(s: bytes): (r: Option<(bytes, bytes)>)
    ensures r.Some? ==> s == r.value.0 + r.value.1 && DecodeString(r.value.0).Some? && |r.value.1| < |s|
  {
    if s == [] || s[0] != QUOTE then None
    else
      match Body(s[1..], false)
      case None => None
      case Some(n) =>
        if DecodeString(s[..n + 1]).Some? then Some((s[..n + 1], s[n + 1..])) else None
  }

  function ParseValue(s: bytes): (r: Option<(Tree, bytes)>)
    ensures r.Some? ==> |r.value.1| < |s|
    decreases |s|, 1
  {
    if s == [] then None
    else if s[0] == QUOTE then
      match ParseString(s)
      case None => None
      case Some((token, rest)) => Some((Str(token), rest))
    else if s[0] == Open(Arr) then ParseNode(Arr, s)
    else if s[0] == Open(Obj) then ParseNode(Obj, s)
    else
      var n := ScalarRun(s);
      if IsScalar(s[..n]) && n > 0 then Some((Scalar(s[..n]), s[n..])) else None
  }

  function ParseNode(shape: Shape, s: bytes): (r: Option<(Tree, bytes)>)
    requires s != []
    ensures r.Some? ==> |r.value.1| < |s|
    decreases |s|, 0
  {
    var n := WsRun(s[1..]);
    var inner := s[1..][n..];
    if inner == [] then None
    else if inner[0] == Close(shape) then Some((Node(shape, s[1..][..n], End), inner[1..]))
    else
      match ParseElems(shape, s[1..])
      case None => None
      case Some((elems, rest)) => Some((Node(shape, [], elems), rest[1..]))
  }

  function ParseLabel(shape: Shape, s: bytes): (r: Option<(Label, bytes)>)
    ensures r.Some? ==> |r.value.1| <= |s|
  {
    if shape.Arr? then Some((NoKey, s))
    else
      match ParseString(s)
      case None => None
      case Some((token, s1)) =>
        var b := WsRun(s1);
        var s2 := s1[b..];
        if s2 == [] || s2[0] != COLON then None
        else
          var a := WsRun(s2[1..]);
          Some((Key(token, s1[..b], s2[1..][..a]), s2[1..][a..]))
  }

  /** Elements up to, and not including, the closing bracket that must follow. */
  function ParseElems(shape: Shape, s: bytes): (r: Option<(Elems, bytes)>)
    ensures r.Some? ==> r.value.0.Elem? && 0 < |r.value.1| < |s| && r.value.1[0] == Close(shape)
    decreases |s|, 2
  {
    var n := WsRun(s);
    match ParseLabel(shape, s[n..])
    case None => None
    case Some((tag, s1)) =>
      match ParseValue(s1)
      case None => None
      case Some((value, s2)) =>
        var m := WsRun(s2);
        var s3 := s2[m..];
        if s3 == [] then None
        else if s3[0] == Close(shape) then Some((Elem(s[..n], tag, value, s2[..m], End), s3))
        else if s3[0] == COMMA then
          match ParseElems(shape, s3[1..])
          case None => None
          case Some((rest, s4)) => Some((Elem(s[..n], tag, value, s2[..m], rest), s4))
        else None
  }

  function Parse(s: bytes): Option<Document> {
    var n := WsRun(s);
    match ParseValue(s[n..])
    case None => None
    case Some((value, rest)) =>
      if AllWs(rest) then Some(Document(s[..n], value, rest)) else None
  }

  predicate Grammatical(s: bytes) {
    Parse(s).Some?
  }

  /**
    What the grammar leaves to `serde_json`: the documents it rejects all the same (its nesting limit, numbers out of
    range), and the text it prints for a number it has read.
   */
  datatype Reader = Reader(accepts: bytes -> bool, number: bytes -> bytes)

  /** An unsigned integer of 64 bits. */
  predicate Unsigned64(s: bytes) {
    s != [] && DigitRun(s) == |s| && Digits(s) <= U64_MAX
  }

  /** Numbers stay numbers, and unsigned integers, and nothing else, are printed as themselves in plain digits. */
  ghost predicate Faithful(lib: Reader) {
    forall s {:trigger lib.number(s)} :: IsNumber(s) ==>
      IsNumber(lib.number(s)) && (Unsigned64(s) || Unsigned64(lib.number(s)) ==> lib.number(s) == s)
  }

  /** Nothing more is known of the library; in particular, reading a printed number again may give another one. */
  type Library = lib: Reader | Faithful(lib) witness Reader(s => true, s => s)

  /** `serde_json::from_slice::<Value>(s).is_ok()`. */
  predicate Accepts(lib: Library, s: bytes) {
    Grammatical(s) && lib.accepts(s)
  }

  // ----- Parsing what was printed -----

  /** What may follow a value: a scalar must be cut off by a delimiter. */
  predicate Follows(t: Tree, rest: bytes) {
    t.Scalar? ==> rest == [] || Delimiter(rest[0])
  }

  lemma {:induction false} WsRunPrint(ws: bytes, rest: bytes)
    requires AllWs(ws) && (rest == [] || !JsonWs(rest[0]))
    ensures WsRun(ws + rest) == |ws|
    ensures (ws + rest)[..|ws|] == ws && (ws + rest)[|ws|..] == rest
  {
    if ws == [] {
      assert ws + rest == rest;
    } else {
      assert (ws + rest)[1..] == ws[1..] + rest;
      WsRunPrint(ws[1..], rest);
    }
  }

  lemma {:induction false} ScalarRunPrint(token: bytes, rest: bytes)
    requires forall i :: 0 <= i < |token| ==> ScalarByte(token[i])
    requires rest == [] || Delimiter(rest[0])
    ensures ScalarRun(token + rest) == |token|
  {
    if token == [] {
      assert token + rest == rest;
    } else {
      assert (token + rest)[1..] == token[1..] + rest;
      ScalarRunPrint(token[1..], rest);
    }
  }

  lemma ParseStringPrint(token: bytes, rest: bytes)
    requires DecodeString(token).Some?
    ensures ParseString(token + rest) == Some((token, rest))
  {
    TokenScan(token, rest);
    assert (token + rest)[..|token|] == token;
    assert (token + rest)[|token|..] == rest;
  }

  /** The first byte of a value is neither white space nor a closing bracket. */
  lemma ValueHead(t: Tree)
    requires WellFormed(t)
    ensures Print(t) != [] && !AsciiWs(Print(t)[0]) && Print(t)[0] != Close(Arr) && Print(t)[0] != Close(Obj)
  {
    if t.Scalar? {
      ScalarBytes(t.token);
    }
  }

  lemma LabelHead(shape: Shape, tag: Label, value: Tree, rest: bytes)
    requires WellFormedLabel(shape, tag) && WellFormed(value)
    ensures var s := PrintLabel(tag) + Print(value) + rest;
            s != [] && !AsciiWs(s[0]) && s[0] != Close(shape)
  {
    ValueHead(value);
  }

  lemma ParseLabelPrint(shape: Shape, tag: Label, s: bytes)
    requires WellFormedLabel(shape, tag) && s != [] && !JsonWs(s[0])
    ensures ParseLabel(shape, PrintLabel(tag) + s) == Some((tag, s))
  {
    match tag
    case NoKey =>
      assert PrintLabel(tag) + s == s;
    case Key(token, before, after) =>
      var s2 := [COLON] + (after + s);
      ParseStringPrint(token, before + s2);
      assert PrintLabel(tag) + s == token + (before + s2);
      WsRunPrint(before, s2);
      assert s2[1..] == after + s;
      WsRunPrint(after, s);
  }

  /** A value printed at the front of the input is parsed back, and exactly its bytes are consumed. */
  lemma {:induction false} ParsePrint(t: Tree, rest: bytes)
    requires WellFormed(t) && Follows(t, rest)
    ensures ParseValue(Print(t) + rest) == Some((t, rest))
    decreases t, 0
  {
    match t
    case Scalar(token) =>
      ScalarBytes(token);
      ScalarRunPrint(token, rest);
      assert (token + rest)[..|token|] == token;
      assert (token + rest)[|token|..] == rest;
      assert ScalarByte((token + rest)[0]);
    case Str(token) =>
      ParseStringPrint(token, rest);
    case Node(shape, pad, elems) =>
      ParseNodePrint(shape, pad, elems, rest);
      assert (Print(t) + rest)[0] == Open(shape);
  }

  lemma {:induction false} ParseNodePrint(shape: Shape, pad: bytes, elems: Elems, rest: bytes)
    requires WellFormed(Node(shape, pad, elems))
    ensures ParseNode(shape, Print(Node(shape, pad, elems)) + rest) == Some((Node(shape, pad, elems), rest))
    decreases elems, 2
  {
    var closed := [Close(shape)] + rest;
    var s := Print(Node(shape, pad, elems)) + rest;
    assert s[1..] == Inside(pad, elems) + closed;
    if elems.End? {
      WsRunPrint(pad, closed);
      assert closed[1..] == rest;
    } else {
      ParseElemsPrint(shape, elems, rest);
      assert closed[1..] == rest;
      ElemsHead(shape, elems, closed);
    }
  }

  /** An element list does not look like an empty container. */
  lemma ElemsHead(shape: Shape, elems: Elems, after: bytes)
    requires elems.Elem? && WellFormedElems(shape, elems)
    ensures var s := PrintElems(elems) + after;
            var inner := s[WsRun(s)..];
            inner != [] && inner[0] != Close(shape)
  {
    var more := if elems.rest.End? then after else [COMMA] + (PrintElems(elems.rest) + after);
    var tail := elems.trail + more;
    SplitElems(elems, after);
    LabelHead(shape, elems.tag, elems.value, tail);
    HeadAssoc(PrintLabel(elems.tag), Print(elems.value), tail);
    WsRunPrint(elems.lead, PrintLabel(elems.tag) + (Print(elems.value) + tail));
  }

  lemma HeadAssoc(a: bytes, b: bytes, c: bytes)
    ensures a + b + c == a + (b + c)
  {
  }

  /** One element at the front of the input, up to the comma or bracket that ends it. */
  lemma ParseElemPrint(shape: Shape, elem: Elems, more: bytes)
    requires elem.Elem? && WellFormedElems(shape, elem)
    requires more != [] && Delimiter(more[0]) && !JsonWs(more[0])
    requires ParseValue(Print(elem.value) + (elem.trail + more)) == Some((elem.value, elem.trail + more))
    ensures var s1 := Print(elem.value) + (elem.trail + more);
            var s := elem.lead + (PrintLabel(elem.tag) + s1);
            var n := WsRun(s);
            n == |elem.lead| && s[..n] == elem.lead && ParseLabel(shape, s[n..]) == Some((elem.tag, s1))
  {
    var tail := elem.trail + more;
    LabelHead(shape, elem.tag, elem.value, tail);
    HeadAssoc(PrintLabel(elem.tag), Print(elem.value), tail);
    WsRunPrint(elem.lead, PrintLabel(elem.tag) + (Print(elem.value) + tail));
    ValueHead(elem.value);
    ParseLabelPrint(shape, elem.tag, Print(elem.value) + tail);
  }

  lemma FollowsTrail(t: Tree, trail: bytes, more: bytes)
    requires AllWs(trail) && more != [] && Delimiter(more[0])
    ensures Follows(t, trail + more)
  {
    if trail == [] {
      assert trail + more == more;
    }
  }

  lemma {:induction false} ParseElemsPrint(shape: Shape, elems: Elems, rest: bytes)
    requires elems.Elem? && WellFormedElems(shape, elems)
    ensures ParseElems(shape, PrintElems(elems) + ([Close(shape)] + rest)) == Some((elems, [Close(shape)] + rest))
    decreases elems, 1
  {
    hide Print, PrintLabel, WellFormed, DecodeString, ParseValue, ParseLabel;
    var closed := [Close(shape)] + rest;
    var more := if elems.rest.End? then closed else [COMMA] + (PrintElems(elems.rest) + closed);
    var tail := elems.trail + more;
    SplitElems(elems, closed);
    FollowsTrail(elems.value, elems.trail, more);
    ParsePrint(elems.value, tail);
    ParseElemPrint(shape, elems, more);
    WsRunPrint(elems.trail, more);
    if elems.rest.Elem? {
      assert more[1..] == PrintElems(elems.rest) + closed;
      ParseElemsPrint(shape, elems.rest, rest);
    }
  }

  lemma SplitElems(elems: Elems, closed: bytes)
    requires elems.Elem?
    ensures var more := if elems.rest.End? then closed else [COMMA] + (PrintElems(elems.rest) + closed);
            PrintElems(elems) + closed
            == elems.lead + (PrintLabel(elems.tag) + (Print(elems.value) + (elems.trail + more)))
  {
  }

  /** Printing then parsing gives back the tree. */
  lemma ParsePrintDocument(d: Document)
    requires WellFormedDocument(d)
    ensures Parse(PrintDocument(d)) == Some(d)
  {
    var body := Print(d.value) + d.trail;
    assert PrintDocument(d) == d.lead + body;
    ValueHead(d.value);
    WsRunPrint(d.lead, body);
    ParsePrint(d.value, d.trail);
  }

  // ----- Printing what was parsed -----

  lemma Cut(s: bytes, n: nat)
    requires n <= |s|
    ensures s == s[..n] + s[n..]
  {
  }

  lemma First(s: bytes)
    requires s != []
    ensures s == [s[0]] + s[1..]
  {
  }

  lemma {:induction false} PrintParse(s: bytes)
    requires ParseValue(s).Some?
    ensures var (t, rest) := ParseValue(s).value; WellFormed(t) && s == Print(t) + rest
    decreases |s|, 1
  {
    if s[0] == QUOTE {
    } else if s[0] == Open(Arr) {
      PrintParseNode(Arr, s);
    } else if s[0] == Open(Obj) {
      PrintParseNode(Obj, s);
    } else {
      Cut(s, ScalarRun(s));
    }
  }

  lemma {:induction false} PrintParseNode(shape: Shape, s: bytes)
    requires s != [] && s[0] == Open(shape) && ParseNode(shape, s).Some?
    ensures var (t, rest) := ParseNode(shape, s).value; WellFormed(t) && s == Print(t) + rest
    decreases |s|, 0
  {
    var n := WsRun(s[1..]);
    var inner := s[1..][n..];
    First(s);
    if inner[0] == Close(shape) {
      Cut(s[1..], n);
      First(inner);
      JoinNode(shape, s[1..][..n], End, inner[1..]);
    } else {
      PrintParseElems(shape, s[1..]);
      var (elems, rest) := ParseElems(shape, s[1..]).value;
      First(rest);
      JoinNode(shape, [], elems, rest[1..]);
    }
  }

  lemma PrintParseLabel(shape: Shape, s: bytes)
    requires ParseLabel(shape, s).Some?
    ensures var (tag, rest) := ParseLabel(shape, s).value;
            WellFormedLabel(shape, tag) && s == PrintLabel(tag) + rest
  {
    if shape.Obj? {
      var (token, s1) := ParseString(s).value;
      var b := WsRun(s1);
      var s2 := s1[b..];
      var a := WsRun(s2[1..]);
      Cut(s1, b);
      First(s2);
      Cut(s2[1..], a);
      JoinLabel(token, s1[..b], s2[1..][..a], s2[1..][a..], s);
    }
  }

  lemma JoinLabel(token: bytes, before: bytes, after: bytes, rest: bytes, s: bytes)
    requires s == token + (before + ([COLON] + (after + rest)))
    ensures s == PrintLabel(Key(token, before, after)) + rest
  {
  }

  lemma JoinNode(shape: Shape, pad: bytes, elems: Elems, rest: bytes)
    ensures [Open(shape)] + (Inside(pad, elems) + ([Close(shape)] + rest)) == Print(Node(shape, pad, elems)) + rest
  {
  }

  lemma {:induction false} PrintParseElems(shape: Shape, s: bytes)
    requires ParseElems(shape, s).Some?
    ensures var (elems, rest) := ParseElems(shape, s).value;
            WellFormedElems(shape, elems) && s == PrintElems(elems) + rest
    decreases |s|, 2
  {
    var n := WsRun(s);
    var (tag, s1) := ParseLabel(shape, s[n..]).value;
    PrintParseLabel(shape, s[n..]);
    var (value, s2) := ParseValue(s1).value;
    PrintParse(s1);
    var m := WsRun(s2);
    var s3 := s2[m..];
    Cut(s, n);
    Cut(s2, m);
    First(s3);
    var (elems, rest) := ParseElems(shape, s).value;
    if s3[0] == COMMA {
      PrintParseElems(shape, s3[1..]);
      JoinElems(elems, rest, s, n, s1, s2, s3);
    } else {
      JoinElems(elems, rest, s, n, s1, s2, s3);
    }
  }

  lemma JoinElems(elems: Elems, rest: bytes, s: bytes, n: nat, s1: bytes, s2: bytes, s3: bytes)
    requires elems.Elem? && n <= |s| && elems.lead == s[..n] && s[n..] == PrintLabel(elems.tag) + s1
    requires s1 == Print(elems.value) + s2 && s2 == elems.trail + s3
    requires if elems.rest.End? then s3 == rest else s3 == [COMMA] + (PrintElems(elems.rest) + rest)
    ensures s == PrintElems(elems) + rest
  {
    assert s == s[..n] + s[n..];
    SplitElems(elems, rest);
  }

  /** Parsing then printing gives back the bytes. */
  lemma PrintParseDocument(s: bytes)
    requires Grammatical(s)
    ensures WellFormedDocument(Parse(s).value) && PrintDocument(Parse(s).value) == s
  {
    var n := WsRun(s);
    PrintParse(s[n..]);
    Cut(s, n);
  }

  /** The parser accepts exactly the printed form of well-formed trees, and each text has one tree. */
  lemma ParseIsInverse(s: bytes, d: Document)
    ensures Parse(s) == Some(d) <==> WellFormedDocument(d) && PrintDocument(d) == s
  {
    if Parse(s) == Some(d) {
      PrintParseDocument(s);
    }
    if WellFormedDocument(d) && PrintDocument(d) == s {
      ParsePrintDocument(d);
    }
  }
}
