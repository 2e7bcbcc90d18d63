/** The strict validator: a second, recursive-descent pass that rejects duplicate keys and deep nesting. */
module Validator {
  import opened Base
  import opened JsonString
  import opened JsonGrammar
  import opened Lexical
  import opened StringTokens

  const MAX_DEPTH: nat := 128

  // ----- What the validator decides -----

  function DecodedKey(tag: Label): bytes
    requires tag.Key? && DecodeString(tag.token).Some?
  {
    DecodeString(tag.token).value
  }

  /** The first fault in document order. */
  function Check(t: Tree, depth: nat): Result<(), TransformError>
    requires WellFormed(t)
    decreases t, 1
  {
    if depth > MAX_DEPTH then Err(ResourceLimit)
    else if t.Node? then CheckElems(t.shape, t.elems, depth + 1, {})
    else Ok(())
  }

  function CheckElems(shape: Shape, elems: Elems, depth: nat, keys: set<bytes>): Result<(), TransformError>
    requires WellFormedElems(shape, elems)
    decreases elems, 0
  {
    match elems
    case End => Ok(())
    case Elem(_, tag, value, _, rest) =>
      if tag.Key? && DecodedKey(tag) in keys then Err(NotApplicable)
      else
        match Check(value, depth)
        case Err(e) => Err(e)
        case Ok(_) => CheckElems(shape, rest, depth, if tag.Key? then keys + {DecodedKey(tag)} else keys)
  }

  /** Decoded keys of one object, in order. */
  function Keys(shape: Shape, elems: Elems): seq<bytes>
    requires WellFormedElems(shape, elems)
  {
    match elems
    case End => []
    case Elem(_, tag, _, _, rest) => (if tag.Key? then [DecodedKey(tag)] else []) + Keys(shape, rest)
  }

  ghost predicate Distinct<T>(s: seq<T>) {
    forall i, j :: 0 <= i < j < |s| ==> s[i] != s[j]
  }

  /** No object anywhere in the tree has two members with equal decoded keys. */
  ghost predicate NoDuplicates(t: Tree)
    requires WellFormed(t)
    decreases t, 1
  {
    t.Node? ==> Distinct(Keys(t.shape, t.elems)) && NoDuplicatesIn(t.shape, t.elems)
  }

  ghost predicate NoDuplicatesIn(shape: Shape, elems: Elems)
    requires WellFormedElems(shape, elems)
    decreases elems, 0
  {
    elems.Elem? ==> NoDuplicates(elems.value) && NoDuplicatesIn(shape, elems.rest)
  }

  /** No value of the tree has more than `most` enclosing containers. */
  predicate NestedAtMost(t: Tree, most: int)
    decreases t, 1
  {
    most >= 0 && (t.Node? ==> NestedAtMostIn(t.elems, most - 1))
  }

  predicate NestedAtMostIn(elems: Elems, most: int)
    decreases elems, 0
  {
    elems.Elem? ==> NestedAtMost(elems.value, most) && NestedAtMostIn(elems.rest, most)
  }

  lemma {:induction false} CheckExact(t: Tree, depth: nat)
    requires WellFormed(t)
    ensures Check(t, depth).Ok? <==> NoDuplicates(t) && NestedAtMost(t, MAX_DEPTH - depth)
    ensures Check(t, depth) == Err(NotApplicable) ==> !NoDuplicates(t)
    ensures Check(t, depth) == Err(ResourceLimit) ==> !NestedAtMost(t, MAX_DEPTH - depth)
    ensures Check(t, depth).Err? ==> Check(t, depth).error in {NotApplicable, ResourceLimit}
    decreases t, 1
  {
    if depth <= MAX_DEPTH && t.Node? {
      CheckElemsExact(t.shape, t.elems, depth + 1, {});
    }
  }

  lemma {:induction false} CheckElemsExact(shape: Shape, elems: Elems, depth: nat, keys: set<bytes>)
    requires WellFormedElems(shape, elems)
    ensures var r := CheckElems(shape, elems, depth, keys);
            && (r.Ok? <==> FreshKeys(Keys(shape, elems), keys) && NoDuplicatesIn(shape, elems)
                           && NestedAtMostIn(elems, MAX_DEPTH - depth))
            && (r == Err(NotApplicable) ==> !FreshKeys(Keys(shape, elems), keys) || !NoDuplicatesIn(shape, elems))
            && (r == Err(ResourceLimit) ==> !NestedAtMostIn(elems, MAX_DEPTH - depth))
            && (r.Err? ==> r.error in {NotApplicable, ResourceLimit})
    decreases elems, 0
  {
    if elems.Elem? {
      CheckExact(elems.value, depth);
      var tail := Keys(shape, elems.rest);
      if elems.tag.Key? {
        CheckElemsExact(shape, elems.rest, depth, keys + {DecodedKey(elems.tag)});
        FreshKeysCons(DecodedKey(elems.tag), tail, keys);
      } else {
        CheckElemsExact(shape, elems.rest, depth, keys);
        assert [] + tail == tail;
      }
    }
  }

  ghost predicate FreshKeys(s: seq<bytes>, keys: set<bytes>) {
    Distinct(s) && forall i :: 0 <= i < |s| ==> s[i] !in keys
  }

  lemma FreshKeysCons(key: bytes, tail: seq<bytes>, keys: set<bytes>)
    ensures FreshKeys([key] + tail, keys) <==> key !in keys && FreshKeys(tail, keys + {key})
  {
    var s := [key] + tail;
    assert forall i :: 0 <= i < |tail| ==> tail[i] == s[i + 1];
    if FreshKeys(s, keys) {
      assert s[0] !in keys;
    }
    if key !in keys && FreshKeys(tail, keys + {key}) {
      assert forall i, j :: 0 <= i < j < |s| ==> s[i] != s[j];
    }
  }

  // ----- The parser -----

  lemma Advance(input: bytes, at: nat, a: bytes, b: bytes)
    requires at <= |input| && input[at..] == a + b
    ensures at + |a| <= |input| && input[at + |a|..] == b && input[at..at + |a|] == a
  {
    assert input[at + |a|..] == input[at..][|a|..];
    assert input[at..at + |a|] == input[at..][..|a|];
  }

  lemma AtHead(input: bytes, at: nat, b: byte, s: bytes)
    requires at <= |input| && input[at..] == [b] + s
    ensures at < |input| && input[at] == b && input[at + 1..] == s
  {
    Advance(input, at, [b], s);
    assert input[at] == input[at..][0];
  }

  lemma TokenAt(input: bytes, start: nat, token: bytes, rest: bytes)
    requires start <= |input| && input[start..] == token + rest && DecodeString(token).Some?
    ensures start + |token| <= |input| && input[start] == QUOTE
    ensures Body(input[start + 1..], false) == Some(|token| - 1)
    ensures input[start..start + |token|] == token && input[start + |token|..] == rest
  {
    TokenScan(token, rest);
    Advance(input, start, token, rest);
    assert input[start] == input[start..][0];
    assert input[start..][1..] == input[start + 1..];
  }

  /** One byte of a scan that knows where its closing quote is. */
  lemma ContinuedStep(n: Option<nat>, input: bytes, at: nat, escaped: bool, passed: nat)
    requires n.Some? && at <= |input| && Continued(n, input[at..], escaped, passed)
    ensures at < |input|
    ensures !escaped && input[at] == QUOTE ==> n == Some(passed + 1)
    ensures !(!escaped && input[at] == QUOTE) ==>
              Continued(n, input[at + 1..], !escaped && input[at] == BACKSLASH, passed + 1)
  {
    assert input[at..][1..] == input[at + 1..];
  }

  /** A container's text after its opening bracket: white space, and what starts right after it. */
  ghost function OpeningParts(t: Tree, rest: bytes): (bytes, bytes) {
    if !t.Node? then ([], [])
    else if t.elems.End? then (t.pad, [Close(t.shape)] + rest)
    else (t.elems.lead, PrintElems(t.elems.(lead := [])) + ([Close(t.shape)] + rest))
  }

  lemma OpeningSplit(t: Tree, rest: bytes)
    requires t.Node? && WellFormed(t)
    ensures var (ws, tail) := OpeningParts(t, rest);
            && Print(t) + rest == [Open(t.shape)] + (ws + tail)
            && AllWs(ws) && tail != [] && !AsciiWs(tail[0])
            && (t.elems.Elem? ==> tail[0] != Close(t.shape) && WellFormedElems(t.shape, t.elems.(lead := [])))
  {
    var closed := [Close(t.shape)] + rest;
    JoinNode(t.shape, t.pad, t.elems, rest);
    if t.elems.Elem? {
      var e := t.elems.(lead := []);
      ItemSplit(t.shape, t.elems, rest);
      ItemSplit(t.shape, e, rest);
      var item := ItemParts(t.shape, e, rest);
      LabelHead(t.shape, e.tag, e.value, item.tail);
      HeadAssoc(PrintLabel(e.tag), Print(e.value), item.tail);
      assert [] + (PrintLabel(e.tag) + (Print(e.value) + item.tail)) == PrintLabel(e.tag) + (Print(e.value) + item.tail);
    }
  }

  /** The white space before the first element is consumed early; nothing else depends on it. */
  lemma SameUnled(shape: Shape, e: Elems, depth: nat, found: seq<Range>, at: nat)
    requires e.Elem? && WellFormedElems(shape, e)
    ensures WellFormedElems(shape, e.(lead := []))
    ensures CheckElems(shape, e.(lead := []), depth, {}) == CheckElems(shape, e, depth, {})
    ensures OntoElems(found, e.(lead := []), at + |e.lead|) == OntoElems(found, e, at)
  {
    hide Check, Onto, Print, PrintLabel, DecodeString, WellFormed;
  }

  /** The verdict on a list of elements, one element on. */
  lemma CheckStep(shape: Shape, e: Elems, depth: nat, keys: set<bytes>)
    requires e.Elem? && WellFormedElems(shape, e)
    ensures var keys' := if e.tag.Key? then keys + {DecodedKey(e.tag)} else keys;
            CheckElems(shape, e, depth, keys)
            == if e.tag.Key? && DecodedKey(e.tag) in keys then Err(NotApplicable)
               else if Check(e.value, depth).Err? then Err(Check(e.value, depth).error)
               else if e.rest.End? then Ok(())
               else CheckElems(shape, e.rest, depth, keys')
  {
  }

  lemma CheckMember(e: Elems, depth: nat, keys: set<bytes>)
    requires e.Elem? && WellFormedElems(Obj, e)
    ensures CheckElems(Obj, e, depth, keys)
            == if DecodedKey(e.tag) in keys then Err(NotApplicable)
               else if Check(e.value, depth).Err? then Err(Check(e.value, depth).error)
               else CheckElems(Obj, e.rest, depth, keys + {DecodedKey(e.tag)})
    ensures e.rest.End? ==> CheckElems(Obj, e.rest, depth, keys + {DecodedKey(e.tag)}) == Ok(())
  {
  }

  lemma OntoStep(found: seq<Range>, e: Elems, off: nat)
    requires e.Elem?
    ensures var o1 := off + |e.lead|;
            var o2 := o1 + |PrintLabel(e.tag)|;
            var found' := Onto(OntoLabel(found, e.tag, o1), e.value, o2);
            && OntoElems(found, e, off) == OntoElems(found', e.rest, o2 + |Print(e.value)| + |e.trail| + 1)
            && (e.rest.End? ==> OntoElems(found, e, off) == found')
    ensures e.tag.NoKey? ==>
              OntoLabel(found, e.tag, off + |e.lead|) == found && |PrintLabel(e.tag)| == 0
  {
  }

  lemma NoElems(shape: Shape, depth: nat, found: seq<Range>, off: nat)
    ensures CheckElems(shape, End, depth, {}) == Ok(())
    ensures OntoElems(found, End, off) == found
  {
  }

  /** The byte the parser branches on tells the four kinds of value apart. */
  lemma FirstByte(input: bytes, at: nat, t: Tree, rest: bytes)
    requires at <= |input| && input[at..] == Print(t) + rest && WellFormed(t)
    ensures at < |input|
    ensures input[at] == Open(Obj) <==> t.Node? && t.shape.Obj?
    ensures input[at] == Open(Arr) <==> t.Node? && t.shape.Arr?
    ensures input[at] == QUOTE <==> t.Str?
  {
    ValueHead(t);
    if t.Scalar? {
      ScalarBytes(t.token);
      assert ScalarByte(Print(t)[0]);
    }
    Advance(input, at, Print(t), rest);
    assert input[at] == Print(t)[0];
  }

  /** The text of one element: everything after its value, and after the mark that ends it. */
  datatype Item = Item(trail: bytes, mark: byte, next: bytes, tail: bytes)

  ghost function ItemParts(shape: Shape, e: Elems, rest: bytes): Item {
    if e.End? then Item([], COMMA, [], [])
    else
      var mark := if e.rest.End? then Close(shape) else COMMA;
      var next := if e.rest.End? then rest else PrintElems(e.rest) + ([Close(shape)] + rest);
      Item(e.trail, mark, next, e.trail + ([mark] + next))
  }

  lemma ItemSplit(shape: Shape, e: Elems, rest: bytes)
    requires e.Elem? && WellFormedElems(shape, e)
    ensures var item := ItemParts(shape, e, rest);
            && PrintElems(e) + ([Close(shape)] + rest)
               == e.lead + (PrintLabel(e.tag) + (Print(e.value) + item.tail))
            && Follows(e.value, item.tail)
  {
    SplitElems(e, [Close(shape)] + rest);
    var item := ItemParts(shape, e, rest);
    FollowsTrail(e.value, e.trail, [item.mark] + item.next);
  }

  class DuplicateParser {
    const input: bytes
    const maxWork: u64
    var offset: nat
    var work: u64
    /** The ranges consumed by `String`, in order. */
    ghost var strings: seq<Range>

    /** Between steps the work counter and the offset agree, so the work bound cannot be hit inside the input. */
    ghost predicate Valid()
      reads this
    {
      offset <= |input| <= maxWork && work == offset
    }

    constructor (input: bytes, maxWork: u64)
      requires |input| <= maxWork
      ensures Valid() && this.input == input && this.maxWork == maxWork && offset == 0 && strings == []
    {
      this.input := input;
      this.maxWork := maxWork;
      offset := 0;
      work := 0;
      strings := [];
    }

    method Next() returns (r: Result<byte, TransformError>)
      requires Valid()
      modifies this`offset, this`work
      ensures old(offset) < |input| ==> r == Ok(input[old(offset)]) && offset == old(offset) + 1 && Valid()
      ensures old(offset) == |input| ==> r.Err?
    {
      work := SatAdd(work, 1);
      if work > maxWork {
        return Err(ResourceLimit);
      }
      if offset >= |input| {
        return Err(InvalidInput);
      }
      var b := input[offset];
      offset := offset + 1;
      return Ok(b);
    }

    method Peek() returns (r: Result<byte, TransformError>)
      requires Valid()
      ensures r == if offset < |input| then Ok(input[offset]) else Err(InvalidInput)
    {
      if offset >= |input| {
        return Err(InvalidInput);
      }
      return Ok(input[offset]);
    }

    method Take(expected: byte) returns (r: Result<(), TransformError>)
      requires Valid()
      modifies this`offset, this`work
      ensures r.Ok? <==> old(offset) < |input| && input[old(offset)] == expected
      ensures r.Ok? ==> Valid() && offset == old(offset) + 1
    {
      var b := Next();
      if b.Err? {
        return Err(b.error);
      }
      if b.value == expected {
        return Ok(());
      }
      return Err(InvalidInput);
    }

    method Whitespace()
      requires Valid()
      modifies this`offset, this`work
      ensures Valid() && old(offset) <= offset
      ensures offset == old(offset) + AsciiRun(input[old(offset)..])
    {
      ghost var run := AsciiRun(input[offset..]);
      while offset < |input| && AsciiWs(input[offset])
        invariant Valid() && old(offset) <= offset
        invariant offset + AsciiRun(input[offset..]) == old(offset) + run
        decreases |input| - offset
      {
        assert input[offset..][1..] == input[offset + 1..];
        var _ := Next();
      }
    }

    /** `Whitespace` in front of `ws + s`. */
    method SkipTo(ghost ws: bytes, ghost s: bytes)
      requires Valid()
      modifies this`offset, this`work
      ensures Valid() && old(offset) <= offset
      ensures input[old(offset)..] == ws + s && AllWs(ws) && (s == [] || !AsciiWs(s[0])) ==>
                input[offset..] == s && offset == old(offset) + |ws|
    {
      ghost var at := offset;
      Whitespace();
      if input[at..] == ws + s && AllWs(ws) && (s == [] || !AsciiWs(s[0])) {
        AsciiRunPrint(ws, s);
        Advance(input, at, ws, s);
      }
    }

    method Scalar(ghost token: bytes, ghost rest: bytes) returns (r: Result<(), TransformError>)
      requires Valid()
      modifies this`offset, this`work
      ensures r.Ok? ==> Valid() && old(offset) < offset
      ensures input[old(offset)..] == token + rest && IsScalar(token) && (rest == [] || Delimiter(rest[0])) ==>
                r == Ok(()) && input[offset..] == rest
    {
      var start := offset;
      ghost var run := ScalarRun(input[offset..]);
      while offset < |input| && !Delimiter(input[offset])
        invariant Valid() && start <= offset
        invariant offset + ScalarRun(input[offset..]) == start + run
        decreases |input| - offset
      {
        assert input[offset..][1..] == input[offset + 1..];
        var _ := Next();
      }
      if input[start..] == token + rest && IsScalar(token) && (rest == [] || Delimiter(rest[0])) {
        ScalarBytes(token);
        ScalarRunPrint(token, rest);
        Advance(input, start, token, rest);
      }
      if offset == start {
        return Err(InvalidInput);
      }
      return Ok(());
    }

    method String(ghost token: bytes, ghost rest: bytes) returns (r: Result<bytes, TransformError>)
      requires Valid()
      modifies this
      ensures r.Ok? ==> Valid() && old(offset) < offset
      ensures input[old(offset)..] == token + rest && DecodeString(token).Some? ==>
                r == Ok(token) && input[offset..] == rest &&
                strings == old(strings) + [Range(old(offset), old(offset) + |token|)]
    {
      var start := offset;
      ghost var matching := input[start..] == token + rest && DecodeString(token).Some?;
      if matching {
        TokenAt(input, start, token, rest);
      }
      var quote := Take(QUOTE);
      if quote.Err? {
        return Err(quote.error);
      }
      var body := StringBody(if matching then Some(|token| - 1) else None);
      if body.Err? {
        return Err(body.error);
      }
      strings := strings + [Range(start, offset)];
      return Ok(input[start..offset]);
    }

    /** The loop of `String`, up to and including the closing quote, which is `n` bytes on when that is known. */
    method StringBody(ghost n: Option<nat>) returns (r: Result<(), TransformError>)
      requires Valid()
      modifies this`offset, this`work
      ensures r.Ok? ==> Valid() && old(offset) < offset
      ensures n.Some? && Continued(n, input[old(offset)..], false, 0) ==> r.Ok? && offset == old(offset) + n.value
    {
      ghost var start := offset;
      ghost var matching := n.Some? && Continued(n, input[offset..], false, 0);
      var escaped := false;
      while true
        invariant Valid() && start <= offset
        invariant matching ==> Continued(n, input[offset..], escaped, offset - start)
        decreases |input| - offset
      {
        if matching {
          ContinuedStep(n, input, offset, escaped, offset - start);
        }
        var b := Next();
        if b.Err? {
          return Err(b.error);
        }
        if escaped {
          escaped := false;
        } else if b.value == BACKSLASH {
          escaped := true;
        } else if b.value == QUOTE {
          return Ok(());
        }
      }
    }

    /** Whether a white-space run and then the text of `t` come next. */
    ghost predicate At(lead: bytes, t: Tree, rest: bytes)
      reads this
      requires Valid()
    {
      input[offset..] == lead + (Print(t) + rest) && AllWs(lead) && WellFormed(t) && Follows(t, rest)
    }

    /** Whether the text of the container `t` comes next. */
    ghost predicate AtNode(shape: Shape, t: Tree, rest: bytes)
      reads this
      requires Valid()
    {
      t.Node? && t.shape == shape && WellFormed(t) && input[offset..] == Print(t) + rest
    }

    /** Whether the elements `e` and the closing bracket come next. */
    ghost predicate AtElems(shape: Shape, e: Elems, rest: bytes)
      reads this
      requires Valid()
    {
      e.Elem? && WellFormedElems(shape, e) && input[offset..] == PrintElems(e) + ([Close(shape)] + rest)
    }

    /** White space, then one string token decoded as a key. */
    method Key(ghost lead: bytes, ghost token: bytes, ghost after: bytes) returns (r: Result<bytes, TransformError>)
      requires Valid()
      modifies this
      ensures r.Ok? ==> Valid() && old(offset) < offset
      ensures input[old(offset)..] == lead + (token + after) && AllWs(lead) && DecodeString(token).Some? ==>
                && r == Ok(DecodeString(token).value) && input[offset..] == after
                && strings == old(strings) + [Range(old(offset) + |lead|, old(offset) + |lead| + |token|)]
                && offset == old(offset) + |lead| + |token|
    {
      SkipTo(lead, token + after);
      var key := String(token, after);
      if key.Err? {
        return Err(key.error);
      }
      var decoded := DecodeString(key.value);
      return if decoded.Some? then Ok(decoded.value) else Err(InvalidInput);
    }

    method Colon(ghost before: bytes, ghost s: bytes) returns (r: Result<(), TransformError>)
      requires Valid()
      modifies this`offset, this`work
      ensures r.Ok? ==> Valid() && old(offset) < offset
      ensures input[old(offset)..] == before + ([COLON] + s) && AllWs(before) ==>
                r.Ok? && input[offset..] == s && offset == old(offset) + |before| + 1
    {
      ghost var matching := input[offset..] == before + ([COLON] + s) && AllWs(before);
      SkipTo(before, [COLON] + s);
      if matching {
        AtHead(input, offset, COLON, s);
      }
      r := Take(COLON);
    }

    /** White space and the comma or closing bracket after an element; `Ok(true)` when the container ended. */
    method Separator(shape: Shape, ghost trail: bytes, ghost b: byte, ghost s: bytes)
      returns (r: Result<bool, TransformError>)
      requires Valid()
      modifies this`offset, this`work
      ensures r.Ok? ==> Valid() && old(offset) < offset
      ensures input[old(offset)..] == trail + ([b] + s) && AllWs(trail) && (b == COMMA || b == Close(shape)) ==>
                r == Ok(b == Close(shape)) && input[offset..] == s && offset == old(offset) + |trail| + 1
    {
      ghost var matching := input[offset..] == trail + ([b] + s) && AllWs(trail) && (b == COMMA || b == Close(shape));
      SkipTo(trail, [b] + s);
      if matching {
        AtHead(input, offset, b, s);
      }
      var next := Peek();
      if next.Err? {
        return Err(next.error);
      }
      if next.value == COMMA {
        var taken := Take(COMMA);
        return match taken case Ok(_) => Ok(false) case Err(e) => Err(e);
      }
      if next.value == Close(shape) {
        var taken := Take(Close(shape));
        return match taken case Ok(_) => Ok(true) case Err(e) => Err(e);
      }
      return Err(InvalidInput);
    }

    /** The opening bracket, white space, and the closing bracket of an empty container: `Ok(true)` when it was empty. */
    method Opening(shape: Shape, ghost t: Tree, ghost rest: bytes) returns (r: Result<bool, TransformError>)
      requires Valid()
      modifies this`offset, this`work
      ensures r.Ok? ==> Valid() && old(offset) < offset
      ensures old(AtNode(shape, t, rest)) ==>
                && r == Ok(t.elems.End?)
                && (t.elems.End? ==> input[offset..] == rest)
                && (t.elems.Elem? ==> AtElems(shape, t.elems.(lead := []), rest)
                                      && offset == old(offset) + 1 + |t.elems.lead|)
    {
      ghost var matching := AtNode(shape, t, rest);
      ghost var (pad, tail) := OpeningParts(t, rest);
      if matching {
        OpeningSplit(t, rest);
        AtHead(input, offset, Open(shape), pad + tail);
      }
      var open := Take(Open(shape));
      if open.Err? {
        return Err(open.error);
      }
      SkipTo(pad, tail);
      var next := Peek();
      if next.Err? {
        return Err(next.error);
      }
      if matching && t.elems.End? {
        AtHead(input, offset, Close(shape), rest);
      }
      if next.value == Close(shape) {
        var taken := Take(Close(shape));
        return match taken case Ok(_) => Ok(true) case Err(e) => Err(e);
      }
      return Ok(false);
    }

    /** The end of one element: its value, white space, and the comma or closing bracket. */
    method Item(shape: Shape, depth: nat, ghost lead: bytes, ghost e: Elems, ghost rest: bytes)
      returns (r: Result<bool, TransformError>)
      requires Valid()
      modifies this
      ensures r.Ok? ==> Valid() && old(offset) < offset
      ensures old(AtItem(shape, lead, e, rest)) ==>
                match Check(e.value, depth)
                case Err(error) => r == Err(error)
                case Ok(_) =>
                  && r == Ok(e.rest.End?)
                  && (e.rest.End? ==> input[offset..] == rest)
                  && (e.rest.Elem? ==> AtElems(shape, e.rest, rest))
                  && strings == Onto(old(strings), e.value, old(offset) + |lead|)
                  && offset == old(offset) + |lead| + |Print(e.value)| + |e.trail| + 1
      decreases |input| - offset, 4
    {
      ghost var item := ItemParts(shape, e, rest);
      ghost var matching := AtItem(shape, lead, e, rest);
      var value := ParseValue(depth, lead, if e.Elem? then e.value else Tree.Scalar([]), item.tail);
      if value.Err? {
        return Err(value.error);
      }
      assert matching ==> offset == old(offset) + |lead| + |Print(e.value)|;
      r := Separator(shape, item.trail, item.mark, item.next);
    }

    /** Whether white space, the value of `e` and what follows it come next. */
    ghost predicate AtItem(shape: Shape, lead: bytes, e: Elems, rest: bytes)
      reads this
      requires Valid()
    {
      && e.Elem? && WellFormedElems(shape, e) && Follows(e.value, ItemParts(shape, e, rest).tail)
      && input[offset..] == lead + (Print(e.value) + ItemParts(shape, e, rest).tail) && AllWs(lead)
    }

    method Array(depth: nat, ghost t: Tree, ghost rest: bytes) returns (r: Result<(), TransformError>)
      requires Valid()
      modifies this
      ensures r.Ok? ==> Valid() && old(offset) < offset
      ensures old(AtNode(Arr, t, rest)) ==>
                && r == CheckElems(Arr, t.elems, depth, {})
                && (r.Ok? ==> input[offset..] == rest
                              && strings == OntoElems(old(strings), t.elems, old(offset) + 1))
      decreases |input| - offset, 2
    {
      hide Check, CheckElems, Onto, OntoElems, Print, PrintElems;
      ghost var matching := AtNode(Arr, t, rest);
      NoElems(Arr, depth, strings, offset + 1);
      var empty := Opening(Arr, t, rest);
      if empty.Err? {
        return Err(empty.error);
      }
      if empty.value {
        return Ok(());
      }
      ghost var e := if matching then t.elems.(lead := []) else End;
      ghost var whole := if matching then OntoElems(strings, t.elems, old(offset) + 1) else [];
      ghost var verdict := if matching then CheckElems(Arr, t.elems, depth, {}) else Ok(());
      if matching {
        SameUnled(Arr, t.elems, depth, strings, old(offset) + 1);
      }
      while true
        invariant Valid() && old(offset) < offset
        invariant matching ==>
                    && AtElems(Arr, e, rest)
                    && verdict == CheckElems(Arr, e, depth, {})
                    && OntoElems(strings, e, offset) == whole
        decreases |input| - offset
      {
        if matching {
          CheckStep(Arr, e, depth, {});
          OntoStep(strings, e, offset);
          ItemSplit(Arr, e, rest);
          assert PrintLabel(e.tag) + (Print(e.value) + ItemParts(Arr, e, rest).tail)
              == Print(e.value) + ItemParts(Arr, e, rest).tail;
        }
        var closed := Item(Arr, depth, if e.Elem? then e.lead else [], e, rest);
        if closed.Err? {
          return Err(closed.error);
        }
        if closed.value {
          return Ok(());
        }
        if matching {
          e := e.rest;
        }
      }
    }

    method Object(depth: nat, ghost t: Tree, ghost rest: bytes) returns (r: Result<(), TransformError>)
      requires Valid()
      modifies this
      ensures r.Ok? ==> Valid() && old(offset) < offset
      ensures old(AtNode(Obj, t, rest)) ==>
                && r == CheckElems(Obj, t.elems, depth, {})
                && (r.Ok? ==> input[offset..] == rest
                              && strings == OntoElems(old(strings), t.elems, old(offset) + 1))
      decreases |input| - offset, 2
    {
      hide Check, CheckElems, Onto, OntoElems, OntoLabel, Print, PrintElems, PrintLabel, ItemParts, DecodeString;
      ghost var matching := AtNode(Obj, t, rest);
      NoElems(Obj, depth, strings, offset + 1);
      var empty := Opening(Obj, t, rest);
      if empty.Err? {
        return Err(empty.error);
      }
      if empty.value {
        return Ok(());
      }
      var keys: set<bytes> := {};
      ghost var e := if matching then t.elems.(lead := []) else End;
      ghost var whole := if matching then OntoElems(strings, t.elems, old(offset) + 1) else [];
      ghost var verdict := if matching then CheckElems(Obj, t.elems, depth, {}) else Ok(());
      if matching {
        SameUnled(Obj, t.elems, depth, strings, old(offset) + 1);
      }
      while true
        invariant Valid() && old(offset) < offset
        invariant matching ==>
                    && AtElems(Obj, e, rest)
                    && verdict == CheckElems(Obj, e, depth, keys)
                    && OntoElems(strings, e, offset) == whole
        decreases |input| - offset
      {
        if matching {
          CheckMember(e, depth, keys);
          OntoStep(strings, e, offset);
        }
        var closed;
        closed, keys := Member(depth, keys, e, rest);
        if closed.Err? {
          return Err(closed.error);
        }
        if closed.value {
          return Ok(());
        }
        if matching {
          e := e.rest;
        }
      }
    }

    /** One member: its key, which must be new, its value, and the mark that ends it. */
    method Member(depth: nat, keys: set<bytes>, ghost e: Elems, ghost rest: bytes)
      returns (r: Result<bool, TransformError>, keys': set<bytes>)
      requires Valid()
      modifies this
      ensures r.Ok? ==> Valid() && old(offset) < offset
      ensures old(AtElems(Obj, e, rest)) ==>
                if DecodedKey(e.tag) in keys then r == Err(NotApplicable)
                else
                  match Check(e.value, depth)
                  case Err(error) => r == Err(error)
                  case Ok(_) =>
                    var o1 := old(offset) + |e.lead|;
                    var o2 := o1 + |PrintLabel(e.tag)|;
                    && r == Ok(e.rest.End?)
                    && keys' == keys + {DecodedKey(e.tag)}
                    && (e.rest.End? ==> input[offset..] == rest)
                    && (e.rest.Elem? ==> AtElems(Obj, e.rest, rest))
                    && strings == Onto(OntoLabel(old(strings), e.tag, o1), e.value, o2)
                    && offset == o2 + |Print(e.value)| + |e.trail| + 1
      decreases |input| - offset, 6
    {
      keys' := keys;
      var key := MemberKey(e, rest);
      if key.Err? {
        return Err(key.error), keys';
      }
      if key.value in keys {
        return Err(NotApplicable), keys';
      }
      keys' := keys + {key.value};
      r := MemberValue(depth, e, rest);
    }

    method MemberKey(ghost e: Elems, ghost rest: bytes) returns (r: Result<bytes, TransformError>)
      requires Valid()
      modifies this
      ensures r.Ok? ==> Valid() && old(offset) < offset
      ensures old(AtElems(Obj, e, rest)) ==>
                && r == Ok(DecodedKey(e.tag)) && AtColon(e, rest)
                && strings == OntoLabel(old(strings), e.tag, old(offset) + |e.lead|)
                && offset == old(offset) + |e.lead| + |e.tag.token|
    {
      ghost var lead, token, after := [], [], [];
      if AtElems(Obj, e, rest) {
        var s := Print(e.value) + ItemParts(Obj, e, rest).tail;
        lead, token, after := e.lead, e.tag.token, e.tag.before + ([COLON] + (e.tag.after + s));
        ItemSplit(Obj, e, rest);
        JoinLabel(token, e.tag.before, e.tag.after, s, token + after);
      }
      r := Key(lead, token, after);
    }

    /** Whether the rest of a member, from the white space before its colon on, comes next. */
    ghost predicate AtColon(e: Elems, rest: bytes)
      reads this
      requires Valid()
    {
      && e.Elem? && WellFormedElems(Obj, e)
      && input[offset..]
         == e.tag.before + ([COLON] + (e.tag.after + (Print(e.value) + ItemParts(Obj, e, rest).tail)))
    }

    method MemberValue(depth: nat, ghost e: Elems, ghost rest: bytes) returns (r: Result<bool, TransformError>)
      requires Valid()
      modifies this
      ensures r.Ok? ==> Valid() && old(offset) < offset
      ensures old(AtColon(e, rest)) ==>
                match Check(e.value, depth)
                case Err(error) => r == Err(error)
                case Ok(_) =>
                  var at := old(offset) + |e.tag.before| + 1 + |e.tag.after|;
                  && r == Ok(e.rest.End?)
                  && (e.rest.End? ==> input[offset..] == rest)
                  && (e.rest.Elem? ==> AtElems(Obj, e.rest, rest))
                  && strings == Onto(old(strings), e.value, at)
                  && offset == at + |Print(e.value)| + |e.trail| + 1
      decreases |input| - offset, 5
    {
      hide Check, Onto, Print, PrintElems, PrintLabel, ItemParts, WellFormed, Delimiter, AsciiWs;
      ghost var matching := AtColon(e, rest);
      ghost var (before, after) := if matching then (e.tag.before, e.tag.after) else ([], []);
      ghost var s := if matching then after + (Print(e.value) + ItemParts(Obj, e, rest).tail) else [];
      if matching {
        ItemSplit(Obj, e, rest);
      }
      var colon := Colon(before, s);
      if colon.Err? {
        return Err(colon.error);
      }
      assert matching ==> AtItem(Obj, after, e, rest);
      r := Item(Obj, depth, after, e, rest);
    }

    /** `parse_value`: on the text of a well-formed tree it fails exactly where `Check` does. */
    method ParseValue(depth: nat, ghost lead: bytes, ghost t: Tree, ghost rest: bytes)
      returns (r: Result<(), TransformError>)
      requires Valid()
      modifies this
      ensures r.Ok? ==> Valid() && old(offset) < offset
      ensures old(At(lead, t, rest)) ==> r == Check(t, depth)
      ensures old(At(lead, t, rest)) && r.Ok? ==>
                input[offset..] == rest && strings == Onto(old(strings), t, old(offset) + |lead|)
      decreases |input| - offset, 3
    {
      ghost var matching := At(lead, t, rest);
      if depth > MAX_DEPTH {
        return Err(ResourceLimit);
      }
      if matching {
        ValueHead(t);
      }
      SkipTo(lead, Print(t) + rest);
      if matching {
        FirstByte(input, offset, t, rest);
      }
      var b := Peek();
      if b.Err? {
        return Err(b.error);
      }
      if b.value == Open(Obj) {
        r := Object(depth + 1, t, rest);
      } else if b.value == Open(Arr) {
        r := Array(depth + 1, t, rest);
      } else if b.value == QUOTE {
        var token := String(if t.Str? then t.token else [], rest);
        return match token case Ok(_) => Ok(()) case Err(e) => Err(e);
      } else {
        r := Scalar(if t.Scalar? then t.token else [], rest);
      }
    }
  }

  lemma {:induction false} AsciiRunPrint(ws: bytes, s: bytes)
    requires AllWs(ws) && (s == [] || !AsciiWs(s[0]))
    ensures AsciiRun(ws + s) == |ws|
  {
    if ws == [] {
      assert ws + s == s;
    } else {
      assert (ws + s)[1..] == ws[1..] + s;
      AsciiRunPrint(ws[1..], s);
    }
  }

  // ----- The validator -----

  /** What the validator answers for every input. */
  function Verdict(input: bytes, limits: Limits, lib: Library): Result<(), TransformError> {
    if Len64(|input|) > limits.maxWork then Err(ResourceLimit)
    else if !Accepts(lib, input) then Err(InvalidInput)
    else
      PrintParseDocument(input);
      Check(Parse(input).value.value, 0)
  }

  method ValidateJson(input: bytes, limits: Limits, lib: Library)
    returns (r: Result<(), TransformError>, ghost strings: seq<Range>)
    requires |input| <= U64_MAX
    ensures r == Verdict(input, limits, lib)
    ensures r.Ok? ==> strings == DocumentSpans(Parse(input).value)
  {
    strings := [];
    if Len64(|input|) > limits.maxWork {
      return Err(ResourceLimit), strings;
    }
    if !Accepts(lib, input) {
      return Err(InvalidInput), strings;
    }
    PrintParseDocument(input);
    ghost var d := Parse(input).value;
    var parser := new DuplicateParser(input, limits.maxWork);
    DocumentAt(d, input);
    var value := parser.ParseValue(0, d.lead, d.value, d.trail);
    if value.Err? {
      return Err(value.error), strings;
    }
    parser.SkipTo(d.trail, []);
    assert d.trail + [] == d.trail;
    assert |input[parser.offset..]| == |input| - parser.offset;
    if parser.offset != |input| {
      return Err(InvalidInput), strings;
    }
    strings := parser.strings;
    OntoSpans([], d.value, |d.lead|);
    assert [] + DocumentSpans(d) == DocumentSpans(d);
    return value, strings;
  }

  lemma DocumentAt(d: Document, input: bytes)
    requires input == PrintDocument(d)
    ensures input[0..] == d.lead + (Print(d.value) + d.trail)
    ensures AllWs(d.trail) ==> Follows(d.value, d.trail)
  {
  }

  /**
    On every document within the byte budget the validator accepts exactly when no object repeats a decoded key and
    no value has more than 128 enclosing containers; a repeated key is NotApplicable, excessive depth ResourceLimit.
   */
  lemma ValidationExact(input: bytes, limits: Limits, lib: Library)
    requires |input| <= limits.maxWork && Accepts(lib, input)
    ensures WellFormedDocument(Parse(input).value)
    ensures var t := Parse(input).value.value;
            var r := Verdict(input, limits, lib);
            && (r.Ok? <==> NoDuplicates(t) && NestedAtMost(t, MAX_DEPTH))
            && (r == Err(NotApplicable) ==> !NoDuplicates(t))
            && (r == Err(ResourceLimit) ==> !NestedAtMost(t, MAX_DEPTH))
            && (r.Err? ==> r.error in {NotApplicable, ResourceLimit})
  {
    PrintParseDocument(input);
    CheckExact(Parse(input).value.value, 0);
  }
}
