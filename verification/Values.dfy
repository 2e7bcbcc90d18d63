/** JSON values as the library holds them, their compact text, and the documents they are read from. */
module Values {
  import opened Base
  import opened JsonString
  import opened JsonGrammar
  import opened Lexical

  /** Numbers are kept as the text the library prints for them; `Kids` keep the iteration order of the ordered map. */
  datatype Value =
    | Leaf(token: bytes)
    | Text(text: bytes)
    | Box(shape: Shape, kids: Kids)

  /** The key of an array element is empty. */
  datatype Kids = NoKids | Kid(key: bytes, value: Value, rest: Kids)

  predicate WellFormedValue(v: Value)
    decreases v, 1
  {
    match v
    case Leaf(token) => IsScalar(token)
    case Text(text) => Utf8(text)
    case Box(shape, kids) => WellFormedKids(shape, kids)
  }

  predicate WellFormedKids(shape: Shape, kids: Kids)
    decreases kids, 0
  {
    match kids
    case NoKids => true
    case Kid(key, value, rest) =>
      && (if shape.Arr? then key == [] else Utf8(key) && (rest.Kid? ==> Less(key, rest.key)))
      && WellFormedValue(value) && WellFormedKids(shape, rest)
  }

  /** Values inside a value, itself included. */
  function Nodes(v: Value): nat
    decreases v, 1
  {
    if v.Box? then 1 + NodesIn(v.kids) else 1
  }

  function NodesIn(kids: Kids): nat
    decreases kids, 0
  {
    if kids.NoKids? then 0 else Nodes(kids.value) + NodesIn(kids.rest)
  }

  /** Array elements as a sequence, and back. */
  function ToKids(values: seq<Value>): Kids {
    if values == [] then NoKids else Kid([], values[0], ToKids(values[1..]))
  }

  function FromKids(kids: Kids): seq<Value> {
    if kids.NoKids? then [] else [kids.value] + FromKids(kids.rest)
  }

  lemma {:induction false} FromToKids(values: seq<Value>)
    ensures FromKids(ToKids(values)) == values
    ensures (forall i :: 0 <= i < |values| ==> WellFormedValue(values[i])) ==> WellFormedKids(Arr, ToKids(values))
    decreases |values|
  {
    if values != [] {
      FromToKids(values[1..]);
      assert forall i :: 0 <= i < |values| - 1 ==> values[1..][i] == values[i + 1];
    }
  }

  // ----- Compact text -----

  function Compact(v: Value): Tree
    decreases v, 1
  {
    match v
    case Leaf(token) => Scalar(token)
    case Text(text) => Str(EncodeString(text))
    case Box(shape, kids) => Node(shape, [], CompactKids(shape, kids))
  }

  function CompactKids(shape: Shape, kids: Kids): Elems
    decreases kids, 0
  {
    match kids
    case NoKids => End
    case Kid(key, value, rest) =>
      Elem([], if shape.Arr? then NoKey else Key(EncodeString(key), [], []), Compact(value), [],
           CompactKids(shape, rest))
  }

  /** `serde_json::to_vec`. */
  function ToBytes(v: Value): bytes {
    Print(Compact(v))
  }

  // ----- Reading -----

  /** The text of a number once read; literals are themselves. */
  function Canonical(lib: Library, token: bytes): bytes {
    if IsNumber(token) then lib.number(token) else token
  }

  /** Insertion into the ordered map of the members that follow: of repeated keys the last stays. */
  function InsertKid(key: bytes, value: Value, kids: Kids): Kids {
    if kids.NoKids? || Less(key, kids.key) then Kid(key, value, kids)
    else if key == kids.key then kids
    else Kid(kids.key, kids.value, InsertKid(key, value, kids.rest))
  }

  function ValueOf(lib: Library, t: Tree): Value
    requires WellFormed(t)
    decreases t, 1
  {
    match t
    case Scalar(token) => Leaf(Canonical(lib, token))
    case Str(token) => Text(DecodeString(token).value)
    case Node(shape, _, elems) => Box(shape, KidsOf(lib, shape, elems))
  }

  function KidsOf(lib: Library, shape: Shape, elems: Elems): Kids
    requires WellFormedElems(shape, elems)
    decreases elems, 0
  {
    match elems
    case End => NoKids
    case Elem(_, tag, value, _, rest) =>
      var kids := KidsOf(lib, shape, rest);
      if tag.NoKey? then Kid([], ValueOf(lib, value), kids)
      else InsertKid(DecodeString(tag.token).value, ValueOf(lib, value), kids)
  }

  /** `serde_json::from_slice::<Value>` on the grammar: objects in key order, numbers as the library keeps them. */
  function FromBytes(lib: Library, s: bytes): Option<Value> {
    if Grammatical(s) then
      PrintParseDocument(s);
      Some(ValueOf(lib, Parse(s).value.value))
    else None
  }

  lemma CanonicalIsScalar(lib: Library, token: bytes)
    requires IsScalar(token)
    ensures IsScalar(Canonical(lib, token))
  {
    hide IsNumber, Unsigned64;
  }

  lemma {:induction false} ValueOfWellFormed(lib: Library, t: Tree)
    requires WellFormed(t)
    ensures WellFormedValue(ValueOf(lib, t))
    decreases t, 1
  {
    hide Unescape, Utf8, IsScalar, Canonical;
    match t
    case Scalar(token) => CanonicalIsScalar(lib, token);
    case Str(token) => DecodedUtf8(token);
    case Node(shape, _, elems) => KidsOfWellFormed(lib, shape, elems);
  }

  lemma {:induction false} KidsOfWellFormed(lib: Library, shape: Shape, elems: Elems)
    requires WellFormedElems(shape, elems)
    ensures WellFormedKids(shape, KidsOf(lib, shape, elems))
    decreases elems, 0
  {
    hide Unescape, Utf8, InsertKid, WellFormedValue;
    if elems.Elem? {
      ValueOfWellFormed(lib, elems.value);
      KidsOfWellFormed(lib, shape, elems.rest);
      if elems.tag.Key? {
        DecodedUtf8(elems.tag.token);
        InsertKidWellFormed(DecodeString(elems.tag.token).value, ValueOf(lib, elems.value),
                            KidsOf(lib, shape, elems.rest));
      }
    }
  }

  lemma {:induction false} InsertKidWellFormed(key: bytes, value: Value, kids: Kids)
    requires Utf8(key) && WellFormedValue(value) && WellFormedKids(Obj, kids)
    ensures WellFormedKids(Obj, InsertKid(key, value, kids))
    ensures InsertKid(key, value, kids).Kid?
    ensures InsertKid(key, value, kids).key == if kids.NoKids? || Less(key, kids.key) then key else kids.key
  {
    hide Less, Utf8, WellFormedValue;
    if kids.Kid? {
      LessTotal(key, kids.key);
      if Less(kids.key, key) {
        InsertKidWellFormed(key, value, kids.rest);
      }
    }
  }

  // ----- Reading what was printed -----

  /** The value with every number read once more from its text. */
  function Reread(lib: Library, v: Value): Value
    decreases v, 1
  {
    match v
    case Leaf(token) => Leaf(Canonical(lib, token))
    case Text(_) => v
    case Box(shape, kids) => Box(shape, RereadKids(lib, kids))
  }

  function RereadKids(lib: Library, kids: Kids): Kids
    decreases kids, 0
  {
    if kids.NoKids? then NoKids else Kid(kids.key, Reread(lib, kids.value), RereadKids(lib, kids.rest))
  }

  /** Every number of the value is read back from its text as the same number. */
  predicate Stable(lib: Library, v: Value) {
    Reread(lib, v) == v
  }

  function RereadAll(lib: Library, values: seq<Value>): (r: seq<Value>)
    ensures |r| == |values| && forall i :: 0 <= i < |values| ==> r[i] == Reread(lib, values[i])
  {
    seq(|values|, i requires 0 <= i < |values| => Reread(lib, values[i]))
  }

  lemma {:induction false} ToKidsReread(lib: Library, values: seq<Value>)
    ensures RereadKids(lib, ToKids(values)) == ToKids(RereadAll(lib, values))
  {
    hide Reread;
    if values != [] {
      ToKidsReread(lib, values[1..]);
      assert RereadAll(lib, values)[1..] == RereadAll(lib, values[1..]);
    }
  }

  lemma {:induction false} RereadWellFormed(lib: Library, v: Value)
    requires WellFormedValue(v)
    ensures WellFormedValue(Reread(lib, v))
    decreases v, 1
  {
    hide IsScalar, Canonical, Utf8;
    match v
    case Leaf(token) => CanonicalIsScalar(lib, token);
    case Text(_) =>
    case Box(shape, kids) => RereadKidsWellFormed(lib, shape, kids);
  }

  lemma {:induction false} RereadKidsWellFormed(lib: Library, shape: Shape, kids: Kids)
    requires WellFormedKids(shape, kids)
    ensures WellFormedKids(shape, RereadKids(lib, kids))
    decreases kids, 0
  {
    hide Utf8, Less, Reread, WellFormedValue;
    if kids.Kid? {
      RereadWellFormed(lib, kids.value);
      RereadKidsWellFormed(lib, shape, kids.rest);
    }
  }

  lemma {:induction false} ValueOfCompact(lib: Library, v: Value)
    requires WellFormedValue(v)
    ensures WellFormed(Compact(v)) && ValueOf(lib, Compact(v)) == Reread(lib, v)
    decreases v, 1
  {
    hide Utf8, EncodeString, DecodeString, Canonical;
    match v
    case Leaf(_) =>
    case Text(text) => DecodeEncode(text);
    case Box(shape, kids) => KidsOfCompact(lib, shape, kids);
  }

  lemma {:induction false} KidsOfCompact(lib: Library, shape: Shape, kids: Kids)
    requires WellFormedKids(shape, kids)
    ensures WellFormedElems(shape, CompactKids(shape, kids))
    ensures KidsOf(lib, shape, CompactKids(shape, kids)) == RereadKids(lib, kids)
    decreases kids, 0
  {
    hide Utf8, EncodeString, DecodeString, Less, Reread;
    if kids.Kid? {
      if shape.Obj? {
        DecodeEncode(kids.key);
      }
      ValueOfCompact(lib, kids.value);
      KidsOfCompact(lib, shape, kids.rest);
    }
  }

  /** Reading a printed value gives the value with its numbers read again: itself exactly when they are stable. */
  lemma FromToBytes(lib: Library, v: Value)
    requires WellFormedValue(v)
    ensures FromBytes(lib, ToBytes(v)) == Some(Reread(lib, v))
    ensures FromBytes(lib, ToBytes(v)) == Some(v) <==> Stable(lib, v)
  {
    hide Parse, Compact, WellFormed, Reread;
    ValueOfCompact(lib, v);
    var d := Document([], Compact(v), []);
    assert PrintDocument(d) == ToBytes(v);
    assert WellFormedDocument(d) by {
      assert AllWs([]);
    }
    ParsePrintDocument(d);
  }

  /** A library that keeps every number as it is written. */
  function Verbatim(): Library {
    Reader(s => true, s => s)
  }

  lemma {:induction false} VerbatimStable(v: Value)
    ensures Stable(Verbatim(), v)
    decreases v, 1
  {
    if v.Box? {
      VerbatimStableKids(v.kids);
    }
  }

  lemma {:induction false} VerbatimStableKids(kids: Kids)
    ensures RereadKids(Verbatim(), kids) == kids
    decreases kids, 0
  {
    if kids.Kid? {
      VerbatimStable(kids.value);
      VerbatimStableKids(kids.rest);
    }
  }

  /** Different values have different text: maps keyed by text are maps keyed by value. */
  lemma ToBytesInjective(v: Value, w: Value)
    requires WellFormedValue(v) && WellFormedValue(w) && ToBytes(v) == ToBytes(w)
    ensures v == w
  {
    hide FromBytes, ToBytes, Reread, Verbatim;
    VerbatimStable(v);
    VerbatimStable(w);
    FromToBytes(Verbatim(), v);
    FromToBytes(Verbatim(), w);
  }

  // ----- White space carries no meaning -----

  lemma {:induction false} ValueOfStrip(lib: Library, t: Tree)
    requires WellFormed(t)
    ensures WellFormed(Strip(t)) && ValueOf(lib, Strip(t)) == ValueOf(lib, t)
    decreases t, 1
  {
    hide DecodeString, Canonical;
    StripWellFormed(t);
    if t.Node? {
      KidsOfStrip(lib, t.shape, t.elems);
    }
  }

  lemma {:induction false} KidsOfStrip(lib: Library, shape: Shape, elems: Elems)
    requires WellFormedElems(shape, elems)
    ensures WellFormedElems(shape, StripElems(elems))
    ensures KidsOf(lib, shape, StripElems(elems)) == KidsOf(lib, shape, elems)
    decreases elems, 0
  {
    hide DecodeString, InsertKid;
    if elems.Elem? {
      ValueOfStrip(lib, elems.value);
      KidsOfStrip(lib, shape, elems.rest);
    }
  }

  /** The minified bytes are read as the value the input is read as. */
  lemma MinifiedSameValue(lib: Library, s: bytes)
    requires Grammatical(s)
    ensures FromBytes(lib, Minified(s, Code)) == FromBytes(lib, s)
  {
    hide Parse, Minified;
    MinifiedDocument(s);
    PrintParseDocument(s);
    ValueOfStrip(lib, Parse(s).value.value);
  }
}
