/** The round trip of printed search results for every list of text, file names that hold newlines included. */
module SearchRoundTrip {
  import opened Base
  import opened JsonString
  import opened JsonGrammar
  import opened Decimal
  import opened Values
  import opened Search
  import opened SearchLaws

  // ----- A document is longer than any text in it -----

  function Longer(a: nat, b: nat): nat {
    if a > b then a else b
  }

  /** The length of the longest text in a value. */
  function TextSize(v: Value): nat
    decreases v, 1
  {
    match v
    case Leaf(_) => 0
    case Text(text) => |text|
    case Box(_, kids) => TextSizeIn(kids)
  }

  function TextSizeIn(kids: Kids): nat
    decreases kids, 0
  {
    if kids.NoKids? then 0 else Longer(TextSize(kids.value), TextSizeIn(kids.rest))
  }

  lemma {:induction false} InsertSize(key: bytes, value: Value, kids: Kids)
    ensures TextSizeIn(InsertKid(key, value, kids)) <= Longer(TextSize(value), TextSizeIn(kids))
    decreases kids
  {
    hide Less, TextSize;
    if kids.Kid? && !Less(key, kids.key) && key != kids.key {
      InsertSize(key, value, kids.rest);
    }
  }

  lemma {:induction false} ReadSize(lib: Library, t: Tree)
    requires WellFormed(t)
    ensures TextSize(ValueOf(lib, t)) < |Print(t)|
    decreases t, 1
  {
    hide DecodeString, Canonical, IsScalar;
    match t
    case Scalar(token) => ScalarBytes(token);
    case Str(token) => DecodeShorter(token);
    case Node(shape, _, elems) => ReadSizeIn(lib, shape, elems);
  }

  lemma {:induction false} ReadSizeIn(lib: Library, shape: Shape, elems: Elems)
    requires WellFormedElems(shape, elems)
    ensures TextSizeIn(KidsOf(lib, shape, elems)) <= if elems.End? then 0 else |PrintElems(elems)|
    decreases elems, 0
  {
    hide DecodeString, InsertKid, TextSize, ValueOf, Print;
    if elems.Elem? {
      var value, kids := ValueOf(lib, elems.value), KidsOf(lib, shape, elems.rest);
      ReadSize(lib, elems.value);
      ReadSizeIn(lib, shape, elems.rest);
      ElemLength(elems);
      if elems.tag.Key? {
        InsertSize(DecodeString(elems.tag.token).value, value, kids);
      }
    }
  }

  lemma ElemLength(elems: Elems)
    requires elems.Elem?
    ensures |PrintElems(elems)| >= |Print(elems.value)|
    ensures elems.rest.Elem? ==> |PrintElems(elems)| >= |PrintElems(elems.rest)|
  {
    hide Print, PrintLabel;
  }

  lemma {:induction false} GetInSize(kids: Kids, key: bytes)
    ensures GetIn(kids, key).Some? ==> TextSize(GetIn(kids, key).value) <= TextSizeIn(kids)
  {
    hide TextSize;
    if kids.Kid? {
      GetInSize(kids.rest, key);
    }
  }

  lemma ThenSize(v: Option<Value>, key: bytes)
    ensures Then(v, key).Some? ==> v.Some? && TextSize(Then(v, key).value) <= TextSize(v.value)
  {
    hide GetIn;
    if v.Some? && v.value.Box? {
      GetInSize(v.value.kids, key);
    }
  }

  /** The file name of a JSON record is shorter than the record. */
  lemma RecordNameShorter(lib: Library, line: bytes)
    requires Grammatical(line) && JsonEvent(FromBytes(lib, line).value).Found?
    ensures |JsonEvent(FromBytes(lib, line).value).found.file| < |line|
  {
    hide JsonGrammar.Parse, ValueOf, Print, Get, TextSize, AsU64;
    PrintParseDocument(line);
    var d := JsonGrammar.Parse(line).value;
    ReadSize(lib, d.value);
    var v := FromBytes(lib, line).value;
    var data := Get(v, DATA);
    assert data == Then(Some(v), DATA);
    ThenSize(Some(v), DATA);
    ThenSize(data, PATH);
    ThenSize(Then(data, PATH), TEXT);
    TextIsSize(Then(Then(data, PATH), TEXT));
  }

  lemma TextIsSize(v: Option<Value>)
    ensures AsText(v).Some? ==> TextSize(v.value) == |AsText(v).value|
  {
  }

  // ----- Where names with newlines come from -----

  /** A JSON record on one line, longer than the file name it gives. */
  ghost predicate Bears(line: bytes, file: bytes, lib: Library) {
    line != TITLE && Grammatical(line) && JsonEvent(FromBytes(lib, line).value).Found? && |file| < |line|
  }

  lemma PartOneLine(line: bytes, n: nat)
    requires OneLine(line) && n <= |line|
    ensures OneLine(line[..n])
  {
  }

  lemma PlainName(line: bytes)
    requires OneLine(line)
    ensures !PlainEvent(line).Header? && (PlainEvent(line).Found? ==> OneLine(PlainEvent(line).found.file))
  {
    hide OneLine, ParseU64, Find;
    if PlainEvent(line).Found? {
      PartOneLine(line, Find(line, COLON).value);
    }
  }

  lemma NoHeader(v: Value)
    ensures !JsonEvent(v).Header?
  {
    hide Get, AsU64;
  }

  lemma GroupedName(line: bytes, file: bytes)
    ensures GroupedEvent(line, file).Some? ==>
              GroupedEvent(line, file).value.Found? && GroupedEvent(line, file).value.found.file == file
  {
    hide ParseU64, Find, UnescapeNewlines;
  }

  lemma EventName(line: bytes, grouped: Option<bytes>, lib: Library)
    requires OneLine(line) && (grouped.Some? ==> OneLine(grouped.value))
    ensures var e := LineEvent(line, grouped, lib);
            && (e.Header? ==> OneLine(e.file))
            && (e.Found? ==> OneLine(e.found.file) || Bears(line, e.found.file, lib))
  {
    hide OneLine, JsonEvent, JsonGrammar.Parse, ValueOf, HeaderLike, PlainEvent, GroupedEvent;
    if HeaderLike(line) && line != [] {
      PartOneLine(line, |line| - 1);
    }
    if grouped.Some? {
      GroupedName(line, grouped.value);
    }
    PlainName(line);
    if Grammatical(line) {
      NoHeader(FromBytes(lib, line).value);
    }
    if Grammatical(line) && JsonEvent(FromBytes(lib, line).value).Found? {
      RecordNameShorter(lib, line);
    }
  }

  /** Every match read has a name without newline, or one that a JSON record gave. */
  lemma {:induction false} ReadNames(r: Reading, lines: seq<bytes>, lib: Library)
    requires r.grouped.Some? ==> OneLine(r.grouped.value)
    requires forall i :: 0 <= i < |lines| ==> OneLine(lines[i])
    ensures var q := ReadLines(r, lines, lib);
            q.Some? ==> forall x :: x in q.value.matches ==>
              x in r.matches || OneLine(x.file) || exists line :: line in lines && Bears(line, x.file, lib)
    decreases |lines|
  {
    hide OneLine, LineEvent, Bears;
    if lines != [] {
      var e := LineEvent(lines[0], r.grouped, lib);
      EventName(lines[0], r.grouped, lib);
      if !e.Abort? {
        ReadNames(ReadEvent(r, e), lines[1..], lib);
        assert forall line :: line in lines[1..] ==> line in lines;
        assert lines[0] in lines;
      }
    }
  }

  // ----- The lines of the printed text -----

  lemma {:induction false} LinesOneLine(s: bytes)
    ensures forall i :: 0 <= i < |Lines(s)| ==> OneLine(Lines(s)[i])
    decreases |s|
  {
    hide Find;
    if s != [] && Find(s, NEWLINE).Some? {
      var n := Find(s, NEWLINE).value;
      LinesOneLine(s[n + 1..]);
      HeadOneLine(s, n);
    }
  }

  lemma HeadOneLine(s: bytes, n: nat)
    requires Find(s, NEWLINE) == Some(n)
    ensures OneLine(DropCr(s[..n]))
  {
  }

  lemma {:induction false} LinesSplit(a: bytes, b: bytes)
    ensures Lines(a + [NEWLINE] + b) == Lines(a + [NEWLINE]) + Lines(b)
    decreases |a|
  {
    hide Lines, DropCr;
    if OneLine(a) {
      LineThenRest(a, b);
      LineThenRest(a, []);
      NoLines();
      assert a + [NEWLINE] + [] == a + [NEWLINE];
    } else {
      var n := Find(a, NEWLINE).value;
      var head, tail := a[..n], a[n + 1..];
      HeadFree(a, n);
      assert a == head + [NEWLINE] + tail;
      LineThenRest(head, tail + [NEWLINE] + b);
      LineThenRest(head, tail + [NEWLINE]);
      assert a + [NEWLINE] + b == head + [NEWLINE] + (tail + [NEWLINE] + b);
      assert a + [NEWLINE] == head + [NEWLINE] + (tail + [NEWLINE]);
      LinesSplit(tail, b);
    }
  }

  lemma HeadFree(a: bytes, n: nat)
    requires Find(a, NEWLINE) == Some(n)
    ensures OneLine(a[..n]) && a[n] == NEWLINE
  {
  }

  /** A line of joined chunks is a line of one of them. */
  lemma {:induction false} LineOfChunk(chunks: seq<bytes>, line: bytes)
    requires line in Lines(JoinLines(chunks))
    ensures exists chunk :: chunk in chunks && line in Lines(chunk + [NEWLINE])
  {
    hide Lines;
    NoLines();
    if chunks != [] {
      LinesSplit(chunks[0], JoinLines(chunks[1..]));
      if line in Lines(chunks[0] + [NEWLINE]) {
        assert chunks[0] in chunks;
      } else {
        LineOfChunk(chunks[1..], line);
      }
    }
  }

  /** The chunks of a listing are headers and records. */
  lemma {:induction false} ListingChunk(previous: Option<bytes>, matches: seq<Match>, chunk: bytes)
    requires chunk in Listing(previous, matches)
    ensures exists m :: m in matches && (chunk == m.file + [COLON] || chunk == RecordLine(m))
    decreases |matches|
  {
    hide RecordLine;
    var m := matches[0];
    assert m in matches;
    if chunk != m.file + [COLON] && chunk != RecordLine(m) {
      ListingStep(previous, matches);
      assert chunk !in Step(previous, m);
      ListingChunk(Some(m.file), matches[1..], chunk);
    }
  }

  /** A line of a header ends in its colon, or is a piece of a name with a newline. */
  lemma {:induction false} HeaderPiece(file: bytes, line: bytes)
    requires line in Lines(file + [COLON] + [NEWLINE])
    ensures EndsIn(line, COLON) || (!OneLine(file) && |line| < |file|)
    decreases |file|
  {
    hide Lines, Find;
    NoLines();
    if OneLine(file) {
      FindOne(COLON, NEWLINE);
      OneLineAppend(file, [COLON]);
      LineThenRest(file + [COLON], []);
      assert file + [COLON] + [NEWLINE] + [] == file + [COLON] + [NEWLINE];
      HeaderLine(file);
    } else {
      var n := Find(file, NEWLINE).value;
      var head, tail := file[..n], file[n + 1..];
      HeadFree(file, n);
      assert file + [COLON] + [NEWLINE] == head + [NEWLINE] + (tail + [COLON] + [NEWLINE]);
      LineThenRest(head, tail + [COLON] + [NEWLINE]);
      if line != DropCr(head) {
        HeaderPiece(tail, line);
      }
    }
  }

  /** A document that starts with a digit is a number. */
  lemma DigitIsNoRecord(line: bytes, lib: Library)
    requires line != [] && Digit(line[0]) && Grammatical(line)
    ensures !JsonEvent(FromBytes(lib, line).value).Found?
  {
    hide JsonGrammar.Parse, IsScalar;
    PrintParseDocument(line);
    var d := JsonGrammar.Parse(line).value;
    ValueHead(d.value);
    assert line[0] == (d.lead + Print(d.value))[0];
    assert d.lead == [] by {
      assert d.lead != [] ==> JsonWs(d.lead[0]);
    }
    assert d.value.Scalar?;
  }

  lemma RecordBearsNothing(m: Match, line: bytes, file: bytes, lib: Library)
    requires line in Lines(RecordLine(m) + [NEWLINE])
    ensures !Bears(line, file, lib)
  {
    hide Lines, ToDecimal, EscapeNewlines, Find, JsonEvent, Grammatical, FromBytes;
    var digits, text := ToDecimal(m.line), EscapeNewlines(m.text);
    DecimalHas(m.line, NEWLINE);
    EscapeSpaces(m.text);
    FindOne(TAB, NEWLINE);
    OneLineAppend(digits, [TAB]);
    OneLineAppend(digits + [TAB], text);
    LineThenRest(RecordLine(m), []);
    NoLines();
    assert RecordLine(m) + [NEWLINE] + [] == RecordLine(m) + [NEWLINE];
    assert line == DropCr(RecordLine(m)) && line[0] == digits[0];
    if Grammatical(line) {
      DigitIsNoRecord(line, lib);
    }
  }

  lemma TitleLine(line: bytes)
    requires line in Lines(TITLE + [NEWLINE])
    ensures line == TITLE
  {
    hide Lines, DropCr, Utf8, Find;
    TitleClean();
    LineThenRest(TITLE, []);
    NoLines();
    assert TITLE + [NEWLINE] + [] == TITLE + [NEWLINE];
  }

  lemma BearerIsDocument(line: bytes, file: bytes, lib: Library)
    requires Bears(line, file, lib)
    ensures line != TITLE && |file| < |line| && !EndsIn(line, COLON)
  {
    hide JsonEvent, FromBytes, Grammatical;
    if EndsIn(line, COLON) {
      ColonEndsNoDocument(line);
    }
  }

  lemma ChunkOfListing(matches: seq<Match>, line: bytes) returns (chunk: bytes)
    requires Sorted(matches) && line in Lines(Render(matches)) && line != TITLE
    ensures chunk in Listing(None, matches) && line in Lines(chunk + [NEWLINE])
  {
    hide Lines, Render, Sorted, JoinLines, Listing;
    RenderSorted(matches);
    var chunks := [TITLE] + Listing(None, matches);
    LineOfChunk(chunks, line);
    chunk :| chunk in chunks && line in Lines(chunk + [NEWLINE]);
    if chunk == TITLE {
      TitleLine(line);
    }
  }

  /** A line that bears a name is a piece of a longer name with a newline. */
  lemma BearerIsPiece(matches: seq<Match>, line: bytes, file: bytes, lib: Library) returns (m: Match)
    requires Sorted(matches) && line in Lines(Render(matches)) && Bears(line, file, lib)
    ensures m in matches && !OneLine(m.file) && |file| < |line| < |m.file|
  {
    hide Lines, Render, Sorted, Bears, RecordLine, OneLine, JoinLines, Listing;
    BearerIsDocument(line, file, lib);
    var chunk := ChunkOfListing(matches, line);
    ListingChunk(None, matches, chunk);
    m :| m in matches && (chunk == m.file + [COLON] || chunk == RecordLine(m));
    if chunk == RecordLine(m) {
      RecordBearsNothing(m, line, file, lib);
    }
    HeaderPiece(m.file, line);
  }

  // ----- The round trip -----

  predicate NamesOneLine(matches: seq<Match>) {
    forall i :: 0 <= i < |matches| ==> OneLine(matches[i].file)
  }

  /** Of the names with a newline, one of the longest. */
  lemma {:induction false} LongestBroken(matches: seq<Match>) returns (m: Match)
    requires !NamesOneLine(matches)
    ensures m in matches && !OneLine(m.file)
    ensures forall x :: x in matches && !OneLine(x.file) ==> |x.file| <= |m.file|
  {
    hide OneLine;
    m := matches[0];
    assert matches == [matches[0]] + matches[1..];
    if !NamesOneLine(matches[1..]) {
      var best := LongestBroken(matches[1..]);
      if OneLine(m.file) || |m.file| < |best.file| {
        m := best;
      }
    }
  }

  /** A name with a newline is never read back: the record that could give it would have to lie in a longer one. */
  lemma BrokenNamesFail(matches: seq<Match>, limits: Limits, lib: Library)
    requires Sorted(matches) && !NamesOneLine(matches)
    ensures ParseSearch(Render(matches), limits, lib) != Some(Model(matches, []))
  {
    hide Lines, Render, Sorted, Bears, OneLine, ReadLines, SortMatches, Utf8, NamesOneLine;
    if ParseSearch(Render(matches), limits, lib) == Some(Model(matches, [])) {
      var lines := Lines(Render(matches));
      var r := Reading(None, [], []);
      var q := ReadLines(r, lines, lib).value;
      var m := LongestBroken(matches);
      LinesOneLine(Render(matches));
      ReadNames(r, lines, lib);
      SameElements(q.matches, matches, m);
      var line :| line in lines && Bears(line, m.file, lib);
      var longer := BearerIsPiece(matches, line, m.file, lib);
    }
  }

  /** What the parser and the reducer handle: text with 64-bit line numbers. */
  predicate Writable(m: Match) {
    Utf8(m.file) && Utf8(m.text) && m.line <= U64_MAX
  }

  predicate AllWritable(matches: seq<Match>) {
    forall i :: 0 <= i < |matches| ==> Writable(matches[i])
  }

  /**
    Printing then parsing: a sorted list of matches comes back, with no summary, exactly when every file name is
    non-empty and free of spaces and newlines and every text survives. All of it can be checked before printing.
   */
  lemma RoundTripExactly(matches: seq<Match>, limits: Limits, lib: Library)
    requires matches != [] && Sorted(matches) && AllWritable(matches)
    requires Len64(|Render(matches)|) <= limits.maxInput
    ensures ParseSearch(Render(matches), limits, lib) == Some(Model(matches, []))
            <==> FilesOk(matches) && NamesOneLine(matches) && TextsOk(matches)
  {
    hide Render, Sorted, ParseSearch, TextsOk, FilesOk, OneLine, Utf8;
    if NamesOneLine(matches) {
      OneLineRoundTrip(matches, limits, lib);
    } else {
      BrokenNamesFail(matches, limits, lib);
    }
  }
}
