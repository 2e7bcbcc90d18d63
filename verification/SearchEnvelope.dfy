/** Search output inside a JSON envelope: the one string that reads as search results is replaced by its grouped view. */
module SearchEnvelope {
  import opened Base
  import opened JsonString
  import opened JsonGrammar
  import opened Decimal
  import opened Lexical
  import opened StringTokens
  import opened Values
  import opened Search
  import opened SearchLaws
  import opened SearchRoundTrip

  // ----- Everything parsed is text -----

  predicate Textual(m: Match) {
    Utf8(m.file) && Utf8(m.text)
  }

  predicate AllTextual(s: seq<Match>) {
    forall m :: m in s ==> Textual(m)
  }

  lemma CutSlices(s: bytes, w: nat, n: nat)
    requires w <= n < |s|
    ensures s[..w] + s[w..][..n - w] == s[..n]
    ensures s[w..][n - w..] == s[n..] && s[w..][n - w + 1..] == s[n + 1..]
  {
  }

  /** Text can be cut on either side of an ASCII byte. */
  lemma {:induction false} Utf8Cut(s: bytes, n: nat)
    requires Utf8(s) && n < |s| && s[n] < 0x80
    ensures Utf8(s[..n]) && Utf8(s[n..]) && Utf8(s[n + 1..])
    decreases |s|
  {
    hide Utf8Width;
    var w := Utf8Width(s);
    if n == 0 {
      AsciiWidth(s);
      assert s[..0] == [] && s[0..] == s;
    } else {
      if w > 1 {
        WideBytes(s);
      }
      Utf8Cut(s[w..], n - w);
      Utf8Prefix(s, w);
      CutSlices(s, w, n);
      Utf8Append(s[..w], s[w..][..n - w]);
    }
  }

  lemma AsciiWidth(s: bytes)
    requires s != [] && s[0] < 0x80
    ensures Utf8Width(s) == 1
  {
  }

  lemma DropCrUtf8(s: bytes)
    requires Utf8(s)
    ensures Utf8(DropCr(s))
  {
    if EndsIn(s, CR) {
      Utf8Cut(s, |s| - 1);
    }
  }

  lemma {:induction false} TrimUtf8(s: bytes)
    requires Utf8(s)
    ensures Utf8(TrimLineEnds(s))
  {
    hide Utf8;
    if EndsIn(s, CR) || EndsIn(s, NEWLINE) {
      Utf8Cut(s, |s| - 1);
      TrimUtf8(s[..|s| - 1]);
    }
  }

  lemma {:induction false} UnescapeUtf8(s: bytes)
    requires Utf8(s)
    ensures Utf8(UnescapeNewlines(s))
    decreases |s|
  {
    if s != [] {
      var w := Utf8Width(s);
      if |s| >= 2 && s[0] == BACKSLASH && s[1] == 0x6E {
        Utf8Cut(s, 1);
        assert s[1..][1..] == s[2..];
        UnescapeUtf8(s[2..]);
        Utf8Ascii(NEWLINE);
        Utf8Append([NEWLINE], UnescapeNewlines(s[2..]));
      } else if w == 1 {
        UnescapeUtf8(s[1..]);
        Utf8Ascii(s[0]);
        Utf8Append([s[0]], UnescapeNewlines(s[1..]));
      } else {
        WideBytes(s);
        UnescapeWide(s, w);
        UnescapeUtf8(s[w..]);
        Utf8Prefix(s, w);
        Utf8Append(s[..w], UnescapeNewlines(s[w..]));
      }
    }
  }

  lemma {:induction false} UnescapeWide(s: bytes, w: nat)
    requires w <= |s| && forall i :: 0 <= i < w ==> s[i] >= 0x80
    ensures UnescapeNewlines(s) == s[..w] + UnescapeNewlines(s[w..])
  {
    if w > 0 {
      UnescapeWide(s[1..], w - 1);
      assert s[1..][w - 1..] == s[w..] && [s[0]] + s[1..][..w - 1] == s[..w];
    } else {
      assert s[0..] == s;
    }
  }

  lemma {:induction false} LinesUtf8(s: bytes)
    requires Utf8(s)
    ensures forall i :: 0 <= i < |Lines(s)| ==> Utf8(Lines(s)[i])
    decreases |s|
  {
    hide Utf8;
    match Find(s, NEWLINE) {
      case None =>
      case Some(n) =>
        Utf8Cut(s, n);
        DropCrUtf8(s[..n]);
        LinesUtf8(s[n + 1..]);
    }
  }

  lemma {:induction false} GetTextual(kids: Kids, key: bytes)
    requires WellFormedKids(Obj, kids)
    ensures GetIn(kids, key).Some? ==> WellFormedValue(GetIn(kids, key).value)
  {
    if kids.Kid? {
      GetTextual(kids.rest, key);
    }
  }

  lemma FieldTextual(v: Option<Value>, key: bytes)
    requires v.Some? ==> WellFormedValue(v.value)
    ensures Then(v, key).Some? ==> WellFormedValue(Then(v, key).value)
    ensures AsText(Then(v, key)).Some? ==> Utf8(AsText(Then(v, key)).value)
    ensures AsU64(v).Some? ==> AsU64(v).value <= U64_MAX
  {
    hide Utf8, GetIn;
    match v {
      case None =>
      case Some(w) =>
        if w.Box? && w.shape.Obj? {
          assert WellFormedValue(w) && w.shape == Obj;
          GetTextual(w.kids, key);
        }
    }
  }

  lemma JsonTextual(v: Value)
    requires WellFormedValue(v)
    ensures TextualEvent(JsonEvent(v))
  {
    hide Utf8, GetIn, AsText, AsU64, WellFormedValue, ParseU64, DigitRun, TrimLineEnds;
    FieldTextual(Some(v), DATA);
    var data := Get(v, DATA);
    FieldTextual(data, PATH);
    FieldTextual(data, LINES);
    FieldTextual(data, LINE_NUMBER);
    FieldTextual(Then(data, PATH), TEXT);
    FieldTextual(Then(data, LINES), TEXT);
    FieldTextual(Then(data, LINE_NUMBER), TEXT);
    if JsonEvent(v).Found? {
      TrimUtf8(AsText(Then(Then(data, LINES), TEXT)).value);
    }
  }

  lemma PlainTextual(line: bytes)
    requires Utf8(line)
    ensures TextualEvent(PlainEvent(line))
  {
    hide Utf8, ParseU64, Find;
    if Find(line, COLON).Some? {
      var i := Find(line, COLON).value;
      var rest := line[i + 1..];
      Utf8Cut(line, i);
      if Find(rest, COLON).Some? {
        Utf8Cut(rest, Find(rest, COLON).value);
        ParsedFits(rest[..Find(rest, COLON).value]);
      }
    }
  }

  lemma ParsedFits(digits: bytes)
    ensures ParseU64(digits).Some? ==> ParseU64(digits).value <= U64_MAX
  {
    hide Digits;
  }

  lemma GroupedTextual(line: bytes, file: bytes)
    requires Utf8(line) && Utf8(file)
    ensures GroupedEvent(line, file).Some? ==>
              var e := GroupedEvent(line, file).value; e.Found? && Textual(e.found) && e.found.line <= U64_MAX
  {
    hide Utf8, Digits, UnescapeNewlines;
    if GroupedEvent(line, file).Some? {
      var i := Find(line, TAB).value;
      Utf8Cut(line, i);
      UnescapeUtf8(line[i + 1..]);
    }
  }

  predicate TextualReading(r: Reading) {
    (r.grouped.Some? ==> Utf8(r.grouped.value)) && AllTextual(r.matches)
    && forall m :: m in r.matches ==> m.line <= U64_MAX
  }

  predicate TextualEvent(e: Event) {
    (e.Header? ==> Utf8(e.file)) && (e.Found? ==> Textual(e.found) && e.found.line <= U64_MAX)
  }

  lemma LineTextual(r: Reading, line: bytes, lib: Library)
    requires Utf8(line) && TextualReading(r)
    ensures TextualReading(ReadEvent(r, LineEvent(line, r.grouped, lib)))
  {
    hide LineEvent, Utf8;
    EventTextual(line, r.grouped, lib);
  }

  lemma HeaderTextual(line: bytes)
    requires Utf8(line) && HeaderLike(line)
    ensures Utf8(line[..|line| - 1])
  {
    hide Utf8, Find;
    Utf8Cut(line, |line| - 1);
  }

  lemma RecordTextual(line: bytes, lib: Library)
    requires Utf8(line) && Grammatical(line)
    ensures TextualEvent(JsonEvent(FromBytes(lib, line).value))
  {
    hide Utf8, JsonEvent, JsonGrammar.Parse, ValueOf, WellFormedValue;
    PrintParseDocument(line);
    ValueOfWellFormed(lib, JsonGrammar.Parse(line).value.value);
    JsonTextual(FromBytes(lib, line).value);
  }

  lemma EventTextual(line: bytes, grouped: Option<bytes>, lib: Library)
    requires Utf8(line) && (grouped.Some? ==> Utf8(grouped.value))
    ensures TextualEvent(LineEvent(line, grouped, lib))
  {
    hide Utf8, HeaderLike, GroupedEvent, PlainEvent, JsonEvent, Grammatical, FromBytes;
    if HeaderLike(line) {
      HeaderTextual(line);
    }
    if grouped.Some? {
      GroupedTextual(line, grouped.value);
    }
    PlainTextual(line);
    if Grammatical(line) {
      RecordTextual(line, lib);
    }
  }

  lemma {:induction false} ReadTextual(r: Reading, lines: seq<bytes>, lib: Library)
    requires TextualReading(r) && forall i :: 0 <= i < |lines| ==> Utf8(lines[i])
    ensures var q := ReadLines(r, lines, lib); q.Some? ==> TextualReading(q.value)
    decreases |lines|
  {
    hide LineEvent, ReadEvent, Utf8, TextualReading;
    if lines != [] {
      LineTextual(r, lines[0], lib);
      ReadTextual(ReadEvent(r, LineEvent(lines[0], r.grouped, lib)), lines[1..], lib);
    }
  }

  /** What is parsed can be printed: matches are in order, hold text, and carry 64-bit line numbers. */
  lemma ParsedTextual(input: bytes, limits: Limits, lib: Library)
    requires ParseSearch(input, limits, lib).Some?
    ensures var m := ParseSearch(input, limits, lib).value.matches;
            m != [] && Sorted(m) && AllTextual(m) && forall x :: x in m ==> x.line <= U64_MAX
  {
    hide Utf8, Lines, ReadLines, Sorted, SortMatches;
    LinesUtf8(input);
    ReadTextual(Reading(None, [], []), Lines(input), lib);
    var q := ReadLines(Reading(None, [], []), Lines(input), lib).value;
    SortIsSorted(q.matches);
    forall x ensures x in SortMatches(q.matches) <==> x in q.matches {
      SameElements(SortMatches(q.matches), q.matches, x);
    }
    assert |multiset(q.matches)| == |multiset(SortMatches(q.matches))|;
  }

  predicate TextualGroups(groups: seq<Group>) {
    forall g :: g in groups ==> Utf8(g.file) && AllTextual(g.items)
  }

  lemma {:induction false} AddTextual(groups: seq<Group>, m: Match)
    requires TextualGroups(groups) && Textual(m)
    ensures TextualGroups(AddToGroup(groups, m))
  {
    hide Utf8, Less;
    if groups != [] && !Less(m.file, groups[0].file) {
      assert groups[0] in groups;
      if groups[0].file != m.file {
        AddTextual(groups[1..], m);
      }
    }
  }

  lemma {:induction false} GroupAllTextual(groups: seq<Group>, matches: seq<Match>)
    requires TextualGroups(groups) && AllTextual(matches)
    ensures TextualGroups(GroupAll(groups, matches))
    decreases |matches|
  {
    hide TextualGroups, AddToGroup, Textual;
    if matches != [] {
      AddTextual(groups, matches[0]);
      GroupAllTextual(AddToGroup(groups, matches[0]), matches[1..]);
    }
  }

  lemma {:induction false} RecordLinesUtf8(items: seq<Match>)
    requires AllTextual(items)
    ensures forall i :: 0 <= i < |RecordLines(items)| ==> Utf8(RecordLines(items)[i])
  {
    hide Utf8, RecordLine;
    if items != [] {
      assert items[0] in items;
      RecordUtf8(items[0]);
      RecordLinesUtf8(items[1..]);
    }
  }

  lemma {:induction false} GroupLinesUtf8(groups: seq<Group>)
    requires TextualGroups(groups)
    ensures forall i :: 0 <= i < |GroupLines(groups)| ==> Utf8(GroupLines(groups)[i])
  {
    hide Utf8, RecordLines, Textual;
    if groups != [] {
      assert groups[0] in groups;
      AsciiUtf8([COLON]);
      Utf8Append(groups[0].file, [COLON]);
      RecordLinesUtf8(groups[0].items);
      GroupLinesUtf8(groups[1..]);
    }
  }

  lemma NoGroups()
    ensures TextualGroups([])
  {
  }

  lemma TitleUtf8()
    ensures Utf8(TITLE)
  {
    hide Find, Utf8;
    TitleClean();
  }

  /** The rendered view is text: the conversion of its bytes never fails. */
  lemma RenderUtf8(matches: seq<Match>)
    requires AllTextual(matches)
    ensures Utf8(Render(matches))
  {
    hide Utf8, GroupLines, GroupAll, JoinLines, Textual, TextualGroups;
    assert TextualGroups([]) by { NoGroups(); }
    GroupAllTextual([], matches);
    var lines := GroupLines(GroupAll([], matches));
    GroupLinesUtf8(GroupAll([], matches));
    TitleUtf8();
    JoinUtf8([TITLE] + lines);
  }

  // ----- The unique search string -----

  /** A search reading and the text that shows it. */
  datatype SearchView = SearchView(model: Model, visible: bytes)

  function TokenModel(token: bytes, limits: Limits, lib: Library): Option<Model> {
    match DecodeString(token)
    case None => None
    case Some(text) => ParseSearch(text, limits, lib)
  }

  /** Whether the token at an index reads as search results. */
  function SearchLike(tokens: seq<bytes>, limits: Limits, lib: Library): nat -> bool {
    (k: nat) => k < |tokens| && TokenModel(tokens[k], limits, lib).Some?
  }

  /** The indices from `k` up to `n` at which `hit` holds. */
  function Hits(n: nat, k: nat, hit: nat -> bool): (r: seq<nat>)
    requires k <= n
    ensures forall i: nat :: i in r <==> k <= i < n && hit(i)
    decreases n - k
  {
    if k == n then []
    else
      var rest := Hits(n, k + 1, hit);
      if hit(k) then [k] + rest else rest
  }

  ghost predicate UniqueAt(n: nat, k: nat, hit: nat -> bool) {
    k < n && hit(k) && forall i: nat :: i < n && hit(i) ==> i == k
  }

  predicate Ascending(r: seq<nat>) {
    forall i, j :: 0 <= i < j < |r| ==> r[i] < r[j]
  }

  lemma {:induction false} HitsAscend(n: nat, k: nat, hit: nat -> bool)
    requires k <= n
    ensures Ascending(Hits(n, k, hit))
    decreases n - k
  {
    if k < n {
      HitsAscend(n, k + 1, hit);
      var rest := Hits(n, k + 1, hit);
      forall i | 0 <= i < |rest| ensures k < rest[i] {
        assert rest[i] in rest;
      }
      assert Ascending([k] + rest);
    }
  }

  lemma HitsUnique(n: nat, hit: nat -> bool)
    ensures var r := Hits(n, 0, hit);
            (|r| == 1 <==> exists k: nat :: UniqueAt(n, k, hit)) && (|r| == 1 ==> UniqueAt(n, r[0], hit))
  {
    hide Hits;
    var r := Hits(n, 0, hit);
    HitsAscend(n, 0, hit);
    if |r| == 1 {
      assert r[0] in r;
      forall i: nat | i < n && hit(i) ensures i == r[0] {
        assert i in r;
      }
      assert UniqueAt(n, r[0], hit);
    }
    if k: nat :| UniqueAt(n, k, hit) {
      assert k in r;
      forall i | 0 <= i < |r| ensures r[i] == k {
        assert r[i] in r;
      }
      assert r[0] == k && r[|r| - 1] == k;
    }
  }

  /** What a token is replaced by. */
  function Grouped(token: bytes, limits: Limits, lib: Library): bytes
    requires TokenModel(token, limits, lib).Some?
  {
    EncodeString(Render(TokenModel(token, limits, lib).value.matches))
  }

  function EnvelopeView(input: bytes, limits: Limits, lib: Library): Option<SearchView> {
    match TokenRanges(input, limits.maxCandidates, lib)
    case Err(_) => None
    case Ok(ranges) =>
      var tokens := Tokens(JsonGrammar.Parse(input).value.value);
      var hits := Hits(|tokens|, 0, SearchLike(tokens, limits, lib));
      if |hits| != 1 then None
      else
        assert hits[0] in hits;
        if |Grouped(tokens[hits[0]], limits, lib)| >= |tokens[hits[0]]| then None
        else
          RangeOfToken(input, hits[0]);
          Some(SearchView(TokenModel(tokens[hits[0]], limits, lib).value,
                          Splice(input, ranges[hits[0]], Grouped(tokens[hits[0]], limits, lib))))
  }

  lemma RangeOfToken(input: bytes, k: nat)
    requires Grammatical(input) && k < |Tokens(JsonGrammar.Parse(input).value.value)|
    ensures var spans := DocumentSpans(JsonGrammar.Parse(input).value);
            && |spans| == |Tokens(JsonGrammar.Parse(input).value.value)|
            && spans[k].start <= spans[k].end <= |input|
            && input[spans[k].start..spans[k].end] == Tokens(JsonGrammar.Parse(input).value.value)[k]
  {
    hide Tokens, DocumentSpans, JsonGrammar.Parse, PrintDocument;
    ReplaceInDocument(input, k, []);
  }

  lemma {:induction false} AllDecode(t: Tree)
    requires WellFormed(t)
    ensures forall x :: x in Tokens(t) ==> DecodeString(x).Some?
    decreases t, 1
  {
    hide DecodeString;
    if t.Node? {
      AllDecodeIn(t.shape, t.elems);
    }
  }

  lemma {:induction false} AllDecodeIn(shape: Shape, elems: Elems)
    requires WellFormedElems(shape, elems)
    ensures forall x :: x in TokensElems(elems) ==> DecodeString(x).Some?
    decreases elems, 0
  {
    hide DecodeString;
    if elems.Elem? {
      AllDecode(elems.value);
      AllDecodeIn(shape, elems.rest);
    }
  }

  /** Every scanned token decodes. */
  lemma TokensDecode(input: bytes, k: nat)
    requires Grammatical(input) && k < |Tokens(JsonGrammar.Parse(input).value.value)|
    ensures DecodeString(Tokens(JsonGrammar.Parse(input).value.value)[k]).Some?
  {
    hide DecodeString, Tokens, WellFormed;
    PrintParseDocument(input);
    AllDecode(JsonGrammar.Parse(input).value.value);
  }

  lemma CountTokens(input: bytes)
    requires Grammatical(input)
    ensures |DocumentSpans(JsonGrammar.Parse(input).value)| == |Tokens(JsonGrammar.Parse(input).value.value)|
  {
    SpansCount(JsonGrammar.Parse(input).value.value, |JsonGrammar.Parse(input).value.lead|);
  }

  /** The loop over the strings: one hit is kept, a second one ends the search. */
  method UniqueHit(input: bytes, ranges: seq<Range>, limits: Limits, lib: Library)
    returns (r: Option<(Range, Model)>, ghost at: nat)
    requires Grammatical(input) && ranges == DocumentSpans(JsonGrammar.Parse(input).value)
    ensures var tokens := Tokens(JsonGrammar.Parse(input).value.value);
            && |tokens| == |ranges|
            && (r.Some? <==> |Hits(|tokens|, 0, SearchLike(tokens, limits, lib))| == 1)
            && (r.Some? ==> Hits(|tokens|, 0, SearchLike(tokens, limits, lib)) == [at] && at < |tokens| && r.value.0 == ranges[at]
                            && TokenModel(tokens[at], limits, lib) == Some(r.value.1))
  {
    hide Tokens, DocumentSpans, JsonGrammar.Parse, ParseSearch, DecodeString;
    ghost var tokens := Tokens(JsonGrammar.Parse(input).value.value);
    CountTokens(input);
    r, at := None, 0;
    for i := 0 to |ranges|
      invariant r.None? ==> Hits(|tokens|, i, SearchLike(tokens, limits, lib)) == Hits(|tokens|, 0, SearchLike(tokens, limits, lib))
      invariant r.Some? ==> Hits(|tokens|, 0, SearchLike(tokens, limits, lib)) == [at] + Hits(|tokens|, i, SearchLike(tokens, limits, lib))
      invariant r.Some? ==> at < |tokens| && r.value.0 == ranges[at]
                            && TokenModel(tokens[at], limits, lib) == Some(r.value.1)
    {
      RangeOfToken(input, i);
      TokensDecode(input, i);
      var range := ranges[i];
      var decoded := DecodeString(input[range.start..range.end]);
      var model := Search.Parse(decoded.value, limits, lib);
      if model.Some? {
        if r.Some? {
          return None, at;
        }
        r, at := Some((range, model.value)), i;
      }
    }
  }

  /** `search_json_envelope_view`: nothing is selected when no string, or more than one, reads as search results. */
  method SearchJsonEnvelopeView(input: bytes, limits: Limits, lib: Library) returns (r: Option<SearchView>)
    ensures r == EnvelopeView(input, limits, lib)
  {
    hide Tokens, DocumentSpans, JsonGrammar.Parse, Render, ParseSearch, DecodeString, EncodeString, Utf8, Hits;
    var found := JsonStringTokenRanges(input, limits.maxCandidates, lib);
    if found.Err? {
      return None;
    }
    var candidate, at := UniqueHit(input, found.value, limits, lib);
    if candidate.None? {
      return None;
    }
    var (range, model) := candidate.value;
    RangeOfToken(input, at);
    ParsedTextual(DecodeString(Tokens(JsonGrammar.Parse(input).value.value)[at]).value, limits, lib);
    RenderUtf8(model.matches);
    var rendered := RenderGrouped(model);
    if !Utf8(rendered) {
      return None;
    }
    var replacement := EncodeString(rendered);
    if |replacement| >= range.end - range.start {
      return None;
    }
    return Some(SearchView(model, input[..range.start] + replacement + input[range.end..]));
  }

  /** A view exists exactly for a document with a bounded number of strings, one of them search results that shrink. */
  lemma ViewExactly(input: bytes, limits: Limits, lib: Library)
    ensures EnvelopeView(input, limits, lib).Some? <==>
            && Accepts(lib, input)
            && var tokens := Tokens(JsonGrammar.Parse(input).value.value);
            && Len32(|tokens|) <= limits.maxCandidates
            && exists k: nat :: UniqueAt(|tokens|, k, SearchLike(tokens, limits, lib))
                           && |Grouped(tokens[k], limits, lib)| < |tokens[k]|
  {
    hide Tokens, DocumentSpans, JsonGrammar.Parse, ParseSearch, Render, EncodeString, DecodeString, Hits;
    if Accepts(lib, input) {
      CountTokens(input);
      var tokens := Tokens(JsonGrammar.Parse(input).value.value);
      HitsUnique(|tokens|, SearchLike(tokens, limits, lib));
    }
  }

  /**
    The view is the document with that one string replaced: same white space, scalars, keys and other strings, and the
    new string decodes to the grouped rendering of what the old one was read as.
   */
  lemma ViewMeaning(input: bytes, limits: Limits, lib: Library)
    requires EnvelopeView(input, limits, lib).Some?
    ensures var SearchView(model, visible) := EnvelopeView(input, limits, lib).value;
            && |visible| < |input|
            && var d := JsonGrammar.Parse(input).value;
            var d' := JsonGrammar.Parse(visible);
            && d'.Some? && d'.value.lead == d.lead && d'.value.trail == d.trail
            && Blank(d'.value.value) == Blank(d.value)
            && var tokens := Tokens(d.value);
               exists k: nat :: && UniqueAt(|tokens|, k, SearchLike(tokens, limits, lib))
                                && TokenModel(tokens[k], limits, lib) == Some(model)
                                && Tokens(d'.value.value) == tokens[k := EncodeString(Render(model.matches))]
                                && DecodeString(EncodeString(Render(model.matches))) == Some(Render(model.matches))
  {
    hide Tokens, DocumentSpans, JsonGrammar.Parse, ParseSearch, Render, EncodeString, DecodeString, Hits, Blank;
    var tokens := Tokens(JsonGrammar.Parse(input).value.value);
    var hits := Hits(|tokens|, 0, SearchLike(tokens, limits, lib));
    HitsUnique(|tokens|, SearchLike(tokens, limits, lib));
    var k := hits[0];
    var model := TokenModel(tokens[k], limits, lib).value;
    ParsedTextual(DecodeString(tokens[k]).value, limits, lib);
    RenderUtf8(model.matches);
    DecodeEncode(Render(model.matches));
    RangeOfToken(input, k);
    ReplacedDocument(input, k, EncodeString(Render(model.matches)));
  }

  /** Reading the new string gives back the matches exactly when their file names and texts survive printing. */
  lemma ViewReadsBack(input: bytes, limits: Limits, lib: Library)
    requires EnvelopeView(input, limits, lib).Some?
    ensures var matches := EnvelopeView(input, limits, lib).value.model.matches;
            Len64(|Render(matches)|) <= limits.maxInput ==>
              (TokenModel(EncodeString(Render(matches)), limits, lib) == Some(Model(matches, []))
               <==> FilesOk(matches) && NamesOneLine(matches) && TextsOk(matches))
  {
    hide Tokens, DocumentSpans, JsonGrammar.Parse, ParseSearch, Render, EncodeString, DecodeString, Hits, Sorted, Find,
         Utf8;
    var tokens := Tokens(JsonGrammar.Parse(input).value.value);
    HitsUnique(|tokens|, SearchLike(tokens, limits, lib));
    var k := Hits(|tokens|, 0, SearchLike(tokens, limits, lib))[0];
    var matches := TokenModel(tokens[k], limits, lib).value.matches;
    ParsedTextual(DecodeString(tokens[k]).value, limits, lib);
    RenderUtf8(matches);
    DecodeEncode(Render(matches));
    if Len64(|Render(matches)|) <= limits.maxInput {
      assert AllWritable(matches) by {
        assert forall i :: 0 <= i < |matches| ==> matches[i] in matches;
      }
      RoundTripExactly(matches, limits, lib);
    }
  }
}
