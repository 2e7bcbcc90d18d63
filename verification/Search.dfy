/** Search results: the line parser, the grouped rendering, and the order both use. */
module Search {
  import opened Base
  import opened JsonString
  import opened JsonGrammar
  import opened Decimal
  import opened Values

  const TAB: byte := 0x09
  const SPACE: byte := 0x20
  const CR: byte := 0x0D

  /** [search results] */
  const TITLE: bytes := [0x5B, 0x73, 0x65, 0x61, 0x72, 0x63, 0x68, 0x20, 0x72, 0x65, 0x73, 0x75, 0x6C, 0x74, 0x73, 0x5D]

  datatype Match = Match(file: bytes, line: nat, text: bytes)

  datatype Model = Model(matches: seq<Match>, summary: seq<bytes>)

  // ----- Order -----

  /** `(file, line, text)` in that order. */
  predicate MatchLess(a: Match, b: Match) {
    Less(a.file, b.file) || (a.file == b.file && (a.line < b.line || (a.line == b.line && Less(a.text, b.text))))
  }

  predicate Sorted(s: seq<Match>) {
    |s| < 2 || (!MatchLess(s[1], s[0]) && Sorted(s[1..]))
  }

  function InsertMatch(m: Match, s: seq<Match>): (r: seq<Match>)
    ensures multiset(r) == multiset([m]) + multiset(s)
  {
    if s == [] || !MatchLess(s[0], m) then [m] + s
    else
      assert s == [s[0]] + s[1..];
      [s[0]] + InsertMatch(m, s[1..])
  }

  /** `sort_by` on the key. */
  function SortMatches(s: seq<Match>): (r: seq<Match>)
    ensures multiset(r) == multiset(s)
  {
    if s == [] then []
    else
      assert s == [s[0]] + s[1..];
      InsertMatch(s[0], SortMatches(s[1..]))
  }

  lemma {:induction false} SortSorted(s: seq<Match>)
    requires Sorted(s)
    ensures SortMatches(s) == s
  {
    hide MatchLess;
    if s != [] {
      SortSorted(s[1..]);
      assert s == [s[0]] + s[1..];
    }
  }

  lemma MatchLessAsymmetric(a: Match, b: Match)
    ensures !(MatchLess(a, b) && MatchLess(b, a))
  {
    hide Less;
    LessTotal(a.file, b.file);
    LessTotal(a.text, b.text);
  }

  lemma {:induction false} InsertSorted(m: Match, s: seq<Match>)
    requires Sorted(s)
    ensures Sorted(InsertMatch(m, s))
    ensures InsertMatch(m, s)[0] == if s == [] || !MatchLess(s[0], m) then m else s[0]
  {
    hide MatchLess;
    if s != [] && MatchLess(s[0], m) {
      InsertSorted(m, s[1..]);
      MatchLessAsymmetric(s[0], m);
    }
  }

  /** Sorting yields an ordered permutation. */
  lemma {:induction false} SortIsSorted(s: seq<Match>)
    ensures Sorted(SortMatches(s)) && multiset(SortMatches(s)) == multiset(s)
  {
    hide MatchLess;
    if s != [] {
      SortIsSorted(s[1..]);
      InsertSorted(s[0], SortMatches(s[1..]));
    }
  }

  // ----- Text primitives -----

  function DropCr(line: bytes): bytes {
    if line != [] && line[|line| - 1] == CR then line[..|line| - 1] else line
  }

  /** `str::lines`: a carriage return is dropped only in front of a newline. */
  function Lines(s: bytes): seq<bytes>
    decreases |s|
  {
    if s == [] then []
    else
      match Find(s, NEWLINE)
      case None => [s]
      case Some(n) => [DropCr(s[..n])] + Lines(s[n + 1..])
  }

  /** `replace('\n', "\\n")`. */
  function EscapeNewlines(s: bytes): bytes {
    if s == [] then [] else (if s[0] == NEWLINE then [BACKSLASH, 0x6E] else [s[0]]) + EscapeNewlines(s[1..])
  }

  /** `replace("\\n", "\n")`. */
  function UnescapeNewlines(s: bytes): bytes
    decreases |s|
  {
    if s == [] then []
    else if |s| >= 2 && s[0] == BACKSLASH && s[1] == 0x6E then [NEWLINE] + UnescapeNewlines(s[2..])
    else [s[0]] + UnescapeNewlines(s[1..])
  }

  function TrimLineEnds(s: bytes): bytes {
    if s != [] && (s[|s| - 1] == CR || s[|s| - 1] == NEWLINE) then TrimLineEnds(s[..|s| - 1]) else s
  }

  // ----- One line -----

  datatype Event = Skip | Header(file: bytes) | Found(found: Match) | Note(text: bytes) | Abort

  /** A non-empty, space-free prefix of a line that ends in a colon. */
  predicate HeaderLike(line: bytes) {
    |line| >= 2 && line[|line| - 1] == COLON && Find(line, SPACE).None?
  }

  /** `Value::get` on an object; of repeated keys the library keeps the last. */
  function Get(v: Value, key: bytes): Option<Value> {
    if v.Box? && v.shape.Obj? then GetIn(v.kids, key) else None
  }

  function GetIn(kids: Kids, key: bytes): Option<Value> {
    if kids.NoKids? then None
    else if GetIn(kids.rest, key).Some? then GetIn(kids.rest, key)
    else if kids.key == key then Some(kids.value)
    else None
  }

  function AsText(v: Option<Value>): Option<bytes> {
    if v.Some? && v.value.Text? then Some(v.value.text) else None
  }

  /** `as_u64`: an unsigned integer literal in range. */
  function AsU64(v: Option<Value>): Option<nat> {
    if v.Some? && v.value.Leaf? && DigitRun(v.value.token) == |v.value.token| then ParseU64(v.value.token) else None
  }

  function Then(v: Option<Value>, key: bytes): Option<Value> {
    if v.Some? then Get(v.value, key) else None
  }

  const TYPE: bytes := [0x74, 0x79, 0x70, 0x65]
  const MATCH: bytes := [0x6D, 0x61, 0x74, 0x63, 0x68]
  const BEGIN: bytes := [0x62, 0x65, 0x67, 0x69, 0x6E]
  const ENDING: bytes := [0x65, 0x6E, 0x64]
  const SUMMARY: bytes := [0x73, 0x75, 0x6D, 0x6D, 0x61, 0x72, 0x79]
  const DATA: bytes := [0x64, 0x61, 0x74, 0x61]
  const PATH: bytes := [0x70, 0x61, 0x74, 0x68]
  const TEXT: bytes := [0x74, 0x65, 0x78, 0x74]
  const LINE_NUMBER: bytes := [0x6C, 0x69, 0x6E, 0x65, 0x5F, 0x6E, 0x75, 0x6D, 0x62, 0x65, 0x72]
  const LINES: bytes := [0x6C, 0x69, 0x6E, 0x65, 0x73]
  /** structured_event */
  const STRUCTURED: bytes := [0x73, 0x74, 0x72, 0x75, 0x63, 0x74, 0x75, 0x72, 0x65, 0x64, 0x5F, 0x65, 0x76, 0x65, 0x6E, 0x74]

  /** One record of line-delimited JSON output. */
  function JsonEvent(v: Value): Event {
    var kind := AsText(Get(v, TYPE));
    if kind == Some(MATCH) then
      var data := Get(v, DATA);
      var file := AsText(Then(Then(data, PATH), TEXT));
      var line := AsU64(Then(data, LINE_NUMBER));
      var text := AsText(Then(Then(data, LINES), TEXT));
      if data.None? || file.None? || line.None? || text.None? then Abort
      else Found(Match(file.value, line.value, TrimLineEnds(text.value)))
    else if kind == Some(BEGIN) || kind == Some(ENDING) || kind == Some(SUMMARY) then Skip
    else Note(STRUCTURED)
  }

  /** `file:line:text`. */
  function PlainEvent(line: bytes): Event {
    match Find(line, COLON)
    case None => Note(line)
    case Some(i) =>
      var rest := line[i + 1..];
      match Find(rest, COLON)
      case None => Note(line)
      case Some(j) =>
        match ParseU64(rest[..j])
        case None => Note(line)
        case Some(n) => Found(Match(line[..i], n, rest[j + 1..]))
  }

  /** A record under a file header. */
  function GroupedEvent(line: bytes, file: bytes): Option<Event> {
    match Find(line, TAB)
    case None => None
    case Some(i) =>
      match ParseU64(line[..i])
      case None => None
      case Some(n) => Some(Found(Match(file, n, UnescapeNewlines(line[i + 1..]))))
  }

  /** What the parser does with one line; the header rule comes before every match rule. */
  function LineEvent(line: bytes, grouped: Option<bytes>, lib: Library): Event {
    if line == [] || line == TITLE then Skip
    else if HeaderLike(line) then Header(line[..|line| - 1])
    else if grouped.Some? && GroupedEvent(line, grouped.value).Some? then GroupedEvent(line, grouped.value).value
    else if Accepts(lib, line) then JsonEvent(FromBytes(lib, line).value)
    else PlainEvent(line)
  }

  // ----- All lines -----

  datatype Reading = Reading(grouped: Option<bytes>, matches: seq<Match>, summary: seq<bytes>)

  function ReadEvent(r: Reading, e: Event): Reading {
    match e
    case Header(file) => r.(grouped := Some(file))
    case Found(m) => r.(matches := r.matches + [m])
    case Note(text) => r.(summary := r.summary + [text])
    case _ => r
  }

  function ReadLines(r: Reading, lines: seq<bytes>, lib: Library): Option<Reading>
    decreases |lines|
  {
    if lines == [] then Some(r)
    else
      var e := LineEvent(lines[0], r.grouped, lib);
      if e.Abort? then None else ReadLines(ReadEvent(r, e), lines[1..], lib)
  }

  function ParseSearch(input: bytes, limits: Limits, lib: Library): Option<Model> {
    if Len64(|input|) > limits.maxInput || !Utf8(input) then None
    else
      match ReadLines(Reading(None, [], []), Lines(input), lib)
      case None => None
      case Some(r) => if r.matches == [] then None else Some(Model(SortMatches(r.matches), r.summary))
  }

  /** `SearchResultModel::parse`. */
  method Parse(input: bytes, limits: Limits, lib: Library) returns (r: Option<Model>)
    ensures r == ParseSearch(input, limits, lib)
  {
    hide LineEvent, Utf8, Lines, SortMatches;
    if Len64(|input|) > limits.maxInput || !Utf8(input) {
      return None;
    }
    var lines := Lines(input);
    var grouped: Option<bytes> := None;
    var matches: seq<Match> := [];
    var summary: seq<bytes> := [];
    assert lines[0..] == lines;
    for i := 0 to |lines|
      invariant ReadLines(Reading(grouped, matches, summary), lines[i..], lib)
                == ReadLines(Reading(None, [], []), lines, lib)
    {
      assert lines[i..][1..] == lines[i + 1..];
      match LineEvent(lines[i], grouped, lib) {
        case Skip =>
        case Header(file) => grouped := Some(file);
        case Found(found) => matches := matches + [found];
        case Note(text) => summary := summary + [text];
        case Abort => return None;
      }
    }
    if matches == [] {
      return None;
    }
    return Some(Model(SortMatches(matches), summary));
  }

  // ----- Rendering -----

  /** One entry of the ordered map from files to their matches. */
  datatype Group = Group(file: bytes, items: seq<Match>)

  /** `entry(file).or_default().push(item)` on the ordered map. */
  function AddToGroup(groups: seq<Group>, m: Match): seq<Group> {
    if groups == [] || Less(m.file, groups[0].file) then [Group(m.file, [m])] + groups
    else if groups[0].file == m.file then [Group(m.file, groups[0].items + [m])] + groups[1..]
    else [groups[0]] + AddToGroup(groups[1..], m)
  }

  function GroupAll(groups: seq<Group>, matches: seq<Match>): seq<Group>
    decreases |matches|
  {
    if matches == [] then groups else GroupAll(AddToGroup(groups, matches[0]), matches[1..])
  }

  function RecordLine(m: Match): bytes {
    ToDecimal(m.line) + [TAB] + EscapeNewlines(m.text)
  }

  function RecordLines(items: seq<Match>): seq<bytes> {
    if items == [] then [] else [RecordLine(items[0])] + RecordLines(items[1..])
  }

  function GroupLines(groups: seq<Group>): seq<bytes> {
    if groups == [] then []
    else [groups[0].file + [COLON]] + RecordLines(groups[0].items) + GroupLines(groups[1..])
  }

  /** Every line followed by a newline. */
  function JoinLines(lines: seq<bytes>): bytes {
    if lines == [] then [] else lines[0] + [NEWLINE] + JoinLines(lines[1..])
  }

  function Render(matches: seq<Match>): bytes {
    JoinLines([TITLE] + GroupLines(GroupAll([], matches)))
  }

  lemma {:induction false} JoinAppend(a: seq<bytes>, b: seq<bytes>)
    ensures JoinLines(a + b) == JoinLines(a) + JoinLines(b)
  {
    if a == [] {
      assert a + b == b;
    } else {
      assert (a + b)[1..] == a[1..] + b;
      JoinAppend(a[1..], b);
    }
  }

  /** `SearchResultModel::render_grouped`. */
  method RenderGrouped(model: Model) returns (rendered: bytes)
    ensures rendered == Render(model.matches)
  {
    hide AddToGroup, RecordLine;
    var groups: seq<Group> := [];
    assert model.matches[0..] == model.matches;
    for i := 0 to |model.matches|
      invariant GroupAll(groups, model.matches[i..]) == GroupAll([], model.matches)
    {
      assert model.matches[i..][1..] == model.matches[i + 1..];
      groups := AddToGroup(groups, model.matches[i]);
    }
    rendered := TITLE + [NEWLINE];
    assert groups[0..] == groups;
    for i := 0 to |groups|
      invariant rendered + JoinLines(GroupLines(groups[i..])) == TITLE + [NEWLINE] + JoinLines(GroupLines(groups))
    {
      RenderStep(rendered, groups, i);
      rendered := rendered + groups[i].file + [COLON, NEWLINE];
      rendered := RenderItems(rendered, groups[i].items);
    }
    RenderWhole(groups);
  }

  lemma RenderStep(rendered: bytes, groups: seq<Group>, i: nat)
    requires i < |groups|
    ensures rendered + JoinLines(GroupLines(groups[i..]))
            == rendered + groups[i].file + [COLON, NEWLINE] + JoinLines(RecordLines(groups[i].items))
               + JoinLines(GroupLines(groups[i + 1..]))
  {
    hide RecordLine, RecordLines;
    assert groups[i..][1..] == groups[i + 1..];
    var head := groups[i].file + [COLON];
    var items, tail := RecordLines(groups[i].items), GroupLines(groups[i + 1..]);
    assert GroupLines(groups[i..]) == [head] + (items + tail);
    JoinAppend(items, tail);
    assert ([head] + (items + tail))[1..] == items + tail;
  }

  lemma RenderWhole(groups: seq<Group>)
    ensures JoinLines([TITLE] + GroupLines(groups)) == TITLE + [NEWLINE] + JoinLines(GroupLines(groups))
  {
    assert ([TITLE] + GroupLines(groups))[1..] == GroupLines(groups);
  }

  method RenderItems(rendered: bytes, items: seq<Match>) returns (r: bytes)
    ensures r == rendered + JoinLines(RecordLines(items))
  {
    r := rendered;
    assert items[0..] == items;
    for i := 0 to |items|
      invariant r + JoinLines(RecordLines(items[i..])) == rendered + JoinLines(RecordLines(items))
    {
      ItemStep(r, items, i);
      r := r + ToDecimal(items[i].line) + [TAB] + EscapeNewlines(items[i].text) + [NEWLINE];
    }
  }

  lemma ItemStep(r: bytes, items: seq<Match>, i: nat)
    requires i < |items|
    ensures r + JoinLines(RecordLines(items[i..]))
            == r + ToDecimal(items[i].line) + [TAB] + EscapeNewlines(items[i].text) + [NEWLINE]
               + JoinLines(RecordLines(items[i + 1..]))
  {
    hide ToDecimal, EscapeNewlines;
    assert items[i..][1..] == items[i + 1..];
    var tail := RecordLines(items[i + 1..]);
    assert ([RecordLine(items[i])] + tail)[1..] == tail;
  }
}
