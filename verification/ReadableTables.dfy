/** The three readable tables: rendering, its gates, and reading the text back. */
module ReadableTables {
  import opened Base
  import opened JsonString
  import opened JsonGrammar
  import opened Values
  import opened Validator
  import opened Minify
  import opened Search
  import opened SearchLaws
  import opened Rows
  import opened Tables

  datatype Style = HumanTable | CompactRecords | KeyElision

  /** Tracepress table v1 */
  const TABLE_BANNER: bytes := [0x54, 0x72, 0x61, 0x63, 0x65, 0x70, 0x72, 0x65, 0x73, 0x73, 0x20, 0x74, 0x61, 0x62, 0x6C, 0x65, 0x20, 0x76, 0x31]
  /** Tracepress records v1 */
  const RECORDS_BANNER: bytes := [0x54, 0x72, 0x61, 0x63, 0x65, 0x70, 0x72, 0x65, 0x73, 0x73, 0x20, 0x72, 0x65, 0x63, 0x6F, 0x72, 0x64, 0x73, 0x20, 0x76, 0x31]
  /** Tracepress key-elision v1 */
  const ELISION_BANNER: bytes := [0x54, 0x72, 0x61, 0x63, 0x65, 0x70, 0x72, 0x65, 0x73, 0x73, 0x20, 0x6B, 0x65, 0x79, 0x2D, 0x65, 0x6C, 0x69, 0x73, 0x69, 0x6F, 0x6E, 0x20, 0x76, 0x31]
  /** fields and a tab */
  const FIELDS_TAB: bytes := [0x66, 0x69, 0x65, 0x6C, 0x64, 0x73, 0x09]
  /** fields:  */
  const FIELDS_COLON: bytes := [0x66, 0x69, 0x65, 0x6C, 0x64, 0x73, 0x3A, 0x20]
  /** fields( */
  const FIELDS_PAREN: bytes := [0x66, 0x69, 0x65, 0x6C, 0x64, 0x73, 0x28]
  /** ):  */
  const CLOSE_COLON: bytes := [0x29, 0x3A, 0x20]
  /** row and a tab */
  const ROW_TAB: bytes := [0x72, 0x6F, 0x77, 0x09]

  function Banner(style: Style): bytes {
    match style
    case HumanTable => TABLE_BANNER
    case CompactRecords => RECORDS_BANNER
    case KeyElision => ELISION_BANNER
  }

  function ArrayText(values: seq<Value>): bytes {
    ToBytes(Box(Arr, ToKids(values)))
  }

  /** Compact values separated by commas, without brackets. */
  function CommaJoin(values: seq<Value>): bytes {
    if values == [] then []
    else ToBytes(values[0]) + (if |values| == 1 then [] else [COMMA] + CommaJoin(values[1..]))
  }

  function HeaderText(style: Style, columns: seq<bytes>): bytes {
    match style
    case HumanTable => FIELDS_TAB + ArrayText(Texts(columns))
    case CompactRecords => FIELDS_COLON + ArrayText(Texts(columns))
    case KeyElision => FIELDS_PAREN + CommaJoin(Texts(columns)) + CLOSE_COLON
  }

  function RowText(style: Style, cells: seq<Value>): bytes {
    match style
    case HumanTable => ROW_TAB + ArrayText(cells)
    case CompactRecords => ArrayText(cells)
    case KeyElision => [0x28] + CommaJoin(cells) + [0x29]
  }

  function RowTexts(style: Style, cells: seq<seq<Value>>): (r: seq<bytes>)
    ensures |r| == |cells| && forall i :: 0 <= i < |cells| ==> r[i] == RowText(style, cells[i])
  {
    seq(|cells|, i requires 0 <= i < |cells| => RowText(style, cells[i]))
  }

  function TableText(style: Style, t: Table): bytes {
    JoinLines([Banner(style), HeaderText(style, t.columns)] + RowTexts(style, t.cells))
  }

  // ----- Rendering -----

  method WriteCells(output: bytes, values: seq<Value>) returns (r: bytes)
    ensures r == output + CommaJoin(values)
  {
    hide ToBytes;
    r := output;
    assert values[0..] == values;
    for i := 0 to |values|
      invariant r + (if 0 < i < |values| then [COMMA] else []) + CommaJoin(values[i..]) == output + CommaJoin(values)
    {
      assert values[i..][1..] == values[i + 1..];
      if i > 0 {
        r := r + [COMMA];
      }
      r := r + ToBytes(values[i]);
    }
  }

  method WriteRow(output: bytes, style: Style, cells: seq<Value>) returns (r: bytes)
    ensures r == output + RowText(style, cells) + [NEWLINE]
  {
    hide ToBytes, CommaJoin;
    match style {
      case HumanTable => r := output + ROW_TAB + ArrayText(cells);
      case CompactRecords => r := output + ArrayText(cells);
      case KeyElision =>
        r := WriteCells(output + [0x28], cells);
        r := r + [0x29];
    }
    r := r + [NEWLINE];
  }

  lemma TextStep(output: bytes, lines: seq<bytes>, i: nat)
    requires i < |lines|
    ensures output + JoinLines(lines[i..]) == output + lines[i] + [NEWLINE] + JoinLines(lines[i + 1..])
  {
    assert lines[i..][1..] == lines[i + 1..];
  }

  method WriteHeader(output: bytes, style: Style, columns: seq<bytes>) returns (r: bytes)
    ensures r == output + HeaderText(style, columns) + [NEWLINE]
  {
    hide ToBytes, CommaJoin, Texts;
    match style {
      case HumanTable => r := output + FIELDS_TAB + ArrayText(Texts(columns));
      case CompactRecords => r := output + FIELDS_COLON + ArrayText(Texts(columns));
      case KeyElision =>
        r := WriteCells(output + FIELDS_PAREN, Texts(columns));
        r := r + CLOSE_COLON;
    }
    r := r + [NEWLINE];
  }

  /** `render_readable_table`. */
  method RenderReadableTable(t: Table, style: Style, limits: Limits) returns (r: Result<bytes, TransformError>)
    ensures r == if Len64(|TableText(style, t)|) > limits.maxOutput then Err(ResourceLimit) else Ok(TableText(style, t))
  {
    hide HeaderText, JoinLines, RowText, Banner;
    ghost var rows := RowTexts(style, t.cells);
    var output := WriteHeader(Banner(style) + [NEWLINE], style, t.columns);
    TwoLines(Banner(style), HeaderText(style, t.columns), rows);
    assert rows[0..] == rows;
    for i := 0 to |t.cells|
      invariant output + JoinLines(rows[i..]) == TableText(style, t)
    {
      TextStep(output, rows, i);
      output := WriteRow(output, style, t.cells[i]);
    }
    NoLines();
    assert rows[|t.cells|..] == [] && output + [] == output;
    if Len64(|output|) > limits.maxOutput {
      return Err(ResourceLimit);
    }
    return Ok(output);
  }

  lemma TwoLines(a: bytes, b: bytes, rest: seq<bytes>)
    ensures JoinLines([a, b] + rest) == a + [NEWLINE] + b + [NEWLINE] + JoinLines(rest)
  {
    assert ([a, b] + rest)[1..] == [b] + rest && ([b] + rest)[1..] == rest;
  }

  lemma NoLines()
    ensures JoinLines([]) == []
  {
  }

  // ----- Compact text is one line -----

  predicate Visible(s: bytes) {
    forall i :: 0 <= i < |s| ==> s[i] >= 0x20
  }

  lemma {:induction false} EscapeVisible(text: bytes)
    ensures Visible(Escape(text))
  {
    if text != [] {
      EscapeVisible(text[1..]);
    }
  }

  lemma {:induction false} CompactVisible(v: Value)
    requires WellFormedValue(v)
    ensures Visible(Print(Compact(v)))
    decreases v, 1
  {
    hide IsScalar;
    match v
    case Leaf(token) => ScalarBytes(token);
    case Text(text) => EscapeVisible(text);
    case Box(shape, kids) => CompactKidsVisible(shape, kids);
  }

  lemma {:induction false} CompactKidsVisible(shape: Shape, kids: Kids)
    requires WellFormedKids(shape, kids)
    ensures kids.Kid? ==> Visible(PrintElems(CompactKids(shape, kids)))
    decreases kids, 0
  {
    hide Escape;
    if kids.Kid? {
      EscapeVisible(kids.key);
      CompactVisible(kids.value);
      CompactKidsVisible(shape, kids.rest);
    }
  }

  lemma {:induction false} PrintJoins(values: seq<Value>)
    requires values != []
    ensures PrintElems(CompactKids(Arr, ToKids(values))) == CommaJoin(values)
  {
    hide Print, Compact;
    if |values| == 1 {
      assert values[1..] == [];
    } else {
      PrintJoins(values[1..]);
    }
    var v, rest := Compact(values[0]), CompactKids(Arr, ToKids(values[1..]));
    assert CompactKids(Arr, ToKids(values)) == Elem([], NoKey, v, [], rest);
    assert rest.Elem? <==> |values| > 1;
    assert [] + PrintLabel(NoKey) + Print(v) + [] == Print(v);
  }

  /** The array text is the comma-joined values in brackets. */
  lemma ArrayTextJoins(values: seq<Value>)
    ensures ArrayText(values) == [0x5B] + CommaJoin(values) + [0x5D]
  {
    if values != [] {
      PrintJoins(values);
    }
  }

  lemma ArrayTextVisible(values: seq<Value>)
    requires forall i :: 0 <= i < |values| ==> WellFormedValue(values[i])
    ensures Visible(ArrayText(values)) && Visible(CommaJoin(values))
  {
    hide WellFormedValue, Compact, Print;
    FromToKids(values);
    ArrayWellFormed(values);
    CompactVisible(Box(Arr, ToKids(values)));
    ArrayTextJoins(values);
    var text, inner := ArrayText(values), CommaJoin(values);
    assert forall i :: 0 <= i < |inner| ==> inner[i] == text[i + 1];
  }

  lemma ArrayWellFormed(values: seq<Value>)
    requires forall i :: 0 <= i < |values| ==> WellFormedValue(values[i])
    ensures WellFormedValue(Box(Arr, ToKids(values)))
  {
    FromToKids(values);
  }

  // ----- Reading the text back -----

  /** The array a line holds between `skip` leading and `drop` trailing bytes, its brackets supplied when elided. */
  function LineArray(lib: Library, line: bytes, skip: nat, drop: nat, elided: bool): seq<Value> {
    if skip + drop > |line| then []
    else
      var inner := line[skip..|line| - drop];
      match FromBytes(lib, if elided then [0x5B] + inner + [0x5D] else inner)
      case None => []
      case Some(v) => if v.Box? then FromKids(v.kids) else []
  }

  function HeaderArray(lib: Library, style: Style, line: bytes): seq<Value> {
    match style
    case HumanTable => LineArray(lib, line, |FIELDS_TAB|, 0, false)
    case CompactRecords => LineArray(lib, line, |FIELDS_COLON|, 0, false)
    case KeyElision => LineArray(lib, line, |FIELDS_PAREN|, |CLOSE_COLON|, true)
  }

  function RowArray(lib: Library, style: Style, line: bytes): seq<Value> {
    match style
    case HumanTable => LineArray(lib, line, |ROW_TAB|, 0, false)
    case CompactRecords => LineArray(lib, line, 0, 0, false)
    case KeyElision => LineArray(lib, line, 1, 1, true)
  }

  function RowArrays(lib: Library, style: Style, lines: seq<bytes>): seq<seq<Value>> {
    if lines == [] then [] else [RowArray(lib, style, lines[0])] + RowArrays(lib, style, lines[1..])
  }

  /** What a reader of the table does: header names over every following line. */
  function ReadTable(lib: Library, style: Style, text: bytes): Option<seq<Row>> {
    var lines := Lines(text);
    if |lines| < 2 || lines[0] != Banner(style) then None
    else Some(ZipAll(AsTexts(HeaderArray(lib, style, lines[1])), RowArrays(lib, style, lines[2..])))
  }

  lemma LineArrayBack(lib: Library, head: bytes, values: seq<Value>, tail: bytes, elided: bool)
    requires forall i :: 0 <= i < |values| ==> WellFormedValue(values[i])
    ensures var body := if elided then CommaJoin(values) else ArrayText(values);
            LineArray(lib, head + body + tail, |head|, |tail|, elided) == RereadAll(lib, values)
  {
    hide WellFormedValue, ToBytes, FromBytes, CommaJoin, RereadAll;
    ArrayWellFormed(values);
    ArrayTextJoins(values);
    ToKidsReread(lib, values);
    FromToKids(RereadAll(lib, values));
    FromToBytes(lib, Box(Arr, ToKids(values)));
    var body := if elided then CommaJoin(values) else ArrayText(values);
    var line := head + body + tail;
    assert line[|head|..|line| - |tail|] == body;
  }

  /** A line that splitting and joining leave alone. */
  predicate Unbroken(line: bytes) {
    forall i :: 0 <= i < |line| ==> line[i] != NEWLINE && line[i] != CR
  }

  lemma UnbrokenAppend(a: bytes, b: bytes)
    requires Unbroken(a) && Unbroken(b)
    ensures Unbroken(a + b)
  {
  }

  lemma VisibleUnbroken(s: bytes)
    requires Visible(s)
    ensures Unbroken(s)
  {
  }

  lemma MarksUnbroken()
    ensures Unbroken(FIELDS_TAB) && Unbroken(FIELDS_COLON) && Unbroken(FIELDS_PAREN) && Unbroken(CLOSE_COLON)
    ensures Unbroken(ROW_TAB) && Unbroken([0x28]) && Unbroken([0x29])
  {
  }

  lemma BannerUnbroken(style: Style)
    ensures Unbroken(Banner(style))
  {
  }

  lemma RowBack(lib: Library, style: Style, cells: seq<Value>)
    requires forall i :: 0 <= i < |cells| ==> WellFormedValue(cells[i])
    ensures RowArray(lib, style, RowText(style, cells)) == RereadAll(lib, cells)
    ensures Unbroken(RowText(style, cells))
  {
    hide WellFormedValue, LineArray, CommaJoin, ArrayText, Visible, Unbroken, RereadAll;
    ArrayTextVisible(cells);
    VisibleUnbroken(ArrayText(cells));
    VisibleUnbroken(CommaJoin(cells));
    MarksUnbroken();
    match style {
      case HumanTable =>
        LineArrayBack(lib, ROW_TAB, cells, [], false);
        assert ROW_TAB + ArrayText(cells) + [] == ROW_TAB + ArrayText(cells);
        UnbrokenAppend(ROW_TAB, ArrayText(cells));
      case CompactRecords =>
        LineArrayBack(lib, [], cells, [], false);
        assert [] + ArrayText(cells) + [] == ArrayText(cells);
      case KeyElision =>
        LineArrayBack(lib, [0x28], cells, [0x29], true);
        UnbrokenAppend([0x28], CommaJoin(cells));
        UnbrokenAppend([0x28] + CommaJoin(cells), [0x29]);
    }
  }

  lemma HeaderBack(lib: Library, style: Style, columns: seq<bytes>)
    requires forall c :: c in columns ==> Utf8(c)
    ensures AsTexts(HeaderArray(lib, style, HeaderText(style, columns))) == columns
    ensures Unbroken(HeaderText(style, columns))
  {
    hide WellFormedValue, LineArray, CommaJoin, ArrayText, Visible, Unbroken, Utf8, Texts, AsTexts, RereadAll;
    var texts := Texts(columns);
    TextsReread(lib, columns);
    AsTextsTexts(columns);
    TextsWellFormed(columns);
    ArrayTextVisible(texts);
    VisibleUnbroken(ArrayText(texts));
    VisibleUnbroken(CommaJoin(texts));
    MarksUnbroken();
    match style {
      case HumanTable =>
        LineArrayBack(lib, FIELDS_TAB, texts, [], false);
        assert FIELDS_TAB + ArrayText(texts) + [] == FIELDS_TAB + ArrayText(texts);
        UnbrokenAppend(FIELDS_TAB, ArrayText(texts));
      case CompactRecords =>
        LineArrayBack(lib, FIELDS_COLON, texts, [], false);
        assert FIELDS_COLON + ArrayText(texts) + [] == FIELDS_COLON + ArrayText(texts);
        UnbrokenAppend(FIELDS_COLON, ArrayText(texts));
      case KeyElision =>
        LineArrayBack(lib, FIELDS_PAREN, texts, CLOSE_COLON, true);
        UnbrokenAppend(FIELDS_PAREN, CommaJoin(texts));
        UnbrokenAppend(FIELDS_PAREN + CommaJoin(texts), CLOSE_COLON);
    }
  }

  lemma {:induction false} RowsBack(lib: Library, style: Style, columns: seq<bytes>, cells: seq<seq<Value>>)
    requires forall i :: 0 <= i < |cells| ==> forall v :: v in cells[i] ==> WellFormedValue(v)
    ensures RowArrays(lib, style, RowTexts(style, cells)) == RereadTable(lib, Table(columns, cells)).cells
    ensures forall i :: 0 <= i < |cells| ==> Unbroken(RowTexts(style, cells)[i])
  {
    hide WellFormedValue, RowArray, RowText, Unbroken, RereadAll;
    if cells != [] {
      RowBack(lib, style, cells[0]);
      RowsBack(lib, style, columns, cells[1..]);
      assert RowTexts(style, cells)[1..] == RowTexts(style, cells[1..]);
      assert RereadTable(lib, Table(columns, cells)).cells
          == [RereadAll(lib, cells[0])] + RereadTable(lib, Table(columns, cells[1..])).cells;
    }
  }

  lemma UnbrokenLines(lines: seq<bytes>)
    requires forall i :: 0 <= i < |lines| ==> Unbroken(lines[i])
    ensures Lines(JoinLines(lines)) == lines
  {
    hide Lines, JoinLines, Find;
    forall i | 0 <= i < |lines| ensures OneLine(lines[i]) && DropCr(lines[i]) == lines[i] {
      assert Unbroken(lines[i]);
    }
    LinesJoin(lines);
    assert DropCrs(lines) == lines;
  }

  /** Reading a rendered table gives the columns over the cells as their text is read, row by row, in every style. */
  lemma ReadTableBack(lib: Library, style: Style, t: Table)
    requires TextTable(t)
    ensures ReadTable(lib, style, TableText(style, t)) == Some(ZipAll(t.columns, RereadTable(lib, t).cells))
  {
    hide Lines, JoinLines, HeaderArray, RowArrays, HeaderText, RowTexts, Banner, Unbroken, WellFormedValue, Utf8, ZipAll,
         RereadTable;
    var rows := RowTexts(style, t.cells);
    var lines := [Banner(style), HeaderText(style, t.columns)] + rows;
    BannerUnbroken(style);
    HeaderBack(lib, style, t.columns);
    RowsBack(lib, style, t.columns, t.cells);
    UnbrokenLines(lines);
    assert lines[2..] == rows;
  }

  // ----- Depth and work -----

  function Max(a: nat, b: nat): nat {
    if a > b then a else b
  }

  /** `json_value_depth`: the deepest level under `v` and the work so far; `None` is the resource limit. */
  function Depth(v: Value, depth: nat, maxWork: u64, work: u64): Option<(nat, u64)>
    decreases v, 1
  {
    var w := SatAdd(work, 1);
    if w > maxWork then None
    else if v.Box? then DepthIn(v.kids, depth, depth, maxWork, w)
    else Some((depth, w))
  }

  function DepthIn(kids: Kids, maximum: nat, depth: nat, maxWork: u64, work: u64): Option<(nat, u64)>
    decreases kids, 0
  {
    if kids.NoKids? then Some((maximum, work))
    else
      match Depth(kids.value, depth + 1, maxWork, work)
      case None => None
      case Some((child, w)) => DepthIn(kids.rest, Max(maximum, child), depth, maxWork, w)
  }

  function Height(v: Value): nat
    decreases v, 1
  {
    if v.Box? then HeightIn(v.kids) else 0
  }

  function HeightIn(kids: Kids): nat
    decreases kids, 0
  {
    if kids.NoKids? then 0 else Max(1 + Height(kids.value), HeightIn(kids.rest))
  }

  /** The measured depth is the height, and the budget is the number of nodes. */
  lemma {:induction false} DepthExact(v: Value, depth: nat, maxWork: u64, work: u64)
    requires work <= maxWork < U64_MAX
    ensures Depth(v, depth, maxWork, work)
            == if work + Nodes(v) <= maxWork then Some((depth + Height(v), work + Nodes(v))) else None
    decreases v, 1
  {
    if v.Box? && work < maxWork {
      DepthInExact(v.kids, depth, depth, maxWork, work + 1);
    }
  }

  lemma {:induction false} DepthInExact(kids: Kids, maximum: nat, depth: nat, maxWork: u64, work: u64)
    requires work <= maxWork < U64_MAX && maximum >= depth
    ensures DepthIn(kids, maximum, depth, maxWork, work)
            == if work + NodesIn(kids) <= maxWork
               then Some((Max(maximum, depth + HeightIn(kids)), work + NodesIn(kids)))
               else None
    decreases kids, 0
  {
    hide Depth, Height, Nodes;
    if kids.Kid? {
      DepthExact(kids.value, depth + 1, maxWork, work);
      if work + Nodes(kids.value) <= maxWork {
        DepthInExact(kids.rest, Max(maximum, depth + 1 + Height(kids.value)), depth, maxWork,
                     work + Nodes(kids.value));
      }
    }
  }

  function NodesOf(cells: seq<Value>): nat {
    if cells == [] then 0 else Nodes(cells[0]) + NodesOf(cells[1..])
  }

  function NodesOfAll(cells: seq<seq<Value>>): nat {
    if cells == [] then 0 else NodesOf(cells[0]) + NodesOfAll(cells[1..])
  }

  predicate Shallow(cells: seq<Value>) {
    forall i :: 0 <= i < |cells| ==> Height(cells[i]) <= 8
  }

  predicate AllShallow(cells: seq<seq<Value>>) {
    forall i :: 0 <= i < |cells| ==> Shallow(cells[i])
  }

  /** The work runs out at one of the cells, before any that is too deep. */
  predicate CellsExhaust(cells: seq<Value>, maxWork: u64, work: nat) {
    && cells != []
    && (work + Nodes(cells[0]) > maxWork
        || (Height(cells[0]) <= 8 && CellsExhaust(cells[1..], maxWork, work + Nodes(cells[0]))))
  }

  /** The checks on the cells of one row. */
  method CheckCells(cells: seq<Value>, maxWork: u64, work: u64) returns (r: Result<u64, TransformError>)
    requires work <= maxWork < U64_MAX
    ensures r.Ok? <==> Shallow(cells) && work + NodesOf(cells) <= maxWork
    ensures r.Ok? ==> r.value == work + NodesOf(cells)
    ensures r == Err(ResourceLimit) <==> CellsExhaust(cells, maxWork, work)
    ensures r == Err(NotApplicable) ==> !Shallow(cells)
    ensures r.Err? ==> r.error.NotApplicable? || r.error.ResourceLimit?
  {
    hide Depth, Height, Nodes;
    var w: u64 := work;
    assert cells[0..] == cells;
    for i := 0 to |cells|
      invariant CellsExhaust(cells, maxWork, work) <==> CellsExhaust(cells[i..], maxWork, w)
      invariant Shallow(cells[..i]) && w <= maxWork && w + NodesOf(cells[i..]) == work + NodesOf(cells)
    {
      assert cells[i..][1..] == cells[i + 1..];
      DepthExact(cells[i], 0, maxWork, w);
      var depth := Depth(cells[i], 0, maxWork, w);
      if depth.None? {
        return Err(ResourceLimit);
      }
      if depth.value.0 > 8 {
        return Err(NotApplicable);
      }
      assert cells[..i + 1] == cells[..i] + [cells[i]];
      w := depth.value.1;
    }
    assert cells[..|cells|] == cells;
    return Ok(w);
  }

  // ----- The projection -----

  const MAX_ROWS: nat := 100_000
  const MAX_COLUMNS: nat := 64

  /** The rows the readable tables accept. */
  predicate Readable(rows: seq<Value>, t: Table, limits: Limits) {
    && |rows| <= MAX_ROWS && |t.columns| <= MAX_COLUMNS
    && AllShallow(t.cells) && NodesOfAll(t.cells) <= limits.maxWork
  }

  /** The work runs out in one of the rows, before any row with other keys and any cell that is too deep. */
  ghost predicate RowsExhaust(rows: seq<Value>, columns: seq<bytes>, maxWork: u64, work: nat) {
    && rows != [] && ObjectOf(rows[0]).Some? && Covers(columns, ObjectOf(rows[0]).value)
    && var cells := Cells(columns, ObjectOf(rows[0]).value);
    && (CellsExhaust(cells, maxWork, work)
        || (Shallow(cells) && RowsExhaust(rows[1..], columns, maxWork, work + NodesOf(cells))))
  }

  lemma ExhaustStep(rows: seq<Value>, i: nat, columns: seq<bytes>, maxWork: u64, work: nat)
    requires i < |rows|
    ensures var found := ObjectOf(rows[i]);
            if found.None? || !Covers(columns, found.value) then !RowsExhaust(rows[i..], columns, maxWork, work)
            else
              var cells := Cells(columns, found.value);
              RowsExhaust(rows[i..], columns, maxWork, work)
              <==> CellsExhaust(cells, maxWork, work)
                   || (Shallow(cells) && RowsExhaust(rows[i + 1..], columns, maxWork, work + NodesOf(cells)))
  {
    hide ObjectOf, Cells, Shallow, NodesOf, CellsExhaust;
    assert rows[i..][0] == rows[i] && rows[i..][1..] == rows[i + 1..];
  }

  lemma NoRowsLeft(rows: seq<Value>, columns: seq<bytes>, maxWork: u64, work: nat)
    ensures !RowsExhaust(rows[|rows|..], columns, maxWork, work)
  {
  }

  ghost predicate Exhausts(rows: seq<Value>, maxWork: u64) {
    && HasColumns(rows) && rows[0].Box? && |KeyOrder(rows[0].kids)| <= MAX_COLUMNS
    && RowsExhaust(rows, KeyOrder(rows[0].kids), maxWork, 0)
  }

  /** The rows in order: keys first, then depth and work of the cells. */
  method ReadableRows(rows: seq<Value>, maxWork: u64) returns (r: Result<Table, TransformError>)
    requires maxWork < U64_MAX && WellFormedRows(rows)
    ensures r.Ok? <==>
            && Uniform(rows)
            && var t := TableOf(rows);
            |t.columns| <= MAX_COLUMNS && AllShallow(t.cells) && NodesOfAll(t.cells) <= maxWork
    ensures r.Ok? ==> r.value == TableOf(rows)
    ensures r == Err(ResourceLimit) <==> Exhausts(rows, maxWork)
    ensures r.Err? ==> r.error.NotApplicable? || r.error.ResourceLimit?
  {
    hide ObjectOf, KeyOrder, FieldsOf, Cells, Increasing, Shallow, NodesOf, Tabulates, CellsExhaust, WellFormedValue,
         RowsExhaust;
    if !HasColumns(rows) {
      return Err(NotApplicable);
    }
    FirstRow(rows);
    FirstKids(rows);
    var kids := rows[0].kids;
    var columns := KeyOrder(kids);
    KeyOrderExact(kids);
    if |columns| > MAX_COLUMNS {
      return Err(NotApplicable);
    }
    var cells: seq<seq<Value>> := [];
    var work: u64 := 0;
    assert rows[0..] == rows;
    for i := 0 to |rows|
      invariant RowsExhaust(rows, columns, maxWork, 0) <==> RowsExhaust(rows[i..], columns, maxWork, work)
      invariant |cells| == i && AllShallow(cells) && NodesOfAll(cells) == work <= maxWork
      invariant forall j :: 0 <= j < i ==> ObjectOf(rows[j]).Some? && Covers(columns, ObjectOf(rows[j]).value)
      invariant forall j :: 0 <= j < i ==> cells[j] == Cells(columns, ObjectOf(rows[j]).value)
    {
      ExhaustStep(rows, i, columns, maxWork, work);
      var row := ProjectRow(rows[i], columns);
      if ObjectOf(rows[i]).Some? {
        CoversKeys(columns, FieldsOf(kids), ObjectOf(rows[i]).value);
      }
      if row.None? {
        return Err(NotApplicable);
      }
      var checked := CheckCells(row.value, maxWork, work);
      if checked.Err? {
        if Uniform(rows) {
          NodesOfPrefix(TableOf(rows).cells, i);
          assert TableOf(rows).cells[..i] == cells;
          assert TableOf(rows).cells[i] == row.value;
        }
        return Err(checked.error);
      }
      NodesOfLast(cells, row.value);
      cells := cells + [row.value];
      work := checked.value;
      if work > maxWork {
        return Err(ResourceLimit);
      }
    }
    NoRowsLeft(rows, columns, maxWork, work);
    forall i | 0 <= i < |rows|
      ensures ObjectOf(rows[i]).value.Keys == FieldsOf(kids).Keys
    {
      CoversKeys(columns, FieldsOf(kids), ObjectOf(rows[i]).value);
    }
    assert TableOf(rows).cells == cells;
    return Ok(Table(columns, cells));
  }

  lemma {:induction false} NodesOfLast(cells: seq<seq<Value>>, row: seq<Value>)
    ensures NodesOfAll(cells + [row]) == NodesOfAll(cells) + NodesOf(row)
  {
    hide NodesOf;
    if cells == [] {
      assert (cells + [row])[1..] == [];
    } else {
      assert (cells + [row])[1..] == cells[1..] + [row];
      NodesOfLast(cells[1..], row);
    }
  }

  lemma {:induction false} NodesOfPrefix(cells: seq<seq<Value>>, i: nat)
    requires i < |cells|
    ensures NodesOfAll(cells[..i]) + NodesOf(cells[i]) <= NodesOfAll(cells)
  {
    hide NodesOf;
    if i > 0 {
      NodesOfPrefix(cells[1..], i - 1);
      assert cells[..i][1..] == cells[1..][..i - 1];
    }
  }

  /**
    `readable_table_transform`: it succeeds exactly on valid arrays of uniform, shallow rows within its row, column, work
    and size bounds, and the text alone reads back as the objects of the input, exactly when the numbers of the input
    are read back from their text.
   */
  method ReadableJson(input: bytes, style: Style, limits: Limits, lib: Library)
    returns (r: Result<Transform, TransformError>)
    requires |input| <= U64_MAX && limits.maxWork < U64_MAX
    ensures Verdict(input, limits, lib).Err? ==> r == Err(Verdict(input, limits, lib).error)
    ensures Verdict(input, limits, lib).Ok? ==> r != Err(InvalidInput) && r != Err(Internal)
    ensures r.Ok? <==>
            && Verdict(input, limits, lib).Ok? && RowsOf(lib, input).Some? && Uniform(RowsOf(lib, input).value)
            && var t := TableOf(RowsOf(lib, input).value);
            && Readable(RowsOf(lib, input).value, t, limits)
            && CopyFits(TableText(style, t), input, limits)
    ensures Verdict(input, limits, lib).Ok? ==>
              (r == Err(ResourceLimit) <==>
               && RowsOf(lib, input).Some?
               && var rows := RowsOf(lib, input).value;
               (|rows| > MAX_ROWS || Exhausts(rows, limits.maxWork)
                || (Uniform(rows) && Readable(rows, TableOf(rows), limits)
                    && !CopyFits(TableText(style, TableOf(rows)), input, limits))))
    ensures r.Ok? ==>
              && var rows := RowsOf(lib, input).value;
              && r.value == Transform(TableText(style, TableOf(rows)), input)
              && Objects(rows).Some?
              && ReadTable(lib, style, r.value.candidate) == Objects(RereadAll(lib, rows))
              && (ReadTable(lib, style, r.value.candidate) == Objects(rows)
                  <==> Stable(lib, FromBytes(lib, input).value))
  {
    hide FromBytes, Verdict, Uniform, ReadTable, Objects, ZipAll, TableOf, TableText, AllShallow, NodesOfAll, Tabulates,
         RowsOf, Stable, RereadAll, RereadTable, TextTable, Exhausts;
    var valid, _ := ValidateJson(input, limits, lib);
    if valid.Err? {
      return Err(valid.error);
    }
    var rows := RowsOf(lib, input);
    if rows.None? {
      return Err(NotApplicable);
    }
    if |rows.value| > MAX_ROWS {
      return Err(ResourceLimit);
    }
    var table := ReadableRows(rows.value, limits.maxWork);
    if table.Err? {
      return Err(table.error);
    }
    var candidate := RenderReadableTable(table.value, style, limits);
    if candidate.Err? {
      return Err(candidate.error);
    }
    TableReads(lib, input);
    ReadTableBack(lib, style, table.value);
    return WithCopy(candidate.value, input, limits);
  }
}
