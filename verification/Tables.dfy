/** Row projections: the tabular tuple and the three readable tables, and reading each of them back. */
module Tables {
  import opened Base
  import opened JsonString
  import opened JsonGrammar
  import opened Values
  import opened Validator
  import opened Minify
  import opened Rows

  // ----- Uniform rows -----

  /** At least two objects, the first with fields, all with the same keys. */
  predicate Uniform(rows: seq<Value>) {
    HasColumns(rows) && SameKeys(rows, ObjectOf(rows[0]).value.Keys)
  }

  predicate SameKeys(rows: seq<Value>, keys: set<bytes>) {
    forall i :: 0 <= i < |rows| ==> ObjectOf(rows[i]).Some? && ObjectOf(rows[i]).value.Keys == keys
  }

  datatype Table = Table(columns: seq<bytes>, cells: seq<seq<Value>>)

  /** The table of the objects: every row read under the columns is the object it came from. */
  ghost predicate Tabulates(t: Table, rows: seq<Value>) {
    && |t.cells| == |rows| && Increasing(t.columns)
    && forall i :: 0 <= i < |rows| ==>
      |t.cells[i]| == |t.columns| && Some(Zip(t.columns, t.cells[i])) == ObjectOf(rows[i])
      && Covers(t.columns, ObjectOf(rows[i]).value) && t.cells[i] == Cells(t.columns, ObjectOf(rows[i]).value)
  }

  /** One row: refused unless it is an object with exactly the expected keys. */
  method ProjectRow(row: Value, columns: seq<bytes>) returns (r: Option<seq<Value>>)
    ensures r.Some? <==> ObjectOf(row).Some? && Covers(columns, ObjectOf(row).value)
    ensures r.Some? ==> r.value == Cells(columns, ObjectOf(row).value)
  {
    var found := ObjectOf(row);
    if found.None? {
      return None;
    }
    var fields := found.value;
    var expected := set c | c in columns;
    if fields.Keys != expected {
      assert Covers(columns, fields) ==> fields.Keys == expected;
      return None;
    }
    var cells: seq<Value> := [];
    assert columns[0..] == columns;
    for i := 0 to |columns|
      invariant cells + Cells(columns[i..], fields) == Cells(columns, fields)
    {
      assert columns[i..][1..] == columns[i + 1..];
      cells := cells + [fields[columns[i]]];
    }
    return Some(cells);
  }

  lemma CoversKeys(columns: seq<bytes>, row: Row, other: Row)
    requires Covers(columns, row)
    ensures Covers(columns, other) <==> other.Keys == row.Keys
  {
    if Covers(columns, other) {
      assert other.Keys == row.Keys;
    }
  }

  predicate HasColumns(rows: seq<Value>) {
    |rows| >= 2 && ObjectOf(rows[0]).Some? && ObjectOf(rows[0]).value != map[]
  }

  /** The rows under the keys of the first, in key order; refused when they are not uniform. */
  method JsonTable(rows: seq<Value>) returns (r: Option<Table>)
    requires WellFormedRows(rows)
    ensures r.Some? <==> Uniform(rows)
    ensures r.Some? ==> r.value == TableOf(rows)
  {
    hide ObjectOf, KeyOrder, FieldsOf, Zip, Cells, Increasing, WellFormedValue;
    if !HasColumns(rows) {
      return None;
    }
    FirstRow(rows);
    FirstKids(rows);
    var kids := rows[0].kids;
    var columns := KeyOrder(kids);
    KeyOrderExact(kids);
    var cells: seq<seq<Value>> := [];
    for i := 0 to |rows|
      invariant |cells| == i
      invariant forall j :: 0 <= j < i ==>
        ObjectOf(rows[j]).Some? && Covers(columns, ObjectOf(rows[j]).value)
        && cells[j] == Cells(columns, ObjectOf(rows[j]).value)
    {
      var row := ProjectRow(rows[i], columns);
      if ObjectOf(rows[i]).Some? {
        CoversKeys(columns, FieldsOf(kids), ObjectOf(rows[i]).value);
      }
      if row.None? {
        return None;
      }
      cells := cells + [row.value];
    }
    r := Some(Table(columns, cells));
    forall i | 0 <= i < |rows|
      ensures ObjectOf(rows[i]).value.Keys == FieldsOf(kids).Keys
      ensures Zip(columns, cells[i]) == ObjectOf(rows[i]).value
    {
      CoversKeys(columns, FieldsOf(kids), ObjectOf(rows[i]).value);
      ZipCells(columns, ObjectOf(rows[i]).value);
    }
    TableIsOf(r.value, rows);
  }

  lemma FirstRow(rows: seq<Value>)
    requires HasColumns(rows)
    ensures rows[0].Box? && ObjectOf(rows[0]) == Some(FieldsOf(rows[0].kids)) && FieldsOf(rows[0].kids) != map[]
  {
  }

  lemma FirstKids(rows: seq<Value>)
    requires HasColumns(rows) && WellFormedRows(rows)
    ensures rows[0].Box? && WellFormedKids(Obj, rows[0].kids)
  {
    hide WellFormedKids;
    assert rows[0].shape == Obj && WellFormedValue(rows[0]);
  }

  /** The table of uniform rows: the keys of the first in order, and every row's cells under them. */
  ghost function TableOf(rows: seq<Value>): (t: Table)
    requires Uniform(rows) && WellFormedRows(rows)
    ensures Tabulates(t, rows)
  {
    FirstRow(rows);
    var columns := KeyOrder(rows[0].kids);
    UniformCovers(rows);
    Table(columns, seq(|rows|, i requires 0 <= i < |rows| => Cells(columns, ObjectOf(rows[i]).value)))
  }

  lemma UniformCovers(rows: seq<Value>)
    requires Uniform(rows) && WellFormedRows(rows)
    ensures rows[0].Box? && Increasing(KeyOrder(rows[0].kids))
    ensures forall i :: 0 <= i < |rows| ==>
              var row := ObjectOf(rows[i]);
              row.Some? && Covers(KeyOrder(rows[0].kids), row.value)
              && Zip(KeyOrder(rows[0].kids), Cells(KeyOrder(rows[0].kids), row.value)) == row.value
  {
    hide ObjectOf, KeyOrder, Zip, Cells, Increasing, WellFormedValue;
    FirstRow(rows);
    FirstKids(rows);
    KeyOrderExact(rows[0].kids);
    forall i | 0 <= i < |rows|
      ensures var row := ObjectOf(rows[i]);
              row.Some? && Covers(KeyOrder(rows[0].kids), row.value)
              && Zip(KeyOrder(rows[0].kids), Cells(KeyOrder(rows[0].kids), row.value)) == row.value
    {
      CoversKeys(KeyOrder(rows[0].kids), FieldsOf(rows[0].kids), ObjectOf(rows[i]).value);
      ZipCells(KeyOrder(rows[0].kids), ObjectOf(rows[i]).value);
    }
  }

  lemma TableIsOf(t: Table, rows: seq<Value>)
    requires Uniform(rows) && WellFormedRows(rows) && Tabulates(t, rows) && t.columns == KeyOrder(rows[0].kids)
    ensures t == TableOf(rows)
  {
    hide ObjectOf, KeyOrder, Zip, Uniform, Cells, WellFormedValue;
    assert t.cells == TableOf(rows).cells;
  }

  // ----- Rows of objects, read back -----

  function ZipAll(columns: seq<bytes>, cells: seq<seq<Value>>): seq<Row> {
    if cells == [] then [] else [Zip(columns, cells[0])] + ZipAll(columns, cells[1..])
  }

  lemma {:induction false} ZipAllObjects(columns: seq<bytes>, cells: seq<seq<Value>>, rows: seq<Value>)
    requires |cells| == |rows|
    requires forall i :: 0 <= i < |rows| ==> Some(Zip(columns, cells[i])) == ObjectOf(rows[i])
    ensures Objects(rows) == Some(ZipAll(columns, cells))
  {
    hide ObjectOf, Zip;
    if rows != [] {
      ZipAllObjects(columns, cells[1..], rows[1..]);
    }
  }

  lemma {:induction false} RowsWellFormed(kids: Kids)
    requires WellFormedKids(Arr, kids)
    ensures WellFormedRows(FromKids(kids))
  {
    hide WellFormedValue;
    if kids.Kid? {
      RowsWellFormed(kids.rest);
    }
  }

  lemma ObjectWellFormed(v: Value)
    requires WellFormedValue(v) && ObjectOf(v).Some?
    ensures WellFormedRow(ObjectOf(v).value)
  {
    hide Utf8;
    assert v.shape == Obj;
    FieldsWellFormed(v.kids);
  }

  predicate TextTable(t: Table) {
    (forall c :: c in t.columns ==> Utf8(c))
    && forall i :: 0 <= i < |t.cells| ==> forall v :: v in t.cells[i] ==> WellFormedValue(v)
  }

  lemma TableWellFormed(t: Table, rows: seq<Value>)
    requires Tabulates(t, rows) && rows != [] && WellFormedRows(rows)
    ensures TextTable(t)
  {
    hide Utf8, WellFormedValue, ObjectOf;
    ObjectWellFormed(rows[0]);
    forall i | 0 <= i < |rows|
      ensures forall v :: v in t.cells[i] ==> WellFormedValue(v)
    {
      ObjectWellFormed(rows[i]);
      CellsWellFormed(t.columns, ObjectOf(rows[i]).value);
    }
  }

  function Texts(columns: seq<bytes>): (r: seq<Value>)
    ensures |r| == |columns| && forall i :: 0 <= i < |columns| ==> r[i] == Text(columns[i])
  {
    seq(|columns|, i requires 0 <= i < |columns| => Text(columns[i]))
  }

  function AsTexts(values: seq<Value>): seq<bytes> {
    if values == [] then [] else [if values[0].Text? then values[0].text else []] + AsTexts(values[1..])
  }

  lemma {:induction false} AsTextsTexts(columns: seq<bytes>)
    ensures AsTexts(Texts(columns)) == columns
  {
    if columns != [] {
      AsTextsTexts(columns[1..]);
      assert Texts(columns)[1..] == Texts(columns[1..]);
    }
  }

  lemma TextsWellFormed(columns: seq<bytes>)
    requires forall c :: c in columns ==> Utf8(c)
    ensures forall i :: 0 <= i < |columns| ==> WellFormedValue(Texts(columns)[i])
  {
    hide Utf8, Texts;
  }

  function Arrays(cells: seq<seq<Value>>): (r: seq<Value>)
    ensures |r| == |cells|
  {
    if cells == [] then [] else [Box(Arr, ToKids(cells[0]))] + Arrays(cells[1..])
  }

  function AsArrays(values: seq<Value>): seq<seq<Value>> {
    if values == [] then [] else [if values[0].Box? then FromKids(values[0].kids) else []] + AsArrays(values[1..])
  }

  lemma {:induction false} AsArraysArrays(cells: seq<seq<Value>>)
    requires forall i :: 0 <= i < |cells| ==> forall v :: v in cells[i] ==> WellFormedValue(v)
    ensures AsArrays(Arrays(cells)) == cells
    ensures forall i :: 0 <= i < |cells| ==> WellFormedValue(Arrays(cells)[i])
  {
    if cells != [] {
      RowValue(cells[0]);
      AsArraysArrays(cells[1..]);
    }
  }

  lemma RowValue(cells: seq<Value>)
    requires forall v :: v in cells ==> WellFormedValue(v)
    ensures FromKids(ToKids(cells)) == cells && WellFormedValue(Box(Arr, ToKids(cells)))
  {
    FromToKids(cells);
  }

  // ----- The tabular tuple -----

  const TPJ2: bytes := [0x54, 0x50, 0x4A, 0x32]

  /** The tuple `("TPJ2", columns, projected)`. */
  function Tabular(t: Table): Value {
    Box(Arr, ToKids([Text(TPJ2), Box(Arr, ToKids(Texts(t.columns))), Box(Arr, ToKids(Arrays(t.cells)))]))
  }

  /** What a reader of the candidate does. */
  function ReadTabular(lib: Library, candidate: bytes): Option<seq<Row>> {
    match FromBytes(lib, candidate)
    case None => None
    case Some(v) =>
      if !v.Box? then None
      else
        var parts := FromKids(v.kids);
        if |parts| == 3 && parts[1].Box? && parts[2].Box?
        then Some(ZipAll(AsTexts(FromKids(parts[1].kids)), AsArrays(FromKids(parts[2].kids))))
        else None
  }

  /** The table with the numbers of its cells read again. */
  function RereadTable(lib: Library, t: Table): Table {
    Table(t.columns, seq(|t.cells|, i requires 0 <= i < |t.cells| => RereadAll(lib, t.cells[i])))
  }

  lemma {:induction false} ArraysReread(lib: Library, t: Table)
    ensures RereadAll(lib, Arrays(t.cells)) == Arrays(RereadTable(lib, t).cells)
    decreases |t.cells|
  {
    hide RereadAll;
    if t.cells != [] {
      var rest := Table(t.columns, t.cells[1..]);
      ArraysReread(lib, rest);
      ToKidsReread(lib, t.cells[0]);
      assert RereadTable(lib, t).cells[1..] == RereadTable(lib, rest).cells;
      assert RereadAll(lib, Arrays(t.cells))[1..] == RereadAll(lib, Arrays(t.cells[1..]));
    }
  }

  lemma TextsReread(lib: Library, columns: seq<bytes>)
    ensures RereadAll(lib, Texts(columns)) == Texts(columns)
  {
  }

  /** The table of the rows read again is the table read again. */
  lemma RereadTabulates(lib: Library, t: Table, rows: seq<Value>)
    requires Tabulates(t, rows)
    ensures Tabulates(RereadTable(lib, t), RereadAll(lib, rows))
  {
    hide ObjectOf, Reread, Zip, Cells, Increasing, RereadRow;
    forall i | 0 <= i < |rows|
      ensures var again := RereadAll(lib, t.cells[i]);
              && Some(Zip(t.columns, again)) == ObjectOf(Reread(lib, rows[i]))
              && Covers(t.columns, ObjectOf(Reread(lib, rows[i])).value)
              && again == Cells(t.columns, ObjectOf(Reread(lib, rows[i])).value)
    {
      var row := ObjectOf(rows[i]).value;
      ObjectReread(lib, rows[i]);
      CellsReread(lib, t.columns, row);
      RereadCovers(lib, t.columns, row);
      ZipCells(t.columns, RereadRow(lib, row));
    }
  }

  lemma RereadCovers(lib: Library, columns: seq<bytes>, row: Row)
    requires Covers(columns, row)
    ensures Covers(columns, RereadRow(lib, row))
  {
  }

  lemma TabularParts(lib: Library, t: Table)
    ensures Reread(lib, Tabular(t)) == Tabular(RereadTable(lib, t))
  {
    hide RereadAll, ToKids, Arrays, Texts, RereadTable;
    var columns, cells := Texts(t.columns), Arrays(t.cells);
    ToKidsReread(lib, columns);
    ToKidsReread(lib, cells);
    TextsReread(lib, t.columns);
    ArraysReread(lib, t);
    var parts := [Text(TPJ2), Box(Arr, ToKids(columns)), Box(Arr, ToKids(cells))];
    ToKidsReread(lib, parts);
    var again := Tabular(RereadTable(lib, t));
    assert RereadTable(lib, t).columns == t.columns by { SameColumns(lib, t); }
    assert RereadAll(lib, parts)
        == [Text(TPJ2), Box(Arr, ToKids(columns)), Box(Arr, ToKids(Arrays(RereadTable(lib, t).cells)))]
    by {
      ThreeReread(lib, parts);
    }
  }

  lemma SameColumns(lib: Library, t: Table)
    ensures RereadTable(lib, t).columns == t.columns
  {
  }

  lemma ThreeReread(lib: Library, parts: seq<Value>)
    requires |parts| == 3
    ensures RereadAll(lib, parts) == [Reread(lib, parts[0]), Reread(lib, parts[1]), Reread(lib, parts[2])]
  {
    hide Reread;
  }

  lemma ReadTabularBack(lib: Library, t: Table)
    requires TextTable(t)
    ensures ReadTabular(lib, ToBytes(Tabular(t))) == Some(ZipAll(t.columns, RereadTable(lib, t).cells))
  {
    hide Utf8, FromBytes, ToBytes, ZipAll, Reread, RereadTable, Texts, Arrays, AsTexts, AsArrays, WellFormedValue;
    TabularWellFormed(t);
    TabularParts(lib, t);
    FromToBytes(lib, Tabular(t));
    var again := RereadTable(lib, t);
    SameColumns(lib, t);
    RereadText(lib, t);
    AsTextsTexts(t.columns);
    AsArraysArrays(again.cells);
    FromToKids(Texts(t.columns));
    FromToKids(Arrays(again.cells));
    FromToKids([Text(TPJ2), Box(Arr, ToKids(Texts(t.columns))), Box(Arr, ToKids(Arrays(again.cells)))]);
  }

  lemma TabularWellFormed(t: Table)
    requires TextTable(t)
    ensures WellFormedValue(Tabular(t))
  {
    hide Utf8, Arrays, Texts;
    var parts := [Text(TPJ2), Box(Arr, ToKids(Texts(t.columns))), Box(Arr, ToKids(Arrays(t.cells)))];
    TextsWellFormed(t.columns);
    AsArraysArrays(t.cells);
    FromToKids(Texts(t.columns));
    FromToKids(Arrays(t.cells));
    AsciiUtf8(TPJ2);
    FromToKids(parts);
  }

  lemma RereadText(lib: Library, t: Table)
    requires TextTable(t)
    ensures TextTable(RereadTable(lib, t))
  {
    hide Utf8, WellFormedValue, Reread;
    var again := RereadTable(lib, t);
    forall i, v | 0 <= i < |t.cells| && v in again.cells[i] ensures WellFormedValue(v) {
      var j :| 0 <= j < |again.cells[i]| && again.cells[i][j] == v;
      RereadWellFormed(lib, t.cells[i][j]);
    }
  }

  /** The rows of a document that is an array. */
  function RowsOf(lib: Library, input: bytes): (r: Option<seq<Value>>)
    ensures r.Some? ==> WellFormedRows(r.value)
  {
    match FromBytes(lib, input)
    case None => None
    case Some(v) =>
      if v.Box? && v.shape.Arr? then
        ReadWellFormed(lib, input);
        ArrayKids(v);
        Some(FromKids(v.kids))
      else None
  }

  lemma ReadWellFormed(lib: Library, input: bytes)
    requires Grammatical(input)
    ensures FromBytes(lib, input).Some? && WellFormedValue(FromBytes(lib, input).value)
  {
    hide JsonGrammar.Parse, WellFormedValue, ValueOf;
    PrintParseDocument(input);
    ValueOfWellFormed(lib, JsonGrammar.Parse(input).value.value);
  }

  lemma ArrayKids(v: Value)
    requires v.Box? && v.shape.Arr? && WellFormedValue(v)
    ensures WellFormedRows(FromKids(v.kids))
  {
    assert v.shape == Arr;
    RowsWellFormed(v.kids);
  }

  /** A document is stable exactly when each of its rows is. */
  lemma {:induction false} KidsStable(lib: Library, kids: Kids)
    ensures RereadKids(lib, kids) == kids <==> AllStable(lib, FromKids(kids))
  {
    hide Stable, AllStable;
    if kids.NoKids? {
      assert AllStable(lib, []) by { StableCons(lib, Leaf(NULL), []); }
    } else {
      KidsStable(lib, kids.rest);
      StableCons(lib, kids.value, FromKids(kids.rest));
      assert Stable(lib, kids.value) <==> Reread(lib, kids.value) == kids.value by { StableMeans(lib, kids.value); }
    }
  }

  lemma StableMeans(lib: Library, v: Value)
    ensures Stable(lib, v) <==> Reread(lib, v) == v
  {
  }

  lemma StableCons(lib: Library, v: Value, rest: seq<Value>)
    ensures AllStable(lib, [v] + rest) <==> Stable(lib, v) && AllStable(lib, rest)
    ensures AllStable(lib, [])
  {
    hide Stable;
    var all := [v] + rest;
    assert all[0] == v && forall i :: 0 <= i < |rest| ==> all[i + 1] == rest[i];
    if AllStable(lib, all) {
      forall i | 0 <= i < |rest| ensures Stable(lib, rest[i]) {
        assert Stable(lib, all[i + 1]);
      }
    }
  }

  lemma RowsStable(lib: Library, input: bytes)
    requires RowsOf(lib, input).Some?
    ensures var rows := RowsOf(lib, input).value;
            Stable(lib, FromBytes(lib, input).value) <==> AllStable(lib, rows)
  {
    hide FromBytes, FromKids, RereadKids;
    KidsStable(lib, FromBytes(lib, input).value.kids);
  }

  /** Tables of the same rows, read back with numbers read again. */
  lemma TableReads(lib: Library, input: bytes)
    requires RowsOf(lib, input).Some? && Uniform(RowsOf(lib, input).value)
    ensures var rows := RowsOf(lib, input).value;
            var t := TableOf(rows);
            && TextTable(t) && Objects(rows).Some?
            && Some(ZipAll(t.columns, RereadTable(lib, t).cells)) == Objects(RereadAll(lib, rows))
            && (Objects(RereadAll(lib, rows)) == Objects(rows) <==> Stable(lib, FromBytes(lib, input).value))
  {
    hide FromBytes, RowsOf, ObjectOf, Objects, ZipAll, Zip, TableOf, Stable, RereadAll, WellFormedValue, Tabulates,
         RereadTable, Cells, TextTable;
    var rows := RowsOf(lib, input).value;
    var t := TableOf(rows);
    UniformRows(rows);
    TableWellFormed(t, rows);
    RereadTabulates(lib, t, rows);
    SameColumns(lib, t);
    TabulatedObjects(t, rows);
    TabulatedObjects(RereadTable(lib, t), RereadAll(lib, rows));
    ObjectsReread(lib, rows);
    RowsStable(lib, input);
  }

  lemma TabulatedObjects(t: Table, rows: seq<Value>)
    requires Tabulates(t, rows)
    ensures Objects(rows) == Some(ZipAll(t.columns, t.cells))
  {
    hide ObjectOf, Zip, Cells, Increasing;
    ZipAllObjects(t.columns, t.cells, rows);
  }

  /**
    `JsonTabular::transform`: it succeeds exactly on valid arrays of uniform rows within bounds, and the candidate alone
    reads back as the objects of the input, exactly when the numbers of the input are read back from their text.
   */
  method TabularJson(input: bytes, limits: Limits, lib: Library) returns (r: Result<Transform, TransformError>)
    requires |input| <= U64_MAX
    ensures Verdict(input, limits, lib).Err? ==> r == Err(Verdict(input, limits, lib).error)
    ensures Verdict(input, limits, lib).Ok? ==>
              var rows := RowsOf(lib, input);
              && (r == Err(NotApplicable) <==> rows.None? || !Uniform(rows.value))
              && (r.Ok? <==> rows.Some? && Uniform(rows.value)
                             && CopyFits(ToBytes(Tabular(TableOf(rows.value))), input, limits))
              && r != Err(InvalidInput) && r != Err(Internal)
    ensures r.Ok? ==>
              var rows := RowsOf(lib, input).value;
              && r.value == Transform(ToBytes(Tabular(TableOf(rows))), input)
              && Objects(rows).Some?
              && ReadTabular(lib, r.value.candidate) == Objects(RereadAll(lib, rows))
              && (ReadTabular(lib, r.value.candidate) == Objects(rows) <==> Stable(lib, FromBytes(lib, input).value))
  {
    hide FromBytes, ToBytes, Verdict, Uniform, ReadTabular, Objects, ZipAll, Utf8, RowsOf, TableOf, RereadTable,
         RereadAll, Stable, CopyFits, TextTable;
    var valid, _ := ValidateJson(input, limits, lib);
    if valid.Err? {
      return Err(valid.error);
    }
    var rows := RowsOf(lib, input);
    if rows.None? {
      return Err(NotApplicable);
    }
    var table := JsonTable(rows.value);
    if table.None? {
      return Err(NotApplicable);
    }
    TableReads(lib, input);
    ReadTabularBack(lib, table.value);
    return WithCopy(ToBytes(Tabular(table.value)), input, limits);
  }

  lemma UniformRows(rows: seq<Value>)
    requires Uniform(rows)
    ensures |rows| >= 2
  {
  }
}
