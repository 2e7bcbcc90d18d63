/** Arrays of uniform objects as rows: their fields, the order of their keys, and cells under column names. */
module Rows {
  import opened Base
  import opened JsonString
  import opened JsonGrammar
  import opened Values

  /** The fields of an object, by key. */
  type Row = map<bytes, Value>

  function FieldsOf(kids: Kids): Row {
    if kids.NoKids? then map[] else map[kids.key := kids.value] + FieldsOf(kids.rest)
  }

  /** `Value::as_object`. */
  function ObjectOf(v: Value): Option<Row> {
    if v.Box? && v.shape.Obj? then Some(FieldsOf(v.kids)) else None
  }

  /** The objects of an array, when it holds nothing else. */
  function Objects(rows: seq<Value>): Option<seq<Row>> {
    if rows == [] then Some([])
    else
      match ObjectOf(rows[0])
      case None => None
      case Some(row) =>
        match Objects(rows[1..])
        case None => None
        case Some(rest) => Some([row] + rest)
  }

  // ----- Key order -----

  predicate Increasing(keys: seq<bytes>) {
    forall i, j :: 0 <= i < j < |keys| ==> Less(keys[i], keys[j])
  }

  /** The order in which the ordered map yields the keys. */
  function KeyOrder(kids: Kids): seq<bytes> {
    if kids.NoKids? then [] else [kids.key] + KeyOrder(kids.rest)
  }

  lemma IncreasingCons(key: bytes, keys: seq<bytes>)
    requires Increasing(keys) && (keys != [] ==> Less(key, keys[0]))
    ensures Increasing([key] + keys)
  {
    hide Less;
    forall j | 0 <= j < |keys| ensures Less(key, keys[j]) {
      if j > 0 {
        LessTransitive(key, keys[0], keys[j]);
      }
    }
  }

  /** Every key once, in order. */
  lemma {:induction false} KeyOrderExact(kids: Kids)
    requires WellFormedKids(Obj, kids)
    ensures Increasing(KeyOrder(kids))
    ensures forall k :: k in KeyOrder(kids) <==> k in FieldsOf(kids)
    ensures kids.Kid? ==> KeyOrder(kids) != [] && KeyOrder(kids)[0] == kids.key
  {
    hide Less, WellFormedValue, Utf8;
    if kids.Kid? {
      KeyOrderExact(kids.rest);
      IncreasingCons(kids.key, KeyOrder(kids.rest));
    }
  }

  /** A first key is below every other one. */
  lemma FirstKey(kids: Kids)
    requires kids.Kid? && WellFormedKids(Obj, kids)
    ensures kids.key !in FieldsOf(kids.rest)
    ensures forall k :: k in FieldsOf(kids) ==> k == kids.key || Less(kids.key, k)
  {
    hide Less, WellFormedValue, Utf8, FieldsOf;
    KeyOrderExact(kids);
    KeyOrderExact(kids.rest);
    var keys := KeyOrder(kids);
    assert keys == [kids.key] + KeyOrder(kids.rest);
    forall k | k in FieldsOf(kids) ensures k == kids.key || Less(kids.key, k) {
      var i :| 0 <= i < |keys| && keys[i] == k;
    }
    if kids.key in FieldsOf(kids.rest) {
      var i :| 0 <= i < |KeyOrder(kids.rest)| && KeyOrder(kids.rest)[i] == kids.key;
      assert keys[i + 1] == keys[0];
      LessTotal(keys[0], keys[i + 1]);
    }
  }

  /** An ordered map is determined by its fields. */
  lemma {:induction false} FieldsInjective(a: Kids, b: Kids)
    requires WellFormedKids(Obj, a) && WellFormedKids(Obj, b) && FieldsOf(a) == FieldsOf(b)
    ensures a == b
  {
    hide Less, WellFormedValue, Utf8;
    if a.Kid? && b.Kid? {
      FirstKey(a);
      FirstKey(b);
      assert a.key in FieldsOf(b) && b.key in FieldsOf(a);
      LessTotal(a.key, b.key);
      assert FieldsOf(a)[a.key] == a.value by { FieldHere(a); }
      assert FieldsOf(b)[b.key] == b.value by { FieldHere(b); }
      RestFields(a);
      RestFields(b);
      FieldsInjective(a.rest, b.rest);
    } else {
      NoFields(a);
      NoFields(b);
    }
  }

  lemma NoFields(kids: Kids)
    ensures FieldsOf(kids) == map[] <==> kids.NoKids?
  {
    if kids.Kid? {
      assert kids.key in FieldsOf(kids);
    }
  }

  lemma FieldHere(kids: Kids)
    requires kids.Kid? && kids.key !in FieldsOf(kids.rest)
    ensures kids.key in FieldsOf(kids) && FieldsOf(kids)[kids.key] == kids.value
  {
  }

  lemma RestFields(kids: Kids)
    requires kids.Kid? && kids.key !in FieldsOf(kids.rest)
    ensures FieldsOf(kids.rest) == FieldsOf(kids) - {kids.key}
  {
  }

  lemma IncreasingDistinct(keys: seq<bytes>, i: nat, j: nat)
    requires Increasing(keys) && i < |keys| && j < |keys| && keys[i] == keys[j]
    ensures i == j
  {
    hide Less;
    LessTotal(keys[i], keys[j]);
  }

  // ----- Columns and cells -----

  predicate Has(columns: seq<bytes>, row: Row) {
    forall c :: c in columns ==> c in row
  }

  function Cells(columns: seq<bytes>, row: Row): (r: seq<Value>)
    requires Has(columns, row)
    ensures |r| == |columns|
  {
    if columns == [] then [] else [row[columns[0]]] + Cells(columns[1..], row)
  }

  /** Reading a row of cells under its columns. */
  function Zip(columns: seq<bytes>, cells: seq<Value>): Row {
    if columns == [] || cells == [] then map[] else map[columns[0] := cells[0]] + Zip(columns[1..], cells[1..])
  }

  function Restrict(row: Row, columns: seq<bytes>): Row
    requires Has(columns, row)
  {
    map c | c in columns :: row[c]
  }

  lemma {:induction false} ZipRestricts(columns: seq<bytes>, row: Row)
    requires Has(columns, row)
    ensures Zip(columns, Cells(columns, row)) == Restrict(row, columns)
  {
    if columns != [] {
      ZipRestricts(columns[1..], row);
      assert Restrict(row, columns) == map[columns[0] := row[columns[0]]] + Restrict(row, columns[1..]);
    }
  }

  ghost predicate Covers(columns: seq<bytes>, row: Row) {
    forall k :: k in row <==> k in columns
  }

  /** Zipping the columns back onto the cells rebuilds the row. */
  lemma ZipCells(columns: seq<bytes>, row: Row)
    requires Covers(columns, row)
    ensures Zip(columns, Cells(columns, row)) == row
  {
    ZipRestricts(columns, row);
    assert Restrict(row, columns) == row;
  }

  /** An object printed with its keys in order. */
  function KidsFor(columns: seq<bytes>, row: Row): Kids
    requires Has(columns, row)
  {
    if columns == [] then NoKids else Kid(columns[0], row[columns[0]], KidsFor(columns[1..], row))
  }

  lemma {:induction false} FieldsOfKidsFor(columns: seq<bytes>, row: Row)
    requires Has(columns, row)
    ensures FieldsOf(KidsFor(columns, row)) == Restrict(row, columns)
  {
    if columns != [] {
      FieldsOfKidsFor(columns[1..], row);
      assert Restrict(row, columns) == map[columns[0] := row[columns[0]]] + Restrict(row, columns[1..]);
    }
  }

  // ----- Reading numbers again -----

  function RereadRow(lib: Library, row: Row): Row {
    map k | k in row :: Reread(lib, row[k])
  }

  lemma {:induction false} FieldsReread(lib: Library, kids: Kids)
    ensures FieldsOf(RereadKids(lib, kids)) == RereadRow(lib, FieldsOf(kids))
  {
    hide Reread;
    if kids.Kid? {
      FieldsReread(lib, kids.rest);
    }
  }

  lemma ObjectReread(lib: Library, v: Value)
    ensures ObjectOf(Reread(lib, v)).Some? == ObjectOf(v).Some?
    ensures ObjectOf(v).Some? ==> ObjectOf(Reread(lib, v)) == Some(RereadRow(lib, ObjectOf(v).value))
  {
    hide FieldsOf, RereadKids, RereadRow;
    if v.Box? {
      FieldsReread(lib, v.kids);
    }
  }

  lemma {:induction false} CellsReread(lib: Library, columns: seq<bytes>, row: Row)
    requires Has(columns, row)
    ensures Cells(columns, RereadRow(lib, row)) == RereadAll(lib, Cells(columns, row))
  {
    hide Reread;
    if columns != [] {
      CellsReread(lib, columns[1..], row);
      assert RereadAll(lib, Cells(columns, row))[1..] == RereadAll(lib, Cells(columns, row)[1..]);
    }
  }

  predicate WellFormedRows(rows: seq<Value>) {
    forall i :: 0 <= i < |rows| ==> WellFormedValue(rows[i])
  }

  predicate AllStable(lib: Library, values: seq<Value>) {
    forall i :: 0 <= i < |values| ==> Stable(lib, values[i])
  }

  lemma {:induction false} ObjectsSome(rows: seq<Value>)
    ensures Objects(rows).Some? <==> forall i :: 0 <= i < |rows| ==> ObjectOf(rows[i]).Some?
    ensures Objects(rows).Some? ==>
              && |Objects(rows).value| == |rows|
              && forall i :: 0 <= i < |rows| ==> ObjectOf(rows[i]) == Some(Objects(rows).value[i])
  {
    hide ObjectOf;
    if rows != [] {
      ObjectsSome(rows[1..]);
      assert forall i :: 0 <= i < |rows| - 1 ==> rows[1..][i] == rows[i + 1];
    }
  }

  lemma ObjectInjective(v: Value, w: Value)
    requires WellFormedValue(v) && WellFormedValue(w) && ObjectOf(v).Some? && ObjectOf(v) == ObjectOf(w)
    ensures v == w
  {
    hide Less, FieldsOf;
    assert v.shape == Obj && w.shape == Obj;
    FieldsInjective(v.kids, w.kids);
  }

  /** Objects read again are the objects exactly when no row has an unstable number. */
  lemma ObjectsReread(lib: Library, rows: seq<Value>)
    requires WellFormedRows(rows) && Objects(rows).Some?
    ensures Objects(RereadAll(lib, rows)) == Objects(rows) <==> AllStable(lib, rows)
  {
    hide ObjectOf, Objects, Reread, WellFormedValue;
    ObjectsSome(rows);
    var again := RereadAll(lib, rows);
    ObjectsSome(again);
    if Objects(again) == Objects(rows) {
      forall i | 0 <= i < |rows| ensures Stable(lib, rows[i]) {
        RereadWellFormed(lib, rows[i]);
        assert ObjectOf(again[i]) == ObjectOf(rows[i]);
        ObjectInjective(again[i], rows[i]);
      }
    }
    if AllStable(lib, rows) {
      assert again == rows;
    }
  }

  // ----- Text -----

  predicate WellFormedRow(row: Row) {
    forall k :: k in row ==> Utf8(k) && WellFormedValue(row[k])
  }

  lemma {:induction false} FieldsWellFormed(kids: Kids)
    requires WellFormedKids(Obj, kids)
    ensures WellFormedRow(FieldsOf(kids))
  {
    hide Utf8, WellFormedValue;
    if kids.Kid? {
      FieldsWellFormed(kids.rest);
    }
  }

  lemma {:induction false} KidsForWellFormed(columns: seq<bytes>, row: Row)
    requires Has(columns, row) && WellFormedRow(row) && Increasing(columns)
    ensures WellFormedKids(Obj, KidsFor(columns, row))
  {
    hide Utf8, WellFormedValue, Less;
    if columns != [] {
      KidsForWellFormed(columns[1..], row);
    }
  }

  lemma {:induction false} CellsWellFormed(columns: seq<bytes>, row: Row)
    requires Has(columns, row) && WellFormedRow(row)
    ensures forall v :: v in Cells(columns, row) ==> WellFormedValue(v)
  {
    hide Utf8, WellFormedValue;
    if columns != [] {
      CellsWellFormed(columns[1..], row);
    }
  }
}
