/** Constant fields moved out of uniform rows, and merged back in. */
module RepeatedValues {
  import opened Base
  import opened JsonString
  import opened JsonGrammar
  import opened Values
  import opened Validator
  import opened Rows
  import opened Tables

  /** common */
  const COMMON: bytes := [0x63, 0x6F, 0x6D, 0x6D, 0x6F, 0x6E]
  /** rows */
  const ROWS: bytes := [0x72, 0x6F, 0x77, 0x73]

  // ----- Constant fields -----

  /** 0.0 */
  const ZERO: bytes := [0x30, 0x2E, 0x30]
  /** -0.0 */
  const NEGATIVE_ZERO: bytes := [0x2D, 0x30, 0x2E, 0x30]

  predicate Zero(v: Value) {
    v == Leaf(ZERO) || v == Leaf(NEGATIVE_ZERO)
  }

  /** Equality of the library's scalars: floats compare as numbers, so the two zeros are equal. */
  predicate SameScalar(v: Value, w: Value) {
    v == w || (Zero(v) && Zero(w))
  }

  /** Every row is an object with the keys of `first` and an equal value under `key`. */
  predicate Constant(rows: seq<Value>, first: Row, key: bytes)
    requires key in first
  {
    forall i :: 0 <= i < |rows| ==>
      && ObjectOf(rows[i]).Some? && ObjectOf(rows[i]).value.Keys == first.Keys
      && SameScalar(ObjectOf(rows[i]).value[key], first[key])
  }

  predicate CommonField(rows: seq<Value>, first: Row, key: bytes) {
    key in first && !first[key].Box? && Constant(rows, first, key)
  }

  /** The keys of `columns` that are common, in order. */
  function CommonKeys(rows: seq<Value>, first: Row, columns: seq<bytes>): seq<bytes> {
    if columns == [] then []
    else
      (if CommonField(rows, first, columns[0]) then [columns[0]] else [])
      + CommonKeys(rows, first, columns[1..])
  }

  function Without(columns: seq<bytes>, common: seq<bytes>): seq<bytes> {
    if columns == [] then []
    else (if columns[0] in common then [] else [columns[0]]) + Without(columns[1..], common)
  }

  lemma {:induction false} CommonKeysExact(rows: seq<Value>, first: Row, columns: seq<bytes>)
    ensures forall k :: k in CommonKeys(rows, first, columns) <==> k in columns && CommonField(rows, first, k)
    ensures Increasing(columns) ==> Increasing(CommonKeys(rows, first, columns))
  {
    hide CommonField, Less;
    if columns != [] {
      CommonKeysExact(rows, first, columns[1..]);
      var rest := CommonKeys(rows, first, columns[1..]);
      forall i | 0 <= i < |rest| ensures rest[i] in columns[1..] {
        assert rest[i] in rest;
      }
    }
  }

  lemma {:induction false} WithoutExact(columns: seq<bytes>, common: seq<bytes>)
    ensures forall k :: k in Without(columns, common) <==> k in columns && k !in common
    ensures Increasing(columns) ==> Increasing(Without(columns, common))
  {
    hide Less;
    if columns != [] {
      WithoutExact(columns[1..], common);
      var rest := Without(columns[1..], common);
      forall i | 0 <= i < |rest| ensures rest[i] in columns[1..] {
        assert rest[i] in rest;
      }
    }
  }

  /** The loop over the first row's keys, with its work. */
  method FindCommon(rows: seq<Value>, first: Row, columns: seq<bytes>, maxWork: u64)
    returns (r: Option<(seq<bytes>, u64)>)
    requires maxWork < U64_MAX
    ensures r.None? <==> Times(|columns|, |rows|) > maxWork
    ensures r.Some? ==> r.value.0 == CommonKeys(rows, first, columns) && r.value.1 == Times(|columns|, |rows|)
  {
    hide CommonField, Times;
    var common: seq<bytes> := [];
    var work: u64 := 0;
    assert columns[0..] == columns;
    TimesStep(0, 0, |rows|);
    for i := 0 to |columns|
      invariant common + CommonKeys(rows, first, columns[i..]) == CommonKeys(rows, first, columns)
      invariant work == Times(i, |rows|) <= maxWork
    {
      assert columns[i..][1..] == columns[i + 1..];
      work := SatAdd(work, Len64(|rows|));
      TimesStep(i, |columns|, |rows|);
      if work > maxWork {
        return None;
      }
      if CommonField(rows, first, columns[i]) {
        common := common + [columns[i]];
      }
    }
    return Some((common, work));
  }

  // ----- Eliding them -----

  /** `remove` of every common key: the fields left and how many went. */
  method RemoveAll(fields: Row, common: seq<bytes>) returns (left: Row, removed: nat)
    requires Increasing(common) && forall k :: k in common ==> k in fields
    ensures left == fields - set k | k in common
    ensures removed == |common|
  {
    hide Less;
    left, removed := fields, 0;
    for i := 0 to |common|
      invariant left == fields - set k | k in common[..i]
      invariant removed == i
    {
      assert common[..i + 1] == common[..i] + [common[i]];
      if common[i] in left {
        removed := removed + 1;
      } else {
        var j: nat :| j < i && common[j] == common[i];
        IncreasingDistinct(common, j, i);
      }
      left := left - {common[i]};
    }
    assert common[..|common|] == common;
  }

  ghost predicate AllCover(rows: seq<Value>, columns: seq<bytes>) {
    forall i :: 0 <= i < |rows| ==> ObjectOf(rows[i]).Some? && Covers(columns, ObjectOf(rows[i]).value)
  }

  /** The rows without the common fields, keys in order. */
  ghost function Elided(rows: seq<Value>, columns: seq<bytes>, common: seq<bytes>): (r: seq<Value>)
    requires AllCover(rows, columns)
    ensures |r| == |rows|
  {
    WithoutExact(columns, common);
    seq(|rows|, i requires 0 <= i < |rows| => Box(Obj, KidsFor(Without(columns, common), ObjectOf(rows[i]).value)))
  }

  lemma {:induction false} KidsForAgree(columns: seq<bytes>, a: Row, b: Row)
    requires Has(columns, a) && Has(columns, b) && forall k :: k in columns ==> a[k] == b[k]
    ensures KidsFor(columns, a) == KidsFor(columns, b)
  {
    if columns != [] {
      KidsForAgree(columns[1..], a, b);
    }
  }

  /** The second loop: every row loses the common fields, and each removal is counted. */
  method ElideRows(rows: seq<Value>, columns: seq<bytes>, common: seq<bytes>, maxWork: u64, work: u64)
    returns (r: Option<(seq<Value>, nat)>)
    requires work <= maxWork < U64_MAX && AllCover(rows, columns)
    requires Increasing(common) && forall k :: k in common ==> k in columns
    ensures r.None? <==> work + |rows| > maxWork
    ensures r.Some? ==> r.value.0 == Elided(rows, columns, common) && r.value.1 == Times(|rows|, |common|)
  {
    hide Times, ObjectOf, KidsFor, Without, Increasing;
    var left: seq<Value> := [];
    var omitted: nat := 0;
    var w: u64 := work;
    WithoutExact(columns, common);
    TimesStep(0, 0, |common|);
    for i := 0 to |rows|
      invariant left == Elided(rows, columns, common)[..i] && omitted == Times(i, |common|)
      invariant w == work + i <= maxWork
    {
      var fields := ObjectOf(rows[i]).value;
      var kept, removed := RemoveAll(fields, common);
      KidsForAgree(Without(columns, common), kept, fields);
      omitted := omitted + removed;
      TimesStep(i, |rows|, |common|);
      left := left + [Box(Obj, KidsFor(Without(columns, common), kept))];
      w := SatAdd(w, 1);
      if w > maxWork {
        return None;
      }
    }
    return Some((left, omitted));
  }

  // ----- The reduced document -----

  /** `{"common": …, "rows": […]}`. */
  function Split(common: Kids, rows: seq<Value>): Value {
    Box(Obj, Kid(COMMON, Box(Obj, common), Kid(ROWS, Box(Arr, ToKids(rows)), NoKids)))
  }

  function MergeAll(rows: seq<Value>, common: Row): seq<Row> {
    if rows == [] then []
    else [(if rows[0].Box? then FieldsOf(rows[0].kids) else map[]) + common] + MergeAll(rows[1..], common)
  }

  /** What a reader of the reduced document does: the common fields go back into every row. */
  function Merge(lib: Library, visible: bytes): Option<seq<Row>> {
    match FromBytes(lib, visible)
    case None => None
    case Some(v) =>
      match ObjectOf(v)
      case None => None
      case Some(fields) =>
        if COMMON in fields && ROWS in fields && fields[COMMON].Box? && fields[ROWS].Box?
        then Some(MergeAll(FromKids(fields[ROWS].kids), FieldsOf(fields[COMMON].kids)))
        else None
  }

  /** One row as that reader gets it: its own fields, the common ones of the first row, and the numbers read again. */
  ghost function Restored(lib: Library, row: Row, first: Row, columns: seq<bytes>, common: seq<bytes>): Row
    requires Covers(columns, row) && Has(common, first)
  {
    WithoutExact(columns, common);
    RereadRow(lib, Restrict(row, Without(columns, common)) + Restrict(first, common))
  }

  ghost function RestoredAll(lib: Library, rows: seq<Value>, first: Row, columns: seq<bytes>, common: seq<bytes>)
    : (r: seq<Row>)
    requires AllCover(rows, columns) && Has(common, first)
    ensures |r| == |rows|
    ensures forall i :: 0 <= i < |rows| ==> r[i] == Restored(lib, ObjectOf(rows[i]).value, first, columns, common)
  {
    seq(|rows|, i requires 0 <= i < |rows| => Restored(lib, ObjectOf(rows[i]).value, first, columns, common))
  }

  lemma RestoreRow(lib: Library, row: Row, first: Row, columns: seq<bytes>, common: seq<bytes>)
    requires Covers(columns, row) && Has(common, first)
    ensures Has(Without(columns, common), row)
    ensures FieldsOf(RereadKids(lib, KidsFor(Without(columns, common), row)))
            + FieldsOf(RereadKids(lib, KidsFor(common, first))) == Restored(lib, row, first, columns, common)
  {
    hide Reread, Without, KidsFor, RereadKids, FieldsOf, RereadRow, Restrict;
    WithoutExact(columns, common);
    FieldsOfKidsFor(Without(columns, common), row);
    FieldsOfKidsFor(common, first);
    FieldsReread(lib, KidsFor(Without(columns, common), row));
    FieldsReread(lib, KidsFor(common, first));
    RereadUnion(lib, Restrict(row, Without(columns, common)), Restrict(first, common));
  }

  lemma RereadUnion(lib: Library, a: Row, b: Row)
    ensures RereadRow(lib, a) + RereadRow(lib, b) == RereadRow(lib, a + b)
  {
    hide Reread;
  }

  lemma {:induction false} MergeRestores(lib: Library, rows: seq<Value>, first: Row, columns: seq<bytes>,
                                         common: seq<bytes>)
    requires AllCover(rows, columns) && Has(common, first)
    ensures MergeAll(RereadAll(lib, Elided(rows, columns, common)), FieldsOf(RereadKids(lib, KidsFor(common, first))))
            == RestoredAll(lib, rows, first, columns, common)
  {
    hide ObjectOf, KidsFor, FieldsOf, Without, Restored, RereadKids;
    if rows != [] {
      RestoreRow(lib, ObjectOf(rows[0]).value, first, columns, common);
      MergeRestores(lib, rows[1..], first, columns, common);
      var elided := Elided(rows, columns, common);
      assert elided[1..] == Elided(rows[1..], columns, common);
      assert RereadAll(lib, elided)[1..] == RereadAll(lib, elided[1..]);
      assert RestoredAll(lib, rows, first, columns, common)[1..] == RestoredAll(lib, rows[1..], first, columns, common);
    }
  }

  // ----- When merging gives the rows back -----

  /** Some row holds a zero of the other sign under a common key. */
  ghost predicate MixesZeros(rows: seq<Value>, first: Row, common: seq<bytes>) {
    exists i, k :: && 0 <= i < |rows| && k in common && k in first && ObjectOf(rows[i]).Some?
                   && k in ObjectOf(rows[i]).value && Zero(first[k])
                   && Zero(ObjectOf(rows[i]).value[k]) && ObjectOf(rows[i]).value[k] != first[k]
  }

  lemma RestoredFields(lib: Library, row: Row, first: Row, columns: seq<bytes>, common: seq<bytes>)
    requires Covers(columns, row) && Covers(columns, first) && forall k :: k in common ==> k in columns
    ensures Restored(lib, row, first, columns, common).Keys == row.Keys
    ensures forall k :: k in row ==>
              Restored(lib, row, first, columns, common)[k] == Reread(lib, if k in common then first[k] else row[k])
  {
    hide Reread, Without;
    WithoutExact(columns, common);
  }

  lemma RestoredExactly(lib: Library, row: Row, first: Row, columns: seq<bytes>, common: seq<bytes>)
    requires Covers(columns, row) && Covers(columns, first) && forall k :: k in common ==> k in columns
    requires RereadRow(lib, first) == first
    ensures Restored(lib, row, first, columns, common) == row
            <==> RereadRow(lib, row) == row && forall k :: k in common ==> row[k] == first[k]
  {
    hide Reread, Restored;
    RestoredFields(lib, row, first, columns, common);
    forall k | k in common ensures Reread(lib, first[k]) == first[k] {
      assert RereadRow(lib, first)[k] == first[k];
    }
    if Restored(lib, row, first, columns, common) == row {
      forall k | k in row ensures RereadRow(lib, row)[k] == row[k] {
        assert Restored(lib, row, first, columns, common)[k] == row[k];
      }
    }
    if RereadRow(lib, row) == row && forall k :: k in common ==> row[k] == first[k] {
      forall k | k in row ensures Restored(lib, row, first, columns, common)[k] == row[k] {
        assert RereadRow(lib, row)[k] == row[k];
      }
    }
  }

  lemma StableFields(lib: Library, v: Value)
    requires WellFormedValue(v) && ObjectOf(v).Some?
    ensures Stable(lib, v) <==> RereadRow(lib, ObjectOf(v).value) == ObjectOf(v).value
  {
    hide WellFormedValue, ObjectOf, RereadRow, Reread;
    ObjectReread(lib, v);
    RereadWellFormed(lib, v);
    if RereadRow(lib, ObjectOf(v).value) == ObjectOf(v).value {
      ObjectInjective(Reread(lib, v), v);
    }
  }

  /** Fields of one row that differ from the common ones are zeros of the other sign. */
  lemma OnlyZerosDiffer(rows: seq<Value>, first: Row, columns: seq<bytes>, common: seq<bytes>)
    requires AllCover(rows, columns) && Covers(columns, first)
    requires forall k :: k in common ==> k in columns && CommonField(rows, first, k)
    ensures MixesZeros(rows, first, common)
            <==> exists i, k :: 0 <= i < |rows| && k in common && ObjectOf(rows[i]).value[k] != first[k]
  {
    hide ObjectOf;
    forall i, k | 0 <= i < |rows| && k in common
      ensures SameScalar(ObjectOf(rows[i]).value[k], first[k])
    {
      assert CommonField(rows, first, k);
    }
  }

  /** The merged rows are the rows exactly when every number is stable and no common zero changes its sign. */
  lemma RestoredAllExactly(lib: Library, rows: seq<Value>, columns: seq<bytes>, common: seq<bytes>)
    requires rows != [] && WellFormedRows(rows) && AllCover(rows, columns)
    requires forall k :: k in common ==> k in columns && CommonField(rows, ObjectOf(rows[0]).value, k)
    ensures Has(common, ObjectOf(rows[0]).value) && Objects(rows).Some?
    ensures Some(RestoredAll(lib, rows, ObjectOf(rows[0]).value, columns, common)) == Objects(rows)
            <==> AllStable(lib, rows) && !MixesZeros(rows, ObjectOf(rows[0]).value, common)
  {
    hide ObjectOf, Objects, Restored, RereadRow, Stable, CommonField, MixesZeros, WellFormedValue;
    var first := ObjectOf(rows[0]).value;
    assert Covers(columns, first);
    ObjectsSome(rows);
    OnlyZerosDiffer(rows, first, columns, common);
    forall i | 0 <= i < |rows|
      ensures Stable(lib, rows[i]) <==> RereadRow(lib, ObjectOf(rows[i]).value) == ObjectOf(rows[i]).value
    {
      StableFields(lib, rows[i]);
    }
    var all := RestoredAll(lib, rows, first, columns, common);
    if all == Objects(rows).value {
      FirstStable(lib, first, columns, common);
      assert all[0] == first;
    }
    if RereadRow(lib, first) == first {
      forall i | 0 <= i < |rows|
        ensures all[i] == ObjectOf(rows[i]).value
                <==> RereadRow(lib, ObjectOf(rows[i]).value) == ObjectOf(rows[i]).value
                     && forall k :: k in common ==> ObjectOf(rows[i]).value[k] == first[k]
      {
        RestoredExactly(lib, ObjectOf(rows[i]).value, first, columns, common);
      }
    }
    assert all == Objects(rows).value <==> forall i :: 0 <= i < |rows| ==> all[i] == ObjectOf(rows[i]).value;
  }

  lemma FirstStable(lib: Library, first: Row, columns: seq<bytes>, common: seq<bytes>)
    requires Covers(columns, first) && forall k :: k in common ==> k in columns
    ensures Restored(lib, first, first, columns, common) == RereadRow(lib, first)
  {
    hide Reread, Restored;
    RestoredFields(lib, first, first, columns, common);
  }

  // ----- The reduced document as text -----

  lemma SplitWellFormed(common: Kids, rows: seq<Value>)
    requires WellFormedKids(Obj, common) && WellFormedRows(rows)
    ensures WellFormedValue(Split(common, rows))
  {
    hide Utf8, IsScalar, ToKids;
    AsciiUtf8(COMMON);
    AsciiUtf8(ROWS);
    FromToKids(rows);
    var last := Kid(ROWS, Box(Arr, ToKids(rows)), NoKids);
    assert WellFormedKids(Obj, last);
    assert WellFormedValue(Box(Obj, common));
  }

  lemma SplitFields(common: Kids, rows: seq<Value>)
    ensures FieldsOf(Split(common, rows).kids) == map[COMMON := Box(Obj, common), ROWS := Box(Arr, ToKids(rows))]
  {
    hide ToKids;
    NamesDiffer();
    var last := Kid(ROWS, Box(Arr, ToKids(rows)), NoKids);
    assert FieldsOf(last) == map[ROWS := Box(Arr, ToKids(rows))];
  }

  lemma SplitReread(lib: Library, common: Kids, rows: seq<Value>)
    ensures Reread(lib, Split(common, rows)) == Split(RereadKids(lib, common), RereadAll(lib, rows))
  {
    hide ToKids, RereadAll;
    ToKidsReread(lib, rows);
    var last := Kid(ROWS, Box(Arr, ToKids(rows)), NoKids);
    assert Reread(lib, Box(Arr, ToKids(rows))) == Box(Arr, RereadKids(lib, ToKids(rows)));
    assert Reread(lib, Box(Obj, common)) == Box(Obj, RereadKids(lib, common));
    assert RereadKids(lib, last) == Kid(ROWS, Box(Arr, ToKids(RereadAll(lib, rows))), NoKids);
    assert RereadKids(lib, Kid(COMMON, Box(Obj, common), last))
        == Kid(COMMON, Box(Obj, RereadKids(lib, common)), RereadKids(lib, last));
  }

  lemma SplitReads(lib: Library, common: Kids, rows: seq<Value>)
    requires WellFormedKids(Obj, common) && WellFormedRows(rows)
    ensures Merge(lib, ToBytes(Split(common, rows)))
            == Some(MergeAll(RereadAll(lib, rows), FieldsOf(RereadKids(lib, common))))
  {
    hide ToBytes, FromBytes, MergeAll, FieldsOf, WellFormedValue, WellFormedKids, ToKids, FromKids, Reread, RereadAll;
    SplitWellFormed(common, rows);
    FromToBytes(lib, Split(common, rows));
    SplitReread(lib, common, rows);
    SplitFields(RereadKids(lib, common), RereadAll(lib, rows));
    NamesDiffer();
    FromToKids(RereadAll(lib, rows));
  }

  lemma NamesDiffer()
    ensures COMMON != ROWS
  {
    assert |COMMON| != |ROWS|;
  }

  lemma ElidedWellFormed(rows: seq<Value>, columns: seq<bytes>, common: seq<bytes>)
    requires AllCover(rows, columns) && WellFormedRows(rows) && Increasing(columns)
    ensures WellFormedRows(Elided(rows, columns, common))
  {
    hide WellFormedValue, ObjectOf, KidsFor, Without, Utf8, Increasing;
    WithoutExact(columns, common);
    forall i | 0 <= i < |rows|
      ensures WellFormedValue(Elided(rows, columns, common)[i])
    {
      ObjectWellFormed(rows[i]);
      KidsForWellFormed(Without(columns, common), ObjectOf(rows[i]).value);
      BoxWellFormed(KidsFor(Without(columns, common), ObjectOf(rows[i]).value));
    }
  }

  lemma BoxWellFormed(kids: Kids)
    requires WellFormedKids(Obj, kids)
    ensures WellFormedValue(Box(Obj, kids))
  {
  }

  /** One common field makes every row cover the same columns. */
  lemma CommonCovers(rows: seq<Value>, first: Row, columns: seq<bytes>)
    requires Covers(columns, first) && CommonKeys(rows, first, columns) != []
    ensures AllCover(rows, columns)
  {
    hide ObjectOf, CommonKeys;
    CommonKeysExact(rows, first, columns);
    var key := CommonKeys(rows, first, columns)[0];
    assert key in CommonKeys(rows, first, columns);
    assert CommonField(rows, first, key);
    forall i | 0 <= i < |rows| ensures ObjectOf(rows[i]).Some? && Covers(columns, ObjectOf(rows[i]).value) {
      CoversKeys(columns, first, ObjectOf(rows[i]).value);
    }
  }

  // ----- The reducer -----

  /** The keys of the common fields of the rows, in order. */
  function CommonOf(rows: seq<Value>): seq<bytes>
    requires HasColumns(rows)
  {
    FirstRow(rows);
    CommonKeys(rows, FieldsOf(rows[0].kids), KeyOrder(rows[0].kids))
  }

  /** They are exactly the scalar fields with equal values over rows with equal keys. */
  lemma CommonOfExactly(rows: seq<Value>)
    requires HasColumns(rows) && WellFormedRows(rows)
    ensures Increasing(CommonOf(rows))
    ensures forall k :: k in CommonOf(rows) <==> CommonField(rows, ObjectOf(rows[0]).value, k)
  {
    hide WellFormedValue, Increasing, KeyOrder, FieldsOf, CommonKeys, ObjectOf, Constant;
    FirstRow(rows);
    FirstKids(rows);
    KeyOrderExact(rows[0].kids);
    CommonKeysExact(rows, FieldsOf(rows[0].kids), KeyOrder(rows[0].kids));
  }

  lemma CommonOfCovers(rows: seq<Value>)
    requires HasColumns(rows) && WellFormedRows(rows) && CommonOf(rows) != []
    ensures rows[0].Box? && AllCover(rows, KeyOrder(rows[0].kids)) && Increasing(KeyOrder(rows[0].kids))
    ensures ObjectOf(rows[0]) == Some(FieldsOf(rows[0].kids))
    ensures forall k :: k in CommonOf(rows) ==>
              && k in KeyOrder(rows[0].kids) && k in ObjectOf(rows[0]).value
              && CommonField(rows, ObjectOf(rows[0]).value, k)
  {
    hide WellFormedValue, Increasing, KeyOrder, FieldsOf, CommonKeys, ObjectOf, Constant;
    FirstRow(rows);
    FirstKids(rows);
    KeyOrderExact(rows[0].kids);
    CommonOfExactly(rows);
    CommonCovers(rows, FieldsOf(rows[0].kids), KeyOrder(rows[0].kids));
  }

  /** The document with the common fields moved out of the rows. */
  ghost function Reduced(rows: seq<Value>): Value
    requires HasColumns(rows) && WellFormedRows(rows) && CommonOf(rows) != []
  {
    CommonOfCovers(rows);
    Split(KidsFor(CommonOf(rows), ObjectOf(rows[0]).value), Elided(rows, KeyOrder(rows[0].kids), CommonOf(rows)))
  }

  /** The work of both loops. */
  function ElisionWork(rows: seq<Value>): nat
    requires HasColumns(rows)
  {
    FirstRow(rows);
    Times(|KeyOrder(rows[0].kids)|, |rows|) + |rows|
  }

  /** Rows to document, once the input is known to be valid. */
  method ElideCommon(rows: seq<Value>, maxWork: u64) returns (r: Result<(bytes, nat), ReductionStatus>)
    requires maxWork < U64_MAX && WellFormedRows(rows)
    ensures r == if !HasColumns(rows) then Err(ReductionNotApplicable)
                 else if ElisionWork(rows) - |rows| > maxWork then Err(ReductionResourceLimit)
                 else if CommonOf(rows) == [] then Err(ReductionNotApplicable)
                 else if ElisionWork(rows) > maxWork then Err(ReductionResourceLimit)
                 else Ok((ToBytes(Reduced(rows)), Times(|rows|, |CommonOf(rows)|)))
  {
    hide ObjectOf, Times, CommonField, CommonKeys, Elided, ToBytes, Increasing, KeyOrder, FieldsOf, KidsFor,
         WellFormedValue;
    if !HasColumns(rows) {
      return Err(ReductionNotApplicable);
    }
    FirstRow(rows);
    var first := FieldsOf(rows[0].kids);
    var columns := KeyOrder(rows[0].kids);
    var found := FindCommon(rows, first, columns, maxWork);
    if found.None? {
      return Err(ReductionResourceLimit);
    }
    var (keys, work) := found.value;
    if keys == [] {
      return Err(ReductionNotApplicable);
    }
    CommonOfExactly(rows);
    CommonOfCovers(rows);
    var elided := ElideRows(rows, columns, keys, maxWork, work);
    if elided.None? {
      return Err(ReductionResourceLimit);
    }
    return Ok((ToBytes(Split(KidsFor(keys, first), elided.value.0)), elided.value.1));
  }

  /** What the reduced document means to its reader. */
  lemma ReducedReads(lib: Library, rows: seq<Value>)
    requires HasColumns(rows) && WellFormedRows(rows) && CommonOf(rows) != []
    ensures AllCover(rows, KeyOrder(rows[0].kids)) && Has(CommonOf(rows), ObjectOf(rows[0]).value)
    ensures Merge(lib, ToBytes(Reduced(rows)))
            == Some(RestoredAll(lib, rows, ObjectOf(rows[0]).value, KeyOrder(rows[0].kids), CommonOf(rows)))
    ensures Objects(rows).Some?
    ensures Merge(lib, ToBytes(Reduced(rows))) == Objects(rows)
            <==> AllStable(lib, rows) && !MixesZeros(rows, ObjectOf(rows[0]).value, CommonOf(rows))
  {
    hide ObjectOf, Merge, Objects, CommonField, CommonKeys, Elided, ToBytes, MergeAll, Increasing, KeyOrder,
         FieldsOf, KidsFor, WellFormedValue, Utf8, CommonOf, Stable, MixesZeros, RereadKids, RereadAll, Split,
         RestoredAll, Restored;
    CommonOfCovers(rows);
    CommonOfExactly(rows);
    var first, columns, common := ObjectOf(rows[0]).value, KeyOrder(rows[0].kids), CommonOf(rows);
    ElidedWellFormed(rows, columns, common);
    ObjectWellFormed(rows[0]);
    KidsForWellFormed(common, first);
    SplitReads(lib, KidsFor(common, first), Elided(rows, columns, common));
    MergeRestores(lib, rows, first, columns, common);
    RestoredAllExactly(lib, rows, columns, common);
  }

  datatype Elision = Elision(status: ReductionStatus, visible: Option<bytes>, omitted: nat)

  function Nothing(status: ReductionStatus): Elision {
    Elision(status, None, 0)
  }

  function StatusForError(error: TransformError): ReductionStatus {
    match error
    case NotApplicable => ReductionNotApplicable
    case ResourceLimit => ReductionResourceLimit
    case InvalidInput => ReductionInvalidInput
    case Internal => ReductionInternalError
  }

  /** The input gets as far as its rows. */
  predicate Received(input: bytes, limits: Limits, lib: Library) {
    && Len64(|input|) <= limits.maxInput && Len64(|input|) <= limits.maxMemory
    && Verdict(input, limits, lib).Ok? && RowsOf(lib, input).Some?
  }

  /** The rows have a common field, and finding and eliding it fits the budget. */
  predicate Elidable(rows: seq<Value>, maxWork: u64) {
    HasColumns(rows) && CommonOf(rows) != [] && ElisionWork(rows) <= maxWork
  }

  /**
    `JsonRepeatedValueReducer::reduce`. A candidate exists exactly when rows with a common field are reduced in time and
    bounds to a smaller document. Merging its common fields into its rows gives back the objects of the input exactly
    when their numbers are read back from their text and no common zero differs in sign; the omitted fields are the
    common ones once per row.
   */
  method ElideRepeatedValues(input: bytes, limits: Limits, slow: bool, lib: Library) returns (r: Elision)
    requires |input| <= U64_MAX && limits.maxWork < U64_MAX
    ensures r.visible.Some? <==> r.status == Applicable
    ensures r.status == Applicable <==>
            && Received(input, limits, lib) && Elidable(RowsOf(lib, input).value, limits.maxWork) && !slow
            && var visible := ToBytes(Reduced(RowsOf(lib, input).value));
            && |visible| < |input| && Len64(|visible|) <= limits.maxOutput
            && SatAdd(Len64(|visible|), Len64(|input|)) <= limits.maxMemory
    ensures r.status == Applicable ==>
              && var rows := RowsOf(lib, input).value;
              var first := ObjectOf(rows[0]).value;
              && r.visible == Some(ToBytes(Reduced(rows)))
              && r.omitted == Times(|rows|, |CommonOf(rows)|)
              && (forall k :: k in CommonOf(rows) <==> CommonField(rows, first, k))
              && AllCover(rows, KeyOrder(rows[0].kids)) && Has(CommonOf(rows), first)
              && Merge(lib, r.visible.value)
                 == Some(RestoredAll(lib, rows, first, KeyOrder(rows[0].kids), CommonOf(rows)))
              && Objects(rows).Some?
              && (Merge(lib, r.visible.value) == Objects(rows)
                  <==> Stable(lib, FromBytes(lib, input).value) && !MixesZeros(rows, first, CommonOf(rows)))
    ensures Received(input, limits, lib) ==>
              var rows := RowsOf(lib, input).value;
              && (r.status == ReductionNotApplicable
                  <==> !HasColumns(rows)
                       || (CommonOf(rows) == [] && ElisionWork(rows) - |rows| <= limits.maxWork))
              && r.status != ReductionInvalidInput
    ensures r.status == ReductionInvalidInput ==> !Accepts(lib, input)
    ensures r.status != ReductionInternalError
  {
    hide FromBytes, JsonGrammar.Parse, Merge, Objects, HasColumns, Times, Check, RowsOf, ToBytes, Reduced, CommonOf,
         ElisionWork, RestoredAll, MixesZeros, Stable, ObjectOf, KeyOrder, CommonField, Verdict;
    if Len64(|input|) > limits.maxInput || Len64(|input|) > limits.maxMemory {
      return Nothing(ReductionResourceLimit);
    }
    var valid, _ := ValidateJson(input, limits, lib);
    VerdictErrors(input, limits, lib);
    if valid.Err? {
      return Nothing(StatusForError(valid.error));
    }
    var rows := RowsOf(lib, input);
    if rows.None? {
      return Nothing(ReductionNotApplicable);
    }
    var elided := ElideCommon(rows.value, limits.maxWork);
    if elided.Err? {
      return Nothing(elided.error);
    }
    ReducedReads(lib, rows.value);
    CommonOfExactly(rows.value);
    RowsStable(lib, input);
    var (visible, omitted) := elided.value;
    if Len64(|visible|) > limits.maxOutput || SatAdd(Len64(|visible|), Len64(|input|)) > limits.maxMemory || slow {
      return Nothing(ReductionResourceLimit);
    }
    if Len64(|visible|) >= Len64(|input|) {
      return Nothing(ReductionNoImprovement);
    }
    return Elision(Applicable, Some(visible), omitted);
  }

  lemma VerdictErrors(input: bytes, limits: Limits, lib: Library)
    ensures Verdict(input, limits, lib).Err? ==> Verdict(input, limits, lib).error != Internal
    ensures Verdict(input, limits, lib) == Err(InvalidInput) ==> !Accepts(lib, input)
  {
    hide JsonGrammar.Parse, Check;
    if Len64(|input|) <= limits.maxWork && Accepts(lib, input) {
      PrintParseDocument(input);
      CheckExact(JsonGrammar.Parse(input).value.value, 0);
    }
  }

  // ----- A sign that is lost -----

  /** a */
  const FIELD: bytes := [0x61]
  /** `{"a":0.0}` and `{"a":-0.0}`, as read. */
  const SIGNED_ROWS: seq<Value> :=
    [Box(Obj, Kid(FIELD, Leaf(ZERO), NoKids)), Box(Obj, Kid(FIELD, Leaf(NEGATIVE_ZERO), NoKids))]

  /** Two rows that differ only in the sign of a zero: the field counts as common, and merging does not restore it. */
  lemma SignIsLost(lib: Library)
    ensures HasColumns(SIGNED_ROWS) && WellFormedRows(SIGNED_ROWS) && CommonOf(SIGNED_ROWS) == [FIELD]
    ensures Merge(lib, ToBytes(Reduced(SIGNED_ROWS))) != Objects(SIGNED_ROWS)
  {
    hide Merge, Objects, ToBytes, IsScalar, RestoredAll, Reduced, AllStable, WellFormedValue, Times;
    SignedRows();
    ReducedReads(lib, SIGNED_ROWS);
    assert Zero(ObjectOf(SIGNED_ROWS[1]).value[FIELD]);
    assert MixesZeros(SIGNED_ROWS, ObjectOf(SIGNED_ROWS[0]).value, [FIELD]);
  }

  lemma SignedRows()
    ensures HasColumns(SIGNED_ROWS) && WellFormedRows(SIGNED_ROWS) && CommonOf(SIGNED_ROWS) == [FIELD]
    ensures ObjectOf(SIGNED_ROWS[0]) == Some(map[FIELD := Leaf(ZERO)])
    ensures ObjectOf(SIGNED_ROWS[1]) == Some(map[FIELD := Leaf(NEGATIVE_ZERO)])
  {
    hide IsScalar;
    ZerosAreScalars();
    AsciiUtf8(FIELD);
    var a, b := Kid(FIELD, Leaf(ZERO), NoKids), Kid(FIELD, Leaf(NEGATIVE_ZERO), NoKids);
    assert FieldsOf(a) == map[FIELD := Leaf(ZERO)] && FieldsOf(b) == map[FIELD := Leaf(NEGATIVE_ZERO)];
    assert KeyOrder(a) == [FIELD];
    assert CommonField(SIGNED_ROWS, FieldsOf(a), FIELD);
    assert CommonKeys(SIGNED_ROWS, FieldsOf(a), []) == [];
    assert CommonKeys(SIGNED_ROWS, FieldsOf(a), [FIELD]) == [FIELD];
  }

  lemma ZerosAreScalars()
    ensures IsScalar(ZERO) && IsScalar(NEGATIVE_ZERO)
  {
    assert ZERO[1..] == [0x2E, 0x30] && [0x2E, 0x30][1..] == [0x30] && [0x30][1..] == [];
    assert DigitRun([0x30]) == 1 && DigitRun(ZERO) == 1;
    assert NEGATIVE_ZERO[1..] == ZERO;
  }
}
