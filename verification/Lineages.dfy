/** Tool results followed through a session: one lineage per call and exact fingerprint. */
module Lineages {
  import opened Base
  import opened Sorting

  datatype Row = Row(
    database: string,
    session: string,
    request: int,
    ordinal: int,
    blockId: string,
    snapshot: string,
    kind: string,
    rawBytes: int,
    tokens: int,
    exact: Option<string>,
    semantic: Option<string>,
    callId: Option<string>)

  const TOOL_RESULT: string := "tool_result"

  /** Absent or empty. */
  predicate Missing(text: Option<string>) {
    text.None? || text.value == ""
  }

  function Text(text: Option<string>): string {
    if text.Some? then text.value else ""
  }

  predicate Included(r: Row) {
    !Missing(r.callId) && !Missing(r.exact)
  }

  /** Identity of a lineage. */
  type LineageKey = (string, string, string, string)

  function KeyOf(r: Row): LineageKey {
    (r.database, r.session, Text(r.callId), Text(r.exact))
  }

  type SemanticKey = (string, string, string)

  function SemanticKeyOf(r: Row): SemanticKey {
    (r.database, r.session, Text(r.semantic))
  }

  function OrderKey(r: Row): SortKey {
    [Str(r.database), Str(r.session), Num(r.request), Num(r.ordinal), Str(r.blockId)]
  }

  /** The mutable part of a lineage while rows are read. */
  datatype Lineage = Lineage(key: LineageKey, first: int, occurrences: seq<Row>, exactAgain: nat, semanticAgain: nat)

  // ----- What a lineage is -----

  /** The rows of one lineage, in order. */
  function Occurrences(rows: seq<Row>, key: LineageKey): seq<Row> {
    if rows == [] then []
    else
      var last := rows[|rows| - 1];
      Occurrences(rows[..|rows| - 1], key) + if Included(last) && KeyOf(last) == key then [last] else []
  }

  function CountAfter(rows: seq<Row>, first: int): nat {
    if rows == [] then 0
    else CountAfter(rows[..|rows| - 1], first) + if rows[|rows| - 1].request > first then 1 else 0
  }

  /** A later row of another lineage with the founder's meaning. */
  predicate Echoes(r: Row, founder: Row) {
    && Included(r) && !Missing(r.semantic) && !Missing(founder.semantic) && SemanticKeyOf(r) == SemanticKeyOf(founder)
    && KeyOf(r) != KeyOf(founder) && r.request > founder.request
  }

  function CountEchoes(rows: seq<Row>, founder: Row): nat {
    if rows == [] then 0
    else CountEchoes(rows[..|rows| - 1], founder) + if Echoes(rows[|rows| - 1], founder) then 1 else 0
  }

  /** The lineage of a key with occurrences. */
  function LineageOf(rows: seq<Row>, key: LineageKey): Lineage
    requires Occurrences(rows, key) != []
  {
    var occurrences := Occurrences(rows, key);
    var founder := occurrences[0];
    Lineage(key, founder.request, occurrences, CountAfter(occurrences, founder.request), CountEchoes(rows, founder))
  }

  type Active = map<LineageKey, Lineage>

  ghost predicate Tracks(active: Active, rows: seq<Row>) {
    && (forall k :: k in active <==> Occurrences(rows, k) != [])
    && forall k :: k in active ==> active[k] == LineageOf(rows, k)
  }

  type SemanticIndex = map<SemanticKey, seq<LineageKey>>

  function Entries(index: SemanticIndex, key: SemanticKey): seq<LineageKey> {
    if key in index then index[key] else []
  }

  predicate Distinct(keys: seq<LineageKey>) {
    forall i, j :: 0 <= i < j < |keys| ==> keys[i] != keys[j]
  }

  predicate FoundedWith(l: Lineage, s: SemanticKey) {
    l.occurrences != [] && !Missing(l.occurrences[0].semantic) && SemanticKeyOf(l.occurrences[0]) == s
  }

  /** Under a meaning: exactly the lineages founded with it, each once. */
  ghost predicate Indexes(index: SemanticIndex, active: Active) {
    && (forall s :: Distinct(Entries(index, s)))
    && forall s, k :: k in Entries(index, s) <==> k in active && FoundedWith(active[k], s)
  }

  /** Rows in the order they are read: a session's requests never go back. */
  ghost predicate Ordered(rows: seq<Row>) {
    forall i, j :: 0 <= i < j < |rows| && rows[i].database == rows[j].database && rows[i].session == rows[j].session ==>
      rows[i].request <= rows[j].request
  }

  lemma SortOrders(rows: seq<Row>)
    ensures Ordered(SortOn(rows, OrderKey))
    ensures multiset(SortOn(rows, OrderKey)) == multiset(rows)
  {
    hide SortOn;
    SortOnSorted(rows, OrderKey);
    var s := SortOn(rows, OrderKey);
    forall i, j | 0 <= i < j < |s| && s[i].database == s[j].database && s[i].session == s[j].session
      ensures s[i].request <= s[j].request
    {
      assert NotAfter(s[i], s[j], OrderKey);
      if s[j].request < s[i].request {
        RequestDecides(s[j], s[i]);
      }
    }
  }

  lemma RequestDecides(a: Row, b: Row)
    requires a.database == b.database && a.session == b.session && a.request < b.request
    ensures KeyLess(OrderKey(a), OrderKey(b))
  {
    hide StringLess;
    StringOrder(a.database, a.database, a.database);
    var x, y := OrderKey(a), OrderKey(b);
    assert x[1..][1..][0] == Num(a.request) && y[1..][1..][0] == Num(b.request);
    assert KeyLess(x[1..][1..], y[1..][1..]);
    assert x[1..][0] == y[1..][0];
    assert KeyLess(x[1..], y[1..]);
  }

  // ----- One row -----

  lemma OccurrencesStep(rows: seq<Row>, r: Row, key: LineageKey)
    ensures Occurrences(rows + [r], key)
            == Occurrences(rows, key) + if Included(r) && KeyOf(r) == key then [r] else []
  {
    assert (rows + [r])[..|rows|] == rows;
  }

  lemma EchoesStep(rows: seq<Row>, r: Row, founder: Row)
    ensures CountEchoes(rows + [r], founder) == CountEchoes(rows, founder) + if Echoes(r, founder) then 1 else 0
  {
    assert (rows + [r])[..|rows|] == rows;
  }

  lemma AfterStep(rows: seq<Row>, r: Row, first: int)
    ensures CountAfter(rows + [r], first) == CountAfter(rows, first) + if r.request > first then 1 else 0
  {
    assert (rows + [r])[..|rows|] == rows;
  }

  /** Nothing read before a founder is later than it. */
  lemma {:induction false} NoEchoesBefore(rows: seq<Row>, founder: Row)
    requires forall i :: 0 <= i < |rows| && rows[i].database == founder.database && rows[i].session == founder.session
               ==> rows[i].request <= founder.request
    ensures CountEchoes(rows, founder) == 0
  {
    if rows != [] {
      NoEchoesBefore(rows[..|rows| - 1], founder);
    }
  }

  predicate Bumped(l: Lineage, row: Row) {
    FoundedWith(l, SemanticKeyOf(row)) && !Missing(row.semantic) && l.key != KeyOf(row) && row.request > l.first
  }

  /** What reading an included row does to one lineage. */
  function Advanced(l: Lineage, row: Row): Lineage {
    if l.key == KeyOf(row) then
      l.(occurrences := l.occurrences + [row], exactAgain := l.exactAgain + if row.request > l.first then 1 else 0)
    else if Bumped(l, row) then l.(semanticAgain := l.semanticAgain + 1)
    else l
  }

  /** The lineage a row continues is what it was, advanced. */
  lemma LineageAdvances(rows: seq<Row>, row: Row, key: LineageKey)
    requires Included(row) && Occurrences(rows, key) != []
    ensures Occurrences(rows + [row], key) != []
    ensures LineageOf(rows + [row], key) == Advanced(LineageOf(rows, key), row)
  {
    hide Occurrences, CountAfter, CountEchoes, Included;
    var occurrences := Occurrences(rows, key);
    var founder := occurrences[0];
    OccurrencesStep(rows, row, key);
    EchoesStep(rows, row, founder);
    AfterStep(occurrences, row, founder.request);
    FounderKey(rows, key);
    assert (occurrences + [row])[0] == founder;
    assert occurrences + [] == occurrences;
  }

  lemma {:induction false} FounderKey(rows: seq<Row>, key: LineageKey)
    ensures forall r :: r in Occurrences(rows, key) ==> KeyOf(r) == key && Included(r) && r in rows
  {
    if rows != [] {
      FounderKey(rows[..|rows| - 1], key);
    }
  }

  /** A row without a lineage founds one. */
  lemma LineageFounded(rows: seq<Row>, row: Row)
    requires Included(row) && Occurrences(rows, KeyOf(row)) == [] && Ordered(rows + [row])
    ensures Occurrences(rows + [row], KeyOf(row)) == [row]
    ensures LineageOf(rows + [row], KeyOf(row)) == Lineage(KeyOf(row), row.request, [row], 0, 0)
  {
    hide Occurrences, CountEchoes, Included;
    OccurrencesStep(rows, row, KeyOf(row));
    assert [] + [row] == [row];
    AfterStep([], row, row.request);
    var all := rows + [row];
    forall i | 0 <= i < |all| && all[i].database == row.database && all[i].session == row.session
      ensures all[i].request <= row.request
    {
      assert all[|rows|] == row;
    }
    NoEchoesBefore(all, row);
  }

  /** An excluded row leaves every lineage alone. */
  lemma LineageIgnores(rows: seq<Row>, row: Row, key: LineageKey)
    requires !Included(row)
    ensures Occurrences(rows + [row], key) == Occurrences(rows, key)
    ensures Occurrences(rows, key) != [] ==> LineageOf(rows + [row], key) == LineageOf(rows, key)
  {
    hide Occurrences, CountEchoes;
    OccurrencesStep(rows, row, key);
    assert Occurrences(rows, key) + [] == Occurrences(rows, key);
    if Occurrences(rows, key) != [] {
      EchoesStep(rows, row, Occurrences(rows, key)[0]);
    }
  }

  /** The loop over the lineages of one meaning. */
  method BumpRelated(active: Active, keys: seq<LineageKey>, row: Row) returns (r: Active)
    requires Distinct(keys) && forall k :: k in keys ==> k in active
    ensures BumpedFrom(active, keys, row, r)
  {
    r := active;
    for i := 0 to |keys|
      invariant BumpedFrom(active, keys[..i], row, r)
    {
      var k := keys[i];
      assert k !in keys[..i] && keys[..i + 1] == keys[..i] + [k];
      if k != KeyOf(row) && row.request > r[k].first {
        r := r[k := r[k].(semanticAgain := r[k].semanticAgain + 1)];
      }
    }
    assert keys[..|keys|] == keys;
  }

  /** The lineages after one more included row. */
  ghost predicate Follows(active: Active, row: Row, after: Active) {
    && after.Keys == active.Keys + {KeyOf(row)}
    && (forall k :: k in active ==> after[k] == Advanced(active[k], row))
    && (KeyOf(row) !in active ==> after[KeyOf(row)] == Lineage(KeyOf(row), row.request, [row], 0, 0))
  }

  lemma TracksRow(active: Active, rows: seq<Row>, row: Row, after: Active)
    requires Included(row) && Ordered(rows + [row]) && Tracks(active, rows) && Follows(active, row, after)
    ensures Tracks(after, rows + [row])
  {
    hide Occurrences, Included, Ordered, LineageOf, Advanced;
    forall k
      ensures k in after <==> Occurrences(rows + [row], k) != []
      ensures k in after ==> after[k] == LineageOf(rows + [row], k)
    {
      OccurrencesStep(rows, row, k);
      if k in active {
        LineageAdvances(rows, row, k);
      } else if k == KeyOf(row) {
        LineageFounded(rows, row);
      }
    }
  }

  /** The entry of a new lineage, if it has a meaning. */
  function Entered(index: SemanticIndex, row: Row, founded: bool): SemanticIndex {
    if founded && !Missing(row.semantic)
    then index[SemanticKeyOf(row) := Entries(index, SemanticKeyOf(row)) + [KeyOf(row)]]
    else index
  }

  lemma EnteredAt(index: SemanticIndex, row: Row, founded: bool, s: SemanticKey)
    ensures Entries(Entered(index, row, founded), s)
            == if founded && !Missing(row.semantic) && s == SemanticKeyOf(row) then Entries(index, s) + [KeyOf(row)]
               else Entries(index, s)
  {
  }

  lemma FoundedFollows(l: Lineage, row: Row, s: SemanticKey)
    requires l.occurrences != []
    ensures FoundedWith(Advanced(l, row), s) <==> FoundedWith(l, s)
  {
  }

  lemma IndexesRow(active: Active, index: SemanticIndex, row: Row, founded: bool, after: Active)
    requires Indexes(index, active) && Follows(active, row, after) && (founded <==> KeyOf(row) !in active)
    requires forall k :: k in active ==> active[k].occurrences != [] && active[k].key == k
    ensures Indexes(Entered(index, row, founded), after)
  {
    hide Entries, Entered, Advanced, FoundedWith;
    var index' := Entered(index, row, founded);
    forall s, k
      ensures k in Entries(index', s) <==> k in after && FoundedWith(after[k], s)
    {
      EnteredAt(index, row, founded, s);
      assert k in Entries(index, s) <==> k in active && FoundedWith(active[k], s);
      if k in active {
        FoundedFollows(active[k], row, s);
      } else {
        FoundedNew(row, s);
      }
    }
    forall s ensures Distinct(Entries(index', s)) {
      EnteredAt(index, row, founded, s);
      assert KeyOf(row) in Entries(index, s) ==> KeyOf(row) in active;
    }
  }

  lemma FoundedNew(row: Row, s: SemanticKey)
    ensures FoundedWith(Lineage(KeyOf(row), row.request, [row], 0, 0), s)
            <==> !Missing(row.semantic) && s == SemanticKeyOf(row)
  {
  }

  lemma TrackedShape(active: Active, rows: seq<Row>)
    requires Tracks(active, rows)
    ensures forall k :: k in active ==> active[k].occurrences != [] && active[k].key == k
  {
    hide Occurrences;
  }

  /** The lineage of the row before the row is appended: founded, or seen again. */
  function Enlisted(active: Active, row: Row): Active {
    var key := KeyOf(row);
    if key !in active then active[key := Lineage(key, row.request, [], 0, 0)]
    else if row.request > active[key].first then active[key := active[key].(exactAgain := active[key].exactAgain + 1)]
    else active
  }

  /** The lineages of the row's meaning, its own set aside. */
  ghost predicate BumpedFrom(before: Active, related: seq<LineageKey>, row: Row, after: Active) {
    && after.Keys == before.Keys
    && forall k :: k in before ==>
      after[k] == if k in related && k != KeyOf(row) && row.request > before[k].first
                  then before[k].(semanticAgain := before[k].semanticAgain + 1)
                  else before[k]
  }

  lemma StepFollows(active: Active, row: Row, related: seq<LineageKey>, bumped: Active)
    requires forall k :: k in active ==> active[k].key == k
    requires BumpedFrom(Enlisted(active, row), related, row, bumped)
    requires forall k :: k in active && k != KeyOf(row) ==>
               (k in related <==> !Missing(row.semantic) && FoundedWith(active[k], SemanticKeyOf(row)))
    ensures KeyOf(row) in bumped
    ensures Follows(active, row, bumped[KeyOf(row) := bumped[KeyOf(row)].(occurrences := bumped[KeyOf(row)].occurrences + [row])])
  {
    hide SemanticKeyOf, FoundedWith, Missing;
    assert [] + [row] == [row];
  }

  /** One included row: its lineage is found or founded, related lineages are bumped, and the row is appended. */
  method ReadRow(active: Active, index: SemanticIndex, row: Row, ghost rows: seq<Row>)
    returns (after: Active, index': SemanticIndex, founded: bool)
    requires Included(row) && Ordered(rows + [row])
    requires Tracks(active, rows) && Indexes(index, active)
    ensures Tracks(after, rows + [row]) && Indexes(index', after)
    ensures after.Keys == active.Keys + {KeyOf(row)} && (founded <==> KeyOf(row) !in active)
  {
    hide Occurrences, Included, Ordered, LineageOf, Tracks, SemanticKeyOf, Indexes, FoundedWith, Advanced, Missing;
    var key := KeyOf(row);
    after, index', founded := active, index, false;
    TrackedShape(active, rows);
    if key !in active {
      founded := true;
      after := active[key := Lineage(key, row.request, [], 0, 0)];
      if !Missing(row.semantic) {
        index' := index[SemanticKeyOf(row) := Entries(index, SemanticKeyOf(row)) + [key]];
      }
    } else if row.request > active[key].first {
      after := active[key := active[key].(exactAgain := active[key].exactAgain + 1)];
    }
    RelatedDistinct(active, index, row, founded);
    RelatedExactly(active, index, row, founded);
    ghost var related: seq<LineageKey> := if Missing(row.semantic) then [] else Entries(index', SemanticKeyOf(row));
    ghost var enlisted := after;
    if !Missing(row.semantic) {
      after := BumpRelated(after, Entries(index', SemanticKeyOf(row)), row);
    }
    assert BumpedFrom(enlisted, related, row, after);
    StepFollows(active, row, related, after);
    after := after[key := after[key].(occurrences := after[key].occurrences + [row])];
    TracksRow(active, rows, row, after);
    IndexesRow(active, index, row, founded, after);
  }

  lemma RelatedDistinct(active: Active, index: SemanticIndex, row: Row, founded: bool)
    requires Indexes(index, active) && (founded <==> KeyOf(row) !in active)
    ensures Distinct(Entries(Entered(index, row, founded), SemanticKeyOf(row)))
    ensures forall k :: k in Entries(Entered(index, row, founded), SemanticKeyOf(row)) ==>
              k in active || k == KeyOf(row)
  {
    var s := SemanticKeyOf(row);
    assert KeyOf(row) in Entries(index, s) ==> KeyOf(row) in active;
  }

  lemma RelatedExactly(active: Active, index: SemanticIndex, row: Row, founded: bool)
    requires Indexes(index, active) && (founded <==> KeyOf(row) !in active)
    ensures forall k :: k in active && k != KeyOf(row) ==>
              (k in Entries(Entered(index, row, founded), SemanticKeyOf(row))
               <==> FoundedWith(active[k], SemanticKeyOf(row)))
  {
  }

  // ----- All rows -----

  function ToolRows(rows: seq<Row>): seq<Row> {
    if rows == [] then []
    else (if rows[0].kind == TOOL_RESULT then [rows[0]] else []) + ToolRows(rows[1..])
  }

  datatype Exclusions = Exclusions(missingCall: nat, missingExact: nat)

  function Excluded(rows: seq<Row>): Exclusions {
    if rows == [] then Exclusions(0, 0)
    else
      var last, e := rows[|rows| - 1], Excluded(rows[..|rows| - 1]);
      if Missing(last.callId) then e.(missingCall := e.missingCall + 1)
      else if Missing(last.exact) then e.(missingExact := e.missingExact + 1)
      else e
  }

  lemma ExcludedStep(rows: seq<Row>, r: Row)
    ensures Excluded(rows + [r]) == var e := Excluded(rows);
                                    if Missing(r.callId) then e.(missingCall := e.missingCall + 1)
                                    else if Missing(r.exact) then e.(missingExact := e.missingExact + 1)
                                    else e
  {
    assert (rows + [r])[..|rows|] == rows;
  }

  /** The occurrences of all listed lineages together. */
  function TotalOccurrences(rows: seq<Row>, keys: seq<LineageKey>): nat {
    if keys == [] then 0 else |Occurrences(rows, keys[0])| + TotalOccurrences(rows, keys[1..])
  }

  lemma {:induction false} TotalStep(rows: seq<Row>, r: Row, keys: seq<LineageKey>)
    requires Distinct(keys)
    ensures TotalOccurrences(rows + [r], keys)
            == TotalOccurrences(rows, keys) + if Included(r) && KeyOf(r) in keys then 1 else 0
  {
    hide Occurrences, Included;
    if keys != [] {
      OccurrencesStep(rows, r, keys[0]);
      TotalStep(rows, r, keys[1..]);
      assert keys[0] !in keys[1..];
    }
  }

  lemma {:induction false} TotalNew(rows: seq<Row>, keys: seq<LineageKey>, key: LineageKey)
    ensures TotalOccurrences(rows, keys + [key]) == TotalOccurrences(rows, keys) + |Occurrences(rows, key)|
  {
    hide Occurrences;
    if keys == [] {
      assert (keys + [key])[1..] == [];
    } else {
      assert (keys + [key])[1..] == keys[1..] + [key];
      TotalNew(rows, keys[1..], key);
    }
  }

  /** The keys of the lineages, in the order they were founded. */
  ghost predicate Lists(order: seq<LineageKey>, active: Active) {
    Distinct(order) && forall k :: k in order <==> k in active
  }

  /** The loop over the ordered rows. */
  method ReadRows(ordered: seq<Row>) returns (active: Active, order: seq<LineageKey>, exclusions: Exclusions)
    requires Ordered(ordered)
    ensures Tracks(active, ordered) && Lists(order, active) && exclusions == Excluded(ordered)
    ensures |ordered| == exclusions.missingCall + exclusions.missingExact + TotalOccurrences(ordered, order)
  {
    hide Occurrences, Tracks, Indexes, Ordered, Excluded, TotalOccurrences;
    active, order, exclusions := map[], [], Exclusions(0, 0);
    var index: SemanticIndex := map[];
    assert ordered[..0] == [];
    NothingRead();
    for i := 0 to |ordered|
      invariant Tracks(active, ordered[..i]) && Indexes(index, active) && Lists(order, active)
      invariant exclusions == Excluded(ordered[..i])
      invariant i == exclusions.missingCall + exclusions.missingExact + TotalOccurrences(ordered[..i], order)
    {
      var row := ordered[i];
      ghost var before := ordered[..i];
      assert ordered[..i + 1] == before + [row];
      ExcludedStep(before, row);
      TotalStep(before, row, order);
      if Missing(row.callId) {
        exclusions := exclusions.(missingCall := exclusions.missingCall + 1);
        TracksExcluded(active, before, row);
        continue;
      }
      if Missing(row.exact) {
        exclusions := exclusions.(missingExact := exclusions.missingExact + 1);
        TracksExcluded(active, before, row);
        continue;
      }
      OrderedPrefix(ordered, i);
      var founded;
      ghost var was := active;
      active, index, founded := ReadRow(active, index, row, before);
      if founded {
        TotalNew(before + [row], order, KeyOf(row));
        FoundedOne(was, before, row);
        order := order + [KeyOf(row)];
      }
    }
    assert ordered[..|ordered|] == ordered;
  }

  lemma FoundedOne(active: Active, rows: seq<Row>, row: Row)
    requires Tracks(active, rows) && KeyOf(row) !in active && Included(row)
    ensures |Occurrences(rows + [row], KeyOf(row))| == 1
  {
    OccurrencesStep(rows, row, KeyOf(row));
  }

  lemma NothingRead()
    ensures Tracks(map[], []) && Indexes(map[], map[]) && Excluded([]) == Exclusions(0, 0)
    ensures TotalOccurrences([], []) == 0
  {
  }

  lemma OrderedPrefix(rows: seq<Row>, i: nat)
    requires Ordered(rows) && i < |rows|
    ensures Ordered(rows[..i] + [rows[i]])
  {
    assert rows[..i] + [rows[i]] == rows[..i + 1];
  }

  lemma TracksExcluded(active: Active, rows: seq<Row>, row: Row)
    requires Tracks(active, rows) && !Included(row)
    ensures Tracks(active, rows + [row])
  {
    hide Occurrences, Included, LineageOf;
    forall k
      ensures Occurrences(rows + [row], k) == Occurrences(rows, k)
      ensures k in active ==> LineageOf(rows + [row], k) == LineageOf(rows, k)
    {
      LineageIgnores(rows, row, k);
    }
  }

  // ----- Lifetimes -----

  /** A finished lineage: its last request, how many requests show it, and its token exposure. */
  datatype Lifetime = Lifetime(
    number: nat,
    lineage: Lineage,
    last: int,
    present: nat,
    afterCreation: int,
    tokens: int,
    exposure: int)

  function Requests(occurrences: seq<Row>): set<int> {
    set i | 0 <= i < |occurrences| :: occurrences[i].request
  }

  function Exposure(occurrences: seq<Row>): int {
    if occurrences == [] then 0
    else Exposure(occurrences[..|occurrences| - 1]) + occurrences[|occurrences| - 1].tokens
  }

  predicate IsLast(last: int, occurrences: seq<Row>) {
    last in Requests(occurrences) && forall i :: 0 <= i < |occurrences| ==> occurrences[i].request <= last
  }

  method Finish(number: nat, l: Lineage) returns (r: Lifetime)
    requires l.occurrences != []
    ensures r.number == number && r.lineage == l && IsLast(r.last, l.occurrences)
    ensures r.present == |Requests(l.occurrences)| && r.afterCreation == r.last - l.first
    ensures r.tokens == l.occurrences[0].tokens && r.exposure == Exposure(l.occurrences)
  {
    var last, exposure := l.occurrences[0].request, 0;
    for i := 0 to |l.occurrences|
      invariant forall j :: 0 <= j < i ==> l.occurrences[j].request <= last
      invariant exists j :: 0 <= j < |l.occurrences| && l.occurrences[j].request == last
      invariant exposure == Exposure(l.occurrences[..i])
    {
      assert l.occurrences[..i + 1][..i] == l.occurrences[..i];
      if l.occurrences[i].request > last {
        last := l.occurrences[i].request;
      }
      exposure := exposure + l.occurrences[i].tokens;
    }
    assert l.occurrences[..|l.occurrences|] == l.occurrences;
    return Lifetime(number, l, last, |Requests(l.occurrences)|, last - l.first, l.occurrences[0].tokens, exposure);
  }

  /** A founder is the earliest of its lineage. */
  lemma {:induction false} FounderFirst(rows: seq<Row>, key: LineageKey)
    requires Ordered(rows)
    ensures forall r :: r in Occurrences(rows, key) ==> Occurrences(rows, key)[0].request <= r.request
  {
    if rows != [] {
      var front, last := rows[..|rows| - 1], rows[|rows| - 1];
      FounderFirst(front, key);
      FounderKey(front, key);
      if Occurrences(front, key) != [] && Included(last) && KeyOf(last) == key {
        var founder := Occurrences(front, key)[0];
        assert founder in Occurrences(front, key);
        var i :| 0 <= i < |front| && front[i] == founder;
        assert rows[i] == founder;
      }
    }
  }

  /** A set of whole numbers is no larger than its interval. */
  lemma {:induction false} IntervalSize(s: set<int>, low: int, high: int)
    requires forall x :: x in s ==> low <= x <= high
    ensures |s| <= if low <= high then high - low + 1 else 0
    decreases if low <= high then high - low + 1 else 0
  {
    if low > high {
      assert forall x :: x !in s;
      assert s == {};
    } else {
      IntervalSize(s - {high}, low, high - 1);
    }
  }

  /** The counts of a lineage: the minimum request, the reappearances after it, and the requests that show it. */
  lemma LifetimeFacts(rows: seq<Row>, key: LineageKey, last: int)
    requires Ordered(rows) && Occurrences(rows, key) != []
    requires IsLast(last, Occurrences(rows, key))
    ensures var l := LineageOf(rows, key);
            && l.first in Requests(l.occurrences)
            && (forall r :: r in l.occurrences ==> l.first <= r.request)
            && |Requests(l.occurrences)| <= last - l.first + 1
            && l.exactAgain == CountAfter(l.occurrences, l.first)
            && l.exactAgain + Coincident(l.occurrences, l.first) == |l.occurrences|
  {
    hide Ordered, Occurrences;
    var occurrences := Occurrences(rows, key);
    FounderFirst(rows, key);
    assert occurrences[0].request in Requests(occurrences);
    forall x | x in Requests(occurrences) ensures occurrences[0].request <= x <= last {
      var i :| 0 <= i < |occurrences| && occurrences[i].request == x;
      assert occurrences[i] in occurrences;
    }
    IntervalSize(Requests(occurrences), occurrences[0].request, last);
    AfterOrCoincident(occurrences, occurrences[0].request);
  }

  /** Occurrences in the founding request itself. */
  function Coincident(rows: seq<Row>, first: int): nat {
    if rows == [] then 0
    else Coincident(rows[..|rows| - 1], first) + if rows[|rows| - 1].request == first then 1 else 0
  }

  lemma {:induction false} AfterOrCoincident(rows: seq<Row>, first: int)
    requires forall r :: r in rows ==> first <= r.request
    ensures CountAfter(rows, first) + Coincident(rows, first) == |rows|
  {
    if rows != [] {
      AfterOrCoincident(rows[..|rows| - 1], first);
    }
  }

  /** One finished lineage, against the ordered rows. */
  ghost predicate Finished(lifetime: Lifetime, number: nat, rows: seq<Row>, key: LineageKey) {
    && Occurrences(rows, key) != []
    && lifetime.number == number && lifetime.lineage == LineageOf(rows, key)
    && IsLast(lifetime.last, Occurrences(rows, key))
    && lifetime.present == |Requests(Occurrences(rows, key))|
    && lifetime.afterCreation == lifetime.last - lifetime.lineage.first
    && lifetime.tokens == Occurrences(rows, key)[0].tokens
    && lifetime.exposure == Exposure(Occurrences(rows, key))
  }

  /** The finished lineages are those of the ordered tool results, in founding order. */
  ghost predicate Reports(lifetimes: seq<Lifetime>, order: seq<LineageKey>, rows: seq<Row>) {
    && |lifetimes| == |order| && Distinct(order)
    && (forall k :: k in order <==> Occurrences(rows, k) != [])
    && forall i :: 0 <= i < |order| ==> Finished(lifetimes[i], i + 1, rows, order[i])
  }

  /**
    `build_lineages`: every tool result is counted in one exclusion or is an occurrence of exactly one lineage, and the
    counts of every lineage hold against the rows.
   */
  method BuildLineages(rows: seq<Row>)
    returns (lifetimes: seq<Lifetime>, exclusions: Exclusions, ghost order: seq<LineageKey>)
    ensures var ordered := SortOn(ToolRows(rows), OrderKey);
            && multiset(ordered) == multiset(ToolRows(rows)) && Ordered(ordered)
            && Reports(lifetimes, order, ordered)
            && exclusions == Excluded(ordered)
            && |ToolRows(rows)|
               == exclusions.missingCall + exclusions.missingExact + TotalOccurrences(ordered, order)
    ensures forall i :: 0 <= i < |lifetimes| ==> lifetimes[i].present <= lifetimes[i].afterCreation + 1
  {
    hide SortOn, Ordered, Occurrences, Excluded, TotalOccurrences, Tracks, ToolRows, Finished;
    var ordered := SortOn(ToolRows(rows), OrderKey);
    SortOrders(ToolRows(rows));
    assert |multiset(ordered)| == |multiset(ToolRows(rows))|;
    var active, listed, excluded := ReadRows(ordered);
    exclusions, order := excluded, listed;
    TracksAll(active, ordered);
    lifetimes := [];
    for i := 0 to |listed|
      invariant |lifetimes| == i
      invariant forall j :: 0 <= j < i ==> Finished(lifetimes[j], j + 1, ordered, order[j])
      invariant forall j :: 0 <= j < i ==> lifetimes[j].present <= lifetimes[j].afterCreation + 1
    {
      assert listed[i] in active;
      var lifetime := Finish(i + 1, active[listed[i]]);
      FinishedFacts(lifetime, active[listed[i]], i + 1, ordered, listed[i]);
      lifetimes := lifetimes + [lifetime];
    }
  }

  lemma FinishedFacts(lifetime: Lifetime, l: Lineage, number: nat, rows: seq<Row>, key: LineageKey)
    requires Ordered(rows) && Occurrences(rows, key) != [] && l == LineageOf(rows, key)
    requires lifetime.number == number && lifetime.lineage == l && IsLast(lifetime.last, l.occurrences)
    requires lifetime.present == |Requests(l.occurrences)| && lifetime.afterCreation == lifetime.last - l.first
    requires lifetime.tokens == l.occurrences[0].tokens && lifetime.exposure == Exposure(l.occurrences)
    ensures Finished(lifetime, number, rows, key) && lifetime.present <= lifetime.afterCreation + 1
  {
    hide Occurrences, Ordered, Exposure, IsLast;
    LifetimeFacts(rows, key, lifetime.last);
  }

  lemma TracksAll(active: Active, rows: seq<Row>)
    requires Tracks(active, rows)
    ensures forall k :: k in active <==> Occurrences(rows, k) != []
    ensures forall k :: k in active ==> active[k] == LineageOf(rows, k) && active[k].occurrences == Occurrences(rows, k)
  {
    hide Occurrences;
  }
}
