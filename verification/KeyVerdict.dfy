/** The classification of an equality cohort: grouping by run, stability within runs, and the verdict. */
module KeyVerdict {
  import opened Base
  import opened KeyEquality

  const EXPECTED_RUNS: nat := 18
  const ROUNDS: nat := 6
  const ARM_NAMES: seq<string> := ["hooks_implicit_enabled", "hooks_explicit_enabled", "hooks_explicit_disabled"]

  datatype Verdict = Insufficient | KeyAbsent | OneShared | SessionScoped | Mixed | Incomplete

  /** A run is named by its arm and its round. */
  type RunId = (string, int)

  function ArmName(arm: Option<string>): string {
    if arm.Some? then arm.value else "None"
  }

  /** Grouping needs a round on every record: without one the conversion raises. */
  predicate HasRounds(records: seq<Record>) {
    forall i :: 0 <= i < |records| ==> records[i].round.Some?
  }

  function IdOf(r: Record): RunId
    requires r.round.Some?
  {
    (ArmName(r.arm), r.round.value)
  }

  // ----- Grouping -----

  /** The records of one run, in order. */
  function GroupOf(records: seq<Record>, id: RunId): seq<Record>
    requires HasRounds(records)
  {
    if records == [] then []
    else
      var last := records[|records| - 1];
      GroupOf(records[..|records| - 1], id) + if IdOf(last) == id then [last] else []
  }

  function Ids(records: seq<Record>): set<RunId>
    requires HasRounds(records)
  {
    set i | 0 <= i < |records| :: IdOf(records[i])
  }

  lemma {:induction false} GroupMembers(records: seq<Record>, id: RunId, r: Record)
    requires HasRounds(records)
    ensures r in GroupOf(records, id) <==> r in records && IdOf(r) == id
  {
    if records != [] {
      var front := records[..|records| - 1];
      GroupMembers(front, id, r);
      assert records == front + [records[|records| - 1]];
    }
  }

  /** `setdefault(key, []).append(record)` over all records. */
  method GroupRecords(records: seq<Record>) returns (grouped: map<RunId, seq<Record>>)
    requires HasRounds(records)
    ensures grouped.Keys == Ids(records)
    ensures forall id :: id in grouped ==> grouped[id] == GroupOf(records, id) && grouped[id] != []
  {
    hide GroupOf;
    grouped := map[];
    assert records[..0] == [];
    NoGroups();
    for i := 0 to |records|
      invariant grouped.Keys == Ids(records[..i])
      invariant forall id :: id in grouped ==> grouped[id] == GroupOf(records[..i], id) && grouped[id] != []
      invariant forall id :: id !in grouped ==> GroupOf(records[..i], id) == []
    {
      var id := IdOf(records[i]);
      GroupStep(records, i);
      var before := if id in grouped then grouped[id] else [];
      grouped := grouped[id := before + [records[i]]];
      assert Ids(records[..i + 1]) == Ids(records[..i]) + {id} by {
        IdsStep(records, i);
      }
    }
    assert records[..|records|] == records;
  }

  lemma GroupStep(records: seq<Record>, i: nat)
    requires HasRounds(records) && i < |records|
    ensures forall id :: GroupOf(records[..i + 1], id)
                         == GroupOf(records[..i], id) + if IdOf(records[i]) == id then [records[i]] else []
  {
    assert records[..i + 1][..i] == records[..i];
  }

  lemma IdsStep(records: seq<Record>, i: nat)
    requires HasRounds(records) && i < |records|
    ensures Ids(records[..i + 1]) == Ids(records[..i]) + {IdOf(records[i])}
  {
    var a, b := Ids(records[..i + 1]), Ids(records[..i]) + {IdOf(records[i])};
    forall x | x in b ensures x in a {
      if x == IdOf(records[i]) {
        assert records[..i + 1][i] == records[i];
      } else {
        var j :| 0 <= j < |records[..i]| && IdOf(records[..i][j]) == x;
        assert records[..i + 1][j] == records[..i][j];
      }
    }
    forall x | x in a ensures x in b {
      var j :| 0 <= j < |records[..i + 1]| && IdOf(records[..i + 1][j]) == x;
      if j < i {
        assert records[..i][j] == records[j];
      }
    }
  }

  lemma NoGroups()
    ensures forall id :: GroupOf([], id) == []
  {
  }

  // ----- The verdict -----

  predicate AllPresent(records: seq<Record>) {
    forall i :: 0 <= i < |records| ==> records[i].status.IsPresent?
  }

  predicate SameClass(records: seq<Record>) {
    forall i :: 0 <= i < |records| ==> records[i].keyClass == records[0].keyClass
  }

  /** The classes of the present records, without the missing one. */
  function Classes(records: seq<Record>): set<Option<nat>> {
    (set i | 0 <= i < |records| && records[i].status.IsPresent? :: records[i].keyClass) - {None}
  }

  /** `min` by request index: the first smallest. */
  function FirstOf(group: seq<Record>): (r: Record)
    requires group != []
    ensures r in group
  {
    if |group| == 1 then group[0]
    else
      var rest := FirstOf(group[1..]);
      if rest.index < group[0].index then rest else group[0]
  }

  function FirstClass(grouped: map<RunId, seq<Record>>, id: RunId): Option<nat> {
    if id in grouped && grouped[id] != [] then FirstOf(grouped[id]).keyClass else None
  }

  /** In how many of the first `n` rounds two arms start with the same class. */
  function Matches(grouped: map<RunId, seq<Record>>, left: string, right: string, n: nat): nat {
    if n == 0 then 0
    else
      Matches(grouped, left, right, n - 1)
      + if FirstClass(grouped, (left, n - 1)).Some?
           && FirstClass(grouped, (left, n - 1)) == FirstClass(grouped, (right, n - 1)) then 1 else 0
  }

  ghost predicate NoMatches(grouped: map<RunId, seq<Record>>) {
    forall a, b :: 0 <= a < b < |ARM_NAMES| ==> Matches(grouped, ARM_NAMES[a], ARM_NAMES[b], ROUNDS) == 0
  }

  ghost function Groups(records: seq<Record>): map<RunId, seq<Record>>
    requires HasRounds(records)
  {
    map id | id in Ids(records) :: GroupOf(records, id)
  }

  predicate RecordContract(records: seq<Record>, providers: nat) {
    && |records| >= EXPECTED_RUNS && providers == |records|
    && forall i :: 0 <= i < |records| ==> ArmName(records[i].arm) in ARM_NAMES && records[i].arm.Some?
  }

  ghost predicate WithinRunSame(records: seq<Record>)
    requires HasRounds(records)
  {
    |Ids(records)| == EXPECTED_RUNS
    && forall id :: id in Ids(records) ==> SameClass(GroupOf(records, id)) && AllPresent(GroupOf(records, id))
  }

  ghost function VerdictOf(records: seq<Record>, runContract: bool, providers: nat): Verdict
    requires HasRounds(records)
  {
    var allPresent := AllPresent(records) && records != [];
    if !runContract || !RecordContract(records, providers) || |Ids(records)| != EXPECTED_RUNS then Insufficient
    else if forall i :: 0 <= i < |records| ==> records[i].status.IsAbsent? then KeyAbsent
    else if allPresent && |Classes(records)| == 1 then OneShared
    else if allPresent && WithinRunSame(records) && |Classes(records)| == EXPECTED_RUNS && NoMatches(Groups(records))
    then SessionScoped
    else if allPresent then Mixed
    else Incomplete
  }

  // ----- Computing it -----

  method CountMatches(grouped: map<RunId, seq<Record>>, left: string, right: string) returns (n: nat)
    ensures n == Matches(grouped, left, right, ROUNDS)
  {
    hide FirstOf;
    n := 0;
    for r := 0 to ROUNDS
      invariant n == Matches(grouped, left, right, r)
    {
      var first := FirstClass(grouped, (left, r));
      if first.Some? && first == FirstClass(grouped, (right, r)) {
        n := n + 1;
      }
    }
  }

  /** The loop over the pairs of arms. */
  method CrossArmZero(grouped: map<RunId, seq<Record>>) returns (zero: bool)
    ensures zero <==> NoMatches(grouped)
  {
    hide Matches;
    zero := true;
    for a := 0 to |ARM_NAMES|
      invariant zero <==> forall i, j :: 0 <= i < a && i < j < |ARM_NAMES| ==>
        Matches(grouped, ARM_NAMES[i], ARM_NAMES[j], ROUNDS) == 0
    {
      for b := a + 1 to |ARM_NAMES|
        invariant zero <==>
          && (forall i, j :: 0 <= i < a && i < j < |ARM_NAMES| ==>
                Matches(grouped, ARM_NAMES[i], ARM_NAMES[j], ROUNDS) == 0)
          && forall j :: a < j < b ==> Matches(grouped, ARM_NAMES[a], ARM_NAMES[j], ROUNDS) == 0
      {
        var n := CountMatches(grouped, ARM_NAMES[a], ARM_NAMES[b]);
        if n != 0 {
          zero := false;
        }
      }
    }
  }

  /** The check over the groups. */
  method RunsStable(grouped: map<RunId, seq<Record>>) returns (same: bool)
    requires forall id :: id in grouped ==> grouped[id] != []
    ensures same <==> forall id :: id in grouped ==> SameClass(grouped[id]) && AllPresent(grouped[id])
  {
    same := true;
    var left := grouped.Keys;
    while left != {}
      invariant left <= grouped.Keys
      invariant same <==> forall id :: id in grouped && id !in left ==> SameClass(grouped[id]) && AllPresent(grouped[id])
      decreases |left|
    {
      var id :| id in left;
      left := left - {id};
      if !(SameClass(grouped[id]) && AllPresent(grouped[id])) {
        same := false;
      }
    }
  }

  /** `analyze`: `None` stands for the error raised by a record without a round. */
  method Analyze(records: seq<Record>, runContract: bool, providers: nat) returns (r: Option<Verdict>)
    ensures r.None? <==> !HasRounds(records)
    ensures r.Some? ==> r.value == VerdictOf(records, runContract, providers)
  {
    hide Classes, Matches, GroupOf;
    if !HasRounds(records) {
      return None;
    }
    var classes := Classes(records);
    var grouped := GroupRecords(records);
    assert grouped == Groups(records);
    var observed := |grouped| == EXPECTED_RUNS;
    assert |grouped| == |grouped.Keys|;
    var stable := RunsStable(grouped);
    var withinRunSame := observed && stable;
    var zero := CrossArmZero(grouped);
    var allPresent := AllPresent(records) && records != [];
    var unique := withinRunSame && |classes| == EXPECTED_RUNS && zero;
    if !runContract || !RecordContract(records, providers) || !observed {
      return Some(Insufficient);
    }
    if forall i :: 0 <= i < |records| ==> records[i].status.IsAbsent? {
      return Some(KeyAbsent);
    }
    if allPresent && |classes| == 1 {
      return Some(OneShared);
    }
    if allPresent && unique {
      return Some(SessionScoped);
    }
    if allPresent {
      return Some(Mixed);
    }
    return Some(Incomplete);
  }

  // ----- Counting classes -----

  function Image<A, B>(s: set<A>, f: A -> B): set<B> {
    set a | a in s :: f(a)
  }

  /** An image is no larger than its domain, and as large only when nothing is merged. */
  lemma {:induction false} ImageSize<A, B>(s: set<A>, f: A -> B)
    ensures |Image(s, f)| <= |s|
    ensures |Image(s, f)| == |s| ==> forall a, b :: a in s && b in s && f(a) == f(b) ==> a == b
    decreases |s|
  {
    if s != {} {
      var x :| x in s;
      var rest := s - {x};
      ImageSize(rest, f);
      assert Image(s, f) == Image(rest, f) + {f(x)};
      if f(x) in Image(rest, f) {
        assert Image(s, f) == Image(rest, f);
      }
    }
  }

  lemma {:induction false} InjectiveImage<A, B>(s: set<A>, f: A -> B)
    requires forall a, b :: a in s && b in s && f(a) == f(b) ==> a == b
    ensures |Image(s, f)| == |s|
    decreases |s|
  {
    if s != {} {
      var x :| x in s;
      var rest := s - {x};
      InjectiveImage(rest, f);
      assert Image(s, f) == Image(rest, f) + {f(x)};
    }
  }

  /** The class a run starts with. */
  function RunClass(records: seq<Record>): RunId -> Option<nat> {
    (id: RunId) => if HasRounds(records) && GroupOf(records, id) != [] then GroupOf(records, id)[0].keyClass else None
  }

  lemma StableClass(records: seq<Record>, i: nat)
    requires HasRounds(records) && WithinRunSame(records) && i < |records|
    ensures IdOf(records[i]) in Ids(records)
    ensures records[i].keyClass == RunClass(records)(IdOf(records[i])) && records[i].status.IsPresent?
  {
    hide GroupOf;
    var id := IdOf(records[i]);
    GroupMembers(records, id, records[i]);
    var j :| 0 <= j < |GroupOf(records, id)| && GroupOf(records, id)[j] == records[i];
    assert SameClass(GroupOf(records, id));
  }

  /** With stable runs the classes are those of the runs, save a missing one. */
  lemma ClassesOfRuns(records: seq<Record>)
    requires HasRounds(records) && WithinRunSame(records)
    ensures Classes(records) == Image(Ids(records), RunClass(records)) - {None}
  {
    hide GroupOf, WithinRunSame;
    var f := RunClass(records);
    forall c | c in Classes(records) ensures c in Image(Ids(records), f) {
      var i :| 0 <= i < |records| && records[i].status.IsPresent? && records[i].keyClass == c;
      StableClass(records, i);
    }
    forall c | c in Image(Ids(records), f) && c != None ensures c in Classes(records) {
      var id :| id in Ids(records) && f(id) == c;
      var i :| 0 <= i < |records| && IdOf(records[i]) == id;
      StableClass(records, i);
    }
  }

  /** Eighteen classes over eighteen stable runs: every run has its own. */
  lemma OwnClasses(records: seq<Record>)
    requires HasRounds(records) && WithinRunSame(records) && |Classes(records)| == EXPECTED_RUNS
    ensures forall a, b :: a in Ids(records) && b in Ids(records) && RunClass(records)(a) == RunClass(records)(b) ==> a == b
    ensures forall a :: a in Ids(records) ==> RunClass(records)(a).Some?
  {
    hide RunClass;
    var f := RunClass(records);
    var image := Image(Ids(records), f);
    ClassesOfRuns(records);
    ImageSize(Ids(records), f);
    WithoutNone(image);
  }

  lemma WithoutNone(image: set<Option<nat>>)
    ensures None in image ==> |image - {None}| < |image|
    ensures None !in image ==> image - {None} == image
  {
  }

  lemma GroupSome(records: seq<Record>, id: RunId)
    requires HasRounds(records)
    ensures id in Ids(records) <==> GroupOf(records, id) != []
  {
    hide GroupOf;
    if id in Ids(records) {
      var i :| 0 <= i < |records| && IdOf(records[i]) == id;
      GroupMembers(records, id, records[i]);
    }
    if GroupOf(records, id) != [] {
      GroupMembers(records, id, GroupOf(records, id)[0]);
    }
  }

  lemma ArmsDiffer(a: nat, b: nat)
    requires a < b < |ARM_NAMES|
    ensures ARM_NAMES[a] != ARM_NAMES[b]
  {
    assert ARM_NAMES[0][6] != ARM_NAMES[1][6];
    assert |ARM_NAMES[2]| != |ARM_NAMES[0]| && |ARM_NAMES[2]| != |ARM_NAMES[1]|;
  }

  /** With stable runs the first record of a run shows the run's class. */
  lemma FirstIsRun(records: seq<Record>, id: RunId)
    requires HasRounds(records) && WithinRunSame(records)
    ensures FirstClass(Groups(records), id) == if id in Ids(records) then RunClass(records)(id) else None
  {
    hide GroupOf, FirstOf;
    GroupSome(records, id);
    if id in Ids(records) {
      var group := GroupOf(records, id);
      assert SameClass(group);
      var first := FirstOf(group);
      var i :| 0 <= i < |group| && group[i] == first;
    }
  }

  lemma {:induction false} NoMatch(records: seq<Record>, left: string, right: string, n: nat)
    requires HasRounds(records) && WithinRunSame(records) && |Classes(records)| == EXPECTED_RUNS && left != right
    ensures Matches(Groups(records), left, right, n) == 0
  {
    hide GroupOf, FirstClass, RunClass, WithinRunSame, Classes;
    if n > 0 {
      NoMatch(records, left, right, n - 1);
      OwnClasses(records);
      FirstIsRun(records, (left, n - 1));
      FirstIsRun(records, (right, n - 1));
    }
  }

  /** The cross-arm check adds nothing to the class count: it already follows by counting. */
  lemma CrossArmFollows(records: seq<Record>)
    requires HasRounds(records) && WithinRunSame(records) && |Classes(records)| == EXPECTED_RUNS
    ensures NoMatches(Groups(records))
  {
    hide Matches, WithinRunSame, Classes, HasRounds;
    forall a, b | 0 <= a < b < |ARM_NAMES|
      ensures Matches(Groups(records), ARM_NAMES[a], ARM_NAMES[b], ROUNDS) == 0
    {
      ArmsDiffer(a, b);
      NoMatch(records, ARM_NAMES[a], ARM_NAMES[b], ROUNDS);
    }
  }

  /** Classes that tell exactly the runs apart. */
  predicate ClassPerRun(records: seq<Record>)
    requires HasRounds(records)
  {
    && AllPresent(records) && (forall i :: 0 <= i < |records| ==> records[i].keyClass.Some?)
    && forall i, j :: 0 <= i < |records| && 0 <= j < |records| ==>
      (records[i].keyClass == records[j].keyClass <==> IdOf(records[i]) == IdOf(records[j]))
  }

  lemma StableFromClasses(records: seq<Record>)
    requires HasRounds(records) && ClassPerRun(records) && |Ids(records)| == EXPECTED_RUNS
    ensures WithinRunSame(records) && |Classes(records)| == EXPECTED_RUNS
  {
    hide GroupOf;
    forall id | id in Ids(records)
      ensures SameClass(GroupOf(records, id)) && AllPresent(GroupOf(records, id))
    {
      forall i | 0 <= i < |GroupOf(records, id)|
        ensures GroupOf(records, id)[i].keyClass == GroupOf(records, id)[0].keyClass
        ensures GroupOf(records, id)[i].status.IsPresent?
      {
        GroupMembers(records, id, GroupOf(records, id)[i]);
        GroupMembers(records, id, GroupOf(records, id)[0]);
      }
    }
    var f := RunClass(records);
    forall a, b | a in Ids(records) && b in Ids(records) && f(a) == f(b)
      ensures a == b
    {
      var i :| 0 <= i < |records| && IdOf(records[i]) == a;
      var j :| 0 <= j < |records| && IdOf(records[j]) == b;
      StableClass(records, i);
      StableClass(records, j);
    }
    forall id | id in Ids(records) ensures f(id) != None {
      var i :| 0 <= i < |records| && IdOf(records[i]) == id;
      StableClass(records, i);
    }
    InjectiveImage(Ids(records), f);
    ClassesOfRuns(records);
    WithoutNone(Image(Ids(records), f));
  }

  lemma ClassesFromStable(records: seq<Record>)
    requires HasRounds(records) && WithinRunSame(records) && |Classes(records)| == EXPECTED_RUNS
    ensures ClassPerRun(records)
  {
    hide GroupOf, RunClass, WithinRunSame, Classes;
    OwnClasses(records);
    forall i | 0 <= i < |records|
      ensures records[i].keyClass == RunClass(records)(IdOf(records[i])) && records[i].status.IsPresent?
      ensures IdOf(records[i]) in Ids(records)
    {
      StableClass(records, i);
    }
  }

  /** Session-scoped means: under the contracts, eighteen runs, and classes that tell exactly the runs apart. */
  lemma SessionScopedExactly(records: seq<Record>, runContract: bool, providers: nat)
    requires HasRounds(records)
    ensures VerdictOf(records, runContract, providers) == SessionScoped <==>
            && runContract && RecordContract(records, providers) && |Ids(records)| == EXPECTED_RUNS
            && ClassPerRun(records)
  {
    hide GroupOf, RunClass, Matches, Classes, Ids;
    if WithinRunSame(records) && |Classes(records)| == EXPECTED_RUNS {
      CrossArmFollows(records);
      ClassesFromStable(records);
    }
    if |Ids(records)| == EXPECTED_RUNS && ClassPerRun(records) {
      StableFromClasses(records);
      CrossArmFollows(records);
      assert records != [] ==> records[0].status.IsPresent?;
    }
  }

  /**
    For records handed out by the observer after any sequence of steps: session-scoped means that every request carried
    a key, that keys are constant within each run, and that no two runs share one.
   */
  lemma SessionScopedKeys(steps: seq<Step>, runContract: bool, providers: nat)
    requires HasRounds(Run(steps).records)
    ensures var records := Run(steps).records;
            var log := Log(steps);
            |records| == |log| &&
            (VerdictOf(records, runContract, providers) == SessionScoped <==>
             && runContract && RecordContract(records, providers) && |Ids(records)| == EXPECTED_RUNS
             && (forall i :: 0 <= i < |log| ==> log[i].Present?)
             && forall i, j :: 0 <= i < |log| && 0 <= j < |log| ==>
                (log[i].Present? && log[j].Present? ==>
                   (log[i].key == log[j].key <==> IdOf(records[i]) == IdOf(records[j]))))
  {
    hide Run, Log, VerdictOf, Dense, Ids, RecordContract;
    var records, log := Run(steps).records, Log(steps);
    RunFaithful(steps);
    SessionScopedExactly(records, runContract, providers);
    forall i, j | 0 <= i < |log| && 0 <= j < |log| && log[i].Present? && log[j].Present?
      ensures records[i].keyClass == records[j].keyClass <==> log[i].key == log[j].key
    {
      ClassIffKey(steps, i, j);
    }
  }
}
