/** The analysis ledger: one exclusive outcome for every provider request, and the evidence that contradicts it. */
module Ledger {
  import opened Base
  import opened Sorting

  datatype Request = Request(id: Option<string>, eligible: bool)

  datatype Snapshot = Snapshot(
    request: Option<string>,
    id: Option<string>,
    completed: Option<int>,
    recovered: Option<int>,
    status: Option<string>)

  datatype Event = Event(
    requestIds: seq<string>,
    terminal: bool,
    droppedWork: Option<int>,
    reason: string,
    forwardId: Option<string>)

  datatype Outcome = Ineligible | Complete | Partial | Dropped

  datatype Note = NonTerminalSnapshot | MissingSnapshot | DropConflicts | DropConfirmed

  datatype Conflict =
    | RequestWithoutId
    | DuplicateRequest
    | SnapshotWithoutRequest
    | SnapshotForIneligible
    | MultipleTerminals
    | CompleteWithoutTimestamp
    | NonTerminal
    | DropWithoutRequest
    | DropReferencesUnknown
    | DropContradictsSnapshot
    | InvalidPartition

  datatype Record = Record(
    eligible: bool,
    outcome: Outcome,
    snapshotId: Option<string>,
    status: Option<string>,
    terminals: nat,
    notes: seq<Note>,
    dropEvents: nat,
    dropWork: int,
    reasons: seq<string>,
    forwardId: Option<string>)

  type Rows = map<string, Record>

  function Entered(eligible: bool): Record {
    Record(eligible, Ineligible, None, None, 0, [], 0, 0, [], None)
  }

  // ----- Requests -----

  /** The first request with an id: later ones are conflicts. */
  function RequestFor(requests: seq<Request>, id: string): Option<Request> {
    if requests == [] then None
    else
      match RequestFor(requests[..|requests| - 1], id)
      case Some(r) => Some(r)
      case None => if requests[|requests| - 1].id == Some(id) then Some(requests[|requests| - 1]) else None
  }

  lemma RequestStep(requests: seq<Request>, i: nat, id: string)
    requires i < |requests|
    ensures RequestFor(requests[..i + 1], id)
            == match RequestFor(requests[..i], id)
               case Some(r) => Some(r)
               case None => if requests[i].id == Some(id) then Some(requests[i]) else None
  {
    assert requests[..i + 1][..i] == requests[..i];
  }

  predicate HasIds(requests: seq<Request>) {
    forall i :: 0 <= i < |requests| ==> requests[i].id.Some?
  }

  predicate DistinctIds(requests: seq<Request>) {
    forall i, j :: 0 <= i < j < |requests| && requests[i].id.Some? ==> requests[i].id != requests[j].id
  }

  lemma {:induction false} RequestForExact(requests: seq<Request>, id: string)
    ensures RequestFor(requests, id).Some? <==> exists i :: 0 <= i < |requests| && requests[i].id == Some(id)
    ensures RequestFor(requests, id).Some? ==>
              RequestFor(requests, id).value in requests && RequestFor(requests, id).value.id == Some(id)
  {
    if requests != [] {
      var front := requests[..|requests| - 1];
      RequestForExact(front, id);
      if RequestFor(front, id).Some? {
        var i :| 0 <= i < |front| && front[i].id == Some(id);
        assert requests[i].id == Some(id);
      } else if requests[|requests| - 1].id != Some(id) {
        forall i | 0 <= i < |requests| ensures requests[i].id != Some(id) {
          if i < |front| {
            assert front[i] == requests[i];
          }
        }
      }
    }
  }

  ghost predicate EntersAll(ledger: Rows, requests: seq<Request>) {
    && (forall id :: id in ledger <==> RequestFor(requests, id).Some?)
    && forall id :: id in ledger ==> ledger[id] == Entered(RequestFor(requests, id).value.eligible)
  }

  method EnterRequests(requests: seq<Request>) returns (ledger: Rows, conflicts: multiset<Conflict>)
    ensures EntersAll(ledger, requests)
    ensures conflicts == multiset{} <==> HasIds(requests) && DistinctIds(requests)
    ensures InvalidPartition !in conflicts
  {
    hide RequestFor;
    ledger, conflicts := map[], multiset{};
    assert requests[..0] == [];
    NoRequests();
    for i := 0 to |requests|
      invariant EntersAll(ledger, requests[..i])
      invariant conflicts == multiset{} <==> HasIds(requests[..i]) && DistinctIds(requests[..i])
      invariant InvalidPartition !in conflicts
    {
      var request := requests[i];
      RequestsStep(requests, i);
      if request.id.None? {
        conflicts := conflicts + multiset{RequestWithoutId};
        assert !HasIds(requests[..i + 1]) by {
          assert requests[..i + 1][i].id.None?;
        }
        continue;
      }
      var id := request.id.value;
      RequestForExact(requests[..i], id);
      if id in ledger {
        conflicts := conflicts + multiset{DuplicateRequest};
        assert !DistinctIds(requests[..i + 1]) by {
          var j :| 0 <= j < i && requests[..i][j].id == Some(id);
          assert requests[..i + 1][j].id == requests[..i + 1][i].id;
        }
        continue;
      }
      CleanStep(requests, i);
      ledger := ledger[id := Entered(request.eligible)];
    }
    assert requests[..|requests|] == requests;
  }

  lemma NoRequests()
    ensures forall id :: RequestFor([], id) == None
  {
  }

  lemma RequestsStep(requests: seq<Request>, i: nat)
    requires i < |requests|
    ensures forall id :: RequestFor(requests[..i + 1], id)
                         == match RequestFor(requests[..i], id)
                            case Some(r) => Some(r)
                            case None => if requests[i].id == Some(id) then Some(requests[i]) else None
  {
    forall id
      ensures RequestFor(requests[..i + 1], id)
              == match RequestFor(requests[..i], id)
                 case Some(r) => Some(r)
                 case None => if requests[i].id == Some(id) then Some(requests[i]) else None
    {
      RequestStep(requests, i, id);
    }
  }

  /** A request with a new id keeps a clean prefix clean. */
  lemma CleanStep(requests: seq<Request>, i: nat)
    requires i < |requests| && requests[i].id.Some? && RequestFor(requests[..i], requests[i].id.value).None?
    ensures HasIds(requests[..i + 1]) && DistinctIds(requests[..i + 1])
            <==> HasIds(requests[..i]) && DistinctIds(requests[..i])
  {
    hide RequestFor;
    var a, b := requests[..i + 1], requests[..i];
    RequestForExact(b, requests[i].id.value);
    assert forall j :: 0 <= j < i ==> a[j] == b[j];
    assert a[i] == requests[i];
  }

  // ----- Snapshots of a request -----

  predicate IsFor(s: Snapshot, id: string) {
    s.request == Some(id)
  }

  function SnapshotsFor(snapshots: seq<Snapshot>, id: string): seq<Snapshot> {
    if snapshots == [] then []
    else
      var last := snapshots[|snapshots| - 1];
      SnapshotsFor(snapshots[..|snapshots| - 1], id) + if IsFor(last, id) then [last] else []
  }

  predicate IsEligible(ledger: Rows, id: string) {
    id in ledger && ledger[id].eligible
  }

  /** A snapshot of an eligible request. */
  predicate Owned(s: Snapshot, ledger: Rows) {
    s.request.Some? && IsEligible(ledger, s.request.value)
  }

  predicate AllOwned(snapshots: seq<Snapshot>, ledger: Rows) {
    forall i :: 0 <= i < |snapshots| ==> Owned(snapshots[i], ledger)
  }

  type Groups = map<string, seq<Snapshot>>

  function GroupAt(groups: Groups, id: string): seq<Snapshot> {
    if id in groups then groups[id] else []
  }

  lemma SnapshotsStep(snapshots: seq<Snapshot>, i: nat)
    requires i < |snapshots|
    ensures forall id :: SnapshotsFor(snapshots[..i + 1], id)
                         == SnapshotsFor(snapshots[..i], id) + if IsFor(snapshots[i], id) then [snapshots[i]] else []
  {
    assert snapshots[..i + 1][..i] == snapshots[..i];
  }

  method GroupSnapshots(ledger: Rows, snapshots: seq<Snapshot>, found: multiset<Conflict>)
    returns (groups: Groups, conflicts: multiset<Conflict>)
    requires InvalidPartition !in found
    ensures forall id :: IsEligible(ledger, id) ==> GroupAt(groups, id) == SnapshotsFor(snapshots, id)
    ensures conflicts == multiset{} <==> found == multiset{} && AllOwned(snapshots, ledger)
    ensures InvalidPartition !in conflicts
  {
    hide SnapshotsFor;
    groups, conflicts := map[], found;
    assert snapshots[..0] == [];
    NoSnapshots();
    for i := 0 to |snapshots|
      invariant forall id :: IsEligible(ledger, id) ==> GroupAt(groups, id) == SnapshotsFor(snapshots[..i], id)
      invariant conflicts == multiset{} <==> found == multiset{} && AllOwned(snapshots[..i], ledger)
      invariant InvalidPartition !in conflicts
    {
      var snapshot := snapshots[i];
      SnapshotsStep(snapshots, i);
      OwnedStep(snapshots, i, ledger);
      if snapshot.request.None? || snapshot.request.value !in ledger {
        conflicts := conflicts + multiset{SnapshotWithoutRequest};
        continue;
      }
      var id := snapshot.request.value;
      if !ledger[id].eligible {
        conflicts := conflicts + multiset{SnapshotForIneligible};
        continue;
      }
      groups := groups[id := GroupAt(groups, id) + [snapshot]];
    }
    assert snapshots[..|snapshots|] == snapshots;
  }

  lemma NoSnapshots()
    ensures forall id :: SnapshotsFor([], id) == []
  {
  }

  lemma OwnedStep(snapshots: seq<Snapshot>, i: nat, ledger: Rows)
    requires i < |snapshots|
    ensures AllOwned(snapshots[..i + 1], ledger) <==> AllOwned(snapshots[..i], ledger) && Owned(snapshots[i], ledger)
  {
    hide Owned;
    var a, b := snapshots[..i + 1], snapshots[..i];
    assert forall j :: 0 <= j < i ==> a[j] == b[j];
    assert a[i] == snapshots[i];
  }

  // ----- The outcome of a request -----

  predicate Terminal(s: Snapshot) {
    s.completed.Some? || s.recovered.Some?
  }

  function Terminals(snapshots: seq<Snapshot>): seq<Snapshot> {
    if snapshots == [] then []
    else (if Terminal(snapshots[0]) then [snapshots[0]] else []) + Terminals(snapshots[1..])
  }

  /** Snapshots without a completion time come last, then by completion time and name. */
  function SnapshotKey(s: Snapshot): SortKey {
    [Num(if s.completed.None? then 1 else 0), Num(if s.completed.Some? then s.completed.value else 0),
     Str(if s.id.Some? then s.id.value else "")]
  }

  function Candidates(snapshots: seq<Snapshot>): seq<Snapshot> {
    if Terminals(snapshots) != [] then Terminals(snapshots) else snapshots
  }

  /** The last of the sorted candidates. */
  function Chosen(snapshots: seq<Snapshot>): Option<Snapshot> {
    var sorted := SortOn(Candidates(snapshots), SnapshotKey);
    if sorted == [] then None else Some(sorted[|sorted| - 1])
  }

  predicate SaysComplete(s: Snapshot) {
    s.status == Some("complete")
  }

  function OutcomeOf(snapshots: seq<Snapshot>): Outcome {
    match Chosen(snapshots)
    case None => Dropped
    case Some(s) =>
      if Terminals(snapshots) != [] then if SaysComplete(s) then Complete else Partial else Dropped
  }

  /** The record of an eligible request with these snapshots. */
  function Decided(r: Record, snapshots: seq<Snapshot>): Record {
    var chosen := Chosen(snapshots);
    r.(outcome := OutcomeOf(snapshots), terminals := |Terminals(snapshots)|,
       snapshotId := if chosen.Some? then chosen.value.id else r.snapshotId,
       status := if chosen.Some? then chosen.value.status else r.status,
       notes := if chosen.None? then r.notes + [MissingSnapshot]
                else if Terminals(snapshots) == [] then r.notes + [NonTerminalSnapshot]
                else r.notes)
  }

  /** No conflict comes from these snapshots. */
  predicate CleanSnapshots(snapshots: seq<Snapshot>) {
    && |Terminals(snapshots)| <= 1
    && (Chosen(snapshots).Some? ==>
          Terminals(snapshots) != [] && !(SaysComplete(Chosen(snapshots).value) && Chosen(snapshots).value.completed.None?))
  }

  /** The decision for one eligible record. */
  method DecideOne(record: Record, snapshots: seq<Snapshot>, found: multiset<Conflict>)
    returns (r: Record, conflicts: multiset<Conflict>)
    requires InvalidPartition !in found
    ensures r == Decided(record, snapshots)
    ensures conflicts == multiset{} <==> found == multiset{} && CleanSnapshots(snapshots)
    ensures InvalidPartition !in conflicts
  {
    hide Terminals, SortOn;
    r, conflicts := record, found;
    var terminals := Terminals(snapshots);
    r := r.(terminals := |terminals|);
    if |terminals| > 1 {
      conflicts := conflicts + multiset{MultipleTerminals};
    }
    var sorted := SortOn(if terminals != [] then terminals else snapshots, SnapshotKey);
    if sorted != [] {
      var snapshot := sorted[|sorted| - 1];
      r := r.(snapshotId := snapshot.id, status := snapshot.status);
      if SaysComplete(snapshot) && snapshot.completed.None? {
        conflicts := conflicts + multiset{CompleteWithoutTimestamp};
      }
      if terminals != [] {
        r := r.(outcome := if SaysComplete(snapshot) then Complete else Partial);
      } else {
        r := r.(outcome := Dropped, notes := r.notes + [NonTerminalSnapshot]);
        conflicts := conflicts + multiset{NonTerminal};
      }
    } else {
      r := r.(outcome := Dropped, notes := r.notes + [MissingSnapshot]);
    }
  }

  ghost predicate DecidesAll(ledger: Rows, groups: Groups, after: Rows) {
    && after.Keys == ledger.Keys
    && forall id :: id in ledger ==>
      after[id] == if ledger[id].eligible then Decided(ledger[id], GroupAt(groups, id)) else ledger[id]
  }

  /** The loop over the ledger. */
  method DecideOutcomes(ledger: Rows, groups: Groups, found: multiset<Conflict>)
    returns (after: Rows, conflicts: multiset<Conflict>)
    requires InvalidPartition !in found
    ensures DecidesAll(ledger, groups, after)
    ensures conflicts == multiset{} <==>
            found == multiset{} && forall id :: IsEligible(ledger, id) ==> CleanSnapshots(GroupAt(groups, id))
    ensures InvalidPartition !in conflicts
  {
    hide CleanSnapshots, Decided;
    after, conflicts := ledger, found;
    var left := ledger.Keys;
    while left != {}
      invariant left <= ledger.Keys && after.Keys == ledger.Keys && InvalidPartition !in conflicts
      invariant forall id :: id in ledger ==>
        after[id] == if ledger[id].eligible && id !in left then Decided(ledger[id], GroupAt(groups, id)) else ledger[id]
      invariant conflicts == multiset{} <==>
        found == multiset{}
        && forall id :: IsEligible(ledger, id) && id !in left ==> CleanSnapshots(GroupAt(groups, id))
      decreases |left|
    {
      var id :| id in left;
      left := left - {id};
      if ledger[id].eligible {
        var record;
        record, conflicts := DecideOne(after[id], GroupAt(groups, id), conflicts);
        after := after[id := record];
      }
    }
  }

  // ----- Drop events -----

  datatype Class = TerminalDrop | AuxiliaryDrop | RequestOutcome

  datatype Diagnostic = Diagnostic(request: Option<string>, kind: Class, reason: string, work: Option<int>)

  const MISSING_SNAPSHOT: string := "missing_durable_snapshot"

  /** How often the events name an eligible request. */
  function MentionsIn(ids: seq<string>, id: string): nat {
    if ids == [] then 0 else MentionsIn(ids[..|ids| - 1], id) + if ids[|ids| - 1] == id then 1 else 0
  }

  function Mentions(events: seq<Event>, id: string): nat {
    if events == [] then 0
    else Mentions(events[..|events| - 1], id) + MentionsIn(events[|events| - 1].requestIds, id)
  }

  function Work(e: Event): int {
    if e.droppedWork.Some? then e.droppedWork.value else 0
  }

  predicate IsDropped(ledger: Rows, id: string) {
    id in ledger && ledger[id].outcome.Dropped?
  }

  /** Every event names requests, all of them eligible, and a terminal one only dropped ones. */
  predicate CleanEvent(e: Event, ledger: Rows) {
    && e.requestIds != []
    && (forall i :: 0 <= i < |e.requestIds| ==> IsEligible(ledger, e.requestIds[i]))
    && (e.terminal ==> forall i :: 0 <= i < |e.requestIds| ==> IsDropped(ledger, e.requestIds[i]))
  }

  predicate CleanEvents(events: seq<Event>, ledger: Rows) {
    forall i :: 0 <= i < |events| ==> CleanEvent(events[i], ledger)
  }

  /** What events leave of a record: everything but its drop evidence. */
  predicate SameVerdict(a: Record, b: Record) {
    && a.eligible == b.eligible && a.outcome == b.outcome && a.snapshotId == b.snapshotId && a.status == b.status
    && a.terminals == b.terminals && a.notes <= b.notes
  }

  ghost predicate SameVerdicts(a: Rows, b: Rows) {
    a.Keys == b.Keys && forall id :: id in a ==> SameVerdict(a[id], b[id])
  }

  predicate Diagnosed(diagnostics: seq<Diagnostic>, id: string) {
    exists i :: 0 <= i < |diagnostics| && diagnostics[i].request == Some(id)
  }

  datatype Evidence = Evidence(
    ledger: Rows,
    conflicts: multiset<Conflict>,
    diagnostics: seq<Diagnostic>,
    events: nat,
    work: int,
    unmatched: nat,
    unmatchedWork: int)

  /** One named request of an event. */
  function Noted(r: Record, e: Event): Record {
    r.(dropEvents := r.dropEvents + 1, dropWork := r.dropWork + Work(e),
       reasons := if e.reason in r.reasons then r.reasons else r.reasons + [e.reason],
       forwardId := if e.forwardId.Some? then e.forwardId else r.forwardId,
       notes := if !e.terminal then r.notes
                else r.notes + [if r.outcome.Dropped? then DropConfirmed else DropConflicts])
  }

  function Matched(ids: seq<string>, ledger: Rows): seq<string> {
    if ids == [] then []
    else (if IsEligible(ledger, ids[0]) then [ids[0]] else []) + Matched(ids[1..], ledger)
  }

  lemma {:induction false} MatchedExact(ids: seq<string>, ledger: Rows)
    ensures forall i :: 0 <= i < |Matched(ids, ledger)| ==>
              IsEligible(ledger, Matched(ids, ledger)[i]) && Matched(ids, ledger)[i] in ids
    ensures |Matched(ids, ledger)| <= |ids|
    ensures |Matched(ids, ledger)| == |ids| <==> forall i :: 0 <= i < |ids| ==> IsEligible(ledger, ids[i])
    ensures (forall i :: 0 <= i < |ids| ==> IsEligible(ledger, ids[i])) ==> Matched(ids, ledger) == ids
  {
    if ids != [] {
      MatchedExact(ids[1..], ledger);
      assert forall i :: 1 <= i < |ids| ==> ids[i] == ids[1..][i - 1];
      assert forall i :: 0 <= i < |ids[1..]| ==> ids[1..][i] == ids[i + 1];
    }
  }

  lemma {:induction false} MatchedMentions(ids: seq<string>, ledger: Rows, id: string)
    requires IsEligible(ledger, id)
    ensures MentionsIn(Matched(ids, ledger), id) == MentionsIn(ids, id)
  {
    hide IsEligible;
    if ids != [] {
      MatchedMentions(ids[1..], ledger, id);
      MentionsHead(ids, id);
      if IsEligible(ledger, ids[0]) {
        MentionsHead(Matched(ids, ledger), id);
        assert Matched(ids, ledger)[1..] == Matched(ids[1..], ledger);
      } else {
        assert [] + Matched(ids[1..], ledger) == Matched(ids[1..], ledger);
      }
    }
  }

  lemma {:induction false} MentionsHead(ids: seq<string>, id: string)
    requires ids != []
    ensures MentionsIn(ids, id) == (if ids[0] == id then 1 else 0) + MentionsIn(ids[1..], id)
  {
    if |ids| > 1 {
      MentionsHead(ids[..|ids| - 1], id);
      assert ids[1..][..|ids| - 2] == ids[..|ids| - 1][1..];
    }
  }

  /** What an event may leave untouched of the evidence: its counters. */
  predicate SameCounters(a: Evidence, b: Evidence) {
    a.events == b.events && a.work == b.work && a.unmatched == b.unmatched && a.unmatchedWork == b.unmatchedWork
  }

  /** One named request. */
  method NoteOne(ev: Evidence, e: Event, id: string) returns (r: Evidence)
    requires id in ev.ledger && InvalidPartition !in ev.conflicts
    ensures r.ledger == ev.ledger[id := Noted(ev.ledger[id], e)] && SameCounters(ev, r)
    ensures ev.diagnostics < r.diagnostics && Diagnosed(r.diagnostics, id)
    ensures r.conflicts == multiset{} <==> ev.conflicts == multiset{} && (e.terminal ==> IsDropped(ev.ledger, id))
    ensures InvalidPartition !in r.conflicts
  {
    r := ev;
    var record := r.ledger[id];
    if e.terminal && !record.outcome.Dropped? {
      r := r.(conflicts := r.conflicts + multiset{DropContradictsSnapshot});
    }
    var diagnostic := Diagnostic(Some(id), if e.terminal then TerminalDrop else AuxiliaryDrop, e.reason, e.droppedWork);
    DiagnosedMore(r.diagnostics, diagnostic);
    r := r.(ledger := r.ledger[id := Noted(record, e)], diagnostics := r.diagnostics + [diagnostic]);
  }

  /** Every record has one drop event more for each time it is named. */
  ghost predicate Counts(before: Rows, after: Rows, ids: seq<string>)
  {
    SameVerdicts(before, after)
    && forall id :: id in before ==> after[id].dropEvents == before[id].dropEvents + MentionsIn(ids, id)
  }

  lemma CountsStep(before: Rows, mid: Rows, ids: seq<string>, i: nat, e: Event)
    requires i < |ids| && ids[i] in mid && Counts(before, mid, ids[..i])
    ensures Counts(before, mid[ids[i] := Noted(mid[ids[i]], e)], ids[..i + 1])
  {
    hide MentionsIn;
    MentionsStep(ids, i);
  }

  ghost predicate AllDiagnosed(diagnostics: seq<Diagnostic>, ids: seq<string>) {
    forall i :: 0 <= i < |ids| ==> Diagnosed(diagnostics, ids[i])
  }

  lemma AllDiagnosedStep(before: seq<Diagnostic>, after: seq<Diagnostic>, ids: seq<string>, i: nat)
    requires i < |ids| && before <= after && AllDiagnosed(before, ids[..i]) && Diagnosed(after, ids[i])
    ensures AllDiagnosed(after, ids[..i + 1])
  {
    forall j | 0 <= j < i + 1 ensures Diagnosed(after, ids[j]) {
      if j < i {
        assert Diagnosed(before, ids[..i][j]);
        DiagnosedGrows(before, after, ids[j]);
      }
    }
  }

  lemma DiagnosedGrows(before: seq<Diagnostic>, after: seq<Diagnostic>, id: string)
    requires before <= after && Diagnosed(before, id)
    ensures Diagnosed(after, id)
  {
    var i :| 0 <= i < |before| && before[i].request == Some(id);
    assert after[i].request == Some(id);
  }

  predicate AllDropped(ledger: Rows, ids: seq<string>) {
    forall i :: 0 <= i < |ids| ==> IsDropped(ledger, ids[i])
  }

  lemma AllDroppedStep(ledger: Rows, ids: seq<string>, i: nat)
    requires i < |ids|
    ensures AllDropped(ledger, ids[..i + 1]) <==> AllDropped(ledger, ids[..i]) && IsDropped(ledger, ids[i])
  {
    hide IsDropped;
    var a, b := ids[..i + 1], ids[..i];
    assert forall j :: 0 <= j < i ==> a[j] == b[j];
    assert a[i] == ids[i];
  }

  /** The loop over the requests an event names. */
  method NoteAll(ev: Evidence, e: Event, ids: seq<string>) returns (r: Evidence)
    requires forall i :: 0 <= i < |ids| ==> ids[i] in ev.ledger
    requires InvalidPartition !in ev.conflicts
    ensures Counts(ev.ledger, r.ledger, ids) && SameCounters(ev, r)
    ensures ev.diagnostics <= r.diagnostics && AllDiagnosed(r.diagnostics, ids)
    ensures r.conflicts == multiset{} <==> ev.conflicts == multiset{} && (e.terminal ==> AllDropped(ev.ledger, ids))
    ensures InvalidPartition !in r.conflicts
  {
    hide MentionsIn, Counts, AllDiagnosed, Diagnosed, AllDropped, IsDropped;
    r := ev;
    assert ids[..0] == [];
    NothingNoted(ev);
    for i := 0 to |ids|
      invariant Counts(ev.ledger, r.ledger, ids[..i]) && SameCounters(ev, r) && r.ledger.Keys == ev.ledger.Keys
      invariant ev.diagnostics <= r.diagnostics && AllDiagnosed(r.diagnostics, ids[..i])
      invariant r.conflicts == multiset{} <==>
        ev.conflicts == multiset{} && (e.terminal ==> AllDropped(ev.ledger, ids[..i]))
      invariant InvalidPartition !in r.conflicts
    {
      var id := ids[i];
      ghost var before := r;
      AllDroppedStep(ev.ledger, ids, i);
      DroppedSame(ev.ledger, r.ledger, ids[..i], id);
      CountsStep(ev.ledger, r.ledger, ids, i, e);
      r := NoteOne(r, e, id);
      AllDiagnosedStep(before.diagnostics, r.diagnostics, ids, i);
    }
    assert ids[..|ids|] == ids;
  }

  lemma DroppedSame(before: Rows, after: Rows, ids: seq<string>, id: string)
    requires Counts(before, after, ids)
    ensures IsDropped(before, id) <==> IsDropped(after, id)
  {
  }

  lemma NothingNoted(ev: Evidence)
    ensures Counts(ev.ledger, ev.ledger, []) && AllDiagnosed(ev.diagnostics, []) && AllDropped(ev.ledger, [])
  {
  }

  lemma MentionsStep(ids: seq<string>, i: nat)
    requires i < |ids|
    ensures forall id :: MentionsIn(ids[..i + 1], id) == MentionsIn(ids[..i], id) + if ids[i] == id then 1 else 0
  {
    assert ids[..i + 1][..i] == ids[..i];
  }

  lemma DiagnosedMore(diagnostics: seq<Diagnostic>, d: Diagnostic)
    ensures forall id :: Diagnosed(diagnostics, id) ==> Diagnosed(diagnostics + [d], id)
    ensures d.request.Some? ==> Diagnosed(diagnostics + [d], d.request.value)
  {
    var all := diagnostics + [d];
    assert all[|diagnostics|] == d;
    forall id | Diagnosed(diagnostics, id) ensures Diagnosed(all, id) {
      var i :| 0 <= i < |diagnostics| && diagnostics[i].request == Some(id);
      assert all[i].request == Some(id);
    }
  }

  /** One drop event. */
  method ApplyEvent(ev: Evidence, e: Event) returns (r: Evidence)
    requires InvalidPartition !in ev.conflicts
    ensures Counts(ev.ledger, r.ledger, Matched(e.requestIds, ev.ledger)) && ev.diagnostics <= r.diagnostics
    ensures AllDiagnosed(r.diagnostics, Matched(e.requestIds, ev.ledger))
    ensures r.conflicts == multiset{} <==> ev.conflicts == multiset{} && CleanEvent(e, ev.ledger)
    ensures InvalidPartition !in r.conflicts
    ensures r.events == ev.events + 1 && r.work == ev.work + Work(e)
    ensures r.unmatched == ev.unmatched + if Identified(e, ev.ledger) then 0 else 1
  {
    hide MentionsIn, Matched, Counts, AllDiagnosed, IsDropped;
    r := ev.(events := ev.events + 1, work := ev.work + Work(e));
    var matched := Matched(e.requestIds, ev.ledger);
    MatchedExact(e.requestIds, ev.ledger);
    NothingNoted(ev);
    if matched == [] {
      r := r.(unmatched := r.unmatched + 1, unmatchedWork := r.unmatchedWork + Work(e),
              conflicts := r.conflicts + multiset{DropWithoutRequest},
              diagnostics := r.diagnostics
              + [Diagnostic(None, if e.terminal then TerminalDrop else AuxiliaryDrop, e.reason, e.droppedWork)]);
      NoneDiagnosed(r.diagnostics);
      return;
    }
    if |matched| != |e.requestIds| {
      r := r.(unmatched := r.unmatched + 1, unmatchedWork := r.unmatchedWork + Work(e),
              conflicts := r.conflicts + multiset{DropReferencesUnknown});
    }
    r := NoteAll(r, e, matched);
  }

  lemma NoneDiagnosed(diagnostics: seq<Diagnostic>)
    ensures AllDiagnosed(diagnostics, [])
  {
  }

  /** The event names requests and only eligible ones. */
  predicate Identified(e: Event, ledger: Rows) {
    e.requestIds != [] && forall i :: 0 <= i < |e.requestIds| ==> IsEligible(ledger, e.requestIds[i])
  }

  lemma {:induction false} NotMentioned(ids: seq<string>, ledger: Rows, id: string)
    requires forall i :: 0 <= i < |ids| ==> IsEligible(ledger, ids[i])
    requires !IsEligible(ledger, id)
    ensures MentionsIn(ids, id) == 0
  {
    if ids != [] {
      NotMentioned(ids[..|ids| - 1], ledger, id);
    }
  }

  // ----- All events -----

  lemma MentionsOf(events: seq<Event>, i: nat)
    requires i < |events|
    ensures forall id :: Mentions(events[..i + 1], id) == Mentions(events[..i], id) + MentionsIn(events[i].requestIds, id)
  {
    assert events[..i + 1][..i] == events[..i];
  }

  function TotalWork(events: seq<Event>): int {
    if events == [] then 0 else TotalWork(events[..|events| - 1]) + Work(events[|events| - 1])
  }

  predicate AllIdentified(events: seq<Event>, ledger: Rows) {
    forall i :: 0 <= i < |events| ==> Identified(events[i], ledger)
  }

  /** Drop evidence of a record: how often the events name it, when it is eligible. */
  ghost predicate Evidenced(before: Rows, after: Rows, events: seq<Event>) {
    SameVerdicts(before, after)
    && forall id :: id in before ==>
      after[id].dropEvents == before[id].dropEvents + if before[id].eligible then Mentions(events, id) else 0
  }

  lemma EvidencedStep(before: Rows, mid: Rows, after: Rows, events: seq<Event>, i: nat)
    requires i < |events| && Evidenced(before, mid, events[..i])
    requires Counts(mid, after, Matched(events[i].requestIds, mid))
    ensures Evidenced(before, after, events[..i + 1])
  {
    hide MentionsIn, Matched, Mentions;
    MentionsOf(events, i);
    var ids := events[i].requestIds;
    MatchedExact(ids, mid);
    forall id | id in before
      ensures MentionsIn(Matched(ids, mid), id) == if before[id].eligible then MentionsIn(ids, id) else 0
    {
      if before[id].eligible {
        MatchedMentions(ids, mid, id);
      } else {
        NotMentioned(Matched(ids, mid), mid, id);
      }
    }
    PrefixTransitive(before, mid, after);
  }

  lemma PrefixTransitive(before: Rows, mid: Rows, after: Rows)
    requires SameVerdicts(before, mid) && SameVerdicts(mid, after)
    ensures SameVerdicts(before, after)
  {
    forall id | id in before ensures SameVerdict(before[id], after[id]) {
      assert SameVerdict(before[id], mid[id]) && SameVerdict(mid[id], after[id]);
    }
  }

  lemma CleanSame(before: Rows, after: Rows, e: Event)
    requires SameVerdicts(before, after)
    ensures CleanEvent(e, before) <==> CleanEvent(e, after)
    ensures Identified(e, before) <==> Identified(e, after)
  {
    forall id ensures IsEligible(before, id) <==> IsEligible(after, id) {
    }
    forall id ensures IsDropped(before, id) <==> IsDropped(after, id) {
    }
  }

  lemma CleanEventsStep(events: seq<Event>, i: nat, ledger: Rows)
    requires i < |events|
    ensures CleanEvents(events[..i + 1], ledger) <==> CleanEvents(events[..i], ledger) && CleanEvent(events[i], ledger)
    ensures AllIdentified(events[..i + 1], ledger)
            <==> AllIdentified(events[..i], ledger) && Identified(events[i], ledger)
    ensures TotalWork(events[..i + 1]) == TotalWork(events[..i]) + Work(events[i])
  {
    hide CleanEvent, Identified;
    var a, b := events[..i + 1], events[..i];
    assert forall j :: 0 <= j < i ==> a[j] == b[j];
    assert a[i] == events[i] && a[..i] == b;
  }

  method ApplyEvents(ledger: Rows, events: seq<Event>, found: multiset<Conflict>) returns (r: Evidence)
    requires InvalidPartition !in found
    ensures Evidenced(ledger, r.ledger, events)
    ensures r.conflicts == multiset{} <==> found == multiset{} && CleanEvents(events, ledger)
    ensures InvalidPartition !in r.conflicts
    ensures r.events == |events| && r.work == TotalWork(events)
    ensures r.unmatched == 0 <==> AllIdentified(events, ledger)
  {
    hide Evidenced, CleanEvents, AllIdentified, CleanEvent, Identified, TotalWork, Matched, Counts, AllDiagnosed;
    r := Evidence(ledger, found, [], 0, 0, 0, 0);
    assert events[..0] == [];
    NoEvents(ledger);
    for i := 0 to |events|
      invariant Evidenced(ledger, r.ledger, events[..i])
      invariant r.conflicts == multiset{} <==> found == multiset{} && CleanEvents(events[..i], ledger)
      invariant InvalidPartition !in r.conflicts
      invariant r.events == i && r.work == TotalWork(events[..i])
      invariant r.unmatched == 0 <==> AllIdentified(events[..i], ledger)
    {
      ghost var before := r.ledger;
      EvidencedVerdicts(ledger, r.ledger, events[..i]);
      CleanSame(ledger, r.ledger, events[i]);
      CleanEventsStep(events, i, ledger);
      r := ApplyEvent(r, events[i]);
      EvidencedStep(ledger, before, r.ledger, events, i);
    }
    assert events[..|events|] == events;
  }

  lemma EvidencedVerdicts(before: Rows, after: Rows, events: seq<Event>)
    requires Evidenced(before, after, events)
    ensures SameVerdicts(before, after)
  {
  }

  lemma NoEvents(ledger: Rows)
    ensures Evidenced(ledger, ledger, []) && CleanEvents([], ledger) && AllIdentified([], ledger) && TotalWork([]) == 0
  {
  }

  // ----- Every dropped request is diagnosed -----

  predicate NeedsDiagnosis(ledger: Rows, id: string) {
    IsEligible(ledger, id) && IsDropped(ledger, id)
  }

  method DiagnoseDropped(ledger: Rows, found: seq<Diagnostic>) returns (diagnostics: seq<Diagnostic>)
    ensures found <= diagnostics
    ensures forall id :: NeedsDiagnosis(ledger, id) ==> Diagnosed(diagnostics, id)
  {
    hide Diagnosed;
    diagnostics := found;
    var left := ledger.Keys;
    while left != {}
      invariant left <= ledger.Keys && found <= diagnostics
      invariant forall id :: NeedsDiagnosis(ledger, id) && id !in left ==> Diagnosed(diagnostics, id)
      decreases |left|
    {
      var id :| id in left;
      left := left - {id};
      if !ledger[id].eligible || !ledger[id].outcome.Dropped? || Diagnosed(found, id) {
        if Diagnosed(found, id) {
          DiagnosedGrows(found, diagnostics, id);
        }
        continue;
      }
      DiagnosedMore(diagnostics, Diagnostic(Some(id), RequestOutcome, MISSING_SNAPSHOT, Some(1)));
      diagnostics := diagnostics + [Diagnostic(Some(id), RequestOutcome, MISSING_SNAPSHOT, Some(1))];
    }
  }

  // ----- The ledger -----

  function WithOutcome(ledger: Rows, outcome: Outcome): set<string> {
    set id | id in ledger && ledger[id].eligible && ledger[id].outcome == outcome
  }

  function EligibleIds(ledger: Rows): set<string> {
    set id | id in ledger && ledger[id].eligible
  }

  datatype Summary = Summary(
    complete: set<string>,
    partial: set<string>,
    dropped: set<string>,
    conflicts: multiset<Conflict>,
    diagnostics: seq<Diagnostic>,
    passed: bool)

  /** The outcome every row ends with. */
  ghost predicate Settled(ledger: Rows, requests: seq<Request>, snapshots: seq<Snapshot>, events: seq<Event>) {
    && (forall id :: id in ledger <==> RequestFor(requests, id).Some?)
    && forall id :: id in ledger ==>
      && ledger[id].eligible == RequestFor(requests, id).value.eligible
      && ledger[id].outcome == (if ledger[id].eligible then OutcomeOf(SnapshotsFor(snapshots, id)) else Ineligible)
      && ledger[id].dropEvents == (if ledger[id].eligible then Mentions(events, id) else 0)
  }

  /** Inputs that contradict nothing. */
  ghost predicate CleanInputs(ledger: Rows, requests: seq<Request>, snapshots: seq<Snapshot>, events: seq<Event>) {
    && HasIds(requests) && DistinctIds(requests)
    && AllOwned(snapshots, ledger)
    && (forall id :: IsEligible(ledger, id) ==> CleanSnapshots(SnapshotsFor(snapshots, id)))
    && CleanEvents(events, ledger)
  }

  lemma OutcomeKinds(snapshots: seq<Snapshot>)
    ensures OutcomeOf(snapshots) != Ineligible
  {
    hide SortOn, Terminals;
  }

  /** The phases put together. */
  lemma SettledBy(requests: seq<Request>, entered: Rows, snapshots: seq<Snapshot>, groups: Groups, decided: Rows,
                  events: seq<Event>, ledger: Rows)
    requires EntersAll(entered, requests) && DecidesAll(entered, groups, decided) && Evidenced(decided, ledger, events)
    requires forall id :: IsEligible(entered, id) ==> GroupAt(groups, id) == SnapshotsFor(snapshots, id)
    ensures Settled(ledger, requests, snapshots, events)
    ensures forall id :: IsEligible(entered, id) <==> IsEligible(ledger, id)
    ensures forall id :: id in ledger && ledger[id].eligible ==> ledger[id].outcome != Ineligible
  {
    hide RequestFor, SnapshotsFor, OutcomeOf, Mentions, GroupAt;
    forall id | id in ledger && ledger[id].eligible
      ensures ledger[id].outcome == OutcomeOf(SnapshotsFor(snapshots, id)) && ledger[id].outcome != Ineligible
    {
      assert IsEligible(entered, id);
      OutcomeKinds(SnapshotsFor(snapshots, id));
    }
  }

  lemma OwnedSame(snapshots: seq<Snapshot>, before: Rows, after: Rows)
    requires forall id :: IsEligible(before, id) <==> IsEligible(after, id)
    ensures AllOwned(snapshots, before) <==> AllOwned(snapshots, after)
  {
  }

  lemma CleanEventsSame(events: seq<Event>, before: Rows, after: Rows)
    requires Evidenced(before, after, events)
    ensures CleanEvents(events, before) <==> CleanEvents(events, after)
    ensures CleanEvents(events, before) ==> AllIdentified(events, before)
  {
    hide CleanEvent;
    forall i | 0 <= i < |events|
      ensures CleanEvent(events[i], before) <==> CleanEvent(events[i], after)
      ensures CleanEvent(events[i], before) ==> Identified(events[i], before)
    {
      CleanSame(before, after, events[i]);
      CleanIdentifies(events[i], before);
    }
  }

  lemma CleanIdentifies(e: Event, ledger: Rows)
    ensures CleanEvent(e, ledger) ==> Identified(e, ledger)
  {
  }

  lemma DisjointSizes<T>(a: set<T>, b: set<T>, c: set<T>)
    requires a !! b !! c
    ensures |a + b + c| == |a| + |b| + |c|
  {
  }

  lemma OutcomeSets(ledger: Rows)
    requires forall id :: id in ledger && ledger[id].eligible ==> ledger[id].outcome != Ineligible
    ensures var (c, p, d) := (WithOutcome(ledger, Complete), WithOutcome(ledger, Partial), WithOutcome(ledger, Dropped));
            c + p + d == EligibleIds(ledger) && c !! p !! d && |EligibleIds(ledger)| == |c| + |p| + |d|
    ensures forall id :: id in WithOutcome(ledger, Dropped) ==> NeedsDiagnosis(ledger, id)
  {
    var c, p, d := WithOutcome(ledger, Complete), WithOutcome(ledger, Partial), WithOutcome(ledger, Dropped);
    assert c + p + d == EligibleIds(ledger);
    DisjointSizes(c, p, d);
  }

  /**
    `request_analysis_ledger`: the eligible requests are the disjoint union of complete, partial and dropped, so the
    partition conflict is never recorded; outcomes come from the snapshots alone; every dropped request is diagnosed;
    and integrity passes exactly for inputs that contradict nothing.
   */
  method RequestAnalysisLedger(requests: seq<Request>, snapshots: seq<Snapshot>, events: seq<Event>)
    returns (ledger: Rows, summary: Summary)
    ensures Settled(ledger, requests, snapshots, events)
    ensures summary.complete + summary.partial + summary.dropped == EligibleIds(ledger)
    ensures summary.complete !! summary.partial !! summary.dropped
    ensures InvalidPartition !in summary.conflicts
    ensures forall id :: id in summary.dropped ==> Diagnosed(summary.diagnostics, id)
    ensures summary.passed <==> CleanInputs(ledger, requests, snapshots, events)
  {
    hide RequestFor, SnapshotsFor, CleanSnapshots, CleanEvents, OutcomeOf, Mentions, Diagnosed, HasIds, DistinctIds,
         AllOwned, Evidenced, AllIdentified, DecidesAll, EntersAll, Settled, WithOutcome, EligibleIds, IsEligible, GroupAt;
    var entered, c1 := EnterRequests(requests);
    var groups, c2 := GroupSnapshots(entered, snapshots, c1);
    var decided, c3 := DecideOutcomes(entered, groups, c2);
    var evidence := ApplyEvents(decided, events, c3);
    ledger := evidence.ledger;
    var diagnostics := DiagnoseDropped(ledger, evidence.diagnostics);
    SettledBy(requests, entered, snapshots, groups, decided, events, ledger);
    OwnedSame(snapshots, entered, ledger);
    CleanEventsSame(events, decided, ledger);
    var complete, partial, dropped :=
      WithOutcome(ledger, Complete), WithOutcome(ledger, Partial), WithOutcome(ledger, Dropped);
    var eligible := EligibleIds(ledger);
    OutcomeSets(ledger);
    var valid := |eligible| == |complete| + |partial| + |dropped|
                 && complete !! partial && complete !! dropped && partial !! dropped
                 && |complete| <= |eligible| && |partial| <= |eligible| && |dropped| <= |eligible|;
    var conflicts := evidence.conflicts;
    if !valid {
      conflicts := conflicts + multiset{InvalidPartition};
    }
    var passed := conflicts == multiset{} && evidence.unmatched == 0 && valid;
    summary := Summary(complete, partial, dropped, conflicts, diagnostics, passed);
  }
}
