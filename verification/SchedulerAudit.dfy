/** The scheduler sidecar, audited per session against the ledger, and the aggregate gate that reads the same records. */
module SchedulerAudit {
  import opened Base

  /** One entry of the sidecar: not a record at all, or its counters and capture metadata. */
  datatype Raw =
    | NotARecord
    | Metrics(
        session: Option<string>,
        admittedTotal: Option<int>,
        admittedLegacy: Option<int>,
        seen: Option<int>,
        processed: Option<int>,
        drops: Option<int>,
        highItems: Option<int>,
        highBytes: Option<int>,
        waitUs: Option<int>,
        runId: Option<string>,
        pid: Option<int>,
        complete: Option<bool>,
        note: Option<string>)

  datatype LedgerRow = LedgerRow(session: Option<string>, eligible: bool)

  /** `_nullable_name`: the empty name is no name. */
  function Name(text: Option<string>): Option<string> {
    if text == Some("") then None else text
  }

  /** `first_int(record, "analysis_admitted_total", "admitted_total")`. */
  function Admitted(r: Raw): Option<int>
    requires r.Metrics?
  {
    if r.admittedTotal.Some? then r.admittedTotal else r.admittedLegacy
  }

  function ProcessedAndDropped(r: Raw): Option<int>
    requires r.Metrics?
  {
    if r.processed.Some? && r.drops.Some? then Some(r.processed.value + r.drops.value) else None
  }

  // ----- Eligible requests per session -----

  predicate Counted(row: LedgerRow, id: string) {
    row.eligible && Name(row.session) == Some(id)
  }

  function EligibleFor(rows: seq<LedgerRow>, id: string): nat {
    if rows == [] then 0 else EligibleFor(rows[..|rows| - 1], id) + if Counted(rows[|rows| - 1], id) then 1 else 0
  }

  /** Eligible rows over all sessions. */
  function Eligible(rows: seq<LedgerRow>): nat {
    if rows == [] then 0 else Eligible(rows[..|rows| - 1]) + if rows[|rows| - 1].eligible then 1 else 0
  }

  function SumEligible(rows: seq<LedgerRow>, ids: seq<string>): nat {
    if ids == [] then 0 else EligibleFor(rows, ids[0]) + SumEligible(rows, ids[1..])
  }

  predicate Distinct(ids: seq<string>) {
    forall i, j :: 0 <= i < j < |ids| ==> ids[i] != ids[j]
  }

  /** Every eligible row belongs to a listed session. */
  predicate Covered(rows: seq<LedgerRow>, ids: seq<string>) {
    forall i :: 0 <= i < |rows| && rows[i].eligible ==> Name(rows[i].session).Some? && Name(rows[i].session).value in ids
  }

  lemma {:induction false} SumStep(rows: seq<LedgerRow>, row: LedgerRow, ids: seq<string>)
    requires Distinct(ids)
    ensures SumEligible(rows + [row], ids)
            == SumEligible(rows, ids)
               + if row.eligible && Name(row.session).Some? && Name(row.session).value in ids then 1 else 0
  {
    hide Name;
    if ids != [] {
      assert (rows + [row])[..|rows|] == rows;
      SumStep(rows, row, ids[1..]);
      assert ids[0] !in ids[1..];
    }
  }

  /** Summing the sessions, each once, counts every eligible row of theirs once. */
  lemma {:induction false} SumCounts(rows: seq<LedgerRow>, ids: seq<string>)
    requires Distinct(ids) && Covered(rows, ids)
    ensures SumEligible(rows, ids) == Eligible(rows)
  {
    if rows == [] {
      SumNothing(ids);
    } else {
      var front, last := rows[..|rows| - 1], rows[|rows| - 1];
      assert rows == front + [last];
      SumCounts(front, ids);
      SumStep(front, last, ids);
    }
  }

  lemma {:induction false} SumNothing(ids: seq<string>)
    ensures SumEligible([], ids) == 0
  {
    if ids != [] {
      SumNothing(ids[1..]);
    }
  }

  // ----- One session -----

  predicate MissingCounters(r: Raw)
    requires r.Metrics?
  {
    r.admittedTotal.None? || r.seen.None? || r.processed.None? || r.drops.None?
  }

  predicate MissingIdentity(r: Raw, required: bool)
    requires r.Metrics?
  {
    required && (Name(r.runId).None? || r.pid.None? || r.pid.value <= 0 || r.complete != Some(true))
  }

  predicate CaptureIssue(r: Raw, required: bool)
    requires r.Metrics?
  {
    || Name(r.note).Some? || r.highItems.None? || r.highBytes.None? || r.waitUs.None?
    || r.complete == Some(false) || MissingIdentity(r, required)
  }

  predicate CounterIssue(r: Raw, eligible: nat)
    requires r.Metrics?
  {
    || MissingCounters(r)
    || (Admitted(r).Some? && Admitted(r).value != eligible)
    || (r.seen.Some? && r.seen.value != eligible)
    || (ProcessedAndDropped(r).Some? && Admitted(r).Some? && ProcessedAndDropped(r).value != Admitted(r).value)
  }

  datatype Status = Passed | SidecarMissing | LegacyUncertified | SidecarDuplicate | HarnessFailure | CounterMismatch

  function StatusOf(r: Raw, duplicate: bool, eligible: nat, required: bool): Status
    requires r.Metrics?
  {
    if MissingIdentity(r, required) then LegacyUncertified
    else if duplicate then SidecarDuplicate
    else if CaptureIssue(r, required) then HarnessFailure
    else if CounterIssue(r, eligible) then CounterMismatch
    else Passed
  }

  /** A record that its session can be certified by. */
  predicate Certifies(r: Raw, eligible: nat, required: bool) {
    && r.Metrics? && !CaptureIssue(r, required) && !MissingCounters(r)
    && r.admittedTotal == Some(eligible) && r.seen == Some(eligible)
    && ProcessedAndDropped(r) == Some(eligible)
  }

  /** The last row test repeats what the status already says. */
  predicate ChecksPass(r: Raw, eligible: nat)
    requires r.Metrics?
  {
    && !MissingCounters(r) && Admitted(r) == Some(eligible) && r.seen == Some(eligible)
    && ProcessedAndDropped(r).Some? && Admitted(r).Some? && ProcessedAndDropped(r).value == Admitted(r).value
  }

  lemma PassedCertifies(r: Raw, duplicate: bool, eligible: nat, required: bool)
    requires r.Metrics?
    ensures StatusOf(r, duplicate, eligible, required) == Passed <==> !duplicate && Certifies(r, eligible, required)
    ensures Certifies(r, eligible, required) ==> ChecksPass(r, eligible)
  {
  }

  // ----- The records of a session -----

  predicate Malformed(r: Raw) {
    !r.Metrics? || Name(r.session).None?
  }

  predicate Known(r: Raw, known: set<string>) {
    !Malformed(r) && Name(r.session).value in known
  }

  predicate KeptAs(r: Raw, known: set<string>, selected: set<string>, id: string) {
    Known(r, known) && Name(r.session).value == id && id in selected
  }

  function KeptFor(raws: seq<Raw>, known: set<string>, selected: set<string>, id: string): seq<Raw> {
    if raws == [] then []
    else
      var last := raws[|raws| - 1];
      KeptFor(raws[..|raws| - 1], known, selected, id) + if KeptAs(last, known, selected, id) then [last] else []
  }

  lemma KeptStep(raws: seq<Raw>, i: nat, known: set<string>, selected: set<string>)
    requires i < |raws|
    ensures forall id :: KeptFor(raws[..i + 1], known, selected, id)
                         == KeptFor(raws[..i], known, selected, id)
                            + if KeptAs(raws[i], known, selected, id) then [raws[i]] else []
  {
    assert raws[..i + 1][..i] == raws[..i];
  }

  lemma {:induction false} KeptMembers(raws: seq<Raw>, known: set<string>, selected: set<string>, id: string)
    ensures forall r :: r in KeptFor(raws, known, selected, id) <==> r in raws && KeptAs(r, known, selected, id)
  {
    hide KeptAs;
    if raws != [] {
      KeptMembers(raws[..|raws| - 1], known, selected, id);
      assert raws == raws[..|raws| - 1] + [raws[|raws| - 1]];
    }
  }

  predicate AllKnown(raws: seq<Raw>, known: set<string>) {
    forall i :: 0 <= i < |raws| ==> Known(raws[i], known)
  }

  /** The first record of every selected session, and the sessions with more than one. */
  ghost predicate Sorted(records: map<string, Raw>, duplicates: set<string>, raws: seq<Raw>, known: set<string>,
                         selected: set<string>) {
    && (forall id :: id in records <==> KeptFor(raws, known, selected, id) != [])
    && (forall id :: id in records ==> records[id] == KeptFor(raws, known, selected, id)[0] && records[id].Metrics?)
    && (forall id :: id in duplicates <==> |KeptFor(raws, known, selected, id)| > 1)
    && records.Keys <= selected
  }

  method SortRecords(raws: seq<Raw>, known: set<string>, selected: set<string>)
    returns (records: map<string, Raw>, duplicates: set<string>, unexpected: nat, malformed: nat)
    ensures Sorted(records, duplicates, raws, known, selected)
    ensures unexpected == 0 && malformed == 0 <==> AllKnown(raws, known)
  {
    hide KeptFor;
    records, duplicates, unexpected, malformed := map[], {}, 0, 0;
    assert raws[..0] == [];
    NoRecords(known, selected);
    for i := 0 to |raws|
      invariant Sorted(records, duplicates, raws[..i], known, selected)
      invariant unexpected == 0 && malformed == 0 <==> AllKnown(raws[..i], known)
    {
      var r := raws[i];
      KeptStep(raws, i, known, selected);
      AllKnownStep(raws, i, known);
      if Malformed(r) {
        malformed := malformed + 1;
        continue;
      }
      var id := Name(r.session).value;
      if id !in known {
        unexpected := unexpected + 1;
        continue;
      }
      if id !in selected {
        continue;
      }
      if id in records {
        duplicates := duplicates + {id};
        continue;
      }
      records := records[id := r];
    }
    assert raws[..|raws|] == raws;
  }

  lemma NoRecords(known: set<string>, selected: set<string>)
    ensures forall id :: KeptFor([], known, selected, id) == []
  {
  }

  lemma AllKnownStep(raws: seq<Raw>, i: nat, known: set<string>)
    requires i < |raws|
    ensures AllKnown(raws[..i + 1], known) <==> AllKnown(raws[..i], known) && Known(raws[i], known)
  {
    hide Known;
    var a, b := raws[..i + 1], raws[..i];
    assert forall j :: 0 <= j < i ==> a[j] == b[j];
    assert a[i] == raws[i];
  }

  // ----- The audit -----

  method CountEligible(rows: seq<LedgerRow>, selected: set<string>) returns (counts: map<string, nat>)
    ensures forall id :: id in selected ==> (if id in counts then counts[id] else 0) == EligibleFor(rows, id)
  {
    hide EligibleFor;
    counts := map[];
    assert rows[..0] == [];
    NoneEligible();
    for i := 0 to |rows|
      invariant forall id :: id in selected ==> (if id in counts then counts[id] else 0) == EligibleFor(rows[..i], id)
    {
      EligibleStep(rows, i);
      var name := Name(rows[i].session);
      if rows[i].eligible && name.Some? && name.value in selected {
        counts := counts[name.value := (if name.value in counts then counts[name.value] else 0) + 1];
      }
    }
    assert rows[..|rows|] == rows;
  }

  lemma NoneEligible()
    ensures forall id :: EligibleFor([], id) == 0
  {
  }

  lemma EligibleStep(rows: seq<LedgerRow>, i: nat)
    requires i < |rows|
    ensures forall id :: EligibleFor(rows[..i + 1], id) == EligibleFor(rows[..i], id) + if Counted(rows[i], id) then 1 else 0
  {
    assert rows[..i + 1][..i] == rows[..i];
  }

  /** The one record of every selected session certifies it, and every record is of a known session. */
  ghost predicate Certified(raws: seq<Raw>, rows: seq<LedgerRow>, selected: set<string>, known: set<string>,
                            required: bool) {
    && AllKnown(raws, known)
    && forall id :: id in selected ==>
      |KeptFor(raws, known, selected, id)| == 1
      && Certifies(KeptFor(raws, known, selected, id)[0], EligibleFor(rows, id), required)
  }

  datatype Audit = Audit(pass: bool, statuses: map<string, Status>, seen: int, eligible: int, delta: Option<int>)

  predicate CertifiedIn(records: map<string, Raw>, duplicates: set<string>, id: string, n: nat, required: bool) {
    id in records && id !in duplicates && Certifies(records[id], n, required)
  }

  lemma {:induction false} SumAppend(rows: seq<LedgerRow>, ids: seq<string>, id: string)
    ensures SumEligible(rows, ids + [id]) == SumEligible(rows, ids) + EligibleFor(rows, id)
  {
    hide EligibleFor;
    if ids == [] {
      assert (ids + [id])[1..] == [];
    } else {
      assert (ids + [id])[1..] == ids[1..] + [id];
      SumAppend(rows, ids[1..], id);
    }
  }

  /** What the sorted records say of every selected session. */
  lemma SortedCertifies(records: map<string, Raw>, duplicates: set<string>, raws: seq<Raw>, known: set<string>,
                        selected: set<string>, required: bool)
    requires Sorted(records, duplicates, raws, known, selected)
    ensures forall id :: id in records ==> records[id].Metrics?
    ensures records.Keys <= selected && duplicates <= selected
    ensures forall id, n :: id in selected ==>
              (CertifiedIn(records, duplicates, id, n, required) <==>
               |KeptFor(raws, known, selected, id)| == 1
               && Certifies(KeptFor(raws, known, selected, id)[0], n, required))
  {
    hide Certifies;
    forall id | id in duplicates ensures id in selected {
      KeptMembers(raws, known, selected, id);
      assert KeptFor(raws, known, selected, id)[0] in KeptFor(raws, known, selected, id);
    }
  }

  /** One row of the audit: its status, whether its counters check out, and what its record says was seen. */
  method AuditSession(records: map<string, Raw>, duplicates: set<string>, id: string, n: nat, required: bool)
    returns (status: Status, checked: bool, seen: Option<int>)
    requires id in records ==> records[id].Metrics?
    ensures status == Passed <==> CertifiedIn(records, duplicates, id, n, required)
    ensures status == Passed ==> checked && seen == Some(n)
  {
    hide Certifies, ChecksPass, StatusOf;
    if id !in records {
      return SidecarMissing, true, None;
    }
    var r := records[id];
    PassedCertifies(r, id in duplicates, n, required);
    CertifiedSeen(r, n, required);
    return StatusOf(r, id in duplicates, n, required), ChecksPass(r, n), r.seen;
  }

  datatype Tally = Tally(failed: nat, checked: bool, reported: bool, seen: int, eligible: int)

  /** The loop over the selected sessions. */
  method AuditSessions(records: map<string, Raw>, duplicates: set<string>, counts: map<string, nat>,
                       rows: seq<LedgerRow>, selected: set<string>, required: bool)
    returns (t: Tally, statuses: map<string, Status>, ghost ids: seq<string>)
    requires forall id :: id in records ==> records[id].Metrics?
    requires forall id :: id in selected ==> (if id in counts then counts[id] else 0) == EligibleFor(rows, id)
    ensures Distinct(ids) && (forall id :: id in ids <==> id in selected) && |ids| == |selected|
    ensures statuses.Keys == selected && t.eligible == SumEligible(rows, ids)
    ensures t.failed == 0 <==>
            forall id :: id in selected ==> CertifiedIn(records, duplicates, id, EligibleFor(rows, id), required)
    ensures t.failed == 0 ==> t.checked && t.reported && t.seen == t.eligible
  {
    hide EligibleFor, CertifiedIn, SumEligible, Distinct;
    t, statuses, ids := Tally(0, true, true, 0, 0), map[], [];
    var left := selected;
    NoSessions(rows);
    while left != {}
      invariant left <= selected && Distinct(ids) && |ids| + |left| == |selected|
      invariant forall id :: id in ids <==> id in selected && id !in left
      invariant t.eligible == SumEligible(rows, ids) && statuses.Keys == selected - left
      invariant t.failed == 0 <==>
        forall id :: id in selected && id !in left ==>
          CertifiedIn(records, duplicates, id, EligibleFor(rows, id), required)
      invariant t.failed == 0 ==> t.checked && t.reported && t.seen == t.eligible
      decreases |left|
    {
      var id :| id in left;
      left := left - {id};
      var n := if id in counts then counts[id] else 0;
      SumAppend(rows, ids, id);
      DistinctAppend(ids, id);
      ids := ids + [id];
      var status, checked, seen := AuditSession(records, duplicates, id, n, required);
      statuses := statuses[id := status];
      t := Tally(if status != Passed then t.failed + 1 else t.failed, t.checked && checked,
                 t.reported && seen.Some?, t.seen + (if seen.Some? then seen.value else 0), t.eligible + n);
    }
  }

  lemma DistinctAppend(ids: seq<string>, id: string)
    requires Distinct(ids) && id !in ids
    ensures Distinct(ids + [id])
  {
  }

  /**
    `scheduler_sidecar_integrity` on a readable sidecar: it passes exactly when every record belongs to a known session
    and each selected session is certified by its one record.
   */
  method AuditSidecar(raws: seq<Raw>, rows: seq<LedgerRow>, selected: set<string>, known: set<string>, required: bool)
    returns (audit: Audit, ghost ids: seq<string>)
    ensures audit.pass <==> Certified(raws, rows, selected, known, required)
    ensures Distinct(ids) && (forall id :: id in ids <==> id in selected) && |ids| == |selected|
    ensures audit.eligible == SumEligible(rows, ids)
    ensures audit.pass ==> audit.delta == Some(0) && audit.seen == audit.eligible
  {
    hide KeptFor, EligibleFor, AllKnown, Certifies, Sorted, SumEligible, CertifiedIn, Distinct;
    var counts := CountEligible(rows, selected);
    var records, duplicates, unexpected, malformed := SortRecords(raws, known, selected);
    SortedCertifies(records, duplicates, raws, known, selected, required);
    var t, statuses, listed := AuditSessions(records, duplicates, counts, rows, selected, required);
    ids := listed;
    if t.failed == 0 {
      AllCertified(records, duplicates, selected, rows, required);
    }
    assert |statuses| == |statuses.Keys| && |records| == |records.Keys|;
    var pass := t.failed == 0 && duplicates == {} && unexpected == 0 && malformed == 0
                && t.checked && |statuses| == |records| == |selected|;
    audit := Audit(pass, statuses, t.seen, t.eligible, if t.reported then Some(t.seen - t.eligible) else None);
  }

  lemma AllCertified(records: map<string, Raw>, duplicates: set<string>, selected: set<string>, rows: seq<LedgerRow>,
                     required: bool)
    requires records.Keys <= selected && duplicates <= selected
    requires forall id :: id in selected ==> CertifiedIn(records, duplicates, id, EligibleFor(rows, id), required)
    ensures records.Keys == selected && duplicates == {}
  {
    hide Certifies;
    forall id ensures id !in duplicates {
    }
    forall id | id in selected ensures id in records {
      assert CertifiedIn(records, duplicates, id, EligibleFor(rows, id), required);
    }
  }

  lemma NoSessions(rows: seq<LedgerRow>)
    ensures SumEligible(rows, []) == 0 && Distinct([])
  {
  }

  lemma CertifiedSeen(r: Raw, n: nat, required: bool)
    ensures Certifies(r, n, required) ==> r.Metrics? && r.seen == Some(n)
  {
  }
}
