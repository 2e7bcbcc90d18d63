/** The aggregate scheduler report over the same sidecar, and what a passed audit implies for it. */
module SchedulerGate {
  import opened Base
  import opened SchedulerAudit

  /** `safe_name`. */
  function Label(r: Raw): string {
    if r.Metrics? && Name(r.session).Some? then Name(r.session).value else "unknown"
  }

  /** The records the report reads: all of them, or those of the selected sessions. */
  function Reported(raws: seq<Raw>, selected: Option<set<string>>): seq<Raw> {
    if raws == [] then []
    else
      var last := raws[|raws| - 1];
      Reported(raws[..|raws| - 1], selected)
      + if last.Metrics? && (selected.None? || Label(last) in selected.value) then [last] else []
  }

  function Labels(sessions: seq<Raw>): seq<string> {
    if sessions == [] then [] else [Label(sessions[0])] + Labels(sessions[1..])
  }

  /** `session_values`: the values that are there. */
  function Values(sessions: seq<Raw>, field: Raw -> Option<int>): seq<int> {
    if sessions == [] then []
    else (if field(sessions[0]).Some? then [field(sessions[0]).value] else []) + Values(sessions[1..], field)
  }

  function Sum(values: seq<int>): int {
    if values == [] then 0 else values[0] + Sum(values[1..])
  }

  function Seen(r: Raw): Option<int> {
    if r.Metrics? then r.seen else None
  }

  function AdmittedTotal(r: Raw): Option<int> {
    if r.Metrics? then Admitted(r) else None
  }

  function Processed(r: Raw): Option<int> {
    if r.Metrics? then r.processed else None
  }

  function CapacityDrops(r: Raw): Option<int> {
    if r.Metrics? then r.drops else None
  }

  datatype Report = Report(
    sessions: nat,
    seen: int,
    admitted: int,
    processed: int,
    drops: int,
    available: bool,
    delta: int,
    consistent: bool)

  /** `scheduler_report`: its totals and its counter consistency. */
  function ReportOf(raws: seq<Raw>, selected: Option<set<string>>, eligible: int): Report {
    var sessions := Reported(raws, selected);
    var seen := Values(sessions, Seen);
    var available := sessions != [] && |seen| == |sessions|;
    Report(|sessions|, Sum(seen), Sum(Values(sessions, AdmittedTotal)), Sum(Values(sessions, Processed)),
           Sum(Values(sessions, CapacityDrops)), available, Sum(seen) - eligible, available && Sum(seen) == eligible)
  }

  /** The same in one pass over the records. */
  method SchedulerReport(raws: seq<Raw>, selected: Option<set<string>>, eligible: int) returns (r: Report)
    ensures r == ReportOf(raws, selected, eligible)
  {
    hide Label, Totals, ReportOf;
    var n, reported: nat := 0, 0;
    var seen, admitted, processed, drops := 0, 0, 0, 0;
    assert raws[..0] == [];
    NoTotals();
    for i := 0 to |raws|
      invariant Totals(Reported(raws[..i], selected), n, reported, seen, admitted, processed, drops)
    {
      var record := raws[i];
      ghost var before := Reported(raws[..i], selected);
      assert raws[..i + 1][..i] == raws[..i] && before + [] == before;
      if record.Metrics? && (selected.None? || Label(record) in selected.value) {
        TotalsStep(before, record, n, reported, seen, admitted, processed, drops);
        n := n + 1;
        if record.seen.Some? {
          reported := reported + 1;
          seen := seen + record.seen.value;
        }
        admitted := admitted + if Admitted(record).Some? then Admitted(record).value else 0;
        processed := processed + if record.processed.Some? then record.processed.value else 0;
        drops := drops + if record.drops.Some? then record.drops.value else 0;
      }
    }
    assert raws[..|raws|] == raws;
    var available := n > 0 && reported == n;
    r := Report(n, seen, admitted, processed, drops, available, seen - eligible, available && seen == eligible);
    ReportTotals(raws, selected, eligible, r, reported);
  }

  lemma NoTotals()
    ensures Totals([], 0, 0, 0, 0, 0, 0)
  {
  }

  lemma ReportTotals(raws: seq<Raw>, selected: Option<set<string>>, eligible: int, r: Report, reported: nat)
    requires Totals(Reported(raws, selected), r.sessions, reported, r.seen, r.admitted, r.processed, r.drops)
    requires r.available == (r.sessions > 0 && reported == r.sessions) && r.delta == r.seen - eligible
    requires r.consistent == (r.available && r.seen == eligible)
    ensures r == ReportOf(raws, selected, eligible)
  {
    hide Values, Sum, Reported;
  }

  ghost predicate Totals(sessions: seq<Raw>, n: nat, reported: nat, seen: int, admitted: int, processed: int, drops: int)
  {
    && n == |sessions| && reported == |Values(sessions, Seen)| && seen == Sum(Values(sessions, Seen))
    && admitted == Sum(Values(sessions, AdmittedTotal)) && processed == Sum(Values(sessions, Processed))
    && drops == Sum(Values(sessions, CapacityDrops))
  }

  function OrZero(value: Option<int>): int {
    if value.Some? then value.value else 0
  }

  lemma {:induction false} ValuesAppend(sessions: seq<Raw>, r: Raw, field: Raw -> Option<int>)
    ensures Sum(Values(sessions + [r], field)) == Sum(Values(sessions, field)) + OrZero(field(r))
    ensures |Values(sessions + [r], field)| == |Values(sessions, field)| + if field(r).Some? then 1 else 0
  {
    if sessions == [] {
      assert (sessions + [r])[1..] == [] && (sessions + [r])[0] == r;
      if field(r).Some? {
        assert [field(r).value][1..] == [];
      }
    } else {
      assert (sessions + [r])[1..] == sessions[1..] + [r];
      ValuesAppend(sessions[1..], r, field);
      ValuesHead(sessions, field);
      ValuesHead(sessions + [r], field);
    }
  }

  lemma ValuesHead(sessions: seq<Raw>, field: Raw -> Option<int>)
    requires sessions != []
    ensures Sum(Values(sessions, field)) == OrZero(field(sessions[0])) + Sum(Values(sessions[1..], field))
    ensures |Values(sessions, field)| == |Values(sessions[1..], field)| + if field(sessions[0]).Some? then 1 else 0
  {
    var rest := Values(sessions[1..], field);
    if field(sessions[0]).Some? {
      assert ([field(sessions[0]).value] + rest)[1..] == rest;
    } else {
      assert [] + rest == rest;
    }
  }

  lemma TotalsStep(sessions: seq<Raw>, r: Raw, n: nat, reported: nat, seen: int, admitted: int, processed: int,
                   drops: int)
    requires Totals(sessions, n, reported, seen, admitted, processed, drops)
    ensures Totals(sessions + [r], n + 1, reported + (if Seen(r).Some? then 1 else 0), seen + OrZero(Seen(r)),
                   admitted + OrZero(AdmittedTotal(r)), processed + OrZero(Processed(r)),
                   drops + OrZero(CapacityDrops(r)))
  {
    hide Values, Sum, Seen, AdmittedTotal, Processed, CapacityDrops;
    ValuesAppend(sessions, r, Seen);
    ValuesAppend(sessions, r, AdmittedTotal);
    ValuesAppend(sessions, r, Processed);
    ValuesAppend(sessions, r, CapacityDrops);
  }

  // ----- From the audit to the gate -----

  lemma {:induction false} LabelsAppend(sessions: seq<Raw>, r: Raw)
    ensures Labels(sessions + [r]) == Labels(sessions) + [Label(r)]
  {
    hide Label;
    if sessions == [] {
      assert (sessions + [r])[1..] == [] && (sessions + [r])[0] == r;
    } else {
      assert (sessions + [r])[1..] == sessions[1..] + [r];
      LabelsAppend(sessions[1..], r);
    }
  }

  /** A session is reported as often as it has kept records. */
  lemma {:induction false} ReportedAsKept(raws: seq<Raw>, known: set<string>, selected: set<string>, id: string)
    requires AllKnown(raws, known)
    ensures multiset(Labels(Reported(raws, Some(selected))))[id]
            == if id in selected then |KeptFor(raws, known, selected, id)| else 0
  {
    hide Labels;
    if raws == [] {
      NoLabels();
    } else {
      var front, last := raws[..|raws| - 1], raws[|raws| - 1];
      assert AllKnown(front, known) && Known(last, known);
      ReportedAsKept(front, known, selected, id);
      var before := Reported(front, Some(selected));
      LabelsAppend(before, last);
      assert before + [] == before;
    }
  }

  lemma NoLabels()
    ensures Labels([]) == []
  {
  }

  lemma {:induction false} SingleDistinct(ids: seq<string>)
    requires forall id :: multiset(ids)[id] <= 1
    ensures Distinct(ids)
  {
    forall i, j | 0 <= i < j < |ids| ensures ids[i] != ids[j] {
      assert ids == ids[..j] + [ids[j]] + ids[j + 1..];
      assert ids[i] == ids[..j][i];
      assert multiset(ids[..j])[ids[i]] > 0;
      assert multiset(ids)[ids[j]] >= multiset(ids[..j])[ids[j]] + 1;
    }
  }

  /** Every reported record certifies its own session. */
  lemma {:induction false} ReportedCertify(raws: seq<Raw>, rows: seq<LedgerRow>, known: set<string>,
                                           selected: set<string>, required: bool, whole: seq<Raw>)
    requires Certified(whole, rows, selected, known, required)
    requires AllKnown(raws, known) && forall r :: r in raws ==> r in whole
    ensures forall s :: s in Reported(raws, Some(selected)) ==> Certifies(s, EligibleFor(rows, Label(s)), required)
  {
    hide Certifies, KeptFor, EligibleFor;
    if raws != [] {
      var front, last := raws[..|raws| - 1], raws[|raws| - 1];
      assert forall r :: r in front ==> r in raws;
      ReportedCertify(front, rows, known, selected, required, whole);
      assert Known(last, known);
      if Label(last) in selected {
        KeptMembers(whole, known, selected, Label(last));
        assert last in KeptFor(whole, known, selected, Label(last));
      }
    }
  }

  /** Certified records add up to the eligible requests of their sessions, in each of the three totals. */
  lemma {:induction false} CertifiedSums(sessions: seq<Raw>, rows: seq<LedgerRow>, required: bool)
    requires forall s :: s in sessions ==> Certifies(s, EligibleFor(rows, Label(s)), required)
    ensures var n := SumEligible(rows, Labels(sessions));
            && Sum(Values(sessions, Seen)) == n && |Values(sessions, Seen)| == |sessions|
            && Sum(Values(sessions, AdmittedTotal)) == n
            && Sum(Values(sessions, Processed)) + Sum(Values(sessions, CapacityDrops)) == n
  {
    hide EligibleFor, Label, Values, Sum;
    if sessions == [] {
      NoValues();
    } else {
      assert sessions[0] in sessions;
      CertifiedSums(sessions[1..], rows, required);
      ValuesHead(sessions, Seen);
      ValuesHead(sessions, AdmittedTotal);
      ValuesHead(sessions, Processed);
      ValuesHead(sessions, CapacityDrops);
    }
  }

  lemma NoValues()
    ensures forall field: Raw -> Option<int> :: Values([], field) == []
    ensures Sum([]) == 0
  {
  }

  /** Distinct names of exactly a set are as many as the set. */
  lemma {:induction false} DistinctSize(ids: seq<string>, s: set<string>)
    requires Distinct(ids) && forall id :: id in ids <==> id in s
    ensures |ids| == |s|
  {
    if ids == [] {
      assert s == {};
    } else {
      assert ids[0] !in ids[1..];
      assert forall id :: id in ids[1..] <==> id in s - {ids[0]};
      DistinctSize(ids[1..], s - {ids[0]});
    }
  }

  /**
    A passed audit over at least one selected session, with every eligible row in a selected session, leaves nothing
    for the aggregate gate to find: one record per session, and all three totals equal to the eligible requests.
   */
  lemma AuditImpliesGate(raws: seq<Raw>, rows: seq<LedgerRow>, selected: set<string>, known: set<string>,
                         required: bool)
    requires Certified(raws, rows, selected, known, required) && selected != {}
    requires forall i :: 0 <= i < |rows| && rows[i].eligible ==>
               Name(rows[i].session).Some? && Name(rows[i].session).value in selected
    ensures var r := ReportOf(raws, Some(selected), Eligible(rows));
            && r.sessions == |selected|
            && r.seen == Eligible(rows) && r.admitted == Eligible(rows) && r.processed + r.drops == Eligible(rows)
            && r.available && r.delta == 0 && r.consistent
    ensures forall id :: id in selected ==> multiset(Labels(Reported(raws, Some(selected))))[id] == 1
  {
    hide Reported, Values, Sum, Labels, KeptFor, EligibleFor, Eligible, SumEligible, Certifies, Distinct, Label,
         AllKnown;
    var sessions := Reported(raws, Some(selected));
    var ids := Labels(sessions);
    forall id ensures multiset(ids)[id] == if id in selected then 1 else 0 {
      ReportedAsKept(raws, known, selected, id);
    }
    SingleDistinct(ids);
    forall id ensures id in ids <==> id in selected {
      assert id in ids <==> multiset(ids)[id] > 0;
    }
    DistinctSize(ids, selected);
    ReportedCertify(raws, rows, known, selected, required, raws);
    CertifiedSums(sessions, rows, required);
    LabelsSize(sessions);
    CoveredBy(rows, selected, ids);
    SumCounts(rows, ids);
  }

  lemma {:induction false} LabelsSize(sessions: seq<Raw>)
    ensures |Labels(sessions)| == |sessions|
  {
    if sessions != [] {
      LabelsSize(sessions[1..]);
    }
  }

  lemma CoveredBy(rows: seq<LedgerRow>, selected: set<string>, ids: seq<string>)
    requires forall i :: 0 <= i < |rows| && rows[i].eligible ==>
               Name(rows[i].session).Some? && Name(rows[i].session).value in selected
    requires forall id :: id in ids <==> id in selected
    ensures Covered(rows, ids)
  {
  }
}
